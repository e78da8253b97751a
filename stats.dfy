/**
 * The aggregates of app.js: `computeStats` (total, best win, best
 * multiplier, mean multiplier, distinct games, count) and the per-player
 * rollup of `renderPlayerGrid` (group by trimmed player name, sum the wins,
 * OR the max-win flags, order by total, largest first).
 */
module Stats {
  import opened Text
  import opened Sorting
  import opened Records

  function Win(r: Record): real {
    r.win
  }

  function Multi(r: Record): real {
    r.x
  }

  /** `items.reduce((acc, r) => acc + key(r), 0)`. */
  function SumOf(items: seq<Record>, key: Record -> real): real
    decreases |items|
  {
    if items == [] then 0.0 else SumOf(items[..|items| - 1], key) + key(items[|items| - 1])
  }

  lemma {:induction false} SumOfAppend(a: seq<Record>, b: seq<Record>, key: Record -> real)
    ensures SumOf(a + b, key) == SumOf(a, key) + SumOf(b, key)
    decreases |b|
  {
    if b == [] {
      assert a + b == a;
    } else {
      var b' := b[..|b| - 1];
      assert (a + b)[..|a + b| - 1] == a + b';
      assert (a + b)[|a + b| - 1] == b[|b| - 1];
      SumOfAppend(a, b', key);
    }
  }

  /** The key of the reduce's accumulator: 0 for the empty placeholder `{}`. */
  function KeyOf(items: seq<Record>, best: Option<nat>, key: Record -> real): real {
    match best
    case Some(i) => if i < |items| then key(items[i]) else 0.0
    case None => 0.0
  }

  /**
   * `items.reduce((a, b) => key(a) > key(b) ? a : b, {})`, as the position
   * of the chosen record; None is the placeholder `{}`, which wins while
   * every key so far is below 0.
   */
  function BestIndex(items: seq<Record>, key: Record -> real): Option<nat>
    decreases |items|
  {
    if items == [] then None
    else
      var prefix := items[..|items| - 1];
      var acc := BestIndex(prefix, key);
      if KeyOf(prefix, acc, key) > key(items[|items| - 1]) then acc else Some(|items| - 1)
  }

  /**
   * The reduce keeps the placeholder exactly when every key is negative;
   * otherwise it picks a record whose key is at least 0 and at least every
   * other key, and on ties the last such record.
   */
  lemma {:induction false} BestIndexSpec(items: seq<Record>, key: Record -> real)
    ensures BestIndex(items, key) == None <==> forall j :: 0 <= j < |items| ==> key(items[j]) < 0.0
    ensures BestIndex(items, key).Some? ==>
      var i := BestIndex(items, key).value;
      i < |items| && key(items[i]) >= 0.0 &&
      (forall j :: 0 <= j < |items| ==> key(items[j]) <= key(items[i])) &&
      (forall j :: i < j < |items| ==> key(items[j]) < key(items[i]))
    decreases |items|
  {
    if items != [] {
      var n := |items|;
      var prefix := items[..n - 1];
      BestIndexSpec(prefix, key);
      forall j | 0 <= j < n - 1 ensures items[j] == prefix[j] { }
    }
  }

  function BestOf(items: seq<Record>, key: Record -> real): Option<Record> {
    match BestIndex(items, key)
    case Some(i) => if i < |items| then Some(items[i]) else None
    case None => None
  }

  /** The distinct non-empty game names. */
  function Games(items: seq<Record>): set<string>
    decreases |items|
  {
    if items == [] then {}
    else
      var g := items[|items| - 1].game;
      Games(items[..|items| - 1]) + (if g != "" then {g} else {})
  }

  /** Some record names the game `g`. */
  predicate HasGame(items: seq<Record>, g: string) {
    exists i :: 0 <= i < |items| && items[i].game == g
  }

  lemma HasGameSnoc(items: seq<Record>, g: string)
    requires items != []
    ensures HasGame(items, g) <==> HasGame(items[..|items| - 1], g) || items[|items| - 1].game == g
  {
    var n := |items|;
    var prefix := items[..n - 1];
    if HasGame(items, g) {
      var i :| 0 <= i < n && items[i].game == g;
      if i < n - 1 { assert prefix[i] == items[i]; }
    }
    if HasGame(prefix, g) {
      var i :| 0 <= i < n - 1 && prefix[i].game == g;
      assert items[i] == prefix[i];
    }
  }

  /** The distinct games are the non-empty game names of the records, at most one per record. */
  lemma {:induction false} GamesSpec(items: seq<Record>)
    ensures |Games(items)| <= |items|
    ensures forall g :: g in Games(items) <==> g != "" && HasGame(items, g)
    decreases |items|
  {
    if items != [] {
      GamesSpec(items[..|items| - 1]);
      forall g ensures HasGame(items, g) <==> HasGame(items[..|items| - 1], g) || items[|items| - 1].game == g {
        HasGameSnoc(items, g);
      }
    }
  }

  /** The mean multiplier: times the count it gives the sum of the multipliers; 0 without records. */
  function Mean(items: seq<Record>): (m: real)
    ensures |items| == 0 ==> m == 0.0
    ensures |items| > 0 ==> m * (|items| as real) == SumOf(items, Multi)
  {
    if |items| > 0 then SumOf(items, Multi) / (|items| as real) else 0.0
  }

  datatype Stats = Stats(
    totalWinnings: real, bestWin: Option<Record>, bestMulti: Option<Record>,
    avgMulti: real, uniqueGames: nat, count: nat)

  /** `computeStats`. */
  function ComputeStats(items: seq<Record>): Stats {
    Stats(
      SumOf(items, Win),
      BestOf(items, Win),
      BestOf(items, Multi),
      Mean(items),
      |Games(items)|,
      |items|)
  }

  /**
   * The reduce's choice as a record: the placeholder exactly when every key
   * is negative, and otherwise a record of the input whose key is at least
   * 0 and at least every other key, no later record matching it.
   */
  lemma BestOfSpec(items: seq<Record>, key: Record -> real)
    ensures BestOf(items, key) == None <==> forall j :: 0 <= j < |items| ==> key(items[j]) < 0.0
    ensures BestOf(items, key).Some? ==>
      exists i :: 0 <= i < |items| && items[i] == BestOf(items, key).value &&
        key(items[i]) >= 0.0 &&
        (forall j :: 0 <= j < |items| ==> key(items[j]) <= key(items[i])) &&
        (forall j :: i < j < |items| ==> key(items[j]) < key(items[i]))
  {
    BestIndexSpec(items, key);
  }

  /** The count is the number of records; there are at most as many games, and none exactly when no record names one. */
  lemma ComputeStatsCounts(items: seq<Record>)
    ensures ComputeStats(items).count == |items|
    ensures ComputeStats(items).uniqueGames <= |items|
    ensures ComputeStats(items).uniqueGames == 0 <==> forall i :: 0 <= i < |items| ==> items[i].game == ""
  {
    GamesSpec(items);
    if |Games(items)| == 0 {
      forall i | 0 <= i < |items| ensures items[i].game == "" {
        if items[i].game != "" {
          assert HasGame(items, items[i].game);
        }
      }
    }
    if exists i :: 0 <= i < |items| && items[i].game != "" {
      var i :| 0 <= i < |items| && items[i].game != "";
      assert HasGame(items, items[i].game);
    }
  }

  /** The best win and best multiplier: the reduces over `win` and `x`. */
  lemma ComputeStatsBest(items: seq<Record>)
    ensures ComputeStats(items).bestWin == None <==> forall j :: 0 <= j < |items| ==> items[j].win < 0.0
    ensures ComputeStats(items).bestMulti == None <==> forall j :: 0 <= j < |items| ==> items[j].x < 0.0
    ensures ComputeStats(items).bestWin.Some? ==>
      forall j :: 0 <= j < |items| ==> items[j].win <= ComputeStats(items).bestWin.value.win
    ensures ComputeStats(items).bestMulti.Some? ==>
      forall j :: 0 <= j < |items| ==> items[j].x <= ComputeStats(items).bestMulti.value.x
  {
    BestOfSpec(items, Win);
    BestOfSpec(items, Multi);
  }

  /** Winnings add up over concatenated lists, as `[...statsPool, ...manual]` is summed. */
  lemma TotalOfConcat(a: seq<Record>, b: seq<Record>)
    ensures ComputeStats(a + b).totalWinnings == ComputeStats(a).totalWinnings + ComputeStats(b).totalWinnings
  {
    SumOfAppend(a, b, Win);
  }

  // ---------------------------------------------------------------------
  // The player rollup
  // ---------------------------------------------------------------------

  /** A player's line: name, total winnings, whether any replay was a max win, and the configured picture. */
  datatype PlayerRow = PlayerRow(player: string, total: real, maxwin: bool, avatar: Option<string>)

  /** The map entry of the loop. */
  datatype Tally = Tally(total: real, maxwin: bool)

  /** The grouping key: the trimmed player name; blank names are skipped. */
  function PlayerKey(r: Record): string {
    Trim(r.player)
  }

  /** The distinct non-blank players in order of first appearance (the insertion order of a `Map`). */
  function Players(items: seq<Record>): seq<string>
    decreases |items|
  {
    if items == [] then []
    else
      var ps := Players(items[..|items| - 1]);
      var p := PlayerKey(items[|items| - 1]);
      if p == "" || p in ps then ps else ps + [p]
  }

  /** The sum of the wins of one player. */
  function TotalOf(items: seq<Record>, p: string): real
    decreases |items|
  {
    if items == [] then 0.0
    else
      var r := items[|items| - 1];
      TotalOf(items[..|items| - 1], p) + (if PlayerKey(r) == p then r.win else 0.0)
  }

  /** Whether any replay of one player is a max win. */
  function AnyMaxWin(items: seq<Record>, p: string): bool
    decreases |items|
  {
    if items == [] then false
    else
      var r := items[|items| - 1];
      AnyMaxWin(items[..|items| - 1], p) || (PlayerKey(r) == p && r.isMaxWin)
  }

  /** `PLAYER_AVATARS[player] || null`. */
  function Avatar(avatars: map<string, string>, p: string): Option<string> {
    if p in avatars && avatars[p] != "" then Some(avatars[p]) else None
  }

  /** `Array.from(map, ...)`: one line per player, in insertion order. */
  function Entries(items: seq<Record>, avatars: map<string, string>): (rows: seq<PlayerRow>)
    ensures |rows| == |Players(items)|
  {
    var ps := Players(items);
    seq(|ps|, k requires 0 <= k < |ps| => PlayerRow(ps[k], TotalOf(items, ps[k]), AnyMaxWin(items, ps[k]), Avatar(avatars, ps[k])))
  }

  function Total(row: PlayerRow): real {
    row.total
  }

  /** Some record belongs to the player `p`. */
  predicate Named(items: seq<Record>, p: string) {
    exists i :: 0 <= i < |items| && PlayerKey(items[i]) == p
  }

  lemma NamedSnoc(items: seq<Record>, p: string)
    requires items != []
    ensures Named(items, p) <==> Named(items[..|items| - 1], p) || PlayerKey(items[|items| - 1]) == p
  {
    var n := |items|;
    var prefix := items[..n - 1];
    if Named(items, p) {
      var i :| 0 <= i < n && PlayerKey(items[i]) == p;
      if i < n - 1 { assert prefix[i] == items[i]; }
    }
    if Named(prefix, p) {
      var i :| 0 <= i < n - 1 && PlayerKey(prefix[i]) == p;
      assert items[i] == prefix[i];
    }
  }

  /** The players are exactly the non-blank names of the records. */
  lemma {:induction false} PlayersMember(items: seq<Record>)
    ensures forall p :: p in Players(items) <==> p != "" && Named(items, p)
    decreases |items|
  {
    if items != [] {
      PlayersMember(items[..|items| - 1]);
      forall p ensures Named(items, p) <==> Named(items[..|items| - 1], p) || PlayerKey(items[|items| - 1]) == p {
        NamedSnoc(items, p);
      }
    }
  }

  /** Each player is listed once. */
  lemma {:induction false} PlayersDistinct(items: seq<Record>)
    ensures forall i, j :: 0 <= i < j < |Players(items)| ==> Players(items)[i] != Players(items)[j]
    decreases |items|
  {
    if items != [] {
      var ps := Players(items[..|items| - 1]);
      PlayersDistinct(items[..|items| - 1]);
      var p := PlayerKey(items[|items| - 1]);
      if p != "" && p !in ps {
        var qs := ps + [p];
        forall i, j | 0 <= i < j < |qs| ensures qs[i] != qs[j] {
          if j == |ps| {
            assert qs[i] == ps[i];
          } else {
            assert qs[i] == ps[i] && qs[j] == ps[j];
          }
        }
      }
    }
  }

  /** Some replay of the player `p` is a max win. */
  predicate MaxWinOf(items: seq<Record>, p: string) {
    exists i :: 0 <= i < |items| && PlayerKey(items[i]) == p && items[i].isMaxWin
  }

  /** A player's flag is set exactly when one of the player's replays is a max win. */
  lemma {:induction false} AnyMaxWinSpec(items: seq<Record>, p: string)
    ensures AnyMaxWin(items, p) <==> MaxWinOf(items, p)
    decreases |items|
  {
    if items != [] {
      var n := |items|;
      var prefix := items[..n - 1];
      AnyMaxWinSpec(prefix, p);
      if MaxWinOf(items, p) {
        var i :| 0 <= i < n && PlayerKey(items[i]) == p && items[i].isMaxWin;
        if i < n - 1 { assert prefix[i] == items[i]; }
      }
      if MaxWinOf(prefix, p) {
        var i :| 0 <= i < n - 1 && PlayerKey(prefix[i]) == p && prefix[i].isMaxWin;
        assert items[i] == prefix[i];
      }
    }
  }

  /** Winnings of a player add up over concatenated lists. */
  lemma {:induction false} TotalOfAppend(a: seq<Record>, b: seq<Record>, p: string)
    ensures TotalOf(a + b, p) == TotalOf(a, p) + TotalOf(b, p)
    decreases |b|
  {
    if b == [] {
      assert a + b == a;
    } else {
      var b' := b[..|b| - 1];
      assert (a + b)[..|a + b| - 1] == a + b';
      assert (a + b)[|a + b| - 1] == b[|b| - 1];
      TotalOfAppend(a, b', p);
    }
  }

  /** A name without replays has total 0 and no max win. */
  lemma {:induction false} Unnamed(items: seq<Record>, p: string)
    requires !Named(items, p)
    ensures TotalOf(items, p) == 0.0 && !AnyMaxWin(items, p)
    decreases |items|
  {
    if items != [] {
      var n := |items|;
      NamedSnoc(items, p);
      Unnamed(items[..n - 1], p);
    }
  }

  /** One more record: how the players of the prefix extend. */
  lemma PlayersStep(prefix: seq<Record>, r: Record)
    ensures Players(prefix + [r]) ==
      (if PlayerKey(r) == "" || PlayerKey(r) in Players(prefix) then Players(prefix) else Players(prefix) + [PlayerKey(r)])
  {
    assert (prefix + [r])[..|prefix|] == prefix;
  }

  /** One more record: how a player's total and flag extend. */
  lemma TotalStep(prefix: seq<Record>, r: Record, q: string)
    ensures TotalOf(prefix + [r], q) == TotalOf(prefix, q) + (if PlayerKey(r) == q then r.win else 0.0)
    ensures AnyMaxWin(prefix + [r], q) == (AnyMaxWin(prefix, q) || (PlayerKey(r) == q && r.isMaxWin))
  {
    assert (prefix + [r])[..|prefix|] == prefix;
  }

  /** The loop state after the records `items`: the players in order of first sight, each mapped to its total and flag. */
  ghost predicate Tallied(items: seq<Record>, tally: map<string, Tally>, order: seq<string>) {
    order == Players(items) &&
    (forall p :: p in tally <==> p in order) &&
    (forall p :: p in tally ==> tally[p] == Tally(TotalOf(items, p), AnyMaxWin(items, p)))
  }

  /** The previous entry of a player, or the fresh one `{ total: 0, maxwin: false }`. */
  function Entry(tally: map<string, Tally>, p: string): Tally {
    if p in tally then tally[p] else Tally(0.0, false)
  }

  /** A record with a blank player leaves the loop state as it is. */
  lemma TallySkip(items: seq<Record>, i: nat, tally: map<string, Tally>, order: seq<string>)
    requires i < |items| && Tallied(items[..i], tally, order) && PlayerKey(items[i]) == ""
    ensures Tallied(items[..i + 1], tally, order)
  {
    var r, prefix, next := items[i], items[..i], items[..i + 1];
    assert next == prefix + [r];
    PlayersStep(prefix, r);
    PlayersMember(prefix);
    forall q | q in tally ensures tally[q] == Tally(TotalOf(next, q), AnyMaxWin(next, q)) {
      assert q in Players(prefix);
      TotalStep(prefix, r, q);
    }
  }

  /** A record with a player adds its win and flag to the player's entry, which is created on first sight. */
  lemma TallyAdd(items: seq<Record>, i: nat, tally: map<string, Tally>, order: seq<string>,
                 t: map<string, Tally>, o: seq<string>)
    requires i < |items| && Tallied(items[..i], tally, order) && PlayerKey(items[i]) != ""
    requires var r, p := items[i], PlayerKey(items[i]);
      t == tally[p := Tally(Entry(tally, p).total + r.win, Entry(tally, p).maxwin || r.isMaxWin)] &&
      o == if p in tally then order else order + [p]
    ensures Tallied(items[..i + 1], t, o)
  {
    var r, p := items[i], PlayerKey(items[i]);
    var prefix, next := items[..i], items[..i + 1];
    assert next == prefix + [r];
    var e := Entry(tally, p);
    PlayersStep(prefix, r);
    assert e == Tally(TotalOf(prefix, p), AnyMaxWin(prefix, p)) by {
      if p !in tally {
        PlayersMember(prefix);
        Unnamed(prefix, p);
      }
    }
    forall q | q in t ensures t[q] == Tally(TotalOf(next, q), AnyMaxWin(next, q)) {
      TotalStep(prefix, r, q);
    }
    assert forall q :: q in t <==> q in o;
  }

  /**
   * The grouping loop: the map from each non-blank trimmed player to the
   * sum of the wins and the OR of the max-win flags, and the order in which
   * the players were first seen.
   */
  method Accumulate(combined: seq<Record>) returns (tally: map<string, Tally>, order: seq<string>)
    ensures order == Players(combined)
    ensures forall p :: p in tally <==> p in order
    ensures forall p :: p in tally ==> tally[p] == Tally(TotalOf(combined, p), AnyMaxWin(combined, p))
  {
    tally := map[];
    order := [];
    for i := 0 to |combined|
      invariant Tallied(combined[..i], tally, order)
    {
      var r := combined[i];
      var p := Trim(r.player);
      if p == "" {
        TallySkip(combined, i, tally, order);
        continue;
      }
      var prev := Entry(tally, p);
      var order' := if p in tally then order else order + [p];
      var tally' := tally[p := Tally(prev.total + r.win, prev.maxwin || r.isMaxWin)];
      TallyAdd(combined, i, tally, order, tally', order');
      tally, order := tally', order';
    }
    TalliedAll(combined, tally, order);
  }

  /** The loop state after every record is the grouping of all of them. */
  lemma TalliedAll(items: seq<Record>, tally: map<string, Tally>, order: seq<string>)
    requires Tallied(items[..|items|], tally, order)
    ensures order == Players(items)
    ensures forall p :: p in tally <==> p in order
    ensures forall p :: p in tally ==> tally[p] == Tally(TotalOf(items, p), AnyMaxWin(items, p))
  {
    assert items[..|items|] == items;
  }

  /**
   * The rollup of `renderPlayerGrid`: group `[...statsPool, ...manual]` by
   * player, list the entries in the order the players were first seen, and
   * sort them by total, largest first, with a stable sort.
   */
  method Rollup(statsPool: seq<Record>, manual: seq<Record>, avatars: map<string, string>) returns (rows: seq<PlayerRow>)
    ensures rows == SortDesc(Entries(statsPool + manual, avatars), Total)
    ensures SortedDesc(rows, Total)
    ensures multiset(rows) == multiset(Entries(statsPool + manual, avatars))
    ensures forall i, j :: 0 <= i < j < |rows| ==> rows[i].player != rows[j].player
  {
    var combined := statsPool + manual;
    var tally, order := Accumulate(combined);
    var entries: seq<PlayerRow> := [];
    for k := 0 to |order|
      invariant |entries| == k
      invariant forall j :: 0 <= j < k ==> entries[j] == Entries(combined, avatars)[j]
    {
      var p := order[k];
      entries := entries + [PlayerRow(p, tally[p].total, tally[p].maxwin, Avatar(avatars, p))];
    }
    assert entries == Entries(combined, avatars);
    rows := SortDesc(entries, Total);
    SortDescSorted(entries, Total);
    SortDescPerm(entries, Total);
    RollupDistinct(combined, avatars, rows);
  }

  /** An element found at two positions occurs at least twice. */
  lemma MultisetTwice<T>(s: seq<T>, i: nat, j: nat)
    requires i < j < |s| && s[i] == s[j]
    ensures multiset(s)[s[i]] >= 2
  {
    assert s == s[..j] + s[j..];
    assert s[..j][i] == s[i];
    assert s[j..][0] == s[i];
  }

  /** An element unequal to every other element occurs once. */
  lemma MultisetOnce<T>(s: seq<T>, a: nat)
    requires a < |s|
    requires forall j :: 0 <= j < |s| && j != a ==> s[j] != s[a]
    ensures multiset(s)[s[a]] == 1
  {
    assert s == s[..a] + [s[a]] + s[a + 1..];
    assert s[a] !in s[..a] by {
      forall j | 0 <= j < a ensures s[..a][j] != s[a] { assert s[..a][j] == s[j]; }
    }
    var t := s[a + 1..];
    assert s[a] !in t by {
      forall j | 0 <= j < |t| ensures t[j] != s[a] { assert t[j] == s[a + 1 + j]; }
    }
  }

  /** A permutation of the entries names every player once. */
  lemma RollupDistinct(items: seq<Record>, avatars: map<string, string>, rows: seq<PlayerRow>)
    requires multiset(rows) == multiset(Entries(items, avatars))
    ensures forall i, j :: 0 <= i < j < |rows| ==> rows[i].player != rows[j].player
  {
    var es := Entries(items, avatars);
    forall i, j | 0 <= i < j < |rows| ensures rows[i].player != rows[j].player {
      if rows[i].player == rows[j].player {
        assert rows[i] in multiset(es) && rows[j] in multiset(es);
        var a :| 0 <= a < |es| && es[a] == rows[i];
        var b :| 0 <= b < |es| && es[b] == rows[j];
        EntriesDistinct(items, avatars);
        assert a == b;
        MultisetTwice(rows, i, j);
        MultisetOnce(es, a);
        assert false;
      }
    }
  }

  /** The entries are one line per distinct player. */
  lemma EntriesDistinct(items: seq<Record>, avatars: map<string, string>)
    ensures forall a, b :: 0 <= a < b < |Entries(items, avatars)| ==>
      Entries(items, avatars)[a].player != Entries(items, avatars)[b].player
  {
    PlayersDistinct(items);
  }
}
