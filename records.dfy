/**
 * The record builder of app.js (`csvToItems`): the first parsed row is the
 * header, columns are found through an ordered list of candidate names, blank
 * rows are skipped, and every other row becomes one replay record with its
 * derived title, thumbnail, tags and max-win flag.
 *
 * Turning a number into text for the title is a parameter `show`, since
 * JavaScript's number formatting is not part of this model.
 */
module Records {
  import opened Text
  import opened Tokenizer
  import opened Normalize

  /** One replay, with the fields `csvToItems` fills in. */
  datatype Record = Record(
    title: string, provider: string, game: string, player: string, date: string,
    bet: real, win: real, x: real, videoUrl: string, thumb: string,
    tags: seq<string>, isMaxWin: bool)

  // ---------------------------------------------------------------------
  // Column resolution
  // ---------------------------------------------------------------------

  /** The header row as the lookup sees it: each cell trimmed, then lower-cased. */
  function Header(cells: seq<string>): (hs: seq<string>)
    ensures |hs| == |cells|
  {
    seq(|cells|, i requires 0 <= i < |cells| => ToLower(Trim(cells[i])))
  }

  /** `headers.indexOf(name)`: the first position of `name`, or -1. */
  function IndexOf(hs: seq<string>, name: string): (r: int)
    ensures -1 <= r < |hs|
    ensures r == -1 <==> name !in hs
    ensures r >= 0 ==> hs[r] == name && name !in hs[..r]
  {
    if hs == [] then -1
    else if hs[0] == name then 0
    else
      var r := IndexOf(hs[1..], name);
      assert r >= 0 ==> hs[..r + 1] == [hs[0]] + hs[1..][..r];
      if r < 0 then -1 else r + 1
  }

  /**
   * The column of the first candidate name, in the caller's order, that
   * the header holds (`[name, ...alts].map(idx).find(i => i >= 0)`).
   */
  function Resolve(hs: seq<string>, names: seq<string>): Option<nat> {
    if names == [] then None
    else
      var i := IndexOf(hs, ToLower(names[0]));
      if i >= 0 then Some(i) else Resolve(hs, names[1..])
  }

  /** `get(r, name, ...alts)`: the cell of the resolved column, '' when there is none or the row is too short. */
  function Get(row: seq<string>, hs: seq<string>, names: seq<string>): string {
    match Resolve(hs, names)
    case Some(i) => if i < |row| then row[i] else ""
    case None => ""
  }

  /** No column is found exactly when no candidate name occurs in the header. */
  lemma {:induction false} ResolveNone(hs: seq<string>, names: seq<string>)
    ensures Resolve(hs, names) == None <==> forall k :: 0 <= k < |names| ==> ToLower(names[k]) !in hs
  {
    if names != [] {
      ResolveNone(hs, names[1..]);
      if ToLower(names[0]) !in hs {
        forall k | 0 <= k < |names| && ToLower(names[k]) in hs ensures k > 0 && ToLower(names[1..][k - 1]) in hs {
        }
      }
    }
  }

  /** The first candidate present in the header wins, at its first position. */
  lemma {:induction false} ResolveFirst(hs: seq<string>, names: seq<string>, k: nat)
    requires k < |names| && ToLower(names[k]) in hs
    requires forall j :: 0 <= j < k ==> ToLower(names[j]) !in hs
    ensures Resolve(hs, names) == Some(IndexOf(hs, ToLower(names[k])))
  {
    if k > 0 {
      assert ToLower(names[0]) !in hs;
      assert names[1..][k - 1] == names[k];
      ResolveFirst(hs, names[1..], k - 1);
    }
  }

  /**
   * A misspelt "palyer" column still yields the player, and a "videoUrl"
   * candidate finds a "videourl" header, since both sides are lower-cased.
   */
  lemma AliasExamples(row: seq<string>, hs: seq<string>)
    ensures "player" !in hs && "palyer" in hs ==>
      Get(row, hs, ["player", "palyer"]) == (if IndexOf(hs, "palyer") < |row| then row[IndexOf(hs, "palyer")] else "")
    ensures "videourl" in hs ==>
      Get(row, hs, ["videoUrl"]) == (if IndexOf(hs, "videourl") < |row| then row[IndexOf(hs, "videourl")] else "")
  {
    assert ToLower("player") == "player";
    assert ToLower("palyer") == "palyer";
    assert ToLower("videoUrl") == "videourl";
    if "player" !in hs && "palyer" in hs {
      ResolveFirst(hs, ["player", "palyer"], 1);
    }
    if "videourl" in hs {
      ResolveFirst(hs, ["videoUrl"], 0);
    }
  }

  // ---------------------------------------------------------------------
  // Tags
  // ---------------------------------------------------------------------

  predicate TagSep(c: char) {
    c == ',' || c == ';'
  }

  /** Position of the first ',' or ';', or |s| when there is none. */
  function SepIndex(s: string): (k: nat)
    ensures k <= |s|
    ensures forall i :: 0 <= i < k ==> !TagSep(s[i])
    ensures k < |s| ==> TagSep(s[k])
  {
    if s == [] || TagSep(s[0]) then 0 else 1 + SepIndex(s[1..])
  }

  /** `s.split(/[,;]\s*\/)`: the pieces between separators, each separator taking the white space after it. */
  function Fragments(s: string): seq<string>
    decreases |s|
  {
    var k := SepIndex(s);
    if k == |s| then [s] else [s[..k]] + Fragments(TrimStart(s[k + 1..]))
  }

  function NonEmpty(parts: seq<string>): (r: seq<string>)
    ensures forall i :: 0 <= i < |r| ==> r[i] != ""
  {
    if parts == [] then []
    else if parts[0] == "" then NonEmpty(parts[1..])
    else [parts[0]] + NonEmpty(parts[1..])
  }

  /** The tag list: the non-empty fragments. */
  function SplitTags(s: string): seq<string> {
    NonEmpty(Fragments(s))
  }

  /** A tag the writer can separate: non-empty, without ',' or ';', and not starting with white space. */
  predicate Tag(t: string) {
    t != [] && !IsSpace(t[0]) && forall i :: 0 <= i < |t| ==> !TagSep(t[i])
  }

  /** A separator the split consumes whole: ',' or ';' followed by white space only. */
  predicate TagGlue(sep: string) {
    sep != [] && TagSep(sep[0]) && AllSpace(sep[1..])
  }

  lemma {:induction false} NoSepIndex(t: string)
    requires forall i :: 0 <= i < |t| ==> !TagSep(t[i])
    ensures SepIndex(t) == |t|
  {
    if t != [] {
      NoSepIndex(t[1..]);
    }
  }

  lemma {:induction false} SepIndexAt(t: string, rest: string)
    requires forall i :: 0 <= i < |t| ==> !TagSep(t[i])
    requires rest != [] && TagSep(rest[0])
    ensures SepIndex(t + rest) == |t|
  {
    if t != [] {
      assert (t + rest)[1..] == t[1..] + rest;
      SepIndexAt(t[1..], rest);
    }
  }

  /** A tag, a separator and more text: the tag is the first fragment and the split resumes after the separator. */
  lemma FragmentsCons(t: string, sep: string, rest: string)
    requires forall i :: 0 <= i < |t| ==> !TagSep(t[i])
    requires TagGlue(sep) && rest != [] && !IsSpace(rest[0])
    ensures Fragments(t + sep + rest) == [t] + Fragments(rest)
  {
    var u := sep + rest;
    var s := t + u;
    assert t + sep + rest == s;
    var tail := sep[1..] + rest;
    SepIndexAt(t, u);
    ConcatSlices(t, u, 1);
    DropHead(sep, rest);
    assert s[|t| + 1..] == tail;
    ConcatSlices(sep[1..], rest, 0);
    assert tail[|sep| - 1] == rest[0];
    TrimStartDrop(tail, |sep| - 1);
    assert Fragments(s) == [t] + Fragments(TrimStart(tail));
  }

  /** Every fragment of a written tag list is one of its tags. */
  lemma {:induction false} FragmentsJoin(tags: seq<string>, sep: string)
    requires tags != [] && TagGlue(sep)
    requires forall k :: 0 <= k < |tags| ==> Tag(tags[k])
    ensures Fragments(Join(tags, sep)) == tags
    decreases |tags|
  {
    if |tags| == 1 {
      assert Tag(tags[0]);
      NoSepIndex(tags[0]);
    } else {
      var t, more := tags[0], tags[1..];
      var rest := Join(more, sep);
      assert Tag(t) && Tag(more[0]);
      assert Join(tags, sep) == t + sep + rest;
      JoinHead(more, sep);
      FragmentsCons(t, sep, rest);
      assert forall k :: 0 <= k < |more| ==> Tag(more[k]) by {
        forall k | 0 <= k < |more| ensures Tag(more[k]) { assert more[k] == tags[k + 1]; }
      }
      FragmentsJoin(more, sep);
      assert [t] + more == tags;
    }
  }

  lemma JoinHead(tags: seq<string>, sep: string)
    requires tags != [] && tags[0] != []
    ensures Join(tags, sep) != [] && Join(tags, sep)[0] == tags[0][0]
  {
  }

  lemma {:induction false} NonEmptyKeeps(parts: seq<string>)
    requires forall k :: 0 <= k < |parts| ==> parts[k] != ""
    ensures NonEmpty(parts) == parts
  {
    if parts != [] {
      NonEmptyKeeps(parts[1..]);
    }
  }

  /**
   * Round trip: tags joined by ',' or ';' and any white space are split
   * back into the same tags.
   */
  lemma SplitTagsJoin(tags: seq<string>, sep: string)
    requires TagGlue(sep)
    requires forall k :: 0 <= k < |tags| ==> Tag(tags[k])
    ensures SplitTags(Join(tags, sep)) == tags
  {
    if tags != [] {
      FragmentsJoin(tags, sep);
      NonEmptyKeeps(tags);
    } else {
      assert Fragments([]) == [""];
      assert [""][1..] == [];
    }
  }

  /** No fragment holds a separator. */
  lemma {:induction false} FragmentsClean(s: string)
    ensures forall k, i :: 0 <= k < |Fragments(s)| && 0 <= i < |Fragments(s)[k]| ==> !TagSep(Fragments(s)[k][i])
    decreases |s|
  {
    var k := SepIndex(s);
    if k < |s| {
      FragmentsClean(TrimStart(s[k + 1..]));
      var fs := Fragments(s);
      assert fs == [s[..k]] + Fragments(TrimStart(s[k + 1..]));
      forall j, i | 0 <= j < |fs| && 0 <= i < |fs[j]| ensures !TagSep(fs[j][i]) {
        if j == 0 {
          assert fs[0][i] == s[i];
        } else {
          assert fs[j] == Fragments(TrimStart(s[k + 1..]))[j - 1];
        }
      }
    }
  }

  lemma {:induction false} NonEmptySub(parts: seq<string>)
    ensures forall t :: t in NonEmpty(parts) ==> t in parts
  {
    if parts != [] {
      NonEmptySub(parts[1..]);
    }
  }

  /** Tags are never empty and never hold ',' or ';'. */
  lemma SplitTagsClean(s: string)
    ensures forall k :: 0 <= k < |SplitTags(s)| ==>
      SplitTags(s)[k] != "" && forall i :: 0 <= i < |SplitTags(s)[k]| ==> !TagSep(SplitTags(s)[k][i])
  {
    FragmentsClean(s);
    NonEmptySub(Fragments(s));
    var fs := Fragments(s);
    forall k | 0 <= k < |SplitTags(s)|
      ensures forall i :: 0 <= i < |SplitTags(s)[k]| ==> !TagSep(SplitTags(s)[k][i])
    {
      var t := SplitTags(s)[k];
      assert t in fs;
      var j :| 0 <= j < |fs| && fs[j] == t;
    }
  }

  // ---------------------------------------------------------------------
  // The max-win pattern
  // ---------------------------------------------------------------------

  /** `/max\s*win/i` matches with "max" at `i` and "win" at `j`. */
  predicate MaxWinAt(s: string, i: nat, j: nat) {
    i + 3 <= j && j + 3 <= |s| &&
    ToLower(s[i..i + 3]) == "max" && AllSpace(s[i + 3..j]) && ToLower(s[j..j + 3]) == "win"
  }

  /** `/max\s*win/i.test(s)`. */
  ghost predicate MatchesMaxWin(s: string) {
    exists i: nat, j: nat :: MaxWinAt(s, i, j)
  }

  predicate StartsWin(t: string) {
    |t| >= 3 && ToLower(t[..3]) == "win"
  }

  /** The matcher: at each start position, "max" then, after the white space, "win". */
  function HasMaxWin(s: string): bool
    decreases |s|
  {
    |s| >= 3 && ((ToLower(s[..3]) == "max" && StartsWin(TrimStart(s[3..]))) || HasMaxWin(s[1..]))
  }

  /** Number of white-space characters at the start of `s`. */
  function LeadingSpace(s: string): (k: nat)
    ensures k <= |s| && AllSpace(s[..k])
    ensures k < |s| ==> !IsSpace(s[k])
  {
    if s != [] && IsSpace(s[0]) then
      var k := 1 + LeadingSpace(s[1..]);
      assert s[..k] == [s[0]] + s[1..][..k - 1];
      k
    else 0
  }

  /** The "win" of a match sits right after the white space: no white-space character lowers to 'w'. */
  lemma WinAfterSpace(u: string, m: nat)
    requires m + 3 <= |u| && AllSpace(u[..m]) && ToLower(u[m..m + 3]) == "win"
    ensures TrimStart(u) == u[m..]
  {
    assert ToLower(u[m..m + 3])[0] == Lower(u[m]);
    assert !IsSpace(u[m]);
    TrimStartDrop(u, m);
  }

  lemma HeadMatch(s: string)
    requires |s| >= 3
    ensures (ToLower(s[..3]) == "max" && StartsWin(TrimStart(s[3..]))) <==> exists j: nat :: MaxWinAt(s, 0, j)
  {
    if ToLower(s[..3]) == "max" && StartsWin(TrimStart(s[3..])) {
      HeadFound(s);
    }
    if exists j: nat :: MaxWinAt(s, 0, j) {
      var j: nat :| MaxWinAt(s, 0, j);
      HeadSeen(s, j);
    }
  }

  /** What the matcher sees at the start is a match of the pattern. */
  lemma HeadFound(s: string)
    requires |s| >= 3 && ToLower(s[..3]) == "max" && StartsWin(TrimStart(s[3..]))
    ensures MaxWinAt(s, 0, LeadingSpace(s[3..]) + 3)
  {
    var u := s[3..];
    var m := LeadingSpace(u);
    TrimStartDrop(u, m);
    assert u[m..][..3] == s[m + 3..m + 6];
    assert u[..m] == s[3..m + 3];
    assert s[0..3] == s[..3];
  }

  /** A match of the pattern at the start is what the matcher sees. */
  lemma HeadSeen(s: string, j: nat)
    requires MaxWinAt(s, 0, j)
    ensures ToLower(s[..3]) == "max" && StartsWin(TrimStart(s[3..]))
  {
    var u := s[3..];
    assert s[0..3] == s[..3];
    assert u[..j - 3] == s[3..j];
    assert u[j - 3..j] == s[j..j + 3];
    WinAfterSpace(u, j - 3);
    assert TrimStart(u)[..3] == s[j..j + 3];
  }

  lemma MatchShift(s: string, i: nat, j: nat)
    requires |s| >= 1
    ensures MaxWinAt(s[1..], i, j) <==> MaxWinAt(s, i + 1, j + 1)
  {
    if i + 3 <= j && j + 3 <= |s| - 1 {
      assert s[1..][i..i + 3] == s[i + 1..i + 4];
      assert s[1..][i + 3..j] == s[i + 4..j + 1];
      assert s[1..][j..j + 3] == s[j + 1..j + 4];
    }
  }

  /** A match after the first character is a match. */
  lemma MatchInTail(s: string)
    requires |s| >= 1 && MatchesMaxWin(s[1..])
    ensures MatchesMaxWin(s)
  {
    var i: nat, j: nat :| MaxWinAt(s[1..], i, j);
    MatchShift(s, i, j);
  }

  /** A match starts at the first character or lies after it. */
  lemma MatchHeadOrTail(s: string)
    requires |s| >= 1 && MatchesMaxWin(s)
    ensures (exists j: nat :: MaxWinAt(s, 0, j)) || MatchesMaxWin(s[1..])
  {
    var i: nat, j: nat :| MaxWinAt(s, i, j);
    if i > 0 {
      MatchShift(s, i - 1, j - 1);
    }
  }

  /** The matcher finds a match exactly when the pattern has one. */
  lemma {:induction false} HasMaxWinIff(s: string)
    ensures HasMaxWin(s) <==> MatchesMaxWin(s)
    decreases |s|
  {
    if |s| < 3 {
      assert forall i: nat, j: nat :: !MaxWinAt(s, i, j);
    } else {
      HeadMatch(s);
      HasMaxWinIff(s[1..]);
      if MatchesMaxWin(s[1..]) {
        MatchInTail(s);
      }
      if MatchesMaxWin(s) {
        MatchHeadOrTail(s);
      }
    }
  }

  // ---------------------------------------------------------------------
  // One record
  // ---------------------------------------------------------------------

  /** The title: the game, then " <x>x" when x is not zero, trimmed. */
  function Title(game: string, x: real, show: real -> string): string {
    Trim(game + (if x != 0.0 then " " + show(x) + "x" else ""))
  }

  /** The thumbnail: the trimmed user picture when it is not blank, the guess from the game otherwise. */
  function Thumb(user: string, game: string): string {
    if Trim(user) != "" then Trim(user) else GuessThumb(game)
  }

  /** The max-win flag: a tag "maxwin" in any case, or the pattern in the title or the game. */
  function MaxWinFlag(tags: seq<string>, title: string, game: string): bool {
    (exists k :: 0 <= k < |tags| && ToLower(tags[k]) == "maxwin") || HasMaxWin(title) || HasMaxWin(game)
  }

  /** The record built from one data row. */
  function BuildRecord(hs: seq<string>, row: seq<string>, show: real -> string): Record {
    var game := Get(row, hs, ["game"]);
    var x := NormalizeNumber(Some(Get(row, hs, ["x"])));
    var title := Title(game, x, show);
    var tags := SplitTags(Get(row, hs, ["tags"]));
    Record(
      title, Get(row, hs, ["provider"]), game, Get(row, hs, ["player", "palyer"]),
      NormalizeDate(Get(row, hs, ["date"])),
      NormalizeNumber(Some(Get(row, hs, ["bet"]))), NormalizeNumber(Some(Get(row, hs, ["win"]))), x,
      Get(row, hs, ["videourl", "videoUrl"]),
      Thumb(Get(row, hs, ["thumb", "thumbnail", "image", "img"]), game),
      tags, MaxWinFlag(tags, title, game))
  }

  /**
   * The title has no white space at its ends; with x zero it is the trimmed
   * game, and otherwise the game without its leading white space followed by
   * " <x>x" (a blank game leaves only "<x>x" after trimming).
   */
  lemma TitleShape(game: string, x: real, show: real -> string)
    ensures Trimmed(Title(game, x, show))
    ensures x == 0.0 ==> Title(game, x, show) == Trim(game)
    ensures x != 0.0 && !AllSpace(game) ==> Title(game, x, show) == TrimStart(game) + " " + show(x) + "x"
  {
    var t := game + (if x != 0.0 then " " + show(x) + "x" else "");
    TrimShape(t);
    if x == 0.0 {
      assert t == game;
    } else if !AllSpace(game) {
      var tail := " " + show(x) + "x";
      assert t == game + tail;
      TrimStartAppend(game, tail);
      var u := TrimStart(game) + tail;
      assert u[|u| - 1] == 'x';
      assert TrimEnd(u) == u;
    }
  }

  /** The thumbnail is never blank and has no white space at its ends. */
  lemma ThumbShape(user: string, game: string)
    ensures Thumb(user, game) != [] && Trimmed(Thumb(user, game))
    ensures Trim(user) == [] ==> Thumb(user, game) == GuessThumb(game)
    ensures Trim(user) != [] ==> Thumb(user, game) == Trim(user)
  {
    TrimShape(user);
    GuessThumbCase(game);
    var g := GuessThumb(game);
    assert g != [] && g[0] == 'a' && g[|g| - 1] == 'g';
  }

  /**
   * What a built record promises: the thumbnail is never blank, the tags
   * are non-empty and hold no separator, the title is trimmed, and the
   * max-win flag holds exactly when a tag reads "maxwin" in any case or the
   * pattern max, white space, win occurs in the title or the game.
   */
  lemma BuildRecordShape(hs: seq<string>, row: seq<string>, show: real -> string)
    ensures BuildRecord(hs, row, show).thumb != []
    ensures Trimmed(BuildRecord(hs, row, show).title)
    ensures forall k :: 0 <= k < |BuildRecord(hs, row, show).tags| ==> BuildRecord(hs, row, show).tags[k] != ""
    ensures forall k, i :: 0 <= k < |BuildRecord(hs, row, show).tags| && 0 <= i < |BuildRecord(hs, row, show).tags[k]| ==>
      !TagSep(BuildRecord(hs, row, show).tags[k][i])
    ensures BuildRecord(hs, row, show).isMaxWin <==>
      (exists k :: 0 <= k < |BuildRecord(hs, row, show).tags| && ToLower(BuildRecord(hs, row, show).tags[k]) == "maxwin") ||
      MatchesMaxWin(BuildRecord(hs, row, show).title) || MatchesMaxWin(BuildRecord(hs, row, show).game)
  {
    var r := BuildRecord(hs, row, show);
    ThumbShape(Get(row, hs, ["thumb", "thumbnail", "image", "img"]), r.game);
    TitleShape(r.game, r.x, show);
    SplitTagsClean(Get(row, hs, ["tags"]));
    HasMaxWinIff(r.title);
    HasMaxWinIff(r.game);
  }

  // ---------------------------------------------------------------------
  // csvToItems
  // ---------------------------------------------------------------------

  /** A row with at least one cell that is not blank after trimming. */
  predicate NonBlank(row: seq<string>) {
    exists k :: 0 <= k < |row| && Trim(row[k]) != ""
  }

  function DataRows(rows: seq<seq<string>>): (r: seq<seq<string>>)
    ensures forall k :: 0 <= k < |r| ==> NonBlank(r[k])
    ensures |r| <= |rows|
  {
    if rows == [] then []
    else if NonBlank(rows[0]) then [rows[0]] + DataRows(rows[1..])
    else DataRows(rows[1..])
  }

  /** Skipping blank rows distributes over concatenation: the kept rows keep their order. */
  lemma {:induction false} DataRowsAppend(a: seq<seq<string>>, b: seq<seq<string>>)
    ensures DataRows(a + b) == DataRows(a) + DataRows(b)
  {
    if a == [] {
      assert a + b == b;
    } else {
      assert (a + b)[0] == a[0] && (a + b)[1..] == a[1..] + b;
      DataRowsAppend(a[1..], b);
    }
  }

  lemma DataRowsOne(row: seq<string>)
    ensures DataRows([row]) == if NonBlank(row) then [row] else []
  {
    assert [row][1..] == [];
  }

  function Items(hs: seq<string>, rows: seq<seq<string>>, show: real -> string): (items: seq<Record>)
    ensures |items| == |rows|
  {
    seq(|rows|, i requires 0 <= i < |rows| => BuildRecord(hs, rows[i], show))
  }

  /**
   * `csvToItems`: detect the delimiter on the first line, parse, take the
   * first row as the header and build one record per non-blank data row.
   */
  function CsvToItems(text: string, show: real -> string): seq<Record> {
    var d := DetectDelimiter(FirstLine(text));
    var rows := Parse(text, d);
    if rows == [] then []
    else Items(Header(rows[0]), DataRows(rows[1..]), show)
  }

  /** Empty text gives no records. */
  lemma CsvEmpty(show: real -> string)
    ensures CsvToItems("", show) == []
  {
    var d := DetectDelimiter(FirstLine(""));
    assert Run("", d, Start) == Start;
  }

  /** No row is kept exactly when every row is blank. */
  lemma {:induction false} DataRowsEmpty(rows: seq<seq<string>>)
    ensures DataRows(rows) == [] <==> forall k :: 0 <= k < |rows| ==> !NonBlank(rows[k])
  {
    if rows != [] {
      DataRowsEmpty(rows[1..]);
      forall k | 1 <= k < |rows| ensures rows[k] == rows[1..][k - 1] { }
    }
  }

  /**
   * Any text gives no records exactly when the rows it parses to, under
   * the delimiter detected on its first line, have no data row that is not
   * blank: a header alone, a header with blank lines, or nothing at all.
   */
  lemma CsvHeaderOnly(text: string, show: real -> string)
    ensures var rows := Parse(text, DetectDelimiter(FirstLine(text)));
      CsvToItems(text, show) == [] <==> forall k :: 1 <= k < |rows| ==> !NonBlank(rows[k])
  {
    var rows := Parse(text, DetectDelimiter(FirstLine(text)));
    if rows != [] {
      var data := rows[1..];
      DataRowsEmpty(data);
      forall k | 1 <= k < |rows| ensures rows[k] == data[k - 1] { }
    }
  }

  /** A text holding only a written header line gives no records. */
  lemma CsvHeaderLine(cells: seq<string>, d: char, show: real -> string)
    requires d == ',' || d == ';'
    requires cells != [] && cells != [""]
    requires forall k :: 0 <= k < |cells| ==> Plain(cells[k], d) && ',' !in cells[k] && ';' !in cells[k]
    requires |cells| >= 2 || d == ','
    ensures CsvToItems(Unparse([cells], d, false), show) == []
  {
    CsvOfTable([cells], d, false, show);
    assert [cells][1..] == [];
  }

  /**
   * End to end: a table written with ',' or ';' (any line ending), whose
   * header cells are bare and hold neither ',' nor ';', is read back as one
   * record per non-blank data row, in order, built against its header.
   * With ';' the header needs two cells, or the delimiter is taken to be ','.
   */
  lemma CsvOfTable(table: seq<seq<string>>, d: char, crlf: bool, show: real -> string)
    requires d == ',' || d == ';'
    requires table != [] && NoEmptyRow(table)
    requires forall k :: 0 <= k < |table[0]| ==> Plain(table[0][k], d) && ',' !in table[0][k] && ';' !in table[0][k]
    requires |table[0]| >= 2 || d == ','
    ensures CsvToItems(Unparse(table, d, crlf), show) == Items(Header(table[0]), DataRows(table[1..]), show)
  {
    var text := Unparse(table, d, crlf);
    assert ValidDelim(d);
    assert forall k :: 0 <= k < |table[0]| ==> Plain(table[0][k], d);
    FirstLineOfUnparse(table, d, crlf);
    DetectJoined(table[0], d);
    ParseUnparse(table, d, crlf);
  }
}
