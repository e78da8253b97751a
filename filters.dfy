/**
 * What the replay grid shows: the records that carry a video link, narrowed
 * by the search box and ordered by the chosen sort (`applyFilters` in
 * app.js). The search lower-cases the trimmed query and looks for it in the
 * title, game, provider, player and space-joined tags; the sorts are the
 * stable descending sort of the Sorting module with the key each option
 * names. `new Date(...)` is not modelled: the date sorts take the
 * timestamp of a date string as a parameter `dateKey`.
 */
module Filters {
  import opened Text
  import opened Sorting
  import opened Records

  /** `Array.prototype.filter`: the elements `keep` accepts, in order. */
  function Filter<T>(s: seq<T>, keep: T -> bool): (r: seq<T>)
    ensures |r| <= |s|
  {
    if s == [] then [] else (if keep(s[0]) then [s[0]] else []) + Filter(s[1..], keep)
  }

  /** An element is kept exactly when it is in the input and accepted. */
  lemma {:induction false} FilterMember<T>(s: seq<T>, keep: T -> bool)
    ensures forall x :: x in Filter(s, keep) <==> x in s && keep(x)
  {
    if s != [] {
      FilterMember(s[1..], keep);
      assert s == [s[0]] + s[1..];
    }
  }

  /** Filtering a concatenation filters each part. */
  lemma {:induction false} FilterAppend<T>(a: seq<T>, b: seq<T>, keep: T -> bool)
    ensures Filter(a + b, keep) == Filter(a, keep) + Filter(b, keep)
  {
    if a == [] {
      assert a + b == b;
    } else {
      var ab := a + b;
      assert ab[0] == a[0];
      assert ab[1..] == a[1..] + b;
      var h := if keep(a[0]) then [a[0]] else [];
      var fa := Filter(a[1..], keep);
      var fb := Filter(b, keep);
      FilterAppend(a[1..], b, keep);
      assert Filter(ab, keep) == h + (fa + fb);
      assert Filter(a, keep) == h + fa;
      assert h + (fa + fb) == (h + fa) + fb;
    }
  }

  /** Filtering twice by the same test is filtering once. */
  lemma {:induction false} FilterIdempotent<T>(s: seq<T>, keep: T -> bool)
    ensures Filter(Filter(s, keep), keep) == Filter(s, keep)
  {
    if s != [] {
      var t := Filter(s[1..], keep);
      FilterIdempotent(s[1..], keep);
      if keep(s[0]) {
        var r := [s[0]] + t;
        assert r[0] == s[0] && r[1..] == t;
        assert Filter(s, keep) == r;
        assert Filter(r, keep) == [r[0]] + Filter(r[1..], keep);
      } else {
        assert Filter(s, keep) == [] + t == t;
      }
    }
  }

  // ---------------------------------------------------------------------
  // Replays: records with a video link
  // ---------------------------------------------------------------------

  /** `String(it.videoUrl || '').trim()` is truthy. */
  predicate HasVideo(r: Record) {
    Trim(r.videoUrl) != ""
  }

  /** The replays: the records whose video link is not blank, in order. */
  function Replays(items: seq<Record>): seq<Record> {
    Filter(items, HasVideo)
  }

  /** A record is a replay exactly when it is one of the records and its link is not blank. */
  lemma ReplaysSpec(items: seq<Record>)
    ensures forall r :: r in Replays(items) <==> r in items && !AllSpace(r.videoUrl)
  {
    FilterMember(items, HasVideo);
    forall r: Record ensures HasVideo(r) <==> !AllSpace(r.videoUrl) {
      TrimShape(r.videoUrl);
    }
  }

  // ---------------------------------------------------------------------
  // Search
  // ---------------------------------------------------------------------

  /** `state.query.trim().toLowerCase()`. */
  function Query(query: string): string {
    ToLower(Trim(query))
  }

  /** The search fields: title, game, provider, player and the tags joined by spaces, each lower-cased. */
  predicate Matches(r: Record, q: string) {
    Contains(ToLower(r.title), q) || Contains(ToLower(r.game), q) ||
    Contains(ToLower(r.provider), q) || Contains(ToLower(r.player), q) ||
    Contains(ToLower(Join(r.tags, " ")), q)
  }

  /** The search step: an empty query keeps every replay. */
  function Search(items: seq<Record>, q: string): seq<Record> {
    if q == "" then items else Filter(items, r => Matches(r, q))
  }

  /** Every string contains the empty query. */
  lemma MatchesEmpty(r: Record)
    ensures Matches(r, "")
  {
    assert OccursAt(ToLower(r.title), "", 0);
  }

  /** Case folding keeps white space where it is. */
  lemma LowerSpace(c: char)
    ensures IsSpace(Lower(c)) <==> IsSpace(c)
  {
  }

  /** The query is already normalised after one pass: trimming and lower-casing it again changes nothing. */
  lemma QueryIdempotent(query: string)
    ensures Query(Query(query)) == Query(query)
  {
    var t := Trim(query);
    var q := ToLower(t);
    TrimShape(query);
    if q != [] {
      LowerSpace(t[0]);
      LowerSpace(t[|t| - 1]);
    }
    TrimOfTrimmed(q);
    ToLowerIdempotent(t);
  }

  /** A record survives the search exactly when it is one of the replays and matches the query. */
  lemma SearchMember(items: seq<Record>, q: string)
    ensures forall r :: r in Search(items, q) <==> r in items && Matches(r, q)
  {
    if q == "" {
      forall r: Record ensures Matches(r, q) {
        MatchesEmpty(r);
      }
    } else {
      FilterMember(items, r => Matches(r, q));
    }
  }

  /** The search works record by record: searching a concatenation searches each part. */
  lemma SearchAppend(a: seq<Record>, b: seq<Record>, q: string)
    ensures Search(a + b, q) == Search(a, q) + Search(b, q)
  {
    if q != "" {
      FilterAppend(a, b, r => Matches(r, q));
    }
  }

  // ---------------------------------------------------------------------
  // Sorting options
  // ---------------------------------------------------------------------

  /** The options of the sort menu that reorder the grid. */
  predicate KnownSort(sort: string) {
    sort == "maxwin" || sort == "newest" || sort == "oldest" || sort == "highest-x" || sort == "biggest-win"
  }

  /**
   * The key each comparator `(a, b) => key(b) - key(a)` sorts by, largest
   * first: the date for "maxwin" and "newest", the negated date for
   * "oldest" (whose comparator is `a - b`), the multiplier, the win.
   */
  function SortKey(sort: string, dateKey: string -> real): Record -> real {
    if sort == "oldest" then (r: Record) => -dateKey(r.date)
    else if sort == "highest-x" then (r: Record) => r.x
    else if sort == "biggest-win" then (r: Record) => r.win
    else (r: Record) => dateKey(r.date)
  }

  predicate IsMaxWin(r: Record) {
    r.isMaxWin
  }

  /** The replays the grid shows before sorting: the search hits, and for "maxwin" only the max wins. */
  function Selected(replays: seq<Record>, query: string, sort: string): seq<Record> {
    var arr := Search(replays, Query(query));
    if sort == "maxwin" then Filter(arr, IsMaxWin) else arr
  }

  /** `applyFilters`: select, then sort by the chosen option; any other option keeps the order. */
  function ApplyFilters(replays: seq<Record>, query: string, sort: string, dateKey: string -> real): seq<Record> {
    var arr := Selected(replays, query, sort);
    if KnownSort(sort) then SortDesc(arr, SortKey(sort, dateKey)) else arr
  }

  /** A replay is shown exactly when it matches the query and, under "maxwin", is a max win. */
  lemma ApplyFiltersMember(replays: seq<Record>, query: string, sort: string, dateKey: string -> real)
    ensures forall r :: r in ApplyFilters(replays, query, sort, dateKey) <==>
      r in replays && Matches(r, Query(query)) && (sort == "maxwin" ==> r.isMaxWin)
  {
    var arr := Search(replays, Query(query));
    SearchMember(replays, Query(query));
    FilterMember(arr, IsMaxWin);
    var sel := Selected(replays, query, sort);
    if KnownSort(sort) {
      SortDescPerm(sel, SortKey(sort, dateKey));
      forall r ensures r in SortDesc(sel, SortKey(sort, dateKey)) <==> r in sel {
        assert r in multiset(sel) <==> r in sel;
      }
    }
  }

  /** The sort only reorders: each selected replay is shown as often as it was selected. */
  lemma ApplyFiltersPerm(replays: seq<Record>, query: string, sort: string, dateKey: string -> real)
    ensures multiset(ApplyFilters(replays, query, sort, dateKey)) == multiset(Selected(replays, query, sort))
  {
    if KnownSort(sort) {
      SortDescPerm(Selected(replays, query, sort), SortKey(sort, dateKey));
    }
  }

  /** The order each option promises. */
  lemma ApplyFiltersOrder(replays: seq<Record>, query: string, sort: string, dateKey: string -> real)
    ensures var res := ApplyFilters(replays, query, sort, dateKey);
      forall i, j :: 0 <= i < j < |res| ==>
        (sort == "maxwin" || sort == "newest" ==> dateKey(res[i].date) >= dateKey(res[j].date)) &&
        (sort == "oldest" ==> dateKey(res[i].date) <= dateKey(res[j].date)) &&
        (sort == "highest-x" ==> res[i].x >= res[j].x) &&
        (sort == "biggest-win" ==> res[i].win >= res[j].win)
  {
    if KnownSort(sort) {
      SortDescSorted(Selected(replays, query, sort), SortKey(sort, dateKey));
    }
  }

  /** Replays that tie on the sort key stay in their original order. */
  lemma ApplyFiltersStable(replays: seq<Record>, query: string, sort: string, dateKey: string -> real, v: real)
    requires KnownSort(sort)
    ensures WithKey(ApplyFilters(replays, query, sort, dateKey), SortKey(sort, dateKey), v) ==
      WithKey(Selected(replays, query, sort), SortKey(sort, dateKey), v)
  {
    SortDescStable(Selected(replays, query, sort), SortKey(sort, dateKey), v);
  }

  /** A blank query with an option that does not sort shows the replays as they are. */
  lemma ApplyFiltersIdentity(replays: seq<Record>, query: string, sort: string, dateKey: string -> real)
    requires AllSpace(query) && !KnownSort(sort)
    ensures ApplyFilters(replays, query, sort, dateKey) == replays
  {
    TrimShape(query);
  }
}
