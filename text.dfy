/**
 * String helpers shared by the pipeline: the parts of JavaScript's String API
 * that app.js relies on (trim, toLowerCase, includes, join, counting a
 * character), written over `string == seq<char>`.
 */
module Text {

  datatype Option<T> = None | Some(value: T)

  /** The characters of JavaScript's `\s` class; `String.prototype.trim` strips the same set. */
  predicate IsSpace(c: char) {
    c == ' ' || c == '\t' || c == '\n' || c == '\r' || c == '\U{000B}' || c == '\U{000C}' ||
    c == '\U{00A0}' || c == '\U{1680}' || ('\U{2000}' <= c <= '\U{200A}') ||
    c == '\U{2028}' || c == '\U{2029}' || c == '\U{202F}' || c == '\U{205F}' ||
    c == '\U{3000}' || c == '\U{FEFF}'
  }

  /** `\d` in a regular expression without the `u` flag: ASCII digits only. */
  predicate IsDigit(c: char) {
    '0' <= c <= '9'
  }

  predicate AllSpace(s: string) {
    forall i :: 0 <= i < |s| ==> IsSpace(s[i])
  }

  predicate AllDigits(s: string) {
    forall i :: 0 <= i < |s| ==> IsDigit(s[i])
  }

  /** ASCII case folding. */
  function Lower(c: char): char {
    if 'A' <= c <= 'Z' then (c as int + 32) as char else c
  }

  function ToLower(s: string): string {
    seq(|s|, i requires 0 <= i < |s| => Lower(s[i]))
  }

  lemma ToLowerIdempotent(s: string)
    ensures ToLower(ToLower(s)) == ToLower(s)
  {
  }

  function TrimStart(s: string): (r: string)
    ensures |r| <= |s|
  {
    if s != [] && IsSpace(s[0]) then TrimStart(s[1..]) else s
  }

  function TrimEnd(s: string): string {
    if s != [] && IsSpace(s[|s| - 1]) then TrimEnd(s[..|s| - 1]) else s
  }

  /** `String.prototype.trim`. */
  function Trim(s: string): string {
    TrimEnd(TrimStart(s))
  }

  /** A string with no white space at either end. */
  predicate Trimmed(s: string) {
    s == [] || (!IsSpace(s[0]) && !IsSpace(s[|s| - 1]))
  }

  lemma {:induction false} TrimStartShape(s: string)
    ensures TrimStart(s) == [] || !IsSpace(TrimStart(s)[0])
    ensures TrimStart(s) == [] <==> AllSpace(s)
    ensures !AllSpace(s) ==> TrimStart(s) != [] && TrimStart(s)[|TrimStart(s)| - 1] == s[|s| - 1]
  {
    if s != [] && IsSpace(s[0]) {
      TrimStartShape(s[1..]);
      assert AllSpace(s) <==> AllSpace(s[1..]) by {
        if AllSpace(s[1..]) {
          forall i | 0 <= i < |s| ensures IsSpace(s[i]) {
            if i > 0 { assert s[i] == s[1..][i - 1]; }
          }
        }
      }
    }
  }

  lemma {:induction false} TrimEndShape(s: string)
    ensures TrimEnd(s) == [] || !IsSpace(TrimEnd(s)[|TrimEnd(s)| - 1])
    ensures TrimEnd(s) == [] <==> AllSpace(s)
    ensures TrimEnd(s) != [] ==> TrimEnd(s)[0] == s[0]
    ensures TrimEnd(s) <= s
  {
    if s != [] && IsSpace(s[|s| - 1]) {
      TrimEndShape(s[..|s| - 1]);
      assert AllSpace(s) <==> AllSpace(s[..|s| - 1]) by {
        if AllSpace(s[..|s| - 1]) {
          forall i | 0 <= i < |s| ensures IsSpace(s[i]) {
            if i < |s| - 1 { assert s[i] == s[..|s| - 1][i]; }
          }
        }
      }
    }
  }

  /** Dropping `k` leading white-space characters, when the next one is not white space, is TrimStart. */
  lemma {:induction false} TrimStartDrop(s: string, k: nat)
    requires k <= |s| && AllSpace(s[..k])
    requires k < |s| ==> !IsSpace(s[k])
    ensures TrimStart(s) == s[k..]
  {
    if k > 0 {
      assert IsSpace(s[..k][0]);
      assert s[1..][..k - 1] == s[1..k];
      TrimStartDrop(s[1..], k - 1);
      assert s[1..][k - 1..] == s[k..];
    }
  }

  /** White space in front of a text that is not blank is all TrimStart removes: what follows that text is kept. */
  lemma {:induction false} TrimStartAppend(a: string, b: string)
    requires !AllSpace(a)
    ensures TrimStart(a + b) == TrimStart(a) + b
  {
    assert a != [];
    DropHead(a, b);
    if IsSpace(a[0]) {
      assert !AllSpace(a[1..]) by {
        if AllSpace(a[1..]) {
          forall i | 0 <= i < |a| ensures IsSpace(a[i]) {
            if i > 0 { assert a[i] == a[1..][i - 1]; }
          }
        }
      }
      TrimStartAppend(a[1..], b);
    }
  }

  /** The trimmed string has no white space at its ends, and it is empty exactly for blank input. */
  lemma TrimShape(s: string)
    ensures Trimmed(Trim(s))
    ensures Trim(s) == [] <==> AllSpace(s)
  {
    TrimStartShape(s);
    TrimEndShape(TrimStart(s));
  }

  /** Trimming changes nothing when there is no white space at either end. */
  lemma TrimOfTrimmed(s: string)
    requires Trimmed(s)
    ensures Trim(s) == s
  {
  }

  lemma TrimIdempotent(s: string)
    ensures Trim(Trim(s)) == Trim(s)
  {
    TrimShape(s);
    TrimOfTrimmed(Trim(s));
  }

  // Sequence identities, stated generically so that the solver does not look inside the elements.

  lemma SliceCons<T>(acc: seq<T>, xs: seq<T>)
    requires |xs| > 1
    ensures acc + [xs[0]] + xs[1..][..|xs| - 2] == acc + xs[..|xs| - 1]
  {
  }

  lemma SplitLast<T>(xs: seq<T>)
    requires xs != []
    ensures xs[..|xs| - 1] + [xs[|xs| - 1]] == xs
  {
  }

  lemma AppendCons<T>(acc: seq<T>, xs: seq<T>)
    requires xs != []
    ensures acc + [xs[0]] + xs[1..] == acc + xs
  {
  }

  lemma ConcatSlices<T>(a: seq<T>, b: seq<T>, k: nat)
    requires k <= |b|
    ensures (a + b)[..|a|] == a && (a + b)[|a| + k..] == b[k..]
  {
  }

  lemma DropHead<T>(a: seq<T>, b: seq<T>)
    requires a != []
    ensures (a + b)[1..] == a[1..] + b
  {
  }

  /** Number of occurrences of `c` in `s` (what `(s.match(/c/g)||[]).length` counts). */
  function Count(s: string, c: char): nat {
    if s == [] then 0 else (if s[0] == c then 1 else 0) + Count(s[1..], c)
  }

  lemma {:induction false} CountAppend(a: string, b: string, c: char)
    ensures Count(a + b, c) == Count(a, c) + Count(b, c)
  {
    if a == [] {
      assert a + b == b;
    } else {
      assert (a + b)[0] == a[0] && (a + b)[1..] == a[1..] + b;
      CountAppend(a[1..], b, c);
    }
  }

  lemma {:induction false} CountAbsent(s: string, c: char)
    requires c !in s
    ensures Count(s, c) == 0
  {
    if s != [] {
      CountAbsent(s[1..], c);
    }
  }

  /** Removes every occurrence of `c` (a `replace` with a global pattern and empty replacement). */
  function RemoveAll(s: string, c: char): string {
    if s == [] then [] else (if s[0] == c then [] else [s[0]]) + RemoveAll(s[1..], c)
  }

  lemma {:induction false} RemoveAbsent(s: string, c: char)
    requires c !in s
    ensures RemoveAll(s, c) == s
  {
    if s != [] {
      RemoveAbsent(s[1..], c);
    }
  }

  lemma {:induction false} RemoveAllAppend(a: string, b: string, c: char)
    ensures RemoveAll(a + b, c) == RemoveAll(a, c) + RemoveAll(b, c)
  {
    if a == [] {
      assert a + b == b;
    } else {
      assert (a + b)[0] == a[0] && (a + b)[1..] == a[1..] + b;
      RemoveAllAppend(a[1..], b, c);
    }
  }

  /** Replaces the first occurrence of `c` by `rep` (a `replace` with a plain string pattern). */
  function ReplaceFirst(s: string, c: char, rep: char): string {
    if s == [] then []
    else if s[0] == c then [rep] + s[1..]
    else [s[0]] + ReplaceFirst(s[1..], c, rep)
  }

  lemma {:induction false} ReplaceFirstAt(a: string, b: string, c: char, rep: char)
    requires c !in a
    ensures ReplaceFirst(a + [c] + b, c, rep) == a + [rep] + b
  {
    if a != [] {
      assert (a + [c] + b)[1..] == a[1..] + [c] + b;
      ReplaceFirstAt(a[1..], b, c, rep);
    }
  }

  /** `s.lastIndexOf(c)`: the last position of `c`, or -1. */
  function LastIndexOf(s: string, c: char): (r: int)
    ensures -1 <= r < |s|
    ensures r >= 0 ==> s[r] == c && forall j :: r < j < |s| ==> s[j] != c
    ensures r == -1 <==> c !in s
  {
    if s == [] then -1
    else if s[|s| - 1] == c then |s| - 1
    else LastIndexOf(s[..|s| - 1], c)
  }

  /** The last occurrence in a concatenation lies in the second part when that part holds one. */
  lemma {:induction false} LastIndexOfAppend(x: string, y: string, c: char)
    ensures LastIndexOf(x + y, c) == if c in y then |x| + LastIndexOf(y, c) else LastIndexOf(x, c)
    decreases |y|
  {
    if y == [] {
      assert x + y == x;
    } else {
      var y' := y[..|y| - 1];
      assert (x + y)[..|x + y| - 1] == x + y';
      assert (x + y)[|x + y| - 1] == y[|y| - 1];
      assert y == y' + [y[|y| - 1]];
      LastIndexOfAppend(x, y', c);
    }
  }

  /** `parts.join(sep)`. */
  function Join(parts: seq<string>, sep: string): string {
    if parts == [] then []
    else if |parts| == 1 then parts[0]
    else parts[0] + sep + Join(parts[1..], sep)
  }

  /** `q` occurs in `s` starting at position `i`. */
  predicate OccursAt(s: string, q: string, i: nat) {
    i + |q| <= |s| && s[i..i + |q|] == q
  }

  /** `s.includes(q)`. */
  predicate Contains(s: string, q: string) {
    exists i: nat | i <= |s| :: OccursAt(s, q, i)
  }
}
