/** String searches used throughout the C++ sources (`std::string::find`, `std::find`, `starts_with`). */
module Strings {
  import opened Wrappers

  /** `starts_with(str, pattern, 0)`: `pattern` is a prefix of `str`, so `find` meets it at 0. */
  predicate StartsWith(s: string, p: string): (b: bool)
    ensures b <==> Find(s, p) == Some(0)
  {
    |p| <= |s| && s[..|p|] == p
  }

  predicate OccursAt(s: string, p: string, i: nat) {
    i + |p| <= |s| && s[i..i + |p|] == p
  }

  /** `s.find(p, from)`: the first position at or after `from` where `p` occurs. */
  function FindFrom(s: string, p: string, from: nat): (r: Option<nat>)
    decreases |s| - from
    ensures r.Some? ==> from <= r.value && OccursAt(s, p, r.value)
    ensures r.Some? ==> forall j :: from <= j < r.value ==> !OccursAt(s, p, j)
    ensures r.None? ==> forall j :: from <= j ==> !OccursAt(s, p, j)
  {
    if from + |p| > |s| then None
    else if s[from..from + |p|] == p then Some(from)
    else FindFrom(s, p, from + 1)
  }

  /** `s.find(p)`, with `None` for `std::string::npos`. */
  function Find(s: string, p: string): (r: Option<nat>)
    ensures r.Some? ==> OccursAt(s, p, r.value)
    ensures r.Some? ==> forall j :: 0 <= j < r.value ==> !OccursAt(s, p, j)
    ensures r.None? ==> forall j :: !OccursAt(s, p, j)
  {
    FindFrom(s, p, 0)
  }

  predicate Contains(s: string, p: string) {
    Find(s, p).Some?
  }

  /** An occurrence at `k` with none before it is what `Find` returns. */
  lemma FindIsFirst(s: string, p: string, k: nat)
    requires OccursAt(s, p, k)
    requires forall j :: 0 <= j < k ==> !OccursAt(s, p, j)
    ensures Find(s, p) == Some(k)
  {
  }

  /** `std::find(s.begin() + from, s.end(), c)`: first index at or after `from` holding `c`, or `|s|`. */
  function IndexOfChar(s: string, from: nat, c: char): (k: nat)
    requires from <= |s|
    decreases |s| - from
    ensures from <= k <= |s|
    ensures k < |s| ==> s[k] == c
    ensures forall j :: from <= j < k ==> s[j] != c
  {
    if from == |s| || s[from] == c then from else IndexOfChar(s, from + 1, c)
  }

  /** The first `c` at or after `from` is the index `IndexOfChar` returns. */
  lemma {:induction false} IndexOfCharAt(s: string, from: nat, c: char, k: nat)
    requires from <= k <= |s|
    requires k < |s| ==> s[k] == c
    requires forall j :: from <= j < k ==> s[j] != c
    ensures IndexOfChar(s, from, c) == k
    decreases k - from
  {
    if from < k {
      IndexOfCharAt(s, from + 1, c, k);
    }
  }

  // ---------------------------------------------------------------- copying up to a delimiter

  /** The text of `s` from `from` up to (not including) the first `c`, or to the end. */
  function TakeUntil(s: string, from: nat, c: char): (r: string)
    requires from <= |s|
    ensures c !in r
    ensures from + |r| <= |s| && s[from..from + |r|] == r
    ensures from + |r| == |s| || s[from + |r|] == c
  {
    s[from..IndexOfChar(s, from, c)]
  }

  /**
   * The `push_back` loop shared by the id extractor and the API-key scan; with `c == '\0'` it is
   * also the copy `std::string(s.c_str() + from)` makes, which stops at the first NUL.
   */
  method CopyUntil(s: string, from: nat, c: char) returns (res: string)
    requires from <= |s|
    ensures res == TakeUntil(s, from, c)
  {
    res := "";
    var pos := from;
    while pos < |s| && s[pos] != c
      invariant from <= pos <= |s|
      invariant res == s[from..pos]
      invariant forall j :: from <= j < pos ==> s[j] != c
    {
      res := res + [s[pos]];
      pos := pos + 1;
    }
    IndexOfCharAt(s, from, c, pos);
  }

  /** Without a `c` after `from`, the copy runs to the end. */
  lemma TakeUntilAbsent(s: string, from: nat, c: char)
    requires from <= |s|
    ensures c !in s[from..] ==> TakeUntil(s, from, c) == s[from..]
  {
    if c !in s[from..] {
      forall j | from <= j < |s|
        ensures s[j] != c
      {
        assert s[j] == s[from..][j - from];
      }
      IndexOfCharAt(s, from, c, |s|);
    }
  }
}
