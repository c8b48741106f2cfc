/** Vocabulary shared by the crawler's components: optional values, results,
    and the two character searches the crawler performs on strings. */
module Common {

  datatype Option<+T> = None | Some(value: T)

  datatype Result<+T, +E> = Ok(value: T) | Err(error: E)

  /** True when no character of `s` belongs to `cs`. */
  predicate NoneOf(s: string, cs: set<char>) {
    forall i :: 0 <= i < |s| ==> s[i] !in cs
  }

  /** Index of the first character of `s` that belongs to `stops`, or `|s|`
      when there is none. */
  function FindAny(s: string, stops: set<char>): (n: nat)
    ensures n <= |s|
    ensures forall i :: 0 <= i < n ==> s[i] !in stops
    ensures n < |s| ==> s[n] in stops
  {
    if s == [] || s[0] in stops then 0 else 1 + FindAny(s[1..], stops)
  }

  /** A search through `a + b` stops at the seam when `a` holds no stop
      character and `b` starts with one (or is empty). */
  lemma FindAnyAtSeam(a: string, b: string, stops: set<char>)
    requires NoneOf(a, stops)
    requires b == [] || b[0] in stops
    ensures FindAny(a + b, stops) == |a|
  {
    assert b != [] ==> (a + b)[|a|] == b[0];
  }

  /** Position just past the last '/' of `s`, or 0 when `s` holds none: what
      Python computes as `s.rfind('/') + 1`. */
  function AfterLastSlash(s: string): (n: nat)
    ensures n <= |s|
    ensures n > 0 ==> s[n - 1] == '/'
    ensures '/' !in s[n..]
  {
    if s == [] then 0
    else if s[|s| - 1] == '/' then |s|
    else
      var m := AfterLastSlash(s[..|s| - 1]);
      assert s[m..] == s[..|s| - 1][m..] + [s[|s| - 1]];
      m
  }

  /** `AfterLastSlash` is the only position that follows a '/' (or starts
      the text) and is followed by no '/'. */
  lemma AfterLastSlashIsUnique(s: string, n: nat)
    requires n <= |s| && (n > 0 ==> s[n - 1] == '/') && '/' !in s[n..]
    ensures AfterLastSlash(s) == n
  {
    var m := AfterLastSlash(s);
    assert forall i :: m <= i < |s| ==> s[i] != '/' by {
      assert forall i :: m <= i < |s| ==> s[i] == s[m..][i - m];
    }
    assert forall i :: n <= i < |s| ==> s[i] != '/' by {
      assert forall i :: n <= i < |s| ==> s[i] == s[n..][i - n];
    }
  }

  /** Indexing past a prefix lands in the middle part. */
  lemma AtMiddle<T>(a: seq<T>, b: seq<T>, c: seq<T>, m: nat)
    requires m < |b|
    ensures |a| + m < |a + (b + c)| && (a + (b + c))[|a| + m] == b[m]
  {
  }

  lemma ConcatAssociates(a: string, b: string, c: string)
    ensures (a + b) + c == a + (b + c)
  {
  }

  lemma NoneOfConcat(a: string, b: string, cs: set<char>)
    requires NoneOf(a, cs) && NoneOf(b, cs)
    ensures NoneOf(a + b, cs)
  {
  }

  lemma NoneOfSlice(s: string, i: nat, j: nat, cs: set<char>)
    requires i <= j <= |s| && NoneOf(s, cs)
    ensures NoneOf(s[i..j], cs)
  {
  }
}
