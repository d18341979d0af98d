/** What several modules need of sequences and strings. */
module Sequences {
  /** s without its element k. */
  function RemoveAt<T>(s: seq<T>, k: nat): (r: seq<T>)
    requires k < |s|
    ensures |r| == |s| - 1
  {
    s[..k] + s[k + 1..]
  }

  /** n times x. */
  function Repeat<T>(x: T, n: nat): (s: seq<T>)
    ensures |s| == n && forall k :: 0 <= k < n ==> s[k] == x
  {
    seq(n, _ => x)
  }

  function Upper(c: char): char {
    if 'a' <= c <= 'z' then c - 'a' + 'A' else c
  }

  /** The characters are the same, or one is the capital of the other. */
  predicate SameLetter(a: char, b: char) {
    a == b || ('a' <= a <= 'z' && b == a - 'a' + 'A') || ('a' <= b <= 'z' && a == b - 'a' + 'A')
  }

  lemma SameLetterIs(a: char, b: char)
    ensures SameLetter(a, b) <==> Upper(a) == Upper(b)
  {
  }

  /** Names are compared letter by letter. */
  lemma SameNameIs(a: string, b: string)
    ensures SameName(a, b) <==> |a| == |b| && forall i :: 0 <= i < |a| ==> SameLetter(a[i], b[i])
  {
    forall i | 0 <= i < |a| && |a| == |b|
      ensures SameLetter(a[i], b[i]) <==> Upper(a[i]) == Upper(b[i])
    {
      SameLetterIs(a[i], b[i]);
    }
  }

  /** The strings are the same, upper and lower case aside. */
  predicate SameName(a: string, b: string) {
    |a| == |b| && forall i :: 0 <= i < |a| ==> Upper(a[i]) == Upper(b[i])
  }
}
