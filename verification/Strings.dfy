/** Pieces of text that several readers look for. */
module Strings {
  /** The index of the first `c`, or the length. */
  function Find(s: string, c: char): (k: nat)
    ensures k <= |s|
  {
    if s == "" || s[0] == c then 0 else 1 + Find(s[1..], c)
  }

  lemma {:induction false} FindIsFirst(s: string, c: char, k: nat)
    requires k <= |s|
    ensures Find(s, c) == k <==> (k < |s| ==> s[k] == c) && forall i :: 0 <= i < k ==> s[i] != c
  {
    if s == "" || s[0] == c {
    } else if k > 0 {
      FindIsFirst(s[1..], c, k - 1);
      assert forall i :: 1 <= i < k ==> s[i] == s[1..][i - 1];
    }
  }

  /** The text of a C string. */
  function UntilNul(s: string): (t: string)
    ensures t <= s && '\0' !in t
    ensures '\0' !in s ==> t == s
  {
    if s == "" || s[0] == '\0' then "" else [s[0]] + UntilNul(s[1..])
  }
}
