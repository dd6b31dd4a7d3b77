/** Last occurrences and ASCII lower case. */
module Strings {

  /** Position of the last `c`, or -1. */
  function LastIndexOf(s: string, c: char): (at: int)
    ensures -1 <= at < |s|
    ensures at >= 0 ==> s[at] == c
  {
    if s == "" then -1
    else if s[|s| - 1] == c then |s| - 1
    else LastIndexOf(s[..|s| - 1], c)
  }

  lemma {:induction false} NoneAfterLast(s: string, c: char)
    ensures forall k | LastIndexOf(s, c) < k < |s| :: s[k] != c
  {
    if s != "" && s[|s| - 1] != c {
      NoneAfterLast(s[..|s| - 1], c);
    }
  }

  /** The last `c` of a string that ends in one `c` and a tail free of it is that one. */
  lemma LastIndexAfter(head: string, c: char, tail: string)
    requires c !in tail
    ensures LastIndexOf(head + [c] + tail, c) == |head|
  {
    var front := head + [c];
    assert front[|head|] == c;
    assert (front + tail)[|head| + 1..] == tail;
    LastIndexIs(front + tail, c, |head|);
  }

  lemma LastIndexIs(s: string, c: char, at: nat)
    requires at < |s| && s[at] == c && c !in s[at + 1..]
    ensures LastIndexOf(s, c) == at
  {
    assert forall k | at < k < |s| :: s[k] == s[at + 1..][k - at - 1];
    NoneAfterLast(s, c);
  }

  function LowerChar(c: char): char {
    if 'A' <= c <= 'Z' then (c as int + 32) as char else c
  }

  function Lower(s: string): (r: string)
    ensures |r| == |s|
    ensures forall i | 0 <= i < |s| :: r[i] == LowerChar(s[i])
  {
    if s == "" then "" else [LowerChar(s[0])] + Lower(s[1..])
  }

  /** Lower-casing introduces no punctuation. */
  lemma LowerAvoids(s: string, c: char)
    requires c !in s && !('a' <= c <= 'z')
    ensures c !in Lower(s)
  {
  }

  /** The tail after the last `c` is free of it. */
  lemma TailAvoids(s: string, c: char)
    ensures c !in s[LastIndexOf(s, c) + 1..]
  {
    NoneAfterLast(s, c);
  }

  lemma SuffixAvoids(s: string, c: char, from: nat)
    requires c !in s && from <= |s|
    ensures c !in s[from..]
  {
  }

  /** Capitals fold onto the small letters in alphabetical order, and nothing else changes. */
  lemma LettersFold(i: nat, c: char)
    requires i < 26 && !('A' <= c <= 'Z')
    ensures LowerChar("ABCDEFGHIJKLMNOPQRSTUVWXYZ"[i]) == "abcdefghijklmnopqrstuvwxyz"[i]
    ensures LowerChar(c) == c
  {
  }
}
