/** Texts that stand at an offset of another. */
module Texts {

  predicate Occurs(t: string, i: nat, s: string) {
    i + |s| <= |t| && forall k {:trigger s[k]} :: 0 <= k < |s| ==> t[i + k] == s[k]
  }

  predicate NoBrace(s: string) {
    forall i :: 0 <= i < |s| ==> s[i] != '}'
  }

  lemma Split(t: string, i: nat, x: string, y: string)
    requires Occurs(t, i, x + y)
    ensures Occurs(t, i, x) && Occurs(t, i + |x|, y)
  {
    assert forall k :: 0 <= k < |x| ==> (x + y)[k] == x[k];
    assert forall k :: 0 <= k < |y| ==> (x + y)[|x| + k] == y[k];
  }

  /** What is left of a text from an offset on starts with `head`. */
  lemma Leads(t: string, i: nat, head: string, rest: string)
    requires i <= |t| && t[i..] == head + rest
    ensures Occurs(t, i, head) && t[i + |head|..] == rest
  {
    assert t[i + |head|..] == t[i..][|head|..];
    assert forall k {:trigger head[k]} :: 0 <= k < |head| ==> t[i..][k] == head[k];
  }

  lemma First(t: string, i: nat, s: string)
    requires Occurs(t, i, s) && s != ""
    ensures t[i] == s[0] && Occurs(t, i + 1, s[1..])
  {
    assert t[i + 0] == s[0];
    assert forall k :: 0 <= k < |s| - 1 ==> s[1..][k] == s[k + 1];
  }
}
