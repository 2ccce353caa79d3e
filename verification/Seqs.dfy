// Small facts about sequences used throughout.

module Seqs {

  lemma Shift<T>(p: seq<T>, q: seq<T>)
    requires q != []
    ensures p + q == p + [q[0]] + q[1..] && (p + q)[|p|] == q[0]
  {
    assert q == [q[0]] + q[1..];
  }

  lemma Cut<T>(s: seq<T>, i: nat)
    requires i < |s|
    ensures s == s[..i] + [s[i]] + s[i + 1..]
  {
  }

  lemma Assoc<T>(a: seq<T>, b: seq<T>, c: seq<T>)
    ensures a + (b + c) == a + b + c
  {
  }

  lemma Halves<T>(s: seq<T>, k: nat)
    requires k <= |s|
    ensures s == s[..k] + s[k..]
  {
  }

  lemma Uncons<T>(s: seq<T>, k: nat)
    requires k < |s|
    ensures s[k..] == [s[k]] + s[k + 1..]
  {
  }

  lemma NothingLeft<T>(a: seq<T>, b: seq<T>, whole: seq<T>)
    requires a + b == whole && b == []
    ensures a == whole
  {
  }

  // A part moves from what is left to what is done.
  lemma Advance<T>(done: seq<T>, x: seq<T>, rest: seq<T>, left: seq<T>, whole: seq<T>)
    requires left == x + rest && done + left == whole
    ensures done + x + rest == whole
  {
  }

  // Neighbouring slices make one slice.
  lemma Slices<T>(s: seq<T>, a: nat, b: nat, c: nat)
    requires a <= b <= c <= |s|
    ensures s[a..b] + s[b..c] == s[a..c]
  {
  }
}
