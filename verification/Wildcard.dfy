// Matching file names against patterns with ? and *.

module Wildcard {
  // Strings are sequences of character codes other than 0, which ends them in memory.
  type Text = seq<nat>

  const ANY_ONE := 0x3F
  const ANY_RUN := 0x2A

  lemma Signs()
    ensures ANY_ONE == '?' as int && ANY_RUN == '*' as int
  {
  }

  predicate Wild(c: nat) { c == ANY_ONE || c == ANY_RUN }

  // The language of a pattern, up to the case folding `up`.
  ghost predicate Matches(up: nat -> nat, pat: Text, s: Text)
    decreases pat
  {
    if pat == [] then s == []
    else if pat[0] == ANY_ONE then s != [] && Matches(up, pat[1..], s[1..])
    else if pat[0] == ANY_RUN then exists k: nat :: k <= |s| && Matches(up, pat[1..], s[k..])
    else s != [] && up(pat[0]) == up(s[0]) && Matches(up, pat[1..], s[1..])
  }

  // What a call with pre-skipped characters and a flag for * means.
  ghost predicate Meant(up: nat -> nat, pat: Text, s: Text, skip: nat, run: bool) {
    exists k: nat :: skip <= k <= |s| && (run || k == skip) && Matches(up, pat, s[k..])
  }

  predicate Proper(up: nat -> nat, s: Text) {
    forall i :: 0 <= i < |s| ==> up(s[i]) != 0
  }

  // ---------------------------------------------------------------- blocks of wildcards

  // Number of ? in a block of wildcards.
  function Ones(pat: Text, n: nat): nat
    requires n <= |pat|
  {
    if n == 0 then 0 else Ones(pat, n - 1) + if pat[n - 1] == ANY_ONE then 1 else 0
  }

  predicate HasRun(pat: Text, n: nat)
    requires n <= |pat|
  {
    exists i :: 0 <= i < n && pat[i] == ANY_RUN
  }

  predicate AllWild(pat: Text, n: nat) {
    n <= |pat| && forall i :: 0 <= i < n ==> Wild(pat[i])
  }

  // One wildcard in front of what a pattern means.
  lemma WildStep(up: nat -> nat, pat: Text, s: Text, skip: nat, run: bool)
    requires pat != [] && Wild(pat[0])
    ensures Meant(up, pat, s, skip, run) <==>
            if pat[0] == ANY_ONE then Meant(up, pat[1..], s, skip + 1, run) else Meant(up, pat[1..], s, skip, true)
  {
    var rest := pat[1..];
    if pat[0] == ANY_ONE {
      if Meant(up, pat, s, skip, run) {
        var k: nat :| skip <= k <= |s| && (run || k == skip) && Matches(up, pat, s[k..]);
        assert s[k..][1..] == s[k + 1..];
        assert skip + 1 <= k + 1 <= |s| && Matches(up, rest, s[k + 1..]);
      }
      if Meant(up, rest, s, skip + 1, run) {
        var k: nat :| skip + 1 <= k <= |s| && (run || k == skip + 1) && Matches(up, rest, s[k..]);
        assert s[k - 1..][1..] == s[k..];
        assert Matches(up, pat, s[k - 1..]);
      }
    } else {
      if Meant(up, pat, s, skip, run) {
        var k: nat :| skip <= k <= |s| && (run || k == skip) && Matches(up, pat, s[k..]);
        var m: nat :| m <= |s[k..]| && Matches(up, rest, s[k..][m..]);
        assert s[k..][m..] == s[k + m..];
        assert skip <= k + m <= |s| && Matches(up, rest, s[k + m..]);
      }
      if Meant(up, rest, s, skip, true) {
        var k: nat :| skip <= k <= |s| && Matches(up, rest, s[k..]);
        assert s[skip..][k - skip..] == s[k..];
        assert Matches(up, pat, s[skip..]);
      }
    }
  }

  // A block of wildcards skips as many characters as it has ?, and any number more if it
  // has a *.
  lemma {:induction false} BlockMeans(up: nat -> nat, pat: Text, s: Text, n: nat)
    requires AllWild(pat, n)
    ensures Meant(up, pat, s, 0, false) <==> Meant(up, pat[n..], s, Ones(pat, n), HasRun(pat, n))
  {
    if n == 0 {
      assert pat[0..] == pat;
    } else {
      BlockMeans(up, pat, s, n - 1);
      assert pat[n - 1..][1..] == pat[n..];
      WildStep(up, pat[n - 1..], s, Ones(pat, n - 1), HasRun(pat, n - 1));
      assert HasRun(pat, n) <==> HasRun(pat, n - 1) || pat[n - 1] == ANY_RUN;
    }
  }

  lemma MeantPlain(up: nat -> nat, pat: Text, s: Text)
    ensures Meant(up, pat, s, 0, false) <==> Matches(up, pat, s)
  {
    assert s[0..] == s;
  }

  // ---------------------------------------------------------------- plain characters

  predicate Literal(pat: Text, j: nat) {
    j <= |pat| && forall t :: 0 <= t < j ==> !Wild(pat[t])
  }

  // The first j characters are plain and agree.
  predicate Agree(up: nat -> nat, pat: Text, s: Text, j: nat) {
    Literal(pat, j) && j <= |s| && forall t :: 0 <= t < j ==> up(pat[t]) == up(s[t])
  }

  lemma {:induction false} PrefixMeans(up: nat -> nat, pat: Text, s: Text, j: nat)
    requires Agree(up, pat, s, j)
    ensures Matches(up, pat, s) <==> Matches(up, pat[j..], s[j..])
  {
    if j == 0 {
      assert pat[0..] == pat && s[0..] == s;
    } else {
      assert Agree(up, pat[1..], s[1..], j - 1);
      PrefixMeans(up, pat[1..], s[1..], j - 1);
      assert pat[1..][j - 1..] == pat[j..] && s[1..][j - 1..] == s[j..];
    }
  }

  // Plain characters need as many characters of the name.
  lemma {:induction false} NeedsChars(up: nat -> nat, pat: Text, s: Text, j: nat)
    requires Literal(pat, j) && Matches(up, pat, s)
    ensures |s| >= j
  {
    if j > 0 {
      assert Literal(pat[1..], j - 1);
      NeedsChars(up, pat[1..], s[1..], j - 1);
    }
  }

  // ---------------------------------------------------------------- the matcher

  // Counts the ? of a block of wildcards and notes a *.
  method Block(pat: Text, j: nat) returns (n: nat, ones: nat, run: bool)
    requires j < |pat| && Wild(pat[j])
    ensures 0 < n <= |pat| - j && AllWild(pat[j..], n) && ones == Ones(pat[j..], n) && run == HasRun(pat[j..], n)
  {
    ghost var block := pat[j..];
    n, ones, run := 0, 0, false;
    while j + n < |pat| && Wild(pat[j + n])
      invariant 0 <= n <= |block| && AllWild(block, n) && ones == Ones(block, n) && run == HasRun(block, n)
      decreases |pat| - n
    {
      assert block[n] == pat[j + n];
      assert HasRun(block, n + 1) <==> HasRun(block, n) || block[n] == ANY_RUN;
      if pat[j + n] == ANY_ONE {
        ones := ones + 1;
      } else {
        run := true;
      }
      n := n + 1;
    }
  }

  // A failed attempt that used up the name leaves no hope for later starts.
  lemma NoLater(up: nat -> nat, pat: Text, s: Text, j: nat)
    requires Agree(up, pat, s, j) && j == |s| && j < |pat| && (Wild(pat[j]) || Literal(pat, j + 1))
    ensures forall k: nat :: 0 < k <= |s| ==> !Matches(up, pat, s[k..])
  {
    forall k: nat | 0 < k <= |s| ensures !Matches(up, pat, s[k..]) {
      if Matches(up, pat, s[k..]) {
        NeedsChars(up, pat, s[k..], j);
      }
    }
  }

  lemma Mismatch(up: nat -> nat, pat: Text, s: Text, j: nat)
    requires Agree(up, pat, s, j) && (j < |pat| ==> !Wild(pat[j])) && (j < |pat| || j < |s|)
    requires j < |pat| && j < |s| ==> up(pat[j]) != up(s[j])
    ensures !Matches(up, pat, s)
  {
    PrefixMeans(up, pat, s, j);
  }

  // Compares a pattern with a name from its start. `ended` tells that the name was used up.
  method Attempt(up: nat -> nat, pat: Text, s: Text) returns (hit: bool, ended: bool)
    requires Proper(up, pat) && Proper(up, s)
    ensures hit <==> Matches(up, pat, s)
    ensures !hit && ended ==> forall k: nat :: 0 < k <= |s| ==> !Matches(up, pat, s[k..])
    ensures !hit && !ended ==> s != []
    decreases |pat|, 0
  {
    var j := 0;
    while true
      invariant 0 <= j && Agree(up, pat, s, j)
      decreases |pat| - j
    {
      if j < |pat| && Wild(pat[j]) {
        var n, ones, run := Block(pat, j);
        assert pat[j..][n..] == pat[j + n..];
        hit := PatternMatching(up, pat[j + n..], s[j..], ones, run);
        PrefixMeans(up, pat, s, j);
        MeantPlain(up, pat[j..], s[j..]);
        BlockMeans(up, pat[j..], s[j..], n);
        ended := j == |s|;
        if !hit && ended {
          NoLater(up, pat, s, j);
        }
        return;
      }
      var pc := if j < |pat| then up(pat[j]) else 0;
      var nc := if j < |s| then up(s[j]) else 0;
      if pc != nc {
        Mismatch(up, pat, s, j);
        ended := nc == 0;
        if ended {
          NoLater(up, pat, s, j);
        }
        return false, ended;
      }
      if pc == 0 {
        PrefixMeans(up, pat, s, j);
        return true, true;
      }
      j := j + 1;
    }
  }

  // Tells whether a name matches after skipping some characters, or from any later position
  // on when `run` is set.
  method PatternMatching(up: nat -> nat, pat: Text, nam: Text, skip: nat, run: bool) returns (r: bool)
    requires Proper(up, pat) && Proper(up, nam)
    ensures r <==> Meant(up, pat, nam, skip, run)
    decreases |pat|, 1
  {
    if skip > |nam| {
      return false;
    }
    if pat == [] && run {
      assert nam[|nam|..] == [];
      assert Matches(up, pat, nam[|nam|..]);
      return true;
    }
    var i: nat, ended := skip, false;
    while !ended
      invariant skip <= i && (!ended ==> i <= |nam| && (run || i == skip))
      invariant Tried(up, pat, nam, skip, i, run)
      invariant ended ==> !Meant(up, pat, nam, skip, run)
      decreases !ended, |nam| - i
    {
      var hit;
      hit, ended := Attempt(up, pat, nam[i..]);
      if hit {
        return true;
      }
      if ended {
        Hopeless(up, pat, nam, skip, i, run);
      }
      ended := ended || !run;
      i := i + 1;
    }
    return false;
  }

  // All starts before i have failed.
  ghost predicate Tried(up: nat -> nat, pat: Text, nam: Text, skip: nat, i: nat, run: bool) {
    forall k: nat :: skip <= k < i && k <= |nam| && (run || k == skip) ==> !Matches(up, pat, nam[k..])
  }

  lemma Hopeless(up: nat -> nat, pat: Text, nam: Text, skip: nat, i: nat, run: bool)
    requires skip <= i <= |nam| && Tried(up, pat, nam, skip, i, run) && !Matches(up, pat, nam[i..])
    requires forall k: nat :: 0 < k <= |nam[i..]| ==> !Matches(up, pat, nam[i..][k..])
    ensures !Meant(up, pat, nam, skip, run)
  {
    forall k: nat | i < k <= |nam| ensures !Matches(up, pat, nam[k..]) {
      assert nam[i..][k - i..] == nam[k..];
    }
  }

  // Called without characters to skip and without a * before it, the matcher decides the
  // language of the pattern.
  method NameMatches(up: nat -> nat, pat: Text, nam: Text) returns (r: bool)
    requires Proper(up, pat) && Proper(up, nam)
    ensures r <==> Matches(up, pat, nam)
  {
    r := PatternMatching(up, pat, nam, 0, false);
    MeantPlain(up, pat, nam);
  }
}
