// The Internet checksum of frames.

module Checksum {
  import opened Bytes

  const M := 65535

  function At(b: seq<byte>, i: nat): nat
    requires i < |b|
  {
    b[i]
  }

  // Sum with end-around carry, as in section 1 of RFC 1071.
  function AddAround(a: nat, b: nat): (s: nat)
    requires a <= M && b <= M
    ensures s <= M
  {
    if a + b > M then a + b - M else a + b
  }

  // The sum over big-endian 16-bit words; an odd byte counts as the high half of a word.
  function WordSum(b: seq<byte>): (s: nat)
    ensures s <= M
  {
    if b == [] then 0
    else if |b| == 1 then 256 * At(b, 0)
    else AddAround(256 * At(b, 0) + At(b, 1), WordSum(b[2..]))
  }

  // The checksum of section 1 of RFC 1071: the complement of the sum.
  function Internet(b: seq<byte>): (c: nat)
    ensures c <= M
  {
    M - WordSum(b)
  }

  // ---------------------------------------------------------------- plain sums

  function BigSum(b: seq<byte>): nat {
    if b == [] then 0 else if |b| == 1 then 256 * At(b, 0) else 256 * At(b, 0) + At(b, 1) + BigSum(b[2..])
  }

  function LittleSum(b: seq<byte>): nat {
    if b == [] then 0 else if |b| == 1 then At(b, 0) else At(b, 0) + 256 * At(b, 1) + LittleSum(b[2..])
  }

  function HighBytes(b: seq<byte>): nat {
    if |b| <= 1 then 0 else At(b, 1) + HighBytes(b[2..])
  }

  // A sum folded into 16 bits.
  function Fold(t: nat): (c: nat)
    ensures c <= M && (c == 0 <==> t == 0)
  {
    if t == 0 then 0 else (t - 1) % M + 1
  }

  // Folding does not see multiples of 65535.
  lemma FoldShift(c: nat, k: nat)
    requires c > 0
    ensures Fold(c + M * k) == Fold(c)
  {
    assert (c - 1 + M * k) % M == (c - 1) % M;
  }

  lemma FoldSmall(c: nat)
    requires c <= M
    ensures Fold(c) == c
  {
  }

  lemma FoldParts(t: nat) returns (k: nat)
    ensures t == Fold(t) + M * k
  {
    if t == 0 {
      k := 0;
    } else {
      k := (t - 1) / M;
      assert t - 1 == M * ((t - 1) / M) + (t - 1) % M;
    }
  }

  // Carrying around at each step gives the folded sum.
  lemma AroundFold(w: nat, t: nat)
    requires w <= M
    ensures AddAround(w, Fold(t)) == Fold(w + t)
  {
    var k := FoldParts(t);
    var c := Fold(t);
    if w + c > M {
      FoldShift(w + c - M, k + 1);
      assert w + t == w + c - M + M * (k + 1);
      FoldSmall(w + c - M);
    } else if w + c > 0 {
      FoldShift(w + c, k);
      FoldSmall(w + c);
    }
  }

  lemma {:induction false} WordSumFold(b: seq<byte>)
    ensures WordSum(b) == Fold(BigSum(b))
  {
    if |b| == 1 {
      FoldSmall(256 * At(b, 0));
    } else if |b| > 1 {
      WordSumFold(b[2..]);
      AroundFold(256 * At(b, 0) + At(b, 1), BigSum(b[2..]));
    }
  }

  // One more word.
  lemma {:induction false} BigSumWord(b: seq<byte>, x: byte, y: byte)
    requires |b| % 2 == 0
    ensures BigSum(b + [x, y]) == BigSum(b) + 256 * x + y
  {
    var s := b + [x, y];
    if b == [] {
      assert s[2..] == [];
    } else {
      assert s[2..] == b[2..] + [x, y];
      BigSumWord(b[2..], x, y);
    }
  }

  // A message followed by its checksum sums to all ones, which is how a receiver tests it.
  lemma SumsToOnes(b: seq<byte>, hi: byte, lo: byte)
    requires |b| % 2 == 0 && Internet(b) == 256 * hi + lo
    ensures WordSum(b + [hi, lo]) == 0xFFFF
  {
    WordSumFold(b);
    WordSumFold(b + [hi, lo]);
    BigSumWord(b, hi, lo);
    OnesFold(BigSum(b));
  }

  lemma OnesFold(t: nat)
    ensures Fold(t + (M - Fold(t))) == M
  {
    FoldSmall(M);
    if t > 0 {
      var k := FoldParts(t);
      FoldShift(M, k);
      assert t + (M - Fold(t)) == M + M * k;
    }
  }

  // ---------------------------------------------------------------- byte order

  function Swap(c: nat): (s: nat)
    requires c <= M
    ensures s <= M
  {
    c % 256 * 256 + c / 256
  }

  // A little-endian sum times 256 is the big-endian sum up to multiples of 65535.
  lemma {:induction false} Orders(b: seq<byte>)
    ensures 256 * LittleSum(b) == BigSum(b) + M * HighBytes(b)
    ensures LittleSum(b) == 0 <==> BigSum(b) == 0
  {
    if |b| > 1 {
      Orders(b[2..]);
    }
  }

  lemma SwapFold(c: nat)
    requires c <= M
    ensures Fold(256 * c) == Swap(c)
  {
    if c > 0 {
      assert 256 * c == Swap(c) + M * (c / 256);
      FoldShift(Swap(c), c / 256);
      FoldSmall(Swap(c));
    }
  }

  // Byte-order independence, section 2(B) of RFC 1071.
  lemma OrderIndependent(b: seq<byte>)
    ensures WordSum(b) == Swap(Fold(LittleSum(b)))
  {
    var l := LittleSum(b);
    WordSumFold(b);
    Orders(b);
    SwapFold(Fold(l));
    if l > 0 {
      FoldShift(BigSum(b), HighBytes(b));
      var k := FoldParts(l);
      FoldShift(256 * Fold(l), 256 * k);
      assert 256 * l == 256 * Fold(l) + M * (256 * k);
    }
  }

  // ---------------------------------------------------------------- the code

  // Two folds are enough for sums below 2^32.
  lemma TwoFolds(t: nat)
    requires t < 0x1_0000_0000
    ensures var f := t / 0x1_0000 + t % 0x1_0000;
            (f + f / 0x1_0000) % 0x1_0000 == Fold(t)
  {
    var h, l := t / 0x1_0000, t % 0x1_0000;
    var f := h + l;
    assert t == f + M * h;
    if f > 0 {
      FoldShift(f, h);
    }
    if f > M {
      FoldShift(f - M, 1);
      FoldSmall(f - M);
    } else {
      FoldSmall(f);
    }
  }

  lemma {:induction false} LittleBound(b: seq<byte>)
    ensures LittleSum(b) <= (|b| + 1) / 2 * M
  {
    if |b| > 1 {
      LittleBound(b[2..]);
    }
  }

  lemma SwapComplement(c: nat)
    requires c <= M
    ensures Swap(M - c) == M - Swap(c)
  {
    assert (M - c) / 256 == 255 - c / 256 && (M - c) % 256 == 255 - c % 256;
  }

  // The sum of little-endian words, with an odd byte as the low half.
  method SumWords(b: seq<byte>) returns (sum: nat)
    ensures sum == LittleSum(b)
  {
    sum := 0;
    var i := 0;
    while |b| - i > 1
      invariant 0 <= i <= |b| && sum + LittleSum(b[i..]) == LittleSum(b)
    {
      assert b[i..][2..] == b[i + 2..];
      sum := sum + At(b, i) + 256 * At(b, i + 1);
      i := i + 2;
    }
    if i < |b| {
      sum := sum + At(b, i);
    }
  }

  // Sums little-endian words, folds twice, complements and swaps the bytes.
  method IpCheck(b: seq<byte>) returns (r: nat)
    ensures |b| <= 131072 ==> r == Internet(b)
    ensures LittleSum(b) < 0x1_0000_0000 ==> r == Internet(b)
  {
    var sum := SumWords(b);
    LittleBound(b);
    if sum < 0x1_0000_0000 {
      TwoFolds(sum);
    }
    OrderIndependent(b);
    SwapComplement(Fold(sum));
    sum := sum / 0x1_0000 + sum % 0x1_0000;
    sum := sum + sum / 0x1_0000;
    sum := M - sum % 0x1_0000;
    r := sum / 256 + sum % 256 * 256;
  }
}
