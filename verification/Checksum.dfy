/** The Internet checksum: libnet's two-step fold, and section 4.1 of RFC 1071. */
module Checksum {
  import opened Ints
  import opened Seqs

  const M := 0x1_0000

  /** One fold of the carries: x >> 16 added to x & 0xffff. */
  function Fold(x: nat): nat {
    x / M + x % M
  }

  /** ~x & 0xffff, of a 32-bit x. */
  function Complement(x: uint32): uint16 {
    (U32 - 1 - x) % M
  }

  /** LIBNET_CKSUM_CARRY: x is folded once, and folded again without masking the result. */
  function CksumCarry(x: uint32): uint16 {
    var x1 := x / M + x % M;
    Complement(x1 + x1 / M)
  }

  /** The loop of RFC 1071: fold while there is a carry, then complement. */
  function FoldAll(x: nat): (r: nat)
    ensures r < M
    decreases x
  {
    if x < M then x else FoldAll(Fold(x))
  }

  function RfcChecksum(x: uint32): uint16 {
    M - 1 - FoldAll(x)
  }

  lemma FoldKeepsResidue(x: nat)
    ensures Fold(x) % (M - 1) == x % (M - 1)
    ensures x > 0 ==> Fold(x) > 0
  {
    assert x == (M - 1) * (x / M) + Fold(x);
  }

  lemma {:induction false} FoldAllKeepsResidue(x: nat)
    ensures FoldAll(x) % (M - 1) == x % (M - 1)
    ensures x > 0 ==> FoldAll(x) > 0
    decreases x
  {
    if x >= M {
      FoldKeepsResidue(x);
      FoldAllKeepsResidue(Fold(x));
    }
  }

  /** Two folds are enough for every 32-bit sum, so the macro is the loop; and the result is the negative of
      the sum in ones' complement, modulo 65535. */
  lemma MacroIsLoop(x: uint32)
    ensures CksumCarry(x) == RfcChecksum(x)
    ensures (CksumCarry(x) + x) % (M - 1) == 0
  {
    hide FoldAll, Complement;
    TwoFolds(x / M, x % M);
    ComplementIs(Fold(x) + Fold(x) / M);
    FoldAllKeepsResidue(x);
    SameResidue(x, FoldAll(x));
  }

  lemma SameResidue(x: nat, r: nat)
    requires x % (M - 1) == r % (M - 1)
    ensures (M - 1 - r + x) % (M - 1) == 0
  {
    var k := 1 + x / (M - 1) - r / (M - 1);
    assert M - 1 - r + x == (M - 1) * k;
  }

  lemma ComplementIs(y: uint32)
    requires y < 2 * M
    ensures Complement(y) == M - 1 - y % M
  {
  }

  lemma TwoFolds(q: nat, r: nat)
    requires q < M && r < M
    ensures var x1 := q + r; FoldAll(q * M + r) == (x1 + x1 / M) % M && x1 + x1 / M < 2 * M
  {
    var x, x1 := q * M + r, q + r;
    assert Fold(x) == x1;
    if x1 < M {
      assert FoldAll(x1) == x1;
    } else {
      assert Fold(x1) == 1 + (x1 - M) < M;
      assert FoldAll(x1) == FoldAll(Fold(x1)) == x1 + 1 - M;
    }
    if q == 0 {
      assert x == x1;
    } else {
      assert FoldAll(x) == FoldAll(x1);
    }
  }

  // ----- messages

  function WordSum(ws: seq<uint16>): nat {
    if ws == [] then 0 else WordSum(Init(ws)) + Last(ws)
  }

  lemma {:induction false} WordSumSplit(a: seq<uint16>, b: seq<uint16>)
    ensures WordSum(a + b) == WordSum(a) + WordSum(b)
    decreases |b|
  {
    if b == [] {
      assert a + b == a;
    } else {
      WordSumSplit(a, Init(b));
      assert Init(a + b) == a + Init(b) && Last(a + b) == Last(b);
    }
  }

  /** A message that carries its checksum, wherever in it, verifies: the fold of its sum is 0. */
  lemma MessageVerifies(before: seq<uint16>, after: seq<uint16>)
    requires WordSum(before) + WordSum(after) + (M - 1) < U32
    ensures WordSum(before + after) < U32
    ensures var c := CksumCarry(WordSum(before + after));
            WordSum(before + [c] + after) < U32 && CksumCarry(WordSum(before + [c] + after)) == 0
  {
    WordSumSplit(before, after);
    var x := WordSum(before + after);
    var c := CksumCarry(x);
    WordSumSplit(before + [c], after);
    WordSumSplit(before, [c]);
    assert WordSum([c]) == WordSum(Init([c])) + c == c;
    MacroIsLoop(x);
    AddedBack(x + c);
  }

  /** A positive sum that is 0 modulo 65535 folds to all ones. */
  lemma AddedBack(y: uint32)
    requires y > 0 && y % (M - 1) == 0
    ensures CksumCarry(y) == 0
  {
    MacroIsLoop(y);
    FoldAllKeepsResidue(y);
    var r := FoldAll(y);
    assert 0 < r < M && r % (M - 1) == 0;
  }

  /** Adding a checksum back to its sum makes the refold 0, unless the addition overflows. */
  lemma RefoldIsZero(x: uint32)
    requires x + CksumCarry(x) < U32
    ensures CksumCarry(x + CksumCarry(x)) == 0
  {
    MacroIsLoop(x);
    AddedBack(x + CksumCarry(x));
  }
}
