/** What the checksum of section 8 of RFC 1952 is: feeding a string its own
    checksum leaves one fixed register, and the nine digits have the published
    check value (src/compact_v2_migration_manifest.h:84-97). */
module Residues {
  import opened Crc32
  import opened LittleEndian
  import opened MachineWords

  const RESIDUE: nat := 0xdebb_20e3

  function Zeros(n: nat): (b: bits)
    ensures |b| == n && forall i :: 0 <= i < n ==> !b[i]
  {
    seq(n, i => false)
  }

  // Bits that have not reached the end yet pass through a step.
  lemma StepThrough(a: bits, c: bits)
    requires |a| == |c| == 32 && !c[0]
    ensures BitStep(Xor(a, c)) == Xor(BitStep(a), c[1..] + [false])
  {
    var x, y := BitStep(Xor(a, c)), Xor(BitStep(a), c[1..] + [false]);
    forall i | 0 <= i < 32 ensures x[i] == y[i] {
      assert i < 31 ==> Xor(a, c)[i + 1] == (a[i + 1] != c[i + 1]);
    }
  }

  lemma {:induction false} StepsThrough(a: bits, c: bits, n: nat)
    requires |a| == |c| == 32 && n <= 32 && forall i :: 0 <= i < n ==> !c[i]
    ensures BitSteps(Xor(a, c), n) == Xor(BitSteps(a, n), c[n..] + Zeros(n))
  {
    if n == 0 {
      assert c[0..] + Zeros(0) == c;
    } else {
      var d := c[n - 1..] + Zeros(n - 1);
      StepsThrough(a, c, n - 1);
      StepThrough(BitSteps(a, n - 1), d);
      assert d[1..] + [false] == c[n..] + Zeros(n);
    }
  }

  lemma {:induction false} MoreSteps(r: bits, q: bits, m: nat, n: nat)
    requires |r| == 32 && q == BitSteps(r, m)
    ensures BitSteps(q, n) == BitSteps(r, m + n)
  {
    if n > 0 {
      MoreSteps(r, q, m, n - 1);
      LastStep(r, m + n - 1);
      LastStep(q, n - 1);
    }
  }

  lemma LastStep(r: bits, n: nat)
    requires |r| == 32
    ensures BitSteps(r, n + 1) == BitStep(BitSteps(r, n))
  {
  }

  lemma {:induction false} ZeroBits(n: nat)
    ensures BitsOf(0, n) == Zeros(n)
  {
    if n > 0 {
      ZeroBits(n - 1);
    }
  }

  // The bits of a number, low part and high part.
  lemma {:induction false} BitsSplit(v: nat, low: nat, high: nat, p: nat, m: nat, n: nat)
    requires m <= n && p == Power2(m) && low < p && v == low + p * high
    ensures BitsOf(v, n) == BitsOf(low, m) + BitsOf(high, n - m)
  {
    if m > 0 {
      SplitHalf(v, low, high, p / 2);
      BitsSplit(v / 2, low / 2, high, p / 2, m - 1, n - 1);
      FirstBit(v, n);
      FirstBit(low, m);
      Regroup(v % 2 == 1, BitsOf(low / 2, m - 1), BitsOf(high, n - m));
    }
  }

  lemma FirstBit(v: nat, n: nat)
    requires n > 0
    ensures BitsOf(v, n) == [v % 2 == 1] + BitsOf(v / 2, n - 1)
  {
  }

  lemma Regroup(b: bool, x: bits, y: bits)
    ensures [b] + (x + y) == ([b] + x) + y
  {
  }

  lemma SplitHalf(v: nat, low: nat, high: nat, h: nat)
    requires v == low + 2 * h * high && low < 2 * h
    ensures v % 2 == low % 2 && v / 2 == low / 2 + h * high && low / 2 < h
  {
    assert v == low + 2 * (h * high);
  }

  lemma SmallBits(v: nat, m: nat, n: nat)
    requires m <= n && v < Power2(m)
    ensures BitsOf(v, n) == BitsOf(v, m) + Zeros(n - m)
  {
    BitsSplit(v, v, 0, Power2(m), m, n);
    ZeroBits(n - m);
  }

  // A byte added above the number `low`.
  lemma ByteAbove(v: nat, low: nat, b: byte, m: nat)
    requires m <= 24 && low < Power2(m) && v == low + Power2(m) * b
    ensures BitsOf(v, 32) == Xor(BitsOf(low, 32), Zeros(m) + BitsOf(b, 32 - m))
    ensures BitsOf(b, 32) == BitsOf(b, 32 - m) + Zeros(m)
  {
    Power2Grows(8, 32 - m);
    SmallBits(b, 32 - m, 32);
    BitsSplit(v, low, b, Power2(m), m, 32);
    SmallBits(low, m, 32);
    Apart(BitsOf(low, m), BitsOf(b, 32 - m), BitsOf(low, 32), BitsOf(v, 32), m);
  }

  // Bits that do not overlap may be added as well as joined.
  lemma Apart(low: bits, high: bits, padded: bits, both: bits, m: nat)
    requires |low| == m <= 32 && |high| == 32 - m && padded == low + Zeros(32 - m) && both == low + high
    ensures both == Xor(padded, Zeros(m) + high)
  {
    var y := Xor(padded, Zeros(m) + high);
    forall i | 0 <= i < 32 ensures both[i] == y[i] {
    }
  }

  lemma {:induction false} PowersAgree(k: nat)
    ensures Power(k) == Power2(8 * k)
  {
    if k > 0 {
      PowersAgree(k - 1);
      assert Power2(8 * k) == 2 * Power2(8 * k - 1);
      assert Power2(8 * k - 1) == 2 * Power2(8 * k - 2);
      assert Power2(8 * k - 2) == 2 * Power2(8 * k - 3);
      assert Power2(8 * k - 3) == 2 * Power2(8 * k - 4);
      assert Power2(8 * k - 4) == 2 * Power2(8 * k - 5);
      assert Power2(8 * k - 5) == 2 * Power2(8 * k - 6);
      assert Power2(8 * k - 6) == 2 * Power2(8 * k - 7);
      assert Power2(8 * k - 7) == 2 * Power2(8 * k - 8);
    }
  }

  // Up to four bytes are taken in as one number.
  lemma {:induction false} FieldTaken(s: seq<byte>, at: nat, k: nat)
    requires at + k <= |s| && k <= 4
    ensures Register(s, at + k) == BitSteps(Xor(Register(s, at), BitsOf(Read(s, at, k), 32)), 8 * k)
  {
    var r := Register(s, at);
    if k == 0 {
      ZeroBits(32);
      assert Xor(r, Zeros(32)) == r;
    } else {
      FieldTaken(s, at, k - 1);
      assert Register(s, at + k) == ByteStep(Register(s, at + k - 1), s[at + k - 1]);
      NextByteTaken(s, at, k - 1, 8 * (k - 1), r, Read(s, at, k - 1), s[at + k - 1]);
    }
  }

  lemma NextByteTaken(s: seq<byte>, at: nat, k: nat, m: nat, r: bits, low: nat, b: byte)
    requires at + k < |s| && k < 4 && m == 8 * k && |r| == 32 && low == Read(s, at, k) && b == s[at + k]
    ensures ByteStep(BitSteps(Xor(r, BitsOf(low, 32)), m), b) == BitSteps(Xor(r, BitsOf(Read(s, at, k + 1), 32)), m + 8)
  {
    ReadSnoc(s, at, k);
    PowersAgree(k);
    ByteAbove(Read(s, at, k + 1), low, b, m);
    ByteTaken(r, BitsOf(low, 32), b, m);
  }

  lemma ByteTaken(r: bits, low: bits, b: byte, m: nat)
    requires |r| == |low| == 32 && m <= 24 && BitsOf(b, 32) == BitsOf(b, 32 - m) + Zeros(m)
    ensures ByteStep(BitSteps(Xor(r, low), m), b)
         == BitSteps(Xor(r, Xor(low, Zeros(m) + BitsOf(b, 32 - m))), m + 8)
  {
    var c := Zeros(m) + BitsOf(b, 32 - m);
    assert Xor(r, Xor(low, c)) == Xor(Xor(r, low), c);
    StepsThrough(Xor(r, low), c, m);
    assert c[m..] == BitsOf(b, 32 - m);
    MoreSteps(Xor(Xor(r, low), c), BitSteps(Xor(Xor(r, low), c), m), m, 8);
  }

  lemma {:induction false} NumberOf(v: nat, n: nat)
    requires v < Power2(n)
    ensures Number(BitsOf(v, n)) == v
  {
    if n > 0 {
      NumberOf(v / 2, n - 1);
      assert BitsOf(v, n)[1..] == BitsOf(v / 2, n - 1);
    }
  }

  lemma {:induction false} BitsOfNumber(b: bits)
    ensures BitsOf(Number(b), |b|) == b
  {
    if b != [] {
      BitsOfNumber(b[1..]);
    }
  }

  // Thirty-two steps from a register of ones.
  lemma ResidueOfOnes()
    ensures BitSteps(BitsOf(INITIAL, 32), 32) == BitsOf(RESIDUE, 32)
  {
    var r := BitsOf(INITIAL, 32);
    OnesHold();
    EightHold(r, 0, 0xffff_ffff, 0x2dfd_1072);
    EightHold(r, 8, 0x2dfd_1072, 0xbe26_ed00);
    EightHold(r, 16, 0xbe26_ed00, 0x00be_26ed);
    EightHold(r, 24, 0x00be_26ed, 0xdebb_20e3);
    ResidueHolds();
    SameWord(BitSteps(r, 32), BitsOf(RESIDUE, 32), 0xdebb_20e3);
  }

  lemma ResidueHolds()
    ensures Holds(BitsOf(RESIDUE, 32), 0xdebb_20e3)
  {
    AgreeDigits([0, 0xd, 0xde, 0xdeb, 0xdebb, 0xdebb2, 0xdebb20, 0xdebb20e, 0xdebb20e3],
                [0, 0xd, 0xde, 0xdeb, 0xdebb, 0xdebb2, 0xdebb20, 0xdebb20e, 0xdebb20e3], 8);
    AgreeHolds(0xdebb_20e3, 0xdebb_20e3);
  }

  lemma Ones()
    ensures forall i :: 0 <= i < 32 ==> BitsOf(INITIAL, 32)[i]
  {
    PowersOfTwo();
    forall i | 0 <= i < 32 ensures BitsOf(INITIAL, 32)[i] {
      OnesOf(INITIAL, 32, i);
    }
  }

  lemma ChecksumLeavesResidue(r: bits, q: bits)
    requires |r| == |q| == 32 && q == BitsOf(Number(Not(r)), 32)
    ensures BitSteps(Xor(r, q), 32) == BitsOf(RESIDUE, 32)
  {
    Ones();
    BitsOfNumber(Not(r));
    assert Xor(r, q) == BitsOf(INITIAL, 32);
    ResidueOfOnes();
  }

  lemma ResidueTellsChecksum(r: bits, v: nat)
    requires |r| == 32 && v < Power2(32) && BitSteps(Xor(r, BitsOf(v, 32)), 32) == BitsOf(RESIDUE, 32)
    ensures v == Number(Not(r))
  {
    var ones := BitsOf(INITIAL, 32);
    Ones();
    ResidueOfOnes();
    BitStepsInjective(Xor(r, BitsOf(v, 32)), ones, 32);
    Complements(r, BitsOf(v, 32), ones);
    NumberOf(v, 32);
  }

  // A string carries its checksum in its last four bytes exactly when all of it leaves
  // this register.
  lemma ResidueIff(s: seq<byte>)
    requires |s| >= 4
    ensures Read(s, |s| - 4, 4) == Checksum(s, |s| - 4) <==> Number(Register(s, |s|)) == 0xdebb_20e3
  {
    var n := |s| - 4;
    TailTaken(s, n);
    Bounds();
    ResidueOf(Register(s, n), Read(s, n, 4), Register(s, |s|));
  }

  lemma TailTaken(s: seq<byte>, n: nat)
    requires |s| == n + 4
    ensures Register(s, |s|) == BitSteps(Xor(Register(s, n), BitsOf(Read(s, n, 4), 32)), 32)
  {
    FieldTaken(s, n, 4);
  }

  lemma Bounds()
    ensures Power(4) == Power2(32) && Number(BitsOf(RESIDUE, 32)) == RESIDUE
  {
    PowersAgree(4);
    PowersOfTwo();
    NumberOf(RESIDUE, 32);
  }

  lemma ResidueOf(r: bits, v: nat, last: bits)
    requires |r| == |last| == 32 && v < Power2(32) && last == BitSteps(Xor(r, BitsOf(v, 32)), 32)
    requires Number(BitsOf(RESIDUE, 32)) == RESIDUE
    ensures v == Number(Not(r)) <==> Number(last) == RESIDUE
  {
    if v == Number(Not(r)) {
      ChecksumLeavesResidue(r, BitsOf(v, 32));
    }
    if Number(last) == RESIDUE {
      NumberInjective(last, BitsOf(RESIDUE, 32));
      ResidueTellsChecksum(r, v);
    }
  }

  lemma Complements(r: bits, q: bits, ones: bits)
    requires |r| == |q| == |ones| && Xor(r, q) == ones && forall i :: 0 <= i < |ones| ==> ones[i]
    ensures q == Not(r)
  {
    forall i | 0 <= i < |r| ensures q[i] == Not(r)[i] {
      assert Xor(r, q)[i];
    }
  }

  predicate Four(s: seq<byte>, at: nat, a: byte, b: byte, c: byte, d: byte) {
    at + 4 <= |s| && s[at] == a && s[at + 1] == b && s[at + 2] == c && s[at + 3] == d
  }

  // The register after `n` bytes holds the word `w`.
  ghost predicate After(s: seq<byte>, n: nat, w: bv32) {
    n <= |s| && Holds(Register(s, n), w)
  }

  // Four more bytes.
  lemma FourBytes(s: seq<byte>, n: nat, v: bv32, b0: byte, w0: bv32, b1: byte, w1: bv32, b2: byte, w2: bv32,
                  b3: byte, w3: bv32)
    requires After(s, n, v) && Four(s, n, b0, b1, b2, b3)
    requires w0 == WordByte(v ^ ByteWord(b0)) && w1 == WordByte(w0 ^ ByteWord(b1))
    requires w2 == WordByte(w1 ^ ByteWord(b2)) && w3 == WordByte(w2 ^ ByteWord(b3))
    ensures After(s, n + 4, w3)
  {
    ByteHolds(s, n, v, b0, w0);
    ByteHolds(s, n + 1, w0, b1, w1);
    ByteHolds(s, n + 2, w1, b2, w2);
    ByteHolds(s, n + 3, w2, b3, w3);
  }

  // The digits 1 to 9 in ASCII stand at `n`.
  predicate NineDigits(s: seq<byte>, n: nat) {
    Four(s, n, 0x31, 0x32, 0x33, 0x34) && Four(s, n + 4, 0x35, 0x36, 0x37, 0x38) && n + 8 < |s| && s[n + 8] == 0x39
  }

  lemma FourDigits(s: seq<byte>, n: nat)
    requires NineDigits(s, n) && n == 0
    ensures After(s, n + 4, 0x641c_1f5c)
  {
    StartHolds(s);
    FourBytes(s, n, 0xffff_ffff, 0x31, 0x7c23_1048, 0x32, 0xb0ac_bb32, 0x33, 0x77b7_9c2d, 0x34, 0x641c_1f5c);
  }

  lemma DigitsTaken(s: seq<byte>, n: nat)
    requires NineDigits(s, n) && n == 0
    ensures After(s, n + 9, 0x340b_c6d9)
  {
    FourDigits(s, n);
    FourBytes(s, n + 4, 0x641c_1f5c, 0x35, 0x340a_c5e3, 0x36, 0xf68d_2c9e, 0x37, 0xaffc_9660, 0x38, 0x651f_2550);
    ByteHolds(s, n + 8, 0x651f_2550, 0x39, 0x340b_c6d9);
  }

  lemma ChecksumOfDigits(s: seq<byte>, n: nat)
    requires NineDigits(s, n) && n == 0
    ensures Checksum(s, n + 9) == 0xcbf4_3926
  {
    DigitsTaken(s, n);
    CheckHolds();
    SameWord(Register(s, n + 9), BitsOf(0x340b_c6d9, 32), 0x340b_c6d9);
    Complemented(0x340b_c6d9);
  }

  // The published check value.
  lemma CheckValue(s: seq<byte>)
    requires s == [0x31, 0x32, 0x33, 0x34, 0x35, 0x36, 0x37, 0x38, 0x39]
    ensures Checksum(s, |s|) == 0xcbf4_3926
  {
    ChecksumOfDigits(s, 0);
  }

  lemma CheckHolds()
    ensures Holds(BitsOf(0x340b_c6d9, 32), 0x340b_c6d9)
  {
    AgreeDigits([0, 0x3, 0x34, 0x340, 0x340b, 0x340bc, 0x340bc6, 0x340bc6d, 0x340bc6d9],
                [0, 0x3, 0x34, 0x340, 0x340b, 0x340bc, 0x340bc6, 0x340bc6d, 0x340bc6d9], 8);
    AgreeHolds(0x340b_c6d9, 0x340b_c6d9);
  }

  lemma {:induction false} NotBits(v: nat, n: nat)
    requires v < Power2(n)
    ensures Not(BitsOf(v, n)) == BitsOf(Power2(n) - 1 - v, n)
  {
    if n > 0 {
      NotBits(v / 2, n - 1);
      var w := Power2(n) - 1 - v;
      assert w / 2 == Power2(n - 1) - 1 - v / 2 && (w % 2 == 1) == !(v % 2 == 1);
      assert BitsOf(v, n) == [v % 2 == 1] + BitsOf(v / 2, n - 1);
    }
  }

  lemma Complemented(v: nat)
    requires v <= 0xffff_ffff
    ensures Number(Not(BitsOf(v, 32))) == 0xffff_ffff - v
  {
    PowersOfTwo();
    NotBits(v, 32);
    NumberOf(0xffff_ffff - v, 32);
  }
}
