/** Registers as machine words: the bitwise steps of `Crc32` on literal values. */
module MachineWords {
  import opened Crc32

  // A machine word shifted right `i` times.
  function Down(w: bv32, i: nat): bv32 {
    if i == 0 then w else Down(w, i - 1) >> 1
  }

  function Bit(w: bv32, i: nat): bool {
    Down(w, i) & 1 != 0
  }

  // The register `r` holds the word `w`.
  ghost predicate Holds(r: bits, w: bv32) {
    |r| == 32 && forall i :: 0 <= i < 32 ==> r[i] == Bit(w, i)
  }

  function Halved(v: nat, i: nat): nat {
    if i == 0 then v else Halved(v, i - 1) / 2
  }

  // The low `n` bits of a number and of a word agree.
  predicate Agree(v: nat, w: bv32, n: nat) {
    n == 0 || (Agree(v, w, n - 1) && (Halved(v, n - 1) % 2 == 1) == Bit(w, n - 1))
  }

  lemma {:induction false} AgreeAt(v: nat, w: bv32, n: nat, i: nat)
    requires Agree(v, w, n) && i < n
    ensures (Halved(v, i) % 2 == 1) == Bit(w, i)
  {
    if i < n - 1 {
      AgreeAt(v, w, n - 1, i);
    }
  }

  lemma {:induction false} HalvedTail(v: nat, i: nat)
    ensures Halved(v / 2, i) == Halved(v, i + 1)
  {
    if i > 0 {
      HalvedTail(v, i - 1);
    }
  }

  lemma {:induction false} BitsOfAt(v: nat, n: nat, i: nat)
    requires i < n
    ensures BitsOf(v, n)[i] == (Halved(v, i) % 2 == 1)
  {
    if i > 0 {
      BitsOfAt(v / 2, n - 1, i - 1);
      HalvedTail(v, i - 1);
    }
  }

  lemma AgreeHolds(v: nat, w: bv32)
    requires Agree(v, w, 32)
    ensures Holds(BitsOf(v, 32), w)
  {
    forall i | 0 <= i < 32 ensures BitsOf(v, 32)[i] == Bit(w, i) {
      AgreeAt(v, w, 32, i);
      BitsOfAt(v, 32, i);
    }
  }

  lemma {:induction false} DownXor(a: bv32, b: bv32, c: bv32, i: nat)
    requires c == a ^ b
    ensures Down(c, i) == Down(a, i) ^ Down(b, i)
  {
    if i > 0 {
      DownXor(a, b, c, i - 1);
    }
  }

  lemma XorBit(a: bv32, b: bv32, c: bv32)
    requires c == a ^ b
    ensures (c & 1 != 0) == ((a & 1 != 0) != (b & 1 != 0))
  {
  }

  lemma BitXor(a: bv32, b: bv32, c: bv32, i: nat)
    requires c == a ^ b
    ensures Bit(c, i) == (Bit(a, i) != Bit(b, i))
  {
    DownXor(a, b, c, i);
    XorBit(Down(a, i), Down(b, i), Down(c, i));
  }

  lemma XorHolds(r: bits, q: bits, a: bv32, b: bv32, c: bv32)
    requires Holds(r, a) && Holds(q, b) && c == a ^ b
    ensures Holds(Xor(r, q), c)
  {
    forall i | 0 <= i < 32 ensures Xor(r, q)[i] == Bit(c, i) {
      BitXor(a, b, c, i);
    }
  }

  lemma {:induction false} DownShift(w: bv32, x: bv32, i: nat)
    requires x == w >> 1
    ensures Down(x, i) == Down(w, i + 1)
  {
    if i > 0 {
      DownShift(w, x, i - 1);
    }
  }

  lemma {:induction false} DownAnd(a: bv32, b: bv32, c: bv32, i: nat)
    requires c == a & b
    ensures Down(c, i) == Down(a, i) & Down(b, i)
  {
    if i > 0 {
      DownAnd(a, b, c, i - 1);
    }
  }

  lemma NothingAbove(w: bv32)
    ensures !Bit(w, 32)
  {
    assert Down(0xffff_ffff, 8) == 0xff_ffff;
    assert Down(0xffff_ffff, 16) == 0xffff;
    assert Down(0xffff_ffff, 24) == 0xff;
    assert Down(0xffff_ffff, 32) == 0;
    DownAnd(w, 0xffff_ffff, w, 32);
  }

  lemma ShiftHolds(r: bits, w: bv32, x: bv32)
    requires Holds(r, w) && x == w >> 1
    ensures Holds(r[1..] + [false], x)
  {
    forall i | 0 <= i < 32 ensures (r[1..] + [false])[i] == Bit(x, i) {
      DownShift(w, x, i);
      NothingAbove(w);
    }
  }

  // One step on a machine word with the polynomial of the standard.
  function WordStep(w: bv32): bv32 {
    if w & 1 != 0 then (w >> 1) ^ 0xedb8_8320 else w >> 1
  }

  lemma {:induction false} HalvedTwice(v: nat, m: nat, n: nat)
    ensures Halved(Halved(v, m), n) == Halved(v, m + n)
  {
    if n > 0 {
      HalvedTwice(v, m, n - 1);
    }
  }

  lemma {:induction false} DownTwice(w: bv32, x: bv32, m: nat, n: nat)
    requires x == Down(w, m)
    ensures Down(x, n) == Down(w, m + n)
  {
    if n > 0 {
      DownTwice(w, x, m, n - 1);
    }
  }

  lemma {:induction false} AgreeMore(v: nat, w: bv32, m: nat, u: nat, x: bv32, n: nat)
    requires Agree(v, w, m) && u == Halved(v, m) && x == Down(w, m) && Agree(u, x, n)
    ensures Agree(v, w, m + n)
  {
    if n > 0 {
      AgreeMore(v, w, m, u, x, n - 1);
      HalvedTwice(v, m, n - 1);
      DownTwice(w, x, m, n - 1);
    }
  }

  lemma AgreeOne(v: nat, w: bv32)
    requires (v % 2 == 1) == (w & 1 != 0)
    ensures Agree(v, w, 1)
  {
    assert Down(w, 0) == w && Halved(v, 0) == v;
    assert Agree(v, w, 0);
  }

  lemma HalvedOne(v: nat)
    ensures Halved(v, 1) == v / 2
  {
    assert Halved(v, 0) == v;
  }

  lemma DownOne(w: bv32)
    ensures Down(w, 1) == w >> 1
  {
    assert Down(w, 0) == w;
  }

  lemma AgreeBit(v: nat, w: bv32, u: nat, x: bv32, n: nat)
    requires (v % 2 == 1) == (w & 1 != 0) && u == v / 2 && x == w >> 1 && Agree(u, x, n)
    ensures Agree(v, w, 1 + n)
  {
    AgreeOne(v, w);
    HalvedOne(v);
    DownOne(w);
    AgreeMore(v, w, 1, u, x, n);
  }

  // The lowest four bits agree, and `u` and `x` are what is above them.
  predicate SameDigit(v: nat, w: bv32, u: nat, x: bv32) {
    && (v % 2 == 1) == (w & 1 != 0) && (v / 2 % 2 == 1) == ((w >> 1) & 1 != 0)
    && (v / 2 / 2 % 2 == 1) == ((w >> 1 >> 1) & 1 != 0) && (v / 2 / 2 / 2 % 2 == 1) == ((w >> 1 >> 1 >> 1) & 1 != 0)
    && u == v / 2 / 2 / 2 / 2 && x == w >> 1 >> 1 >> 1 >> 1
  }

  lemma AgreeThird(v: nat, w: bv32, u: nat, x: bv32, n: nat)
    requires SameDigit(v, w, u, x) && Agree(u, x, n)
    ensures Agree(v / 2 / 2 / 2, w >> 1 >> 1 >> 1, 1 + n)
  {
    AgreeBit(v / 2 / 2 / 2, w >> 1 >> 1 >> 1, u, x, n);
  }

  lemma AgreeSecond(v: nat, w: bv32, u: nat, x: bv32, n: nat)
    requires SameDigit(v, w, u, x) && Agree(u, x, n)
    ensures Agree(v / 2 / 2, w >> 1 >> 1, 2 + n)
  {
    AgreeThird(v, w, u, x, n);
    AgreeBit(v / 2 / 2, w >> 1 >> 1, v / 2 / 2 / 2, w >> 1 >> 1 >> 1, 1 + n);
  }

  lemma AgreeFirst(v: nat, w: bv32, u: nat, x: bv32, n: nat)
    requires SameDigit(v, w, u, x) && Agree(u, x, n)
    ensures Agree(v / 2, w >> 1, 3 + n)
  {
    AgreeSecond(v, w, u, x, n);
    AgreeBit(v / 2, w >> 1, v / 2 / 2, w >> 1 >> 1, 2 + n);
  }

  lemma AgreeDigit(v: nat, w: bv32, u: nat, x: bv32, n: nat)
    requires SameDigit(v, w, u, x) && Agree(u, x, n)
    ensures Agree(v, w, n + 4)
  {
    AgreeFirst(v, w, u, x, n);
    AgreeBit(v, w, v / 2, w >> 1, 3 + n);
  }

  // Number and word, digit by digit.
  lemma {:induction false} AgreeDigits(v: seq<nat>, w: seq<bv32>, n: nat)
    requires n < |v| == |w| && v[0] == 0 && w[0] == 0
    requires forall i :: 0 < i <= n ==> SameDigit(v[i], w[i], v[i - 1], w[i - 1])
    ensures Agree(v[n], w[n], 4 * n)
  {
    if n > 0 {
      AgreeDigits(v, w, n - 1);
      AgreeDigit(v[n], w[n], v[n - 1], w[n - 1], 4 * (n - 1));
    }
  }

  lemma PolynomialHolds()
    ensures Holds(BitsOf(POLYNOMIAL, 32), 0xedb88320)
  {
    AgreeDigits([0, 0xe, 0xed, 0xedb, 0xedb8, 0xedb88, 0xedb883, 0xedb8832, 0xedb88320],
                [0, 0xe, 0xed, 0xedb, 0xedb8, 0xedb88, 0xedb883, 0xedb8832, 0xedb88320], 8);
    AgreeHolds(0xedb88320, 0xedb88320);
  }

  lemma StepHolds(r: bits, w: bv32)
    requires Holds(r, w)
    ensures Holds(BitStep(r), WordStep(w))
  {
    ShiftHolds(r, w, w >> 1);
    PolynomialHolds();
    assert Bit(w, 0) == r[0];
    XorHolds(r[1..] + [false], BitsOf(POLYNOMIAL, 32), w >> 1, 0xedb8_8320, (w >> 1) ^ 0xedb8_8320);
  }

  lemma {:induction false} ZeroAgrees(n: nat)
    ensures Agree(0, 0, n) && Halved(0, n) == 0 && Down(0, n) == 0
  {
    if n > 0 {
      ZeroAgrees(n - 1);
    }
  }

  // Eight steps.
  function WordByte(w: bv32): bv32 {
    WordStep(WordStep(WordStep(WordStep(WordStep(WordStep(WordStep(WordStep(w))))))))
  }

  lemma StepsHold(r: bits, n: nat, w: bv32, x: bv32)
    requires |r| == 32 && Holds(BitSteps(r, n), w) && x == WordStep(w)
    ensures Holds(BitSteps(r, n + 1), x)
  {
    StepHolds(BitSteps(r, n), w);
  }

  lemma EightHold(r: bits, n: nat, w: bv32, x: bv32)
    requires |r| == 32 && Holds(BitSteps(r, n), w) && x == WordByte(w)
    ensures Holds(BitSteps(r, n + 8), x)
  {
    var a := WordStep(w);
    StepsHold(r, n, w, a);
    var b := WordStep(a);
    StepsHold(r, n + 1, a, b);
    var c := WordStep(b);
    StepsHold(r, n + 2, b, c);
    var d := WordStep(c);
    StepsHold(r, n + 3, c, d);
    var e := WordStep(d);
    StepsHold(r, n + 4, d, e);
    var f := WordStep(e);
    StepsHold(r, n + 5, e, f);
    var g := WordStep(f);
    StepsHold(r, n + 6, f, g);
    StepsHold(r, n + 7, g, x);
  }

  function DigitWord(d: nat): (w: bv32)
    requires d < 16
    ensures SameDigit(d, w, 0, 0)
  {
    match d
    case 0 => 0 case 1 => 1 case 2 => 2 case 3 => 3 case 4 => 4 case 5 => 5 case 6 => 6 case 7 => 7
    case 8 => 8 case 9 => 9 case 10 => 10 case 11 => 11 case 12 => 12 case 13 => 13 case 14 => 14 case _ => 15
  }

  // A byte as a word.
  function ByteWord(b: nat): bv32
    requires b < 256
  {
    (DigitWord(b / 16) << 4) | DigitWord(b % 16)
  }

  lemma WordDigits(h: bv32, g: bv32, c: bv32)
    requires h >> 1 >> 1 >> 1 >> 1 == 0 && g >> 1 >> 1 >> 1 >> 1 == 0 && c == (h << 4) | g
    ensures c >> 1 >> 1 >> 1 >> 1 == h
    ensures c & 1 == g & 1 && (c >> 1) & 1 == (g >> 1) & 1
    ensures (c >> 1 >> 1) & 1 == (g >> 1 >> 1) & 1 && (c >> 1 >> 1 >> 1) & 1 == (g >> 1 >> 1 >> 1) & 1
  {
  }

  lemma NumberDigits(b: nat, h: nat, g: nat)
    requires b == 16 * h + g && g < 16
    ensures b / 2 / 2 / 2 / 2 == h
    ensures b % 2 == g % 2 && b / 2 % 2 == g / 2 % 2
    ensures b / 2 / 2 % 2 == g / 2 / 2 % 2 && b / 2 / 2 / 2 % 2 == g / 2 / 2 / 2 % 2
  {
  }

  lemma ByteDigit(b: nat, c: bv32, h: nat, y: bv32, g: nat, x: bv32)
    requires SameDigit(h, y, 0, 0) && SameDigit(g, x, 0, 0) && b == 16 * h + g && g < 16 && c == (y << 4) | x
    ensures SameDigit(b, c, h, y)
  {
    WordDigits(y, x, c);
    NumberDigits(b, h, g);
  }

  lemma DigitAgrees(d: nat)
    requires d < 16
    ensures Agree(d, DigitWord(d), 28)
  {
    ZeroAgrees(24);
    AgreeDigit(d, DigitWord(d), 0, 0, 24);
  }

  lemma ByteAgrees(b: nat)
    requires b < 256
    ensures Holds(BitsOf(b, 32), ByteWord(b))
  {
    DigitAgrees(b / 16);
    ByteDigit(b, ByteWord(b), b / 16, DigitWord(b / 16), b % 16, DigitWord(b % 16));
    AgreeDigit(b, ByteWord(b), b / 16, DigitWord(b / 16), 28);
    AgreeHolds(b, ByteWord(b));
  }

  // One more byte.
  lemma ByteHolds(s: seq<byte>, n: nat, w: bv32, b: byte, x: bv32)
    requires n < |s| && s[n] == b && Holds(Register(s, n), w) && x == WordByte(w ^ ByteWord(b))
    ensures Holds(Register(s, n + 1), x)
  {
    ByteAgrees(b);
    XorHolds(Register(s, n), BitsOf(b, 32), w, ByteWord(b), w ^ ByteWord(b));
    EightHold(Xor(Register(s, n), BitsOf(b, 32)), 0, w ^ ByteWord(b), x);
  }

  lemma StartHolds(s: seq<byte>)
    ensures Holds(Register(s, 0), 0xffff_ffff)
  {
    OnesHold();
  }

  lemma SameWord(r: bits, q: bits, w: bv32)
    requires Holds(r, w) && Holds(q, w)
    ensures r == q
  {
  }

  predicate AllOnes(w: bv32, n: nat) {
    n == 0 || (AllOnes(w, n - 1) && Bit(w, n - 1))
  }

  lemma {:induction false} AllOnesAt(w: bv32, n: nat, i: nat)
    requires AllOnes(w, n) && i < n
    ensures Bit(w, i)
  {
    if i < n - 1 {
      AllOnesAt(w, n - 1, i);
    }
  }

  lemma {:induction false} OnesOf(v: nat, n: nat, i: nat)
    requires v + 1 == Power2(n) && i < n
    ensures BitsOf(v, n)[i]
  {
    if i > 0 {
      OnesOf(v / 2, n - 1, i - 1);
    }
  }

  lemma OnesHold()
    ensures Holds(BitsOf(INITIAL, 32), 0xffff_ffff)
  {
    assert AllOnes(0xffff_ffff, 8);
    assert AllOnes(0xffff_ffff, 16);
    assert AllOnes(0xffff_ffff, 24);
    assert AllOnes(0xffff_ffff, 32);
    PowersOfTwo();
    forall i | 0 <= i < 32 ensures BitsOf(INITIAL, 32)[i] == Bit(0xffff_ffff, i) {
      AllOnesAt(0xffff_ffff, 32, i);
      OnesOf(INITIAL, 32, i);
    }
  }
}
