/** The CRC-32 of section 8 of RFC 1952, bit by bit
    (src/compact_v2_migration_manifest.h:84-97).  A register is its 32 bits,
    least significant first. */
module Crc32 {
  type byte = x: int | 0 <= x < 256
  type bits = seq<bool>

  const POLYNOMIAL: nat := 0xedb88320
  const INITIAL: nat := 0xffff_ffff

  // The low `n` bits of `v`.
  function BitsOf(v: nat, n: nat): (b: bits)
    ensures |b| == n
  {
    if n == 0 then [] else [v % 2 == 1] + BitsOf(v / 2, n - 1)
  }

  function Number(b: bits): nat {
    if b == [] then 0 else (if b[0] then 1 else 0) + 2 * Number(b[1..])
  }

  function Xor(a: bits, b: bits): (c: bits)
    requires |a| == |b|
    ensures |c| == |a| && forall i :: 0 <= i < |c| ==> c[i] == (a[i] != b[i])
  {
    seq(|a|, i requires 0 <= i < |a| => a[i] != b[i])
  }

  function Not(a: bits): (c: bits)
    ensures |c| == |a| && forall i :: 0 <= i < |c| ==> c[i] == !a[i]
  {
    seq(|a|, i requires 0 <= i < |a| => !a[i])
  }

  // Shift right; the polynomial is added when a one falls out.
  function BitStep(r: bits): (q: bits)
    requires |r| == 32
    ensures |q| == 32
  {
    var shifted := r[1..] + [false];
    if r[0] then Xor(shifted, BitsOf(POLYNOMIAL, 32)) else shifted
  }

  function BitSteps(r: bits, n: nat): (q: bits)
    requires |r| == 32
    ensures |q| == 32
  {
    if n == 0 then r else BitStep(BitSteps(r, n - 1))
  }

  function ByteStep(r: bits, b: byte): (q: bits)
    requires |r| == 32
    ensures |q| == 32
  {
    BitSteps(Xor(r, BitsOf(b, 32)), 8)
  }

  // The register after the first `n` bytes of `s`.
  function Register(s: seq<byte>, n: nat): (r: bits)
    requires n <= |s|
    ensures |r| == 32
  {
    if n == 0 then BitsOf(INITIAL, 32) else ByteStep(Register(s, n - 1), s[n - 1])
  }

  function Checksum(s: seq<byte>, n: nat): nat
    requires n <= |s|
  {
    Number(Not(Register(s, n)))
  }

  method AddByte(before: bits, b: byte) returns (register: bits)
    requires |before| == 32
    ensures register == ByteStep(before, b)
  {
    register := Xor(before, BitsOf(b, 32));
    ghost var start := register;
    for bit := 0 to 8
      invariant register == BitSteps(start, bit)
    {
      var shifted := register[1..] + [false];
      register := if register[0] then Xor(shifted, BitsOf(POLYNOMIAL, 32)) else shifted;
    }
  }

  method Crc(data: array<byte>, length: nat) returns (crc: nat)
    requires length <= data.Length
    ensures crc == Checksum(data[..], length)
  {
    var register := BitsOf(INITIAL, 32);
    for i := 0 to length
      invariant register == Register(data[..], i)
    {
      register := AddByte(register, data[i]);
    }
    crc := Number(Not(register));
  }

  lemma {:induction false} BitAt(v: nat, n: nat, half: nat)
    requires n > 0 && half == Power2(n - 1) && half <= v < 2 * half
    ensures BitsOf(v, n)[n - 1]
  {
    if n > 1 {
      BitAt(v / 2, n - 1, half / 2);
    }
  }

  function Power2(n: nat): (p: nat)
    ensures p > 0
  {
    if n == 0 then 1 else 2 * Power2(n - 1)
  }

  lemma PowersOfTwo()
    ensures Power2(31) == 0x8000_0000 && Power2(32) == 0x1_0000_0000
  {
    assert Power2(10) == 0x400;
    assert Power2(20) == 0x10_0000;
    assert Power2(30) == 0x4000_0000;
  }

  lemma {:induction false} NumberBound(b: bits)
    ensures Number(b) < Power2(|b|)
  {
    if b != [] {
      NumberBound(b[1..]);
    }
  }

  lemma ChecksumBound(s: seq<byte>, n: nat)
    requires n <= |s|
    ensures Checksum(s, n) < 0x1_0000_0000
  {
    NumberBound(Not(Register(s, n)));
    PowersOfTwo();
  }

  lemma TopBitOfPolynomial()
    ensures BitsOf(POLYNOMIAL, 32)[31]
  {
    PowersOfTwo();
    BitAt(POLYNOMIAL, 32, 0x8000_0000);
  }

  // The top bit of a step tells whether the polynomial was added: steps lose nothing.
  lemma BitStepInjective(a: bits, b: bits)
    requires |a| == |b| == 32 && BitStep(a) == BitStep(b)
    ensures a == b
  {
    TopBitOfPolynomial();
    var x, y, p := a[1..] + [false], b[1..] + [false], BitsOf(POLYNOMIAL, 32);
    assert BitStep(a)[31] == a[0] && BitStep(b)[31] == b[0];
    assert x == y by {
      if a[0] { XorCancels(x, y, p); }
    }
    SameShifted(a, b);
  }

  lemma SameShifted(a: bits, b: bits)
    requires |a| == |b| > 0 && a[0] == b[0] && a[1..] + [false] == b[1..] + [false]
    ensures a == b
  {
    var x, y := a[1..] + [false], b[1..] + [false];
    forall i | 0 <= i < |a| ensures a[i] == b[i] {
      assert i > 0 ==> x[i - 1] == a[i] && y[i - 1] == b[i];
    }
  }

  lemma {:induction false} BitStepsInjective(a: bits, b: bits, n: nat)
    requires |a| == |b| == 32 && BitSteps(a, n) == BitSteps(b, n)
    ensures a == b
  {
    if n > 0 {
      BitStepInjective(BitSteps(a, n - 1), BitSteps(b, n - 1));
      BitStepsInjective(a, b, n - 1);
    }
  }

  lemma XorCancels(a: bits, b: bits, c: bits)
    requires |a| == |b| == |c| && (Xor(a, c) == Xor(b, c) || Xor(c, a) == Xor(c, b))
    ensures a == b
  {
    forall i | 0 <= i < |a| ensures a[i] == b[i] {
      if Xor(a, c) == Xor(b, c) {
        assert Xor(a, c)[i] == Xor(b, c)[i];
      } else {
        assert Xor(c, a)[i] == Xor(c, b)[i];
      }
    }
  }

  lemma {:induction false} BitsInjective(a: nat, b: nat, n: nat)
    requires a < Power2(n) && b < Power2(n) && BitsOf(a, n) == BitsOf(b, n)
    ensures a == b
  {
    if n > 0 {
      var x, y := BitsOf(a, n), BitsOf(b, n);
      assert x[0] == (a % 2 == 1) && y[0] == (b % 2 == 1);
      assert x[1..] == BitsOf(a / 2, n - 1) && y[1..] == BitsOf(b / 2, n - 1);
      BitsInjective(a / 2, b / 2, n - 1);
    }
  }

  lemma {:induction false} NumberInjective(a: bits, b: bits)
    requires |a| == |b| && Number(a) == Number(b)
    ensures a == b
  {
    if a != [] {
      NumberInjective(a[1..], b[1..]);
      assert a == [a[0]] + a[1..] && b == [b[0]] + b[1..];
    }
  }

  // Different registers stay different, and so do different bytes from one register.
  lemma SameByteSameRegister(r: bits, q: bits, b: byte)
    requires |r| == |q| == 32 && ByteStep(r, b) == ByteStep(q, b)
    ensures r == q
  {
    BitStepsInjective(Xor(r, BitsOf(b, 32)), Xor(q, BitsOf(b, 32)), 8);
    XorCancels(r, q, BitsOf(b, 32));
  }

  lemma SameRegisterSameByte(r: bits, a: byte, b: byte)
    requires |r| == 32 && ByteStep(r, a) == ByteStep(r, b)
    ensures a == b
  {
    BitStepsInjective(Xor(r, BitsOf(a, 32)), Xor(r, BitsOf(b, 32)), 8);
    XorCancels(BitsOf(a, 32), BitsOf(b, 32), r);
    Power2Grows(8, 32);
    BitsInjective(a, b, 32);
  }

  lemma {:induction false} Power2Grows(m: nat, n: nat)
    requires m <= n
    ensures Power2(m) <= Power2(n)
  {
    if m < n {
      Power2Grows(m, n - 1);
    }
  }

  lemma {:induction false} SameRegisters(s: seq<byte>, t: seq<byte>, n: nat)
    requires n <= |s| && n <= |t| && forall i :: 0 <= i < n ==> s[i] == t[i]
    ensures Register(s, n) == Register(t, n)
  {
    if n > 0 {
      SameRegisters(s, t, n - 1);
    }
  }

  lemma {:induction false} ChangeSpreads(s: seq<byte>, t: seq<byte>, at: nat, n: nat)
    requires at < n <= |s| == |t| && s[at] != t[at]
    requires forall i :: 0 <= i < n && i != at ==> s[i] == t[i]
    ensures Register(s, n) != Register(t, n)
  {
    if Register(s, n) == Register(t, n) {
      if at == n - 1 {
        SameRegisters(s, t, n - 1);
        SameRegisterSameByte(Register(s, n - 1), s[n - 1], t[n - 1]);
      } else {
        SameByteSameRegister(Register(s, n - 1), Register(t, n - 1), s[n - 1]);
        ChangeSpreads(s, t, at, n - 1);
      }
    }
  }

  lemma SameChecksum(s: seq<byte>, t: seq<byte>, n: nat)
    requires n <= |s| && n <= |t| && forall i :: 0 <= i < n ==> s[i] == t[i]
    ensures Checksum(s, n) == Checksum(t, n)
  {
    SameRegisters(s, t, n);
  }

  // One changed byte always changes the checksum.
  lemma ChecksumPinsByte(s: seq<byte>, t: seq<byte>, at: nat, n: nat)
    requires at < n <= |s| == |t| && Checksum(s, n) == Checksum(t, n)
    requires forall i :: 0 <= i < n && i != at ==> s[i] == t[i]
    ensures s[at] == t[at]
  {
    var a, b := Register(s, n), Register(t, n);
    NumberInjective(Not(a), Not(b));
    assert a == b by {
      forall i | 0 <= i < 32 ensures a[i] == b[i] {
        assert Not(a)[i] == Not(b)[i];
      }
    }
    if s[at] != t[at] {
      ChangeSpreads(s, t, at, n);
    }
  }
}
