/** Little-endian fields of a byte buffer
    (src/compact_v2_migration_manifest.h:47-82). */
module LittleEndian {
  import opened Crc32

  // The number in the `n` bytes from `at` on, least significant first.
  function Read(s: seq<byte>, at: nat, n: nat): (v: nat)
    requires at + n <= |s|
    ensures v < Power(n)
    decreases n
  {
    if n == 0 then 0 else s[at] + 256 * Read(s, at + 1, n - 1)
  }

  function Power(n: nat): (p: nat)
    ensures p > 0
  {
    if n == 0 then 1 else 256 * Power(n - 1)
  }

  lemma {:induction false} ReadFramed(s: seq<byte>, t: seq<byte>, at: nat, n: nat)
    requires at + n <= |s| && at + n <= |t| && forall i :: at <= i < at + n ==> s[i] == t[i]
    ensures Read(s, at, n) == Read(t, at, n)
    decreases n
  {
    if n > 0 {
      ReadFramed(s, t, at + 1, n - 1);
    }
  }

  // Equal numbers come from equal bytes.
  lemma {:induction false} ReadInjective(s: seq<byte>, t: seq<byte>, at: nat, n: nat, i: nat)
    requires at + n <= |s| && at + n <= |t| && Read(s, at, n) == Read(t, at, n) && at <= i < at + n
    ensures s[i] == t[i]
    decreases n
  {
    var a, b := s[at], t[at];
    var x, y := Read(s, at + 1, n - 1), Read(t, at + 1, n - 1);
    assert a + 256 * x == b + 256 * y && 0 <= a < 256 && 0 <= b < 256;
    assert a == b && x == y;
    if i > at {
      ReadInjective(s, t, at + 1, n - 1, i);
    }
  }

  lemma ReadPrefix(s: seq<byte>, at: nat, v: nat, n: nat, k: nat, rest: nat)
    requires at + n <= |s| && k < n
    requires v == Read(s, at, k) + Power(k) * rest
    requires s[at + k] == rest % 256
    ensures v == Read(s, at, k + 1) + Power(k + 1) * (rest / 256)
  {
    ReadSnoc(s, at, k);
    assert rest == rest % 256 + 256 * (rest / 256);
    Distribute(Power(k), rest % 256, rest / 256);
  }

  lemma Distribute(p: nat, a: nat, b: nat)
    ensures p * (a + 256 * b) == p * a + 256 * p * b
  {
  }

  lemma Scale(r: nat, p: nat, b: nat)
    ensures 256 * (r + p * b) == 256 * r + (256 * p) * b
  {
  }

  lemma NothingLeft(x: nat, p: nat, rest: nat)
    requires x + p * rest < p
    ensures rest == 0
  {
    if rest > 0 {
      AtLeast(p, rest);
    }
  }

  lemma AtLeast(p: nat, k: nat)
    requires k > 0
    ensures p * k >= p
  {
    assert p * k == p + p * (k - 1);
  }

  lemma {:induction false} ReadSnoc(s: seq<byte>, at: nat, k: nat)
    requires at + k < |s|
    ensures Read(s, at, k + 1) == Read(s, at, k) + Power(k) * s[at + k]
    decreases k
  {
    if k > 0 {
      ReadSnoc(s, at + 1, k - 1);
      Scale(Read(s, at + 1, k - 1), Power(k - 1), s[at + k]);
    }
  }

  method Write(out: array<byte>, at: nat, n: nat, v: nat)
    requires at + n <= out.Length && v < Power(n)
    modifies out
    ensures Read(out[..], at, n) == v
    ensures forall i :: 0 <= i < out.Length && !(at <= i < at + n) ==> out[i] == old(out[i])
  {
    var rest := v;
    for k := 0 to n
      invariant v == Read(out[..], at, k) + Power(k) * rest
      invariant forall i :: 0 <= i < out.Length && !(at <= i < at + k) ==> out[i] == old(out[i])
    {
      ghost var before := out[..];
      out[at + k] := rest % 256;
      ReadFramed(before, out[..], at, k);
      ReadPrefix(out[..], at, v, n, k, rest);
      rest := rest / 256;
    }
    NothingLeft(Read(out[..], at, n), Power(n), rest);
  }
}
