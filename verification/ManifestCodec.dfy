/** The byte form of a migration manifest: fixed-endian, length-delimited and
    checksummed (src/compact_v2_migration_manifest.h:125-232). */
module ManifestCodec {
  import opened Pages
  import opened Manifest
  import opened Crc32
  import opened LittleEndian

  const MAGIC: nat := 0x32474d54
  const VERSION: nat := 1
  const FIXED_SIZE: nat := 44
  const CHECKSUM_SIZE: nat := 4

  function Size(claims: nat): nat {
    FIXED_SIZE + 4 * claims + CHECKSUM_SIZE
  }

  ghost predicate ClaimField(s: seq<byte>, claims: seq<u32>, k: nat) {
    k < |claims| && FIXED_SIZE + 4 * k + 4 <= |s| && Read(s, FIXED_SIZE + 4 * k, 4) == claims[k]
  }

  ghost predicate Claims(s: seq<byte>, claims: seq<u32>) {
    forall k :: 0 <= k < |claims| ==> ClaimField(s, claims, k)
  }

  // The fields before the claims.
  ghost predicate Header(s: seq<byte>, m: Manifest) {
    && |s| >= FIXED_SIZE
    && Read(s, 0, 4) == MAGIC
    && Read(s, 4, 2) == VERSION
    && Read(s, 6, 2) == m.phase
    && Read(s, 8, 4) == Size(|m.claims|)
    && Read(s, 12, 4) == m.tableId
    && Read(s, 16, 4) == m.oldRoot
    && Read(s, 20, 4) == m.stagedRoot
    && Read(s, 24, 8) == m.oldGeneration
    && Read(s, 32, 8) == m.newGeneration
    && Read(s, 40, 4) == |m.claims|
  }

  ghost predicate Sealed(s: seq<byte>) {
    |s| >= CHECKSUM_SIZE && Read(s, |s| - CHECKSUM_SIZE, 4) == Checksum(s, |s| - CHECKSUM_SIZE)
  }

  // `s` is the byte form of `m`.
  ghost predicate Encodes(s: seq<byte>, m: Manifest) {
    |s| == Size(|m.claims|) && Header(s, m) && Claims(s, m.claims) && Sealed(s)
  }

  // A byte form has one manifest.
  lemma OneManifest(s: seq<byte>, m: Manifest, n: Manifest)
    requires Encodes(s, m) && Encodes(s, n)
    ensures m == n
  {
    forall k | 0 <= k < |m.claims| ensures m.claims[k] == n.claims[k] {
      assert ClaimField(s, m.claims, k) && ClaimField(s, n.claims, k);
    }
    assert m.claims == n.claims;
  }

  // Where the byte at `i` lies: start and length of its field.
  function FieldOf(i: nat, claims: nat): (f: (nat, nat))
    requires i < Size(claims)
    ensures f.0 <= i < f.0 + f.1 && f.0 + f.1 <= Size(claims)
  {
    if i < 4 then (0, 4) else if i < 6 then (4, 2) else if i < 8 then (6, 2) else if i < 12 then (8, 4)
    else if i < 16 then (12, 4) else if i < 20 then (16, 4) else if i < 24 then (20, 4)
    else if i < 32 then (24, 8) else if i < 40 then (32, 8) else if i < 44 then (40, 4)
    else (FIXED_SIZE + 4 * ((i - FIXED_SIZE) / 4), 4)
  }

  lemma SameFields(s: seq<byte>, t: seq<byte>, m: Manifest, i: nat)
    requires Encodes(s, m) && Encodes(t, m) && i < |s| - CHECKSUM_SIZE
    ensures s[i] == t[i]
  {
    var f := FieldOf(i, |m.claims|);
    if i >= FIXED_SIZE {
      var k := (i - FIXED_SIZE) / 4;
      assert ClaimField(s, m.claims, k) && ClaimField(t, m.claims, k);
    }
    ReadInjective(s, t, f.0, f.1, i);
  }

  // Equal up to the checksum means equal.
  lemma SealedTail(s: seq<byte>, t: seq<byte>, n: nat, i: nat)
    requires Sealed(s) && Sealed(t) && n + CHECKSUM_SIZE == |s| == |t| && n <= i < |s|
    requires forall j :: 0 <= j < n ==> s[j] == t[j]
    ensures s[i] == t[i]
  {
    SameChecksum(s, t, n);
    ReadInjective(s, t, n, CHECKSUM_SIZE, i);
  }

  lemma SealedBody(s: seq<byte>, t: seq<byte>, n: nat, i: nat)
    requires Sealed(s) && Sealed(t) && n + CHECKSUM_SIZE == |s| == |t| && i < n
    requires forall j :: 0 <= j < |s| && j != i ==> s[j] == t[j]
    ensures s[i] == t[i]
  {
    ReadFramed(s, t, n, CHECKSUM_SIZE);
    ChecksumPinsByte(s, t, i, n);
  }

  // A manifest has one byte form: every byte belongs to some field.
  lemma OneByteForm(s: seq<byte>, t: seq<byte>, m: Manifest)
    requires Encodes(s, m) && Encodes(t, m)
    ensures s == t
  {
    var n := |s| - CHECKSUM_SIZE;
    forall i | 0 <= i < n ensures s[i] == t[i] {
      SameFields(s, t, m, i);
    }
    forall i | n <= i < |s| ensures s[i] == t[i] {
      SealedTail(s, t, n, i);
    }
  }

  // No byte of a byte form can be changed without decoding noticing.
  lemma OneByteIsNoticed(s: seq<byte>, m: Manifest, i: nat, b: byte, n: Manifest)
    requires Encodes(s, m) && i < |s| && b != s[i]
    ensures !Encodes(s[i := b], n)
  {
    if Encodes(s[i := b], n) {
      if i < |s| - CHECKSUM_SIZE {
        SealedBody(s, s[i := b], |s| - CHECKSUM_SIZE, i);
      } else {
        SealedTail(s, s[i := b], |s| - CHECKSUM_SIZE, i);
      }
    }
  }

  lemma Powers()
    ensures Power(2) == 0x1_0000 && Power(4) == 0x1_0000_0000 && Power(8) == 0x1_0000_0000_0000_0000
  {
    assert Power(6) == 0x1_0000_0000_0000;
  }

  // The header as a table of fields, in the order they are written.

  function Start(k: nat): nat {
    match k
    case 0 => 0 case 1 => 4 case 2 => 6 case 3 => 8 case 4 => 12
    case 5 => 16 case 6 => 20 case 7 => 24 case 8 => 32 case 9 => 40 case _ => 44
  }

  function Width(k: nat): nat {
    match k
    case 1 => 2 case 2 => 2 case 7 => 8 case 8 => 8 case _ => 4
  }

  function Value(m: Manifest, k: nat): nat {
    match k
    case 0 => MAGIC case 1 => VERSION case 2 => m.phase case 3 => Size(|m.claims|) case 4 => m.tableId
    case 5 => m.oldRoot case 6 => m.stagedRoot case 7 => m.oldGeneration case 8 => m.newGeneration
    case _ => |m.claims|
  }

  ghost predicate FieldHolds(s: seq<byte>, m: Manifest, k: nat) {
    k < 10 && |s| >= FIXED_SIZE && Read(s, Start(k), Width(k)) == Value(m, k)
  }

  ghost predicate Written(s: seq<byte>, m: Manifest, n: nat) {
    forall k :: 0 <= k < n ==> FieldHolds(s, m, k)
  }

  lemma WrittenIsHeader(s: seq<byte>, m: Manifest)
    requires Written(s, m, 10)
    ensures Header(s, m)
  {
    assert FieldHolds(s, m, 0) && FieldHolds(s, m, 1) && FieldHolds(s, m, 2) && FieldHolds(s, m, 3);
    assert FieldHolds(s, m, 4) && FieldHolds(s, m, 5) && FieldHolds(s, m, 6);
    assert FieldHolds(s, m, 7) && FieldHolds(s, m, 8) && FieldHolds(s, m, 9);
  }

  lemma ValuesFit(m: Manifest, k: nat)
    requires IsValid(m)
    ensures Value(m, k) < Power(Width(k))
  {
    Powers();
  }

  method WriteField(out: array<byte>, k: nat, v: nat, ghost m: Manifest)
    requires IsValid(m) && out.Length >= FIXED_SIZE && k < 10
    requires Written(out[..], m, k) && v == Value(m, k)
    modifies out
    ensures Written(out[..], m, k + 1)
    ensures forall i :: FIXED_SIZE <= i < out.Length ==> out[i] == old(out[i])
  {
    ghost var s := out[..];
    ValuesFit(m, k);
    Write(out, Start(k), Width(k), v);
    forall j | 0 <= j < k ensures FieldHolds(out[..], m, j) {
      assert FieldHolds(s, m, j);
      ReadFramed(s, out[..], Start(j), Width(j));
    }
  }

  method WriteHeader(out: array<byte>, m: Manifest)
    requires IsValid(m) && out.Length >= FIXED_SIZE
    modifies out
    ensures Header(out[..], m)
    ensures forall i :: FIXED_SIZE <= i < out.Length ==> out[i] == old(out[i])
  {
    WriteField(out, 0, MAGIC, m);
    WriteField(out, 1, VERSION, m);
    WriteField(out, 2, m.phase, m);
    WriteField(out, 3, Size(|m.claims|), m);
    WriteField(out, 4, m.tableId, m);
    WriteField(out, 5, m.oldRoot, m);
    WriteField(out, 6, m.stagedRoot, m);
    WriteField(out, 7, m.oldGeneration, m);
    WriteField(out, 8, m.newGeneration, m);
    WriteField(out, 9, |m.claims|, m);
    WrittenIsHeader(out[..], m);
  }

  lemma HeaderFramed(s: seq<byte>, t: seq<byte>, m: Manifest)
    requires Header(s, m) && |t| >= FIXED_SIZE && forall i :: 0 <= i < FIXED_SIZE ==> t[i] == s[i]
    ensures Header(t, m)
  {
    forall k | 0 <= k < 10 ensures FieldHolds(t, m, k) {
      ReadFramed(s, t, Start(k), Width(k));
    }
    WrittenIsHeader(t, m);
  }

  lemma ClaimsFramed(s: seq<byte>, t: seq<byte>, claims: seq<u32>)
    requires Claims(s, claims) && |t| >= FIXED_SIZE + 4 * |claims| && |s| >= FIXED_SIZE + 4 * |claims|
    requires forall i :: FIXED_SIZE <= i < FIXED_SIZE + 4 * |claims| ==> t[i] == s[i]
    ensures Claims(t, claims)
  {
    forall k | 0 <= k < |claims| ensures ClaimField(t, claims, k) {
      assert ClaimField(s, claims, k);
      ReadFramed(s, t, FIXED_SIZE + 4 * k, 4);
    }
  }

  lemma ClaimsGrow(s: seq<byte>, claims: seq<u32>, k: nat)
    requires k < |claims| && Claims(s, claims[..k]) && ClaimField(s, claims, k)
    ensures Claims(s, claims[..k + 1])
  {
    var more := claims[..k + 1];
    forall j | 0 <= j < |more| ensures ClaimField(s, more, j) {
      assert j < k ==> ClaimField(s, claims[..k], j);
    }
  }

  method WriteClaims(out: array<byte>, claims: seq<u32>)
    requires out.Length >= FIXED_SIZE + 4 * |claims|
    modifies out
    ensures Claims(out[..], claims)
    ensures forall i :: 0 <= i < out.Length && !(FIXED_SIZE <= i < FIXED_SIZE + 4 * |claims|) ==> out[i] == old(out[i])
  {
    Powers();
    for k := 0 to |claims|
      invariant Claims(out[..], claims[..k])
      invariant forall i :: 0 <= i < out.Length && !(FIXED_SIZE <= i < FIXED_SIZE + 4 * k) ==> out[i] == old(out[i])
    {
      ghost var s := out[..];
      Write(out, FIXED_SIZE + 4 * k, 4, claims[k]);
      ClaimsFramed(s, out[..], claims[..k]);
      assert ClaimField(out[..], claims, k);
      ClaimsGrow(out[..], claims, k);
    }
    assert claims[..|claims|] == claims;
  }

  // Writes the byte form of a valid manifest to the front of `out`, or nothing.
  method Encode(m: Manifest, out: array<byte>) returns (ok: bool, length: nat)
    modifies out
    ensures ok <==> IsValid(m) && Size(|m.claims|) <= out.Length
    ensures ok ==> length == Size(|m.claims|) && Encodes(out[..length], m)
    ensures ok ==> forall i :: length <= i < out.Length ==> out[i] == old(out[i])
    ensures !ok ==> length == 0 && out[..] == old(out[..])
  {
    ok := CheckValid(m);
    if !ok || out.Length < Size(|m.claims|) {
      return false, 0;
    }
    length := Size(|m.claims|);
    for i := 0 to length
      invariant forall j :: length <= j < out.Length ==> out[j] == old(out[j])
    {
      out[i] := 0;
    }
    WriteHeader(out, m);
    ghost var s := out[..];
    WriteClaims(out, m.claims);
    HeaderFramed(s, out[..], m);
    s := out[..];
    var body := length - CHECKSUM_SIZE;
    var crc := Crc(out, body);
    ChecksumBound(out[..], body);
    Powers();
    Write(out, body, CHECKSUM_SIZE, crc);
    EncodedIsSealed(s, out[..], m, length, crc);
  }

  lemma EncodedIsSealed(s: seq<byte>, t: seq<byte>, m: Manifest, length: nat, crc: nat)
    requires Header(s, m) && Claims(s, m.claims) && length == Size(|m.claims|) <= |s| == |t|
    requires crc == Checksum(s, length - CHECKSUM_SIZE) == Read(t, length - CHECKSUM_SIZE, 4)
    requires forall i :: 0 <= i < length - CHECKSUM_SIZE ==> t[i] == s[i]
    ensures Encodes(t[..length], m)
  {
    var u, body := t[..length], length - CHECKSUM_SIZE;
    HeaderFramed(s, u, m);
    ClaimsFramed(s, u, m.claims);
    SameChecksum(s, u, body);
    ReadFramed(t, u, body, 4);
  }

  // What decoding checks before it looks at the fields.
  ghost predicate Framed(s: seq<byte>, capacity: nat) {
    && |s| >= FIXED_SIZE + CHECKSUM_SIZE
    && Read(s, 0, 4) == MAGIC && Read(s, 4, 2) == VERSION && Read(s, 8, 4) == |s|
    && 1 <= Read(s, 40, 4) <= MAX_CLAIMS && Size(Read(s, 40, 4)) == |s| && Read(s, 40, 4) <= capacity
    && Sealed(s)
  }

  lemma EncodedIsFramed(s: seq<byte>, m: Manifest, capacity: nat)
    requires IsValid(m) && Encodes(s, m) && |m.claims| <= capacity
    ensures Framed(s, capacity)
  {
  }

  method CheckFrame(s: seq<byte>, source: array<byte>, capacity: nat) returns (ok: bool)
    requires |s| <= source.Length && s == source[..|s|]
    ensures ok <==> Framed(s, capacity)
  {
    if |s| < FIXED_SIZE + CHECKSUM_SIZE || Read(s, 0, 4) != MAGIC || Read(s, 4, 2) != VERSION || Read(s, 8, 4) != |s| {
      return false;
    }
    var count := Read(s, 40, 4);
    if count == 0 || count > MAX_CLAIMS || Size(count) != |s| || count > capacity {
      return false;
    }
    var body := |s| - CHECKSUM_SIZE;
    var actual := Crc(source, body);
    SameChecksum(s, source[..], body);
    ok := Read(s, body, CHECKSUM_SIZE) == actual;
  }

  method ReadClaims(s: seq<byte>, count: nat, out: array<u32>)
    requires FIXED_SIZE + 4 * count <= |s| && count <= out.Length
    modifies out
    ensures Claims(s, out[..count])
  {
    Powers();
    for k := 0 to count
      invariant Claims(s, out[..k])
    {
      ghost var before := out[..k];
      out[k] := Read(s, FIXED_SIZE + 4 * k, 4);
      assert out[..k] == before;
      assert out[..k + 1][..k] == out[..k];
      assert ClaimField(s, out[..k + 1], k);
      ClaimsGrow(s, out[..k + 1], k);
      assert out[..k + 1][..k + 1] == out[..k + 1];
    }
  }

  // Accepts exactly the byte forms of valid manifests whose claims fit, and
  // returns the manifest they stand for.
  method Decode(source: array<byte>, length: nat, claimsOut: array<u32>) returns (r: Option<Manifest>)
    requires length <= source.Length
    modifies claimsOut
    ensures r.Some? ==> IsValid(r.value) && Encodes(source[..length], r.value) && |r.value.claims| <= claimsOut.Length
    ensures r.Some? ==> claimsOut[..|r.value.claims|] == r.value.claims
    ensures r.None? ==> forall m :: IsValid(m) && |m.claims| <= claimsOut.Length ==> !Encodes(source[..length], m)
  {
    var s := source[..length];
    var framed := CheckFrame(s, source, claimsOut.Length);
    if !framed {
      forall m | IsValid(m) && |m.claims| <= claimsOut.Length ensures !Encodes(s, m) {
        if Encodes(s, m) {
          EncodedIsFramed(s, m, claimsOut.Length);
        }
      }
      return None;
    }
    var count := Read(s, 40, 4);
    ReadClaims(s, count, claimsOut);
    Powers();
    var candidate := Manifest(Read(s, 12, 4), Read(s, 16, 4), Read(s, 20, 4), Read(s, 24, 8), Read(s, 32, 8),
                              Read(s, 6, 2), claimsOut[..count]);
    assert Encodes(s, candidate);
    var ok := CheckValid(candidate);
    if !ok {
      forall m | IsValid(m) ensures !Encodes(s, m) {
        if Encodes(s, m) {
          OneManifest(s, m, candidate);
        }
      }
      return None;
    }
    r := Some(candidate);
  }
}
