/** One manifest and its bytes, written out: the layout of
    src/compact_v2_migration_manifest.h:142-181 on a manifest whose fields hold the
    numbers 1 to 28. */
module ManifestBytes {
  import opened Manifest
  import opened Crc32
  import opened LittleEndian
  import opened ManifestCodec
  import opened MachineWords
  import opened Residues

  const SAMPLE: Manifest := Manifest(0x0403_0201, 0x0807_0605, 0x0c0b_0a09, 0x1413_1211_100f_0e0d,
                                     0x1c1b_1a19_1817_1615, 1, [0x0c0b_0a09])

  predicate IsSample(s: seq<byte>) {
    && |s| == 52
    && Four(s, 0, 0x54, 0x4d, 0x47, 0x32)  // magic number
    && Four(s, 4, 0x01, 0x00, 0x01, 0x00)  // version, phase
    && Four(s, 8, 0x34, 0x00, 0x00, 0x00)  // length
    && Four(s, 12, 0x01, 0x02, 0x03, 0x04)  // table
    && Four(s, 16, 0x05, 0x06, 0x07, 0x08)  // old root
    && Four(s, 20, 0x09, 0x0a, 0x0b, 0x0c)  // staged root
    && Four(s, 24, 0x0d, 0x0e, 0x0f, 0x10)  // old generation
    && Four(s, 28, 0x11, 0x12, 0x13, 0x14)
    && Four(s, 32, 0x15, 0x16, 0x17, 0x18)  // new generation
    && Four(s, 36, 0x19, 0x1a, 0x1b, 0x1c)
    && Four(s, 40, 0x01, 0x00, 0x00, 0x00)  // number of claims
    && Four(s, 44, 0x09, 0x0a, 0x0b, 0x0c)  // claim
    && Four(s, 48, 0xf9, 0x4b, 0x3e, 0x1e)  // checksum
  }

  lemma Register4(s: seq<byte>, n: nat)
    requires IsSample(s) && n == 0
    ensures After(s, n + 4, 0x9579_2ec7)
  {
    StartHolds(s);
    FourBytes(s, n, 0xffff_ffff, 0x54, 0x41fb_859f, 0x4d, 0x689c_487d,
              0x47, 0xc664_45fa, 0x32, 0x9579_2ec7);
  }

  lemma Register8(s: seq<byte>, n: nat)
    requires IsSample(s) && n == 0
    ensures After(s, n + 8, 0x0676_4e05)
  {
    Register4(s, n);
    FourBytes(s, n + 4, 0x9579_2ec7, 0x01, 0x7292_1eab, 0x00, 0x4176_e87e,
              0x01, 0xc0fb_1a45, 0x00, 0x0676_4e05);
  }

  lemma Register12(s: seq<byte>, n: nat)
    requires IsSample(s) && n == 0
    ensures After(s, n + 12, 0xa295_444b)
  {
    Register8(s, n);
    FourBytes(s, n + 8, 0x0676_4e05, 0x34, 0x51d8_7674, 0x00, 0x5739_6d53,
              0x00, 0xf235_3923, 0x00, 0xa295_444b);
  }

  lemma Register16(s: seq<byte>, n: nat)
    requires IsSample(s) && n == 0
    ensures After(s, n + 16, 0x9810_626a)
  {
    Register12(s, n);
    FourBytes(s, n + 12, 0xa295_444b, 0x01, 0x96ab_3dca, 0x02, 0x9529_e1bf,
              0x03, 0xc242_d646, 0x04, 0x9810_626a);
  }

  lemma Register20(s: seq<byte>, n: nat)
    requires IsSample(s) && n == 0
    ensures After(s, n + 20, 0xd917_937b)
  {
    Register16(s, n);
    FourBytes(s, n + 16, 0x9810_626a, 0x05, 0xdd95_6cab, 0x06, 0xa8ba_4a39,
              0x07, 0xc1c9_a7e1, 0x08, 0xd917_937b);
  }

  lemma Register24(s: seq<byte>, n: nat)
    requires IsSample(s) && n == 0
    ensures After(s, n + 24, 0x233a_906e)
  {
    Register20(s, n);
    FourBytes(s, n + 20, 0xd917_937b, 0x09, 0xbed2_0783, 0x0a, 0x94da_e983,
              0x0b, 0xe3f7_d1fb, 0x0c, 0x233a_906e);
  }

  lemma Register28(s: seq<byte>, n: nat)
    requires IsSample(s) && n == 0
    ensures After(s, n + 28, 0xc3ff_6eb7)
  {
    Register24(s, n);
    FourBytes(s, n + 24, 0x233a_906e, 0x0d, 0xd498_0a72, 0x0e, 0x5967_a51d,
              0x0f, 0xf3e0_16ed, 0x10, 0xc3ff_6eb7);
  }

  lemma Register32(s: seq<byte>, n: nat)
    requires IsSample(s) && n == 0
    ensures After(s, n + 32, 0xdf97_2c7a)
  {
    Register28(s, n);
    FourBytes(s, n + 28, 0xc3ff_6eb7, 0x11, 0x3f76_f9b3, 0x12, 0xa1ee_e587,
              0x13, 0xf7c3_b9b8, 0x14, 0xdf97_2c7a);
  }

  lemma Register36(s: seq<byte>, n: nat)
    requires IsSample(s) && n == 0
    ensures After(s, n + 36, 0x743a_484b)
  {
    Register32(s, n);
    FourBytes(s, n + 32, 0xdf97_2c7a, 0x15, 0xddd2_ebe5, 0x16, 0x2469_714d,
              0x17, 0x8b9a_d19b, 0x18, 0x743a_484b);
  }

  lemma Register40(s: seq<byte>, n: nat)
    requires IsSample(s) && n == 0
    ensures After(s, n + 40, 0xc1ca_c17e)
  {
    Register36(s, n);
    FourBytes(s, n + 36, 0x743a_484b, 0x19, 0x8511_0a90, 0x1a, 0x0de8_7b34,
              0x1b, 0xabdc_d522, 0x1c, 0xc1ca_c17e);
  }

  lemma Register44(s: seq<byte>, n: nat)
    requires IsSample(s) && n == 0
    ensures After(s, n + 44, 0x7e47_815f)
  {
    Register40(s, n);
    FourBytes(s, n + 40, 0xc1ca_c17e, 0x01, 0xc07b_a66c, 0x00, 0x44c4_56d5,
              0x00, 0xf6fd_e20d, 0x00, 0x7e47_815f);
  }

  lemma Register48(s: seq<byte>, n: nat)
    requires IsSample(s) && n == 0
    ensures After(s, n + 48, 0xe1c1_b406)
  {
    Register44(s, n);
    FourBytes(s, n + 44, 0x7e47_815f, 0x09, 0x8276_b340, 0x0a, 0x968b_de3d,
              0x0b, 0xcf2c_1e47, 0x0c, 0xe1c1_b406);
  }

  lemma LastRegister()
    ensures Holds(BitsOf(0xe1c1_b406, 32), 0xe1c1_b406)
  {
    AgreeDigits([0, 0xe, 0xe1, 0xe1c, 0xe1c1, 0xe1c1b, 0xe1c1b4, 0xe1c1b40, 0xe1c1b406],
                [0, 0xe, 0xe1, 0xe1c, 0xe1c1, 0xe1c1b, 0xe1c1b4, 0xe1c1b40, 0xe1c1b406], 8);
    AgreeHolds(0xe1c1_b406, 0xe1c1_b406);
  }

  lemma SampleChecksum(s: seq<byte>, n: nat)
    requires IsSample(s) && n == 0
    ensures Checksum(s, n + 48) == 0x1e3e_4bf9
  {
    Register48(s, n);
    LastRegister();
    SameWord(Register(s, n + 48), BitsOf(0xe1c1_b406, 32), 0xe1c1_b406);
    Complemented(0xe1c1_b406);
  }

  lemma SampleIsSealed(s: seq<byte>)
    requires IsSample(s)
    ensures Sealed(s)
  {
    SampleChecksum(s, 0);
    ReadFour(s, 48, 0xf9, 0x4b, 0x3e, 0x1e);
  }

  lemma ReadFour(s: seq<byte>, at: nat, a: byte, b: byte, c: byte, d: byte)
    requires Four(s, at, a, b, c, d)
    ensures Read(s, at, 2) == a + 0x100 * b
    ensures Read(s, at, 4) == a + 0x100 * b + 0x1_0000 * c + 0x100_0000 * d
  {
    assert Read(s, at + 3, 1) == d + 256 * Read(s, at + 4, 0);
    assert Read(s, at + 2, 2) == c + 256 * Read(s, at + 3, 1);
    assert Read(s, at + 1, 3) == b + 256 * Read(s, at + 2, 2);
    assert Read(s, at + 1, 1) == b + 256 * Read(s, at + 2, 0);
  }

  lemma ReadEight(s: seq<byte>, at: nat)
    requires at + 8 <= |s|
    ensures Read(s, at, 8) == Read(s, at, 4) + 0x1_0000_0000 * Read(s, at + 4, 4)
  {
    assert Read(s, at + 3, 5) == s[at + 3] + 256 * Read(s, at + 4, 4);
    assert Read(s, at + 2, 6) == s[at + 2] + 256 * Read(s, at + 3, 5);
    assert Read(s, at + 1, 7) == s[at + 1] + 256 * Read(s, at + 2, 6);
    assert Read(s, at + 3, 1) == s[at + 3] + 256 * Read(s, at + 4, 0);
    assert Read(s, at + 2, 2) == s[at + 2] + 256 * Read(s, at + 3, 1);
    assert Read(s, at + 1, 3) == s[at + 1] + 256 * Read(s, at + 2, 2);
  }

  lemma SampleGenerations(s: seq<byte>)
    requires IsSample(s)
    ensures Read(s, 24, 8) == SAMPLE.oldGeneration && Read(s, 32, 8) == SAMPLE.newGeneration
  {
    ReadFour(s, 24, 0x0d, 0x0e, 0x0f, 0x10);
    ReadFour(s, 28, 0x11, 0x12, 0x13, 0x14);
    ReadEight(s, 24);
    ReadFour(s, 32, 0x15, 0x16, 0x17, 0x18);
    ReadFour(s, 36, 0x19, 0x1a, 0x1b, 0x1c);
    ReadEight(s, 32);
  }

  lemma ReadTwo(s: seq<byte>, at: nat, a: byte, b: byte)
    requires at + 2 <= |s| && s[at] == a && s[at + 1] == b
    ensures Read(s, at, 2) == a + 256 * b
  {
    assert Read(s, at + 1, 1) == s[at + 1] + 256 * Read(s, at + 2, 0);
  }

  lemma SampleHeader(s: seq<byte>)
    requires IsSample(s)
    ensures Header(s, SAMPLE)
  {
    ReadFour(s, 0, 0x54, 0x4d, 0x47, 0x32);
    ReadTwo(s, 4, 0x01, 0x00);
    ReadTwo(s, 6, 0x01, 0x00);
    ReadFour(s, 8, 0x34, 0x00, 0x00, 0x00);
    ReadFour(s, 12, 0x01, 0x02, 0x03, 0x04);
    ReadFour(s, 16, 0x05, 0x06, 0x07, 0x08);
    ReadFour(s, 20, 0x09, 0x0a, 0x0b, 0x0c);
    ReadFour(s, 40, 0x01, 0x00, 0x00, 0x00);
    SampleGenerations(s);
  }

  lemma SampleClaims(s: seq<byte>)
    requires IsSample(s)
    ensures Claims(s, SAMPLE.claims)
  {
    ReadFour(s, 44, 0x09, 0x0a, 0x0b, 0x0c);
    assert ClaimField(s, SAMPLE.claims, 0);
  }

  // These bytes stand for this manifest, and no others do.
  lemma SampleBytes(s: seq<byte>, t: seq<byte>)
    requires IsSample(s)
    ensures IsValid(SAMPLE) && Encodes(s, SAMPLE)
    ensures Encodes(t, SAMPLE) <==> t == s
  {
    SampleIsSealed(s);
    SampleHeader(s);
    SampleClaims(s);
    if Encodes(t, SAMPLE) {
      OneByteForm(s, t, SAMPLE);
    }
  }
}
