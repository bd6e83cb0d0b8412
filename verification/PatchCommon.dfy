/** What the patch appliers share: their error codes and the running CRC. The step of the CRC
    is a parameter: nothing is claimed about which data share a checksum. */
module PatchCommon {
  import opened Bytes

  /** patch_error_t */
  datatype PatchError =
    | Success
    | PatchTooSmall
    | PatchInvalidHeader
    | PatchInvalid
    | SourceTooSmall
    | TargetTooSmall
    | SourceInvalid
    | TargetInvalid
    | SourceChecksumInvalid
    | TargetChecksumInvalid
    | PatchChecksumInvalid

  type Crc = x: int | 0 <= x < 0x1_0000_0000

  /** zlib_crc32_adjust */
  type Adjust = (Crc, Byte) -> Crc

  const ALL_ONES: Crc := 0xFFFF_FFFF

  function Not(c: Crc): Crc {
    ALL_ONES - c
  }

  /** The running checksum after the bytes of `s`, started from ~0. */
  function Running(adjust: Adjust, s: seq<Byte>): Crc {
    if s == [] then ALL_ONES else adjust(Running(adjust, s[..|s| - 1]), s[|s| - 1])
  }

  function Sum(adjust: Adjust, s: seq<Byte>): Crc {
    Not(Running(adjust, s))
  }

  lemma RunningNext(adjust: Adjust, s: seq<Byte>, k: nat)
    requires k < |s|
    ensures Running(adjust, s[..k + 1]) == adjust(Running(adjust, s[..k]), s[k])
  {
    assert s[..k + 1][..k] == s[..k];
  }

  function Min(a: nat, b: nat): nat {
    if a < b then a else b
  }

  /** Reading one byte more: `n << (8 * k)` joins what `k` bytes gave. */
  lemma {:induction false} OneByteMore(s: seq<Byte>, k: nat)
    requires k < |s|
    ensures FromLittleEndian(s[..k + 1]) == FromLittleEndian(s[..k]) + s[k] * Pow256(k)
  {
    if k == 0 {
      assert s[..1][1..] == [];
    } else {
      OneByteMore(s[1..], k - 1);
      assert s[..k + 1][1..] == s[1..][..k] && s[..k][1..] == s[1..][..k - 1];
      Rescale(s[k], Pow256(k - 1));
    }
  }

  lemma Rescale(n: nat, p: nat)
    ensures 0x100 * (n * p) == n * (0x100 * p)
  {
  }

  /** The three checksums at the end of a patch. */
  datatype Sums = Sums(source: Crc, target: Crc, patch: Crc)

  function Trailer(sums: Sums): (r: seq<Byte>)
    ensures |r| == 12
  {
    LittleEndian(sums.source, 4) + (LittleEndian(sums.target, 4) + LittleEndian(sums.patch, 4))
  }

  /** Four bytes, the lowest first. */
  lemma {:induction false} FourBytes(s: seq<Byte>)
    requires |s| == 4
    ensures FromLittleEndian(s) == s[0] + 0x100 * (s[1] as int) + 0x1_0000 * (s[2] as int) + 0x100_0000 * (s[3] as int)
  {
    var b, c, d := s[1..], s[2..], s[3..];
    assert b[1..] == c && c[1..] == d && d[1..] == [];
    assert FromLittleEndian(d) == s[3];
    assert FromLittleEndian(c) == s[2] + 0x100 * (s[3] as int);
  }

  /** The checksums of source, target and patch follow each other, each with its lowest byte first. */
  lemma TrailerIs(sums: Sums)
    ensures var t := Trailer(sums);
      && sums.source == t[0] + 0x100 * (t[1] as int) + 0x1_0000 * (t[2] as int) + 0x100_0000 * (t[3] as int)
      && sums.target == t[4] + 0x100 * (t[5] as int) + 0x1_0000 * (t[6] as int) + 0x100_0000 * (t[7] as int)
      && sums.patch == t[8] + 0x100 * (t[9] as int) + 0x1_0000 * (t[10] as int) + 0x100_0000 * (t[11] as int)
  {
    SumRoundTrip(sums.source);
    SumRoundTrip(sums.target);
    SumRoundTrip(sums.patch);
    FourBytes(LittleEndian(sums.source, 4));
    FourBytes(LittleEndian(sums.target, 4));
    FourBytes(LittleEndian(sums.patch, 4));
  }

  /** A checksum is the complement of a register that starts with all ones and takes in the bytes
      one by one. */
  lemma SumIs(adjust: Adjust, s: seq<Byte>, b: Byte)
    ensures Sum(adjust, []) == 0
    ensures 0xFFFF_FFFF - Sum(adjust, s + [b]) == adjust(0xFFFF_FFFF - Sum(adjust, s), b)
  {
    assert (s + [b])[..|s|] == s;
  }

  lemma SumRoundTrip(c: Crc)
    ensures FromLittleEndian(LittleEndian(c, 4)) == c
  {
    assert Pow256(2) == 0x1_0000 && Pow256(4) == 0x1_0000_0000;
    LittleEndianRoundTrip(c, 4);
  }
}
