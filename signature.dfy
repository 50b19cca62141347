/**
 * The structural tests of the container check: the file size is a whole
 * number of 512-byte sectors, and the first bytes carry a partition-table
 * signature (the GPT header signature "EFI PART" at LBA 1, section 5.3.2 of
 * the UEFI Specification, or the legacy MBR boot signature 0x55 0xAA at
 * offset 510, section 5.2.1 of the UEFI Specification).
 */
module Signature {

  import opened Bytes

  const SectorSize: nat := 512

  /** "EFI PART" in ASCII. */
  const GptSignature: seq<byte> := [0x45, 0x46, 0x49, 0x20, 0x50, 0x41, 0x52, 0x54]
  const GptOffset: nat := 512

  /** `b'U\xaa'`, that is 0x55 0xAA. */
  const MbrSignature: seq<byte> := [0x55, 0xAA]
  const MbrOffset: nat := 510

  /** Python's `s[lo:hi]` for 0 <= lo <= hi: indices past the end are clipped. */
  function Slice<T>(s: seq<T>, lo: nat, hi: nat): (r: seq<T>)
    requires lo <= hi
    ensures |r| <= hi - lo
    ensures lo < hi ==> (|r| == hi - lo <==> hi <= |s|)
    ensures hi <= |s| ==> r == s[lo..hi]
  {
    if hi <= |s| then s[lo..hi]
    else if lo <= |s| then s[lo..]
    else []
  }

  /**
   * `data[512:520] == b'EFI PART' or data[510:512] == b'U\xaa'`.  A buffer too
   * short to hold a marker yields a shorter slice, which never equals it.
   */
  function HasDiskImageSignature(data: seq<byte>): (r: bool)
    ensures r <==>
      (|data| >= GptOffset + |GptSignature| && data[GptOffset..GptOffset + |GptSignature|] == GptSignature) ||
      (|data| >= MbrOffset + |MbrSignature| && data[MbrOffset..MbrOffset + |MbrSignature|] == MbrSignature)
  {
    Slice(data, 512, 520) == GptSignature || Slice(data, 510, 512) == MbrSignature
  }

  /** Python's `float.is_integer`, on exact reals. */
  predicate IsInteger(x: real) {
    x.Floor as real == x
  }

  /** `n / 512` is a whole number exactly when 512 divides n. */
  lemma DivisionIsWhole(n: nat)
    ensures IsInteger(n as real / 512.0) <==> n % 512 == 0
  {
    var q, m := n / 512, n % 512;
    assert n == 512 * q + m;
    assert n as real / 512.0 == q as real + m as real / 512.0;
    assert 0.0 <= m as real / 512.0 < 1.0;
    assert (n as real / 512.0).Floor == q;
  }

  /** `(os.path.getsize(f) / 512).is_integer()`. */
  function SectorAligned(size: nat): (r: bool)
    ensures r <==> size % SectorSize == 0
  {
    DivisionIsWhole(size);
    IsInteger(size as real / 512.0)
  }

}
