/**
 * Byte layout of the AMD VFCT ("VBIOS Fetch Table") ACPI table: the fixed
 * `UEFI_ACPI_VFCT` prefix (the 36-byte system description table header of
 * section 5.2.6 of the ACPI Specification followed by the VFCT extension)
 * and the 28-byte `VFCT_IMAGE_HEADER` that starts every image record.
 */
module Layout {
  import opened Bytes

  /** sizeof(UEFI_ACPI_VFCT): 36-byte header, 16-byte UUID, two offsets, four reserved words. */
  const PrefixSize: nat := 0x4C
  /** Byte offset of `SHeader.TableLength` in the prefix. */
  const TableLengthAt: nat := 4
  /** Byte offset of `VBIOSImageOffset` in the prefix. */
  const ImageOffsetAt: nat := 0x34

  /** sizeof(VFCT_IMAGE_HEADER). */
  const HeaderSize: nat := 28

  /** `TableLength`, the u32 at byte 4 of the table: its four bytes are exactly the value's encoding. */
  function TableLength(prefix: seq<u8>): (t: u32)
    requires |prefix| >= PrefixSize
    ensures EncodeU32(t) == prefix[TableLengthAt..TableLengthAt + 4]
  {
    EncodeLE32RoundTrip(prefix[TableLengthAt..TableLengthAt + 4]);
    LE32(prefix[TableLengthAt..TableLengthAt + 4])
  }

  /** `VBIOSImageOffset`, the u32 at byte 0x34 of the table: its four bytes are exactly the value's encoding. */
  function ImageOffset(prefix: seq<u8>): (off: u32)
    requires |prefix| >= PrefixSize
    ensures EncodeU32(off) == prefix[ImageOffsetAt..ImageOffsetAt + 4]
  {
    EncodeLE32RoundTrip(prefix[ImageOffsetAt..ImageOffsetAt + 4]);
    LE32(prefix[ImageOffsetAt..ImageOffsetAt + 4])
  }

  /** The decoded fields of one `VFCT_IMAGE_HEADER`. */
  datatype ImageHeader = ImageHeader(
    pciBus: u32,
    pciDevice: u32,
    pciFunction: u32,
    vendorId: u16,
    deviceId: u16,
    ssvid: u16,
    ssid: u16,
    revision: u32,
    imageLength: u32)

  /** Decodes the 28 header bytes of an image record (fields at +0, +4, +8, +12, +14, +16, +18, +20, +24). */
  function DecodeImageHeader(b: seq<u8>): ImageHeader
    requires |b| == HeaderSize
  {
    ImageHeader(
      LE32(b[0..4]), LE32(b[4..8]), LE32(b[8..12]),
      LE16(b[12..14]), LE16(b[14..16]), LE16(b[16..18]), LE16(b[18..20]),
      LE32(b[20..24]), LE32(b[24..28]))
  }

  /** The bytes a firmware writes for a header: the inverse of DecodeImageHeader. */
  function EncodeImageHeader(h: ImageHeader): (b: seq<u8>)
    ensures |b| == HeaderSize
  {
    EncodeU32(h.pciBus) + EncodeU32(h.pciDevice) + EncodeU32(h.pciFunction)
      + EncodeU16(h.vendorId) + EncodeU16(h.deviceId) + EncodeU16(h.ssvid) + EncodeU16(h.ssid)
      + EncodeU32(h.revision) + EncodeU32(h.imageLength)
  }

  lemma {:induction false} HeaderRoundTrip(h: ImageHeader)
    ensures DecodeImageHeader(EncodeImageHeader(h)) == h
  {
    var b := EncodeImageHeader(h);
    assert b[0..4] == EncodeU32(h.pciBus);
    assert b[4..8] == EncodeU32(h.pciDevice);
    assert b[8..12] == EncodeU32(h.pciFunction);
    assert b[12..14] == EncodeU16(h.vendorId);
    assert b[14..16] == EncodeU16(h.deviceId);
    assert b[16..18] == EncodeU16(h.ssvid);
    assert b[18..20] == EncodeU16(h.ssid);
    assert b[20..24] == EncodeU32(h.revision);
    assert b[24..28] == EncodeU32(h.imageLength);
    LE32RoundTrip(h.pciBus);
    LE32RoundTrip(h.pciDevice);
    LE32RoundTrip(h.pciFunction);
    LE16RoundTrip(h.vendorId);
    LE16RoundTrip(h.deviceId);
    LE16RoundTrip(h.ssvid);
    LE16RoundTrip(h.ssid);
    LE32RoundTrip(h.revision);
    LE32RoundTrip(h.imageLength);
  }

  /** The 28 header bytes cut at the field boundaries. */
  lemma {:induction false} HeaderSlices(b: seq<u8>)
    requires |b| == HeaderSize
    ensures b == b[0..4] + b[4..8] + b[8..12] + b[12..14] + b[14..16] + b[16..18] + b[18..20] + b[20..24] + b[24..28]
  {
  }

  /** Every header byte lands in a field: encoding the decoded header gives the 28 bytes back. */
  lemma {:induction false} HeaderBytesRoundTrip(b: seq<u8>)
    requires |b| == HeaderSize
    ensures EncodeImageHeader(DecodeImageHeader(b)) == b
  {
    HeaderSlices(b);
    EncodeLE32RoundTrip(b[0..4]);
    EncodeLE32RoundTrip(b[4..8]);
    EncodeLE32RoundTrip(b[8..12]);
    EncodeLE16RoundTrip(b[12..14]);
    EncodeLE16RoundTrip(b[14..16]);
    EncodeLE16RoundTrip(b[16..18]);
    EncodeLE16RoundTrip(b[18..20]);
    EncodeLE32RoundTrip(b[20..24]);
    EncodeLE32RoundTrip(b[24..28]);
  }

  function Zeros(n: nat): (z: seq<u8>)
    ensures |z| == n && forall i :: 0 <= i < n ==> z[i] == 0
  {
    seq(n, _ => 0)
  }

  /**
   * A table prefix with signature "VFCT", the given TableLength and
   * VBIOSImageOffset, and every other field zero.
   */
  function EncodePrefix(tableLength: u32, imageOffset: u32): (p: seq<u8>)
    ensures |p| == PrefixSize
  {
    [0x56, 0x46, 0x43, 0x54] + EncodeU32(tableLength) + Zeros(ImageOffsetAt - 8)
      + EncodeU32(imageOffset) + Zeros(PrefixSize - ImageOffsetAt - 4)
  }

  /** TableLength and ImageOffset read back what EncodePrefix wrote, whatever follows the prefix. */
  lemma {:induction false} PrefixRoundTrip(tableLength: u32, imageOffset: u32, rest: seq<u8>)
    ensures var t := EncodePrefix(tableLength, imageOffset) + rest;
            TableLength(t) == tableLength && ImageOffset(t) == imageOffset
  {
    var t := EncodePrefix(tableLength, imageOffset) + rest;
    assert t[TableLengthAt..TableLengthAt + 4] == EncodeU32(tableLength);
    assert t[ImageOffsetAt..ImageOffsetAt + 4] == EncodeU32(imageOffset);
    LE32RoundTrip(tableLength);
    LE32RoundTrip(imageOffset);
  }

  /** Both prefix fields are read from the first PrefixSize bytes only. */
  lemma {:induction false} PrefixFieldsLocal(s: seq<u8>, n: nat)
    requires PrefixSize <= n <= |s|
    ensures TableLength(s[..n]) == TableLength(s) && ImageOffset(s[..n]) == ImageOffset(s)
  {
    assert s[..n][TableLengthAt..TableLengthAt + 4] == s[TableLengthAt..TableLengthAt + 4];
    assert s[..n][ImageOffsetAt..ImageOffsetAt + 4] == s[ImageOffsetAt..ImageOffsetAt + 4];
  }
}
