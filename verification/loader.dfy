/**
 * The table loader: read the fixed `UEFI_ACPI_VFCT` prefix, learn
 * `TableLength` from it, grow the buffer to that size and read the rest.
 */
module Loader {
  import opened Wrappers
  import opened Bytes
  import opened Layout

  datatype LoadError = SourceUnavailable | TruncatedHeader | InvalidLength | TruncatedBody

  /** A loaded table: exactly `TableLength` bytes, and the cursor where the image chain starts. */
  datatype Table = Table(bytes: seq<u8>, imageOffset: u32)

  /** An open byte stream (`FILE*`) over the contents of the table file. */
  class Stream {
    const data: seq<u8>
    var pos: nat

    ghost predicate Valid()
      reads this
    {
      pos <= |data|
    }

    /** The bytes a further read can still return. */
    ghost function Remaining(): seq<u8>
      reads this
      requires Valid()
    {
      data[pos..]
    }

    constructor Open(contents: seq<u8>)
      ensures Valid() && data == contents && pos == 0
    {
      data := contents;
      pos := 0;
    }

    /** `fread(buf + at, 1, n, fp)`: stores up to `n` bytes at `buf[at..]` and returns how many. */
    method Read(buf: array<u8>, at: nat, n: nat) returns (count: nat)
      requires Valid() && at + n <= buf.Length
      modifies this, buf
      ensures Valid()
      ensures count == Min(n, |old(Remaining())|)
      ensures pos == old(pos) + count
      ensures buf[..] == old(buf[..at]) + old(Remaining())[..count] + old(buf[at + count..])
    {
      count := Min(n, |data| - pos);
      var i := 0;
      while i < count
        invariant 0 <= i <= count
        invariant pos == old(pos) && count <= |data| - pos
        invariant forall k :: 0 <= k < buf.Length ==>
          buf[k] == if at <= k < at + i then data[pos + k - at] else old(buf[k])
      {
        buf[at + i] := data[pos + i];
        i := i + 1;
      }
      assert buf[..] == old(buf[..at]) + data[pos..][..count] + old(buf[at + count..]);
      pos := pos + count;
    }
  }

  /** A table whose length field agrees with its size and whose image offset is its own field. */
  ghost predicate ValidTable(t: Table) {
    && PrefixSize <= |t.bytes| < U32Modulus
    && TableLength(t.bytes) == |t.bytes|
    && ImageOffset(t.bytes) == t.imageOffset
  }

  /**
   * What loading a table file with contents `input` yields. The
   * `InvalidLength` case is a guard the source lacks: it computes
   * `TableLength - 0x4C` unsigned and reads the body anyway.
   */
  function Load(input: seq<u8>): (r: Result<Table, LoadError>)
    ensures r.Ok? ==> r.value.bytes <= input && ValidTable(r.value)
    ensures r != Err(SourceUnavailable)
  {
    if |input| < PrefixSize then Err(TruncatedHeader)
    else if TableLength(input) < PrefixSize then Err(InvalidLength)
    else if |input| < TableLength(input) then Err(TruncatedBody)
    else
      PrefixFieldsLocal(input, TableLength(input));
      Ok(Table(input[..TableLength(input)], ImageOffset(input)))
  }

  /**
   * Loading succeeds exactly when the whole prefix and then exactly
   * `TableLength - 0x4C` more bytes are available; the result is the first
   * `TableLength` bytes of the file, and it describes itself consistently.
   */
  lemma {:induction false} LoadSucceeds(input: seq<u8>)
    ensures Load(input).Ok? <==> |input| >= PrefixSize && PrefixSize <= TableLength(input) <= |input|
    ensures Load(input).Ok? ==>
      var t := Load(input).value;
      && t.bytes == input[..TableLength(input)]
      && t.imageOffset == ImageOffset(input)
      && ValidTable(t)
  {
  }

  /** Each failure names the first read or check that went wrong. */
  lemma {:induction false} LoadFails(input: seq<u8>)
    ensures Load(input) == Err(TruncatedHeader) <==> |input| < PrefixSize
    ensures Load(input) == Err(InvalidLength) <==> |input| >= PrefixSize && TableLength(input) < PrefixSize
    ensures Load(input) == Err(TruncatedBody) <==>
      |input| >= PrefixSize && PrefixSize <= TableLength(input) && |input| < TableLength(input)
    ensures Load(input) != Err(SourceUnavailable)
  {
  }

  /**
   * `main`'s loader: malloc a prefix buffer, read the prefix, realloc to
   * `TableLength` (keeping the prefix) and read the body behind it.
   */
  method LoadTable(fp: Stream) returns (r: Result<Table, LoadError>)
    requires fp.Valid() && fp.pos == 0
    modifies fp
    ensures r == Load(fp.data)
    ensures r.Ok? ==> ValidTable(r.value)
  {
    var prefix := new u8[PrefixSize];
    var got := fp.Read(prefix, 0, PrefixSize);
    if got != PrefixSize {
      return Err(TruncatedHeader);
    }
    assert prefix[..] == fp.data[..PrefixSize];
    PrefixFieldsLocal(fp.data, PrefixSize);
    var offset := ImageOffset(prefix[..]);
    var tblSize := TableLength(prefix[..]);
    if tblSize < PrefixSize {
      return Err(InvalidLength);
    }
    var table := new u8[tblSize];
    forall i | 0 <= i < PrefixSize {
      table[i] := prefix[i];
    }
    got := fp.Read(table, PrefixSize, tblSize - PrefixSize);
    if got != tblSize - PrefixSize {
      return Err(TruncatedBody);
    }
    assert table[..] == fp.data[..tblSize];
    r := Ok(Table(table[..], offset));
    LoadSucceeds(fp.data);
  }

  /** `tbl_size - sizeof(UEFI_ACPI_VFCT)` as the source computes it: a 64-bit `size_t` difference. */
  function AsWrittenBodyRequest(tableLength: u32): nat
  {
    (tableLength - PrefixSize) % 0x1_0000_0000_0000_0000
  }

  /**
   * One past the last buffer byte the source's body `fread` stores into:
   * it writes from `pvfct + 1` (byte 0x4C) as many bytes as it asked for or
   * the file still holds.
   */
  function AsWrittenBodyEnd(input: seq<u8>): nat
    requires |input| >= PrefixSize
  {
    PrefixSize + Min(AsWrittenBodyRequest(TableLength(input)), |input| - PrefixSize)
  }

  /**
   * A file whose TableLength is 0x10 and which holds one byte after the
   * prefix makes the source store past the end of its 0x10-byte buffer;
   * Load rejects it before any body byte is read.
   */
  lemma {:induction false} BodyUnderflowOverrunsBuffer()
    ensures var input := EncodePrefix(0x10, PrefixSize) + [0];
      && TableLength(input) == 0x10
      && AsWrittenBodyEnd(input) > TableLength(input)
      && Load(input) == Err(InvalidLength)
  {
    PrefixRoundTrip(0x10, PrefixSize, [0]);
  }
}
