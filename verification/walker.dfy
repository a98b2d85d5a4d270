/**
 * The record walk: from `VBIOSImageOffset`, a chain of image records, each
 * a 28-byte `VFCT_IMAGE_HEADER` followed by `ImageLength` payload bytes
 * (`GOP_VBIOS_CONTENT`), ended by a zero `ImageLength` or by the end of the
 * table.
 */
module Walker {
  import opened Wrappers
  import opened Bytes
  import opened Layout

  /** A decoded image record: its header and the payload bytes behind it. */
  datatype Image = Image(header: ImageHeader, payload: seq<u8>)

  /** An image record found at table offset `offset`. */
  datatype Record = Record(offset: nat, image: Image)

  /** Where the cursor goes after a record. */
  function Next(r: Record): nat {
    r.offset + HeaderSize + r.image.header.imageLength
  }

  /**
   * The record the walk takes at `cursor`, or None where the walk stops:
   * the cursor is at or past the end of the table, the header does not fit,
   * the header is the zero-length sentinel, or the payload does not fit.
   * The two "fits" guards are not in the source.
   */
  function RecordAt(table: seq<u8>, cursor: nat): (r: Option<Record>)
    ensures r.Some? ==> r.value.offset == cursor && cursor < Next(r.value) <= |table|
  {
    if cursor >= |table| || |table| - cursor < HeaderSize then None
    else
      var h := DecodeImageHeader(table[cursor..cursor + HeaderSize]);
      if h.imageLength == 0 || h.imageLength > |table| - cursor - HeaderSize then None
      else Some(Record(cursor, Image(h, table[cursor + HeaderSize..cursor + HeaderSize + h.imageLength])))
  }

  /** Every record the walk takes from `cursor` on, in chain order. */
  function Chain(table: seq<u8>, cursor: nat): (c: seq<Record>)
    ensures c == [] <==> RecordAt(table, cursor).None?
    ensures c != [] ==> Some(c[0]) == RecordAt(table, cursor)
    decreases |table| - cursor
  {
    match RecordAt(table, cursor)
    case None => []
    case Some(r) => [r] + Chain(table, Next(r))
  }

  /**
   * A record read from `table` entirely inside it: its header is the 28
   * bytes at its offset, its payload the `ImageLength` bytes right after,
   * and that length is not zero.
   */
  ghost predicate Framed(table: seq<u8>, r: Record) {
    && Next(r) <= |table|
    && r.image.header == DecodeImageHeader(table[r.offset..r.offset + HeaderSize])
    && r.image.header.imageLength > 0
    && |r.image.payload| == r.image.header.imageLength
    && r.image.payload == table[r.offset + HeaderSize..Next(r)]
  }

  /** No byte outside the table is read, and every record is the bytes at its offset. */
  lemma {:induction false} ChainFramed(table: seq<u8>, cursor: nat)
    ensures forall i :: 0 <= i < |Chain(table, cursor)| ==>
      cursor <= Chain(table, cursor)[i].offset && Framed(table, Chain(table, cursor)[i])
    decreases |table| - cursor
  {
    match RecordAt(table, cursor)
    case None =>
    case Some(r) =>
      ChainFramed(table, Next(r));
      var c := Chain(table, cursor);
      forall i | 0 <= i < |c|
        ensures cursor <= c[i].offset && Framed(table, c[i])
      {
        if i > 0 {
          assert c[i] == Chain(table, Next(r))[i - 1];
        }
      }
  }

  /**
   * The walk starts at `cursor`, each record starts where the previous one
   * ended (28 + ImageLength bytes further), and the walk stops where no
   * further record can be taken.
   */
  lemma {:induction false} ChainLinked(table: seq<u8>, cursor: nat)
    ensures var c := Chain(table, cursor);
      && (c != [] ==> c[0].offset == cursor)
      && (forall i :: 0 <= i < |c| - 1 ==> c[i + 1].offset == Next(c[i]))
      && RecordAt(table, if c == [] then cursor else Next(c[|c| - 1])).None?
    decreases |table| - cursor
  {
    match RecordAt(table, cursor)
    case None =>
    case Some(r) =>
      ChainLinked(table, Next(r));
      var c, rest := Chain(table, cursor), Chain(table, Next(r));
      assert c == [r] + rest;
      forall i | 0 <= i < |c| - 1
        ensures c[i + 1].offset == Next(c[i])
      {
        if i > 0 {
          assert c[i] == rest[i - 1] && c[i + 1] == rest[i];
        }
      }
      if rest != [] {
        assert c[|c| - 1] == rest[|rest| - 1];
      }
  }

  /** Each record uses at least 29 bytes, so the walk takes at most (TableLength - start) / 29 steps. */
  lemma {:induction false} ChainLength(table: seq<u8>, cursor: nat)
    ensures |Chain(table, cursor)| * (HeaderSize + 1) <= |table| - cursor || (cursor > |table| && Chain(table, cursor) == [])
    decreases |table| - cursor
  {
    match RecordAt(table, cursor)
    case None =>
    case Some(r) =>
      ChainLength(table, Next(r));
  }

  /** At or past the end of the table the walk takes nothing. */
  lemma {:induction false} PastEndEndsChain(table: seq<u8>, cursor: nat)
    requires cursor >= |table|
    ensures Chain(table, cursor) == []
  {
  }

  /** Fewer than 28 bytes left: the walk takes nothing (a guard the source lacks). */
  lemma {:induction false} ShortTailEndsChain(table: seq<u8>, cursor: nat)
    requires |table| - cursor < HeaderSize
    ensures Chain(table, cursor) == []
  {
  }

  /** A zero ImageLength at the cursor ends the walk with no record taken. */
  lemma {:induction false} SentinelEndsChain(table: seq<u8>, cursor: nat)
    requires cursor + HeaderSize <= |table|
    requires DecodeImageHeader(table[cursor..cursor + HeaderSize]).imageLength == 0
    ensures Chain(table, cursor) == []
  {
  }

  /** A payload running past the table ends the walk (a guard the source lacks). */
  lemma {:induction false} OverrunEndsChain(table: seq<u8>, cursor: nat)
    requires cursor + HeaderSize <= |table|
    requires DecodeImageHeader(table[cursor..cursor + HeaderSize]).imageLength > |table| - cursor - HeaderSize
    ensures Chain(table, cursor) == []
  {
  }

  /** Otherwise the walk takes the header at the cursor and the ImageLength bytes behind it. */
  lemma {:induction false} RecordTaken(table: seq<u8>, cursor: nat, header: ImageHeader, payload: seq<u8>)
    requires cursor + HeaderSize <= |table|
    requires header == DecodeImageHeader(table[cursor..cursor + HeaderSize])
    requires 0 < header.imageLength <= |table| - cursor - HeaderSize
    requires payload == table[cursor + HeaderSize..cursor + HeaderSize + header.imageLength]
    ensures RecordAt(table, cursor) == Some(Record(cursor, Image(header, payload)))
  {
  }

  /** A well-formed image record as firmware writes it: ImageLength counts the payload, and is not zero. */
  ghost predicate WellFormed(img: Image) {
    |img.payload| == img.header.imageLength > 0
  }

  /** Total size of the records `imgs`. */
  function ChainSize(imgs: seq<Image>): nat
  {
    if imgs == [] then 0 else HeaderSize + |imgs[0].payload| + ChainSize(imgs[1..])
  }

  /** Where `imgs` go when laid out one after another from `cursor`. */
  function Placed(imgs: seq<Image>, cursor: nat): (rs: seq<Record>)
    ensures |rs| == |imgs|
    ensures forall i :: 0 <= i < |rs| ==> rs[i].image == imgs[i]
  {
    if imgs == [] then []
    else [Record(cursor, imgs[0])] + Placed(imgs[1..], cursor + HeaderSize + |imgs[0].payload|)
  }

  lemma {:induction false} PlacedCons(imgs: seq<Image>, cursor: nat)
    requires imgs != []
    ensures Placed(imgs, cursor) == [Record(cursor, imgs[0])] + Placed(imgs[1..], cursor + HeaderSize + |imgs[0].payload|)
  {
  }

  /** `imgs` lie one after another in `table` from `cursor` on, each a well-formed record. */
  ghost predicate LaidOut(table: seq<u8>, cursor: nat, imgs: seq<Image>) {
    forall i :: 0 <= i < |imgs| ==> Framed(table, Placed(imgs, cursor)[i])
  }

  /** One step of the walk. */
  lemma {:induction false} ChainStep(table: seq<u8>, cursor: nat, r: Record)
    requires RecordAt(table, cursor) == Some(r)
    ensures Chain(table, cursor) == [r] + Chain(table, Next(r))
  {
  }

  /** A framed record at the cursor is the one the walk takes. */
  lemma {:induction false} RecordAtFramed(table: seq<u8>, r: Record)
    requires Framed(table, r)
    ensures RecordAt(table, r.offset) == Some(r)
  {
  }

  /** The records after the first of a layout are laid out from where the first ends. */
  lemma {:induction false} LaidOutTail(table: seq<u8>, cursor: nat, imgs: seq<Image>)
    requires imgs != [] && LaidOut(table, cursor, imgs)
    ensures LaidOut(table, cursor + HeaderSize + |imgs[0].payload|, imgs[1..])
  {
    var ps, rest := Placed(imgs, cursor), Placed(imgs[1..], cursor + HeaderSize + |imgs[0].payload|);
    PlacedCons(imgs, cursor);
    forall i | 0 <= i < |rest|
      ensures Framed(table, rest[i])
    {
      assert rest[i] == ps[i + 1];
    }
  }

  /** A framed first record followed by a layout of the rest is a layout of all. */
  lemma {:induction false} LaidOutCons(table: seq<u8>, cursor: nat, imgs: seq<Image>)
    requires imgs != [] && Framed(table, Record(cursor, imgs[0]))
    requires LaidOut(table, cursor + HeaderSize + |imgs[0].payload|, imgs[1..])
    ensures LaidOut(table, cursor, imgs)
  {
    var ps, rest := Placed(imgs, cursor), Placed(imgs[1..], cursor + HeaderSize + |imgs[0].payload|);
    PlacedCons(imgs, cursor);
    forall i | 0 <= i < |imgs|
      ensures Framed(table, ps[i])
    {
      if i > 0 {
        assert ps[i] == rest[i - 1];
      }
    }
  }

  /** The walk takes a framed record and goes on right behind its payload. */
  lemma {:induction false} ChainOfFramed(table: seq<u8>, cursor: nat, img: Image)
    requires Framed(table, Record(cursor, img))
    ensures Chain(table, cursor) == [Record(cursor, img)] + Chain(table, cursor + HeaderSize + |img.payload|)
  {
    var r := Record(cursor, img);
    RecordAtFramed(table, r);
    ChainStep(table, cursor, r);
  }

  /**
   * The inductive step of ChainOfLaidOut, on the walk's results: the first
   * record in front of the rest's records in front of whatever follows.
   */
  lemma {:induction false} PlacedFront(cursor: nat, next: nat, imgs: seq<Image>, whole: seq<Record>, rest: seq<Record>, after: seq<Record>)
    requires imgs != [] && next == cursor + HeaderSize + |imgs[0].payload|
    requires whole == [Record(cursor, imgs[0])] + rest
    requires rest == Placed(imgs[1..], next) + after
    ensures whole == Placed(imgs, cursor) + after
  {
    PlacedCons(imgs, cursor);
    Concat3([Record(cursor, imgs[0])], Placed(imgs[1..], next), after);
  }

  /** The walk takes the first record of a layout. */
  lemma {:induction false} ChainOfLaidOutHead(table: seq<u8>, cursor: nat, imgs: seq<Image>)
    requires imgs != [] && LaidOut(table, cursor, imgs)
    ensures Chain(table, cursor) == [Record(cursor, imgs[0])] + Chain(table, cursor + HeaderSize + |imgs[0].payload|)
  {
    assert Framed(table, Record(cursor, imgs[0])) by {
      PlacedCons(imgs, cursor);
      assert Placed(imgs, cursor)[0] == Record(cursor, imgs[0]);
    }
    ChainOfFramed(table, cursor, imgs[0]);
  }

  /**
   * Walking well-formed records laid out in the table yields exactly those
   * images at their offsets, and then whatever the bytes after them yield.
   */
  lemma {:induction false} ChainOfLaidOut(table: seq<u8>, cursor: nat, imgs: seq<Image>, end: nat)
    requires LaidOut(table, cursor, imgs) && end == cursor + ChainSize(imgs)
    ensures Chain(table, cursor) == Placed(imgs, cursor) + Chain(table, end)
    decreases imgs
  {
    if imgs != [] {
      var next := cursor + HeaderSize + |imgs[0].payload|;
      assert Chain(table, next) == Placed(imgs[1..], next) + Chain(table, end) by {
        LaidOutTail(table, cursor, imgs);
        ChainOfLaidOut(table, next, imgs[1..], end);
      }
      ChainOfLaidOutHead(table, cursor, imgs);
      PlacedFront(cursor, next, imgs, Chain(table, cursor), Chain(table, next), Chain(table, end));
    }
  }

  /** The bytes of a chain of records: each header followed by its payload. */
  function EncodeImages(imgs: seq<Image>): (b: seq<u8>)
    ensures |b| == ChainSize(imgs)
  {
    if imgs == [] then []
    else EncodeImageHeader(imgs[0].header) + imgs[0].payload + EncodeImages(imgs[1..])
  }

  /** The window of `a + b + c` behind `a` holds `b`. */
  lemma {:induction false} Window(a: seq<u8>, b: seq<u8>, c: seq<u8>)
    ensures (a + b + c)[|a|..|a| + |b|] == b
  {
  }

  /** A well-formed image encoded behind `front` is a framed record there. */
  lemma {:induction false} EncodedFramed(front: seq<u8>, img: Image, back: seq<u8>)
    requires WellFormed(img)
    ensures Framed(front + EncodeImageHeader(img.header) + img.payload + back, Record(|front|, img))
  {
    var hb := EncodeImageHeader(img.header);
    var t := front + hb + img.payload + back;
    assert t == front + hb + (img.payload + back);
    Window(front, hb, img.payload + back);
    Window(front + hb, img.payload, back);
    HeaderRoundTrip(img.header);
  }

  lemma {:induction false} LaidOutSame(t: seq<u8>, t': seq<u8>, cursor: nat, imgs: seq<Image>)
    requires t == t' && LaidOut(t, cursor, imgs)
    ensures LaidOut(t', cursor, imgs)
  {
  }

  lemma {:induction false} Regroup(a: seq<u8>, b: seq<u8>, c: seq<u8>, d: seq<u8>, e: seq<u8>)
    ensures a + (b + c + d) + e == (a + b + c) + d + e == a + b + c + (d + e)
  {
  }

  /** The first image of an encoding is a framed record behind `front`. */
  lemma {:induction false} EncodedHead(front: seq<u8>, imgs: seq<Image>, back: seq<u8>)
    requires imgs != [] && WellFormed(imgs[0])
    ensures Framed(front + EncodeImages(imgs) + back, Record(|front|, imgs[0]))
  {
    var img := imgs[0];
    var hb, rest := EncodeImageHeader(img.header), EncodeImages(imgs[1..]);
    Regroup(front, hb, img.payload, rest, back);
    EncodedFramed(front, img, rest + back);
  }

  /** The rest of an encoding starts right behind the first record. */
  lemma {:induction false} EncodedRest(front: seq<u8>, imgs: seq<Image>, back: seq<u8>)
    requires imgs != []
    ensures var front' := front + EncodeImageHeader(imgs[0].header) + imgs[0].payload;
      && |front'| == |front| + HeaderSize + |imgs[0].payload|
      && front' + EncodeImages(imgs[1..]) + back == front + EncodeImages(imgs) + back
  {
    var hb, rest := EncodeImageHeader(imgs[0].header), EncodeImages(imgs[1..]);
    Regroup(front, hb, imgs[0].payload, rest, back);
  }

  /** The layout of the rest of an encoding, seen from the whole encoding. */
  lemma {:induction false} EncodedTail(front: seq<u8>, imgs: seq<Image>, back: seq<u8>, front': seq<u8>)
    requires imgs != [] && front' == front + EncodeImageHeader(imgs[0].header) + imgs[0].payload
    requires LaidOut(front' + EncodeImages(imgs[1..]) + back, |front'|, imgs[1..])
    ensures LaidOut(front + EncodeImages(imgs) + back, |front| + HeaderSize + |imgs[0].payload|, imgs[1..])
  {
    EncodedRest(front, imgs, back);
    LaidOutSame(front' + EncodeImages(imgs[1..]) + back, front + EncodeImages(imgs) + back, |front'|, imgs[1..]);
  }

  /** A well-formed first image in front of a laid-out encoding of the rest is a layout of all. */
  lemma {:induction false} EncodedCons(front: seq<u8>, imgs: seq<Image>, back: seq<u8>, front': seq<u8>)
    requires imgs != [] && WellFormed(imgs[0])
    requires front' == front + EncodeImageHeader(imgs[0].header) + imgs[0].payload
    requires LaidOut(front' + EncodeImages(imgs[1..]) + back, |front'|, imgs[1..])
    ensures LaidOut(front + EncodeImages(imgs) + back, |front|, imgs)
  {
    EncodedTail(front, imgs, back, front');
    EncodedHead(front, imgs, back);
    LaidOutCons(front + EncodeImages(imgs) + back, |front|, imgs);
  }

  /** EncodeImages lays its well-formed images out, whatever bytes surround it. */
  lemma {:induction false} EncodedLaidOut(front: seq<u8>, imgs: seq<Image>, back: seq<u8>)
    requires forall i :: 0 <= i < |imgs| ==> WellFormed(imgs[i])
    ensures LaidOut(front + EncodeImages(imgs) + back, |front|, imgs)
    decreases imgs
  {
    if imgs != [] {
      var front' := front + EncodeImageHeader(imgs[0].header) + imgs[0].payload;
      EncodedLaidOut(front', imgs[1..], back);
      EncodedCons(front, imgs, back, front');
    }
  }

  /**
   * Bytes that end a chain when they follow its last record: fewer than a
   * header, a zero-length sentinel header, or a header claiming more
   * payload than is left.
   */
  ghost predicate EndsChain(tail: seq<u8>) {
    |tail| < HeaderSize
    || var len := DecodeImageHeader(tail[..HeaderSize]).imageLength;
       len == 0 || len > |tail| - HeaderSize
  }

  lemma {:induction false} EndsChainStops(t: seq<u8>, front: seq<u8>, tail: seq<u8>, cursor: nat)
    requires t == front + tail && cursor == |front|
    requires EndsChain(tail)
    ensures Chain(t, cursor) == []
  {
    if |tail| >= HeaderSize {
      assert t[|front|..|front| + HeaderSize] == tail[..HeaderSize];
    }
  }

  /**
   * The source's only guard before it reads a record at `offset`, and one
   * past the last table byte it then reads: the header always (ImageLength
   * is read from it), and the payload too when ImageLength is not zero.
   */
  function AsWrittenReadEnd(tableLength: nat, offset: nat, imageLength: nat): Option<nat>
  {
    if offset >= tableLength then None
    else if imageLength == 0 then Some(offset + HeaderSize)
    else Some(offset + HeaderSize + imageLength)
  }

  /**
   * In a 0x70-byte table the source reads a header at 0x6C that ends at
   * 0x88, and a record at 0x4C claiming 0x100 payload bytes makes it read
   * to 0x168; the walk takes neither record.
   */
  lemma {:induction false} AsWrittenReadsPastTable(table: seq<u8>)
    requires |table| == 0x70
    ensures AsWrittenReadEnd(|table|, 0x6C, 0) == Some(0x88)
    ensures RecordAt(table, 0x6C).None?
    ensures DecodeImageHeader(table[0x4C..0x4C + HeaderSize]).imageLength == 0x100 ==>
      AsWrittenReadEnd(|table|, 0x4C, 0x100) == Some(0x168) && RecordAt(table, 0x4C).None?
  {
  }

  /** `offset += sizeof(VFCT_IMAGE_HEADER); offset += vhdr->ImageLength;` on a `uint32_t`. */
  function AsWrittenAdvance(offset: u32, imageLength: u32): (r: u32)
    ensures r == (offset + HeaderSize + imageLength) % U32Modulus
    ensures offset + HeaderSize + imageLength < U32Modulus ==> r == offset + HeaderSize + imageLength
  {
    Wrap32(Wrap32(offset + HeaderSize) + imageLength)
  }

  /**
   * ImageLength 0xFFFFFFE4 brings the source's cursor back to the record
   * it just left, so when that record's file cannot be created (the path
   * that never touches the payload) the loop never ends.
   */
  lemma {:induction false} AsWrittenAdvanceRepeats()
    ensures AsWrittenAdvance(0x4C, 0xFFFF_FFE4) == 0x4C
  {
  }

  /**
   * Behind the fits guards the source's 32-bit cursor update is exact: it
   * lands on Next, strictly past the record, for every record the walk
   * takes from a table of at most 2^32 - 1 bytes.
   */
  lemma {:induction false} AdvanceExact(table: seq<u8>, cursor: nat)
    requires |table| < U32Modulus
    requires RecordAt(table, cursor).Some?
    ensures var r := RecordAt(table, cursor).value;
      AsWrittenAdvance(cursor, r.image.header.imageLength) == Next(r) > cursor
  {
  }
}
