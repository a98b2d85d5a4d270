/**
 * `main`: open the VFCT table, load it, walk its image records writing
 * each to its file, and report success when at least one file was
 * written completely.
 */
module Extract {
  import opened Wrappers
  import opened Bytes
  import opened Layout
  import opened HexName
  import opened Loader
  import opened Walker
  import opened Emitter

  /**
   * The record walk of `main`: a 32-bit cursor from `start`, one file per
   * record, `extracted_count` bumped only for a complete write. The walk
   * takes exactly the records of Chain, in order.
   */
  method ExtractImages(table: seq<u8>, start: u32, fs: FileSystem) returns (count: nat)
    requires |table| < U32Modulus
    modifies fs
    ensures fs.attempts == old(fs.attempts) + |Chain(table, start)|
    ensures fs.files == EmitAll(old(fs.files), Jobs(Chain(table, start)), fs.oracle, old(fs.attempts))
    ensures count == Completed(Jobs(Chain(table, start)), fs.oracle, old(fs.attempts))
  {
    var offset: u32 := start;
    count := 0;
    ghost var done: seq<Record> := [];
    ghost var files0, k0 := fs.files, fs.attempts;
    while offset < |table|
      invariant Chain(table, start) == done + Chain(table, offset)
      invariant fs.attempts == k0 + |done|
      invariant fs.files == EmitAll(files0, Jobs(done), fs.oracle, k0)
      invariant count == Completed(Jobs(done), fs.oracle, k0)
      decreases |table| - offset
    {
      ghost var before, k := fs.files, fs.attempts;
      var taken, next, complete, r, op := ExtractAt(table, offset, fs);
      if !taken {
        break;
      }
      EmitRecord(files0, done, r, fs.oracle, k0, k, before, fs.files, op, complete);
      if complete {
        count := count + 1;
      }
      WalkStep(table, start, offset, done, r);
      done := done + [r];
      offset := next;
    }
    if offset >= |table| {
      PastEndEndsChain(table, offset);
    }
    assert done == Chain(table, start);
  }

  /**
   * One turn of the walk at `offset`: read the header there, stop on the
   * zero-length sentinel (and, beyond the source, on a header or payload
   * that does not fit), otherwise write the record's file and step the
   * 32-bit cursor over it.
   */
  method ExtractAt(table: seq<u8>, offset: u32, fs: FileSystem)
      returns (taken: bool, next: u32, complete: bool, ghost r: Record, ghost op: FileOp)
    requires |table| < U32Modulus
    modifies fs
    ensures taken <==> RecordAt(table, offset).Some?
    ensures !taken ==> Chain(table, offset) == [] && fs.files == old(fs.files) && fs.attempts == old(fs.attempts)
    ensures taken ==> && RecordAt(table, offset) == Some(r)
                      && next == Next(r)
                      && fs.attempts == old(fs.attempts) + 1
                      && op == fs.oracle(old(fs.attempts))
                      && fs.files == Stored(old(fs.files), NameOf(r.image), r.image.payload, op)
                      && complete == Complete(op, r.image.payload)
  {
    next, complete, r, op := offset, false, Record(offset, Image(ImageHeader(0, 0, 0, 0, 0, 0, 0, 0, 0), [])), CreateFails;
    if offset >= |table| {
      PastEndEndsChain(table, offset);
      return false, next, complete, r, op;
    }
    if |table| - offset < HeaderSize {
      ShortTailEndsChain(table, offset);
      return false, next, complete, r, op;
    }
    var header := DecodeImageHeader(table[offset..offset + HeaderSize]);
    if header.imageLength == 0 {
      SentinelEndsChain(table, offset);
      return false, next, complete, r, op;
    }
    if header.imageLength > |table| - offset - HeaderSize {
      OverrunEndsChain(table, offset);
      return false, next, complete, r, op;
    }
    var payload := table[offset + HeaderSize..offset + HeaderSize + header.imageLength];
    r := Record(offset, Image(header, payload));
    op := fs.oracle(fs.attempts);
    complete := ExtractImage(fs, header, payload);
    RecordTaken(table, offset, header, payload);
    AdvanceExact(table, offset);
    next := AsWrittenAdvance(offset, header.imageLength);
    taken := true;
  }

  /**
   * One record's file: name it after the vendor and device IDs, write the
   * payload, and report whether the record counts (`fopen` succeeded and
   * `fwrite` took all `ImageLength` bytes).
   */
  method ExtractImage(fs: FileSystem, header: ImageHeader, payload: seq<u8>) returns (complete: bool)
    requires |payload| == header.imageLength
    modifies fs
    ensures fs.attempts == old(fs.attempts) + 1
    ensures fs.files == Stored(old(fs.files), NameOf(Image(header, payload)), payload, fs.oracle(old(fs.attempts)))
    ensures complete == Complete(fs.oracle(old(fs.attempts)), payload)
  {
    var name := FileName(header.vendorId, header.deviceId);
    var written := fs.Store(name, payload);
    complete := written == Some(header.imageLength);
  }

  /** The files and the count after one more record, from the files before it. */
  lemma {:induction false} EmitRecord(files0: map<string, seq<u8>>, done: seq<Record>, r: Record, oracle: nat -> FileOp, k0: nat, k: nat,
                                      before: map<string, seq<u8>>, after: map<string, seq<u8>>, op: FileOp, complete: bool)
    requires k == k0 + |done| && op == oracle(k)
    requires before == EmitAll(files0, Jobs(done), oracle, k0)
    requires after == Stored(before, NameOf(r.image), r.image.payload, op)
    requires complete == Complete(op, r.image.payload)
    ensures after == EmitAll(files0, Jobs(done + [r]), oracle, k0)
    ensures Completed(Jobs(done + [r]), oracle, k0) == Completed(Jobs(done), oracle, k0) + if complete then 1 else 0
  {
    EmitStep(files0, done, r, oracle, k0);
    assert oracle(k0 + |done|) == op;
  }

  /** The loop invariant survives a step that takes record `r`. */
  lemma {:induction false} WalkStep(table: seq<u8>, start: nat, offset: nat, done: seq<Record>, r: Record)
    requires RecordAt(table, offset) == Some(r)
    requires Chain(table, start) == done + Chain(table, offset)
    ensures Chain(table, start) == (done + [r]) + Chain(table, Next(r))
  {
    ChainStep(table, offset, r);
  }

  /** What `main` walks: the records of the loaded table, or why loading failed. */
  function Records(source: Option<seq<u8>>): (r: Result<seq<Record>, LoadError>)
    ensures source.None? ==> r == Err(SourceUnavailable)
    ensures source.Some? ==> (r.Ok? <==> Load(source.value).Ok?)
    ensures r.Ok? ==> forall i :: 0 <= i < |r.value| ==> Framed(Load(source.value).value.bytes, r.value[i])
  {
    match source
    case None => Err(SourceUnavailable)
    case Some(data) =>
      match Load(data)
      case Err(e) => Err(e)
      case Ok(t) =>
        ChainFramed(t.bytes, t.imageOffset);
        Ok(Chain(t.bytes, t.imageOffset))
  }

  /** `main`'s exit status for the table file `source`, given how each file write goes. */
  function ExitStatus(source: Option<seq<u8>>, oracle: nat -> FileOp, k: nat): (status: int)
    ensures status == 0 || status == 1
  {
    match Records(source)
    case Err(_) => 1
    case Ok(recs) => if Completed(Jobs(recs), oracle, k) == 0 then 1 else 0
  }

  /** The directory after `main`: untouched when loading fails, every record's attempt applied otherwise. */
  function FilesAfter(source: Option<seq<u8>>, files: map<string, seq<u8>>, oracle: nat -> FileOp, k: nat): map<string, seq<u8>>
  {
    match Records(source)
    case Err(_) => files
    case Ok(recs) => EmitAll(files, Jobs(recs), oracle, k)
  }

  /**
   * `main`: `source` is the table file's contents, or None when it cannot
   * be opened.
   */
  method Run(source: Option<seq<u8>>, fs: FileSystem) returns (status: int)
    modifies fs
    ensures status == ExitStatus(source, fs.oracle, old(fs.attempts))
    ensures fs.files == FilesAfter(source, old(fs.files), fs.oracle, old(fs.attempts))
    ensures Records(source).Err? ==> fs.attempts == old(fs.attempts)
    ensures Records(source).Ok? ==> fs.attempts == old(fs.attempts) + |Records(source).value|
  {
    if source.None? {
      return 1;
    }
    var fp := new Stream.Open(source.value);
    var loaded := LoadTable(fp);
    if loaded.Err? {
      return 1;
    }
    var table := loaded.value;
    var count := ExtractImages(table.bytes, table.imageOffset, fs);
    if count == 0 {
      return 1;
    }
    return 0;
  }

  /** `main` exits 0 exactly when the table loads and at least one record's file was written completely. */
  lemma {:induction false} ExitStatusZero(source: Option<seq<u8>>, oracle: nat -> FileOp, k: nat)
    ensures ExitStatus(source, oracle, k) == 0 <==>
      Records(source).Ok? &&
      exists i :: 0 <= i < |Records(source).value| && CompleteAt(Jobs(Records(source).value), oracle, k, i)
  {
    if Records(source).Ok? {
      CompletedBounds(Jobs(Records(source).value), oracle, k);
    }
  }

  /**
   * `extracted_count` is an `int`: a table of at most 2^32 - 1 bytes holds
   * fewer than 2^31 records, so the count never overflows.
   */
  lemma {:induction false} CountFitsInt(source: Option<seq<u8>>, oracle: nat -> FileOp, k: nat)
    requires Records(source).Ok?
    ensures Completed(Jobs(Records(source).value), oracle, k) < 0x8000_0000
  {
    var t := Load(source.value).value;
    LoadSucceeds(source.value);
    ChainLength(t.bytes, t.imageOffset);
    CompletedBounds(Jobs(Records(source).value), oracle, k);
  }

  /** The table file firmware lays out: the prefix, the records from 0x4C, and bytes that end the chain. */
  function TableImage(imgs: seq<Image>, tail: seq<u8>): (b: seq<u8>)
    requires PrefixSize + ChainSize(imgs) + |tail| < U32Modulus
    ensures |b| == PrefixSize + ChainSize(imgs) + |tail|
  {
    EncodePrefix(PrefixSize + ChainSize(imgs) + |tail|, PrefixSize) + EncodeImages(imgs) + tail
  }

  /** A self-describing table whose records from 0x4C are laid out and then end is walked record by record. */
  lemma {:induction false} RecordsOfLaidOut(input: seq<u8>, imgs: seq<Image>, end: nat)
    requires PrefixSize <= |input| && TableLength(input) == |input| && ImageOffset(input) == PrefixSize
    requires LaidOut(input, PrefixSize, imgs) && end == PrefixSize + ChainSize(imgs) && Chain(input, end) == []
    ensures Records(Some(input)) == Ok(Placed(imgs, PrefixSize))
  {
    assert Load(input) == Ok(Table(input, PrefixSize)) by {
      assert input[..|input|] == input;
    }
    assert Chain(input, PrefixSize) == Placed(imgs, PrefixSize) by {
      ChainOfLaidOut(input, PrefixSize, imgs, end);
      assert Placed(imgs, PrefixSize) + [] == Placed(imgs, PrefixSize);
    }
  }

  lemma {:induction false} TableImageFields(imgs: seq<Image>, tail: seq<u8>)
    requires PrefixSize + ChainSize(imgs) + |tail| < U32Modulus
    ensures TableLength(TableImage(imgs, tail)) == |TableImage(imgs, tail)|
    ensures ImageOffset(TableImage(imgs, tail)) == PrefixSize
  {
    var size := PrefixSize + ChainSize(imgs) + |tail|;
    var prefix, body := EncodePrefix(size, PrefixSize), EncodeImages(imgs);
    Concat3(prefix, body, tail);
    PrefixRoundTrip(size, PrefixSize, body + tail);
  }

  lemma {:induction false} TableImageLaidOut(imgs: seq<Image>, tail: seq<u8>)
    requires PrefixSize + ChainSize(imgs) + |tail| < U32Modulus
    requires forall i :: 0 <= i < |imgs| ==> WellFormed(imgs[i])
    ensures LaidOut(TableImage(imgs, tail), PrefixSize, imgs)
  {
    var size := PrefixSize + ChainSize(imgs) + |tail|;
    var front := EncodePrefix(size, PrefixSize);
    EncodedLaidOut(front, imgs, tail);
    LaidOutSame(front + EncodeImages(imgs) + tail, TableImage(imgs, tail), |front|, imgs);
  }

  lemma {:induction false} TableImageEnds(imgs: seq<Image>, tail: seq<u8>)
    requires PrefixSize + ChainSize(imgs) + |tail| < U32Modulus
    requires EndsChain(tail)
    ensures Chain(TableImage(imgs, tail), PrefixSize + ChainSize(imgs)) == []
  {
    var size := PrefixSize + ChainSize(imgs) + |tail|;
    var front := EncodePrefix(size, PrefixSize) + EncodeImages(imgs);
    EndsChainStops(TableImage(imgs, tail), front, tail, PrefixSize + ChainSize(imgs));
  }

  /**
   * Round trip: `main` walks exactly the well-formed images laid out in
   * a table file, each at its own offset, and nothing else.
   */
  lemma {:induction false} TableImageRecords(imgs: seq<Image>, tail: seq<u8>)
    requires PrefixSize + ChainSize(imgs) + |tail| < U32Modulus
    requires forall i :: 0 <= i < |imgs| ==> WellFormed(imgs[i])
    requires EndsChain(tail)
    ensures Records(Some(TableImage(imgs, tail))) == Ok(Placed(imgs, PrefixSize))
  {
    var t, end := TableImage(imgs, tail), PrefixSize + ChainSize(imgs);
    assert TableLength(t) == |t| && ImageOffset(t) == PrefixSize by {
      TableImageFields(imgs, tail);
    }
    assert LaidOut(t, PrefixSize, imgs) by {
      TableImageLaidOut(imgs, tail);
    }
    assert Chain(t, end) == [] by {
      TableImageEnds(imgs, tail);
    }
    RecordsOfLaidOut(t, imgs, end);
  }

  /**
   * When every write is complete, `main` exits 0 exactly when it walked a
   * record, and each record whose name no later record reuses is in its
   * file byte for byte.
   */
  lemma {:induction false} AllWritesComplete(source: Option<seq<u8>>, files: map<string, seq<u8>>, oracle: nat -> FileOp, k: nat, i: nat)
    requires Records(source).Ok?
    requires var recs := Records(source).value;
      forall j :: 0 <= j < |recs| ==> Complete(oracle(k + j), recs[j].image.payload)
    requires var recs := Records(source).value;
      i < |recs| && forall j :: i < j < |recs| ==> NameOf(recs[j].image) != NameOf(recs[i].image)
    ensures ExitStatus(source, oracle, k) == 0
    ensures var recs, out := Records(source).value, FilesAfter(source, files, oracle, k);
      NameOf(recs[i].image) in out && out[NameOf(recs[i].image)] == recs[i].image.payload
  {
    var recs := Records(source).value;
    var jobs := Jobs(recs);
    forall j | 0 <= j < |jobs|
      ensures CompleteAt(jobs, oracle, k, j)
    {
      assert jobs[j] == JobOf(recs[j]);
    }
    CompletedAll(jobs, oracle, k);
    forall j | i < j < |jobs|
      ensures !OpenedAs(jobs, oracle, k, jobs[i].name, j)
    {
      assert jobs[j] == JobOf(recs[j]) && jobs[i] == JobOf(recs[i]);
    }
    CompleteWriteSurvives(files, jobs, oracle, k, i);
  }

  /**
   * For a table file laid out by firmware, with every write complete:
   * `main` exits 0 when the file holds an image, and each image whose name
   * no later image reuses is in its file byte for byte.
   */
  lemma {:induction false} TableImageExtracted(imgs: seq<Image>, tail: seq<u8>, files: map<string, seq<u8>>, oracle: nat -> FileOp, k: nat, i: nat)
    requires PrefixSize + ChainSize(imgs) + |tail| < U32Modulus
    requires forall j :: 0 <= j < |imgs| ==> WellFormed(imgs[j])
    requires EndsChain(tail)
    requires forall j :: 0 <= j < |imgs| ==> Complete(oracle(k + j), imgs[j].payload)
    requires i < |imgs| && forall j :: i < j < |imgs| ==> NameOf(imgs[j]) != NameOf(imgs[i])
    ensures var source := Some(TableImage(imgs, tail));
      && ExitStatus(source, oracle, k) == 0
      && var out := FilesAfter(source, files, oracle, k);
         NameOf(imgs[i]) in out && out[NameOf(imgs[i])] == imgs[i].payload
  {
    TableImageRecords(imgs, tail);
    PlacedWritesComplete(Some(TableImage(imgs, tail)), imgs, files, oracle, k, i);
  }

  /** AllWritesComplete, stated for the images of a walk rather than its records. */
  lemma {:induction false} PlacedWritesComplete(source: Option<seq<u8>>, imgs: seq<Image>, files: map<string, seq<u8>>, oracle: nat -> FileOp, k: nat, i: nat)
    requires Records(source) == Ok(Placed(imgs, PrefixSize))
    requires forall j :: 0 <= j < |imgs| ==> Complete(oracle(k + j), imgs[j].payload)
    requires i < |imgs| && forall j :: i < j < |imgs| ==> NameOf(imgs[j]) != NameOf(imgs[i])
    ensures ExitStatus(source, oracle, k) == 0
    ensures var out := FilesAfter(source, files, oracle, k);
      NameOf(imgs[i]) in out && out[NameOf(imgs[i])] == imgs[i].payload
  {
    var recs := Placed(imgs, PrefixSize);
    assert forall j :: 0 <= j < |recs| ==> recs[j].image == imgs[j];
    AllWritesComplete(source, files, oracle, k, i);
  }

  /** A failed load writes nothing and exits 1. */
  lemma {:induction false} LoadFailureIsClean(source: Option<seq<u8>>, files: map<string, seq<u8>>, oracle: nat -> FileOp, k: nat)
    requires Records(source).Err?
    ensures ExitStatus(source, oracle, k) == 1 && FilesAfter(source, files, oracle, k) == files
  {
  }

  /** A table whose first record is the zero-length sentinel yields no file and exits 1. */
  lemma {:induction false} SentinelFirstExitsOne(data: seq<u8>, oracle: nat -> FileOp, k: nat)
    requires Load(data).Ok?
    requires var t := Load(data).value;
      t.imageOffset + HeaderSize <= |t.bytes|
      && DecodeImageHeader(t.bytes[t.imageOffset..t.imageOffset + HeaderSize]).imageLength == 0
    ensures Records(Some(data)) == Ok([])
    ensures ExitStatus(Some(data), oracle, k) == 1
  {
    var t := Load(data).value;
    SentinelEndsChain(t.bytes, t.imageOffset);
  }
}
