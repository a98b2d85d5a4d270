/**
 * The emitter: each image the walk takes is written to the file named
 * `vbios_<vendor>_<device>.bin`, and only complete writes are counted.
 *
 * The file system is a map from names to contents. Whether `fopen` succeeds
 * and how many bytes `fwrite` then takes are outside the program's control;
 * an oracle, indexed by the number of attempts to create a file so far
 * (failed ones included), decides them.
 */
module Emitter {
  import opened Wrappers
  import opened Bytes
  import opened HexName
  import opened Walker

  /** What happens to one attempt to write a file: `fopen` fails, or it succeeds and `fwrite` takes `count` bytes. */
  datatype FileOp = CreateFails | Writes(count: nat)

  /** The bytes `fwrite` stores for `payload` under `op`: it never takes more than it was given. */
  function Written(op: FileOp, payload: seq<u8>): (b: seq<u8>)
    requires op.Writes?
    ensures b <= payload
    ensures |b| == |payload| <==> op.count >= |payload|
  {
    payload[..Min(op.count, |payload|)]
  }

  /** The source counts a record when `fopen` succeeded and `fwrite` returned `ImageLength`. */
  predicate Complete(op: FileOp, payload: seq<u8>) {
    op.Writes? && op.count >= |payload|
  }

  /** The files after one attempt: `fopen(name, "wb")` truncates, then the written bytes are all the file holds. */
  function Stored(files: map<string, seq<u8>>, name: string, payload: seq<u8>, op: FileOp): (out: map<string, seq<u8>>)
    ensures op.CreateFails? ==> out == files
    ensures op.Writes? ==> name in out && out[name] <= payload && (out[name] == payload <==> Complete(op, payload))
    ensures out.Keys == if op.Writes? then files.Keys + {name} else files.Keys
    ensures forall n :: n in files && n != name ==> out[n] == files[n]
  {
    match op
    case CreateFails => files
    case Writes(_) => files[name := Written(op, payload)]
  }

  /** The name the source gives the file of an image: `vbios_%x_%x.bin` of its vendor and device IDs. */
  function NameOf(img: Image): string
  {
    FileName(img.header.vendorId, img.header.deviceId)
  }

  /** A working directory: its files, and how many files the program has tried to create in it. */
  class FileSystem {
    var files: map<string, seq<u8>>
    var attempts: nat
    const oracle: nat -> FileOp

    constructor (initial: map<string, seq<u8>>, outcomes: nat -> FileOp)
      ensures files == initial && attempts == 0 && oracle == outcomes
    {
      files := initial;
      attempts := 0;
      oracle := outcomes;
    }

    /**
     * `fopen(name, "wb")`, `fwrite` of `payload`, `fclose`: returns None when
     * the file cannot be created, or the number of bytes written.
     */
    method Store(name: string, payload: seq<u8>) returns (written: Option<nat>)
      modifies this
      ensures attempts == old(attempts) + 1
      ensures files == Stored(old(files), name, payload, oracle(old(attempts)))
      ensures written.None? <==> oracle(old(attempts)).CreateFails?
      ensures written.Some? ==> written.value <= |payload|
      ensures written == Some(|payload|) <==> Complete(oracle(old(attempts)), payload)
    {
      var op := oracle(attempts);
      attempts := attempts + 1;
      match op
      case CreateFails =>
        written := None;
      case Writes(n) =>
        var bytes := Written(op, payload);
        files := files[name := bytes];
        written := Some(|bytes|);
    }
  }

  /** One file the walk asks for: its name and the bytes to write. */
  datatype Job = Job(name: string, payload: seq<u8>)

  /** The file a record asks for. */
  function JobOf(r: Record): Job
  {
    Job(NameOf(r.image), r.image.payload)
  }

  /** The files `recs` ask for, in walk order. */
  function Jobs(recs: seq<Record>): (js: seq<Job>)
    ensures |js| == |recs| && forall i :: 0 <= i < |recs| ==> js[i] == JobOf(recs[i])
  {
    seq(|recs|, i requires 0 <= i < |recs| => JobOf(recs[i]))
  }

  lemma {:induction false} JobsSnoc(recs: seq<Record>, r: Record)
    ensures Jobs(recs + [r]) == Jobs(recs) + [JobOf(r)]
  {
    var a, b := Jobs(recs + [r]), Jobs(recs) + [JobOf(r)];
    assert |a| == |b|;
    forall i | 0 <= i < |a|
      ensures a[i] == b[i]
    {
      if i < |recs| {
        assert (recs + [r])[i] == recs[i];
      }
    }
  }

  /**
   * The files after the attempts `jobs`, the first at attempt `k`, starting
   * from `files`. Defined from the last job backwards, the way the walk
   * grows its list of records taken.
   */
  function EmitAll(files: map<string, seq<u8>>, jobs: seq<Job>, oracle: nat -> FileOp, k: nat): (out: map<string, seq<u8>>)
    ensures files.Keys <= out.Keys
    decreases |jobs|
  {
    if jobs == [] then files
    else
      var last := jobs[|jobs| - 1];
      Stored(EmitAll(files, jobs[..|jobs| - 1], oracle, k), last.name, last.payload, oracle(k + |jobs| - 1))
  }

  /** Emitting one more record applies its attempt to the files and counts it when complete. */
  lemma {:induction false} EmitStep(files: map<string, seq<u8>>, recs: seq<Record>, r: Record, oracle: nat -> FileOp, k: nat)
    ensures EmitAll(files, Jobs(recs + [r]), oracle, k)
      == Stored(EmitAll(files, Jobs(recs), oracle, k), NameOf(r.image), r.image.payload, oracle(k + |recs|))
    ensures Completed(Jobs(recs + [r]), oracle, k)
      == Completed(Jobs(recs), oracle, k) + if Complete(oracle(k + |recs|), r.image.payload) then 1 else 0
  {
    JobsSnoc(recs, r);
    var js := Jobs(recs) + [JobOf(r)];
    assert js[..|js| - 1] == Jobs(recs);
  }

  /** How many of `jobs`, the first at attempt `k`, were written completely. */
  function Completed(jobs: seq<Job>, oracle: nat -> FileOp, k: nat): (c: nat)
    ensures c <= |jobs|
  {
    if jobs == [] then 0
    else
      Completed(jobs[..|jobs| - 1], oracle, k)
      + if Complete(oracle(k + |jobs| - 1), jobs[|jobs| - 1].payload) then 1 else 0
  }

  /** `jobs[i]` ended in a complete write. */
  predicate CompleteAt(jobs: seq<Job>, oracle: nat -> FileOp, k: nat, i: nat)
    requires i < |jobs|
  {
    Complete(oracle(k + i), jobs[i].payload)
  }

  /** The count is at most the number of jobs, and it is zero exactly when no write was complete. */
  lemma {:induction false} CompletedBounds(jobs: seq<Job>, oracle: nat -> FileOp, k: nat)
    ensures Completed(jobs, oracle, k) <= |jobs|
    ensures Completed(jobs, oracle, k) == 0 <==> forall i :: 0 <= i < |jobs| ==> !CompleteAt(jobs, oracle, k, i)
    decreases |jobs|
  {
    if jobs != [] {
      var front := jobs[..|jobs| - 1];
      CompletedBounds(front, oracle, k);
      forall i | 0 <= i < |front|
        ensures CompleteAt(front, oracle, k, i) == CompleteAt(jobs, oracle, k, i)
      {
        assert front[i] == jobs[i];
      }
      assert CompleteAt(jobs, oracle, k, |jobs| - 1) == Complete(oracle(k + |jobs| - 1), jobs[|jobs| - 1].payload);
    }
  }

  /** When every write is complete, every job is counted. */
  lemma {:induction false} CompletedAll(jobs: seq<Job>, oracle: nat -> FileOp, k: nat)
    requires forall i :: 0 <= i < |jobs| ==> CompleteAt(jobs, oracle, k, i)
    ensures Completed(jobs, oracle, k) == |jobs|
    decreases |jobs|
  {
    if jobs != [] {
      var front := jobs[..|jobs| - 1];
      forall i | 0 <= i < |front|
        ensures CompleteAt(front, oracle, k, i)
      {
        assert front[i] == jobs[i] && CompleteAt(jobs, oracle, k, i);
      }
      CompletedAll(front, oracle, k);
      assert CompleteAt(jobs, oracle, k, |jobs| - 1);
    }
  }

  /** `jobs[i]` is for file `name` and its `fopen` succeeded. */
  predicate OpenedAs(jobs: seq<Job>, oracle: nat -> FileOp, k: nat, name: string, i: nat)
    requires i < |jobs|
  {
    jobs[i].name == name && oracle(k + i).Writes?
  }

  /** The last job that opened file `name`, if any. */
  function LastOpened(jobs: seq<Job>, oracle: nat -> FileOp, k: nat, name: string): (r: Option<nat>)
    ensures r.Some? ==> r.value < |jobs| && OpenedAs(jobs, oracle, k, name, r.value)
    ensures r.Some? ==> forall j :: r.value < j < |jobs| ==> !OpenedAs(jobs, oracle, k, name, j)
    ensures r.None? ==> forall j :: 0 <= j < |jobs| ==> !OpenedAs(jobs, oracle, k, name, j)
    decreases |jobs|
  {
    if jobs == [] then None
    else if OpenedAs(jobs, oracle, k, name, |jobs| - 1) then Some(|jobs| - 1)
    else
      var front := jobs[..|jobs| - 1];
      var r := LastOpened(front, oracle, k, name);
      assert forall j :: 0 <= j < |front| ==> OpenedAs(front, oracle, k, name, j) == OpenedAs(jobs, oracle, k, name, j);
      r
  }

  /**
   * The last writer wins: after the walk, the file `name` holds what the
   * last job that opened it wrote, and is untouched when none did.
   */
  lemma {:induction false} EmitAllFile(files: map<string, seq<u8>>, jobs: seq<Job>, oracle: nat -> FileOp, k: nat, name: string)
    ensures var out := EmitAll(files, jobs, oracle, k);
      match LastOpened(jobs, oracle, k, name)
      case None => (name in out <==> name in files) && (name in files ==> out[name] == files[name])
      case Some(i) => name in out && out[name] == Written(oracle(k + i), jobs[i].payload)
    decreases |jobs|
  {
    if jobs != [] {
      var front := jobs[..|jobs| - 1];
      EmitAllFile(files, front, oracle, k, name);
    }
  }

  /** A complete write that no later job overwrites leaves exactly the job's payload in its file. */
  lemma {:induction false} CompleteWriteSurvives(files: map<string, seq<u8>>, jobs: seq<Job>, oracle: nat -> FileOp, k: nat, i: nat)
    requires i < |jobs| && CompleteAt(jobs, oracle, k, i)
    requires forall j :: i < j < |jobs| ==> !OpenedAs(jobs, oracle, k, jobs[i].name, j)
    ensures var out := EmitAll(files, jobs, oracle, k);
      jobs[i].name in out && out[jobs[i].name] == jobs[i].payload
  {
    EmitAllFile(files, jobs, oracle, k, jobs[i].name);
    assert OpenedAs(jobs, oracle, k, jobs[i].name, i);
    assert LastOpened(jobs, oracle, k, jobs[i].name) == Some(i);
  }

  /** Only file names of the form `vbios_%x_%x.bin` are created or changed by the walk. */
  lemma {:induction false} EmitAllOnlyImageFiles(files: map<string, seq<u8>>, recs: seq<Record>, oracle: nat -> FileOp, k: nat, name: string)
    requires ParseFileName(name).None?
    ensures var out := EmitAll(files, Jobs(recs), oracle, k);
      (name in out <==> name in files) && (name in files ==> out[name] == files[name])
  {
    EmitAllFile(files, Jobs(recs), oracle, k, name);
    if LastOpened(Jobs(recs), oracle, k, name).Some? {
      var i := LastOpened(Jobs(recs), oracle, k, name).value;
      FileNameRoundTrip(recs[i].image.header.vendorId, recs[i].image.header.deviceId);
    }
  }
}
