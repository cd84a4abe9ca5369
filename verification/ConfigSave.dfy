/**
 configWrite on a faulty device (src/config.c), through the buffered writer of src/util.c: snapshot,
 truncate, buffered write, close, read-back, restore. Faults are a parameter: one field per device call.
 */
module ConfigSave {
  import opened Text
  import opened ConfigStore

  const BUFFER_SIZE: nat := 4096
  const MAX_RESTORE: nat := 256 * 1024

  /** What one write does: how many bytes land, and whether the call reports them rather than -1. */
  datatype WriteFault = WriteFault(landed: nat, reported: bool)

  /** Open with O_TRUNC: nothing happens, the file is emptied but no buffer comes back, or it is ready for writing. */
  datatype OpenFault = Refused | EmptiedOnly | Opened

  datatype Faults = Faults(
    statFails: bool,
    snapshotReads: bool,
    open: OpenFault,
    writes: seq<WriteFault>,
    closeFails: bool,
    wreck: Option<string>,
    verifies: bool,
    probe: bool,
    restoreOpen: OpenFault,
    restoreWrite: WriteFault,
    restoreCloseFails: bool,
    restoreWreck: Option<string>)

  /** Where the set is saved, as configWrite sees it. */
  datatype Target = NoFile | RawApa | MemoryCard | Pfs | Other

  function Landed(data: string, f: WriteFault): string {
    if f.landed < |data| then data[..f.landed] else data
  }

  predicate Whole(data: string, f: WriteFault) {
    f.reported && f.landed >= |data|
  }

  function FaultAt(fs: seq<WriteFault>, i: nat, n: nat): WriteFault {
    if i < |fs| then fs[i] else WriteFault(n, true)
  }

  function Joined(parts: seq<string>): string {
    if parts == [] then "" else Joined(parts[..|parts| - 1]) + parts[|parts| - 1]
  }

  // ----- the buffered writer -----

  /** writeFileBuffer's flush schedule: the chunks already written and the bytes still buffered. */
  datatype Buffered = Buffered(written: seq<string>, buffer: string)

  /** A buffer the next n bytes would overflow is written out first. */
  function MakeRoom(b: Buffered, n: nat): Buffered {
    if b.buffer != "" && |b.buffer| + n > BUFFER_SIZE then Buffered(b.written + [b.buffer], "") else b
  }

  /** Data larger than the whole buffer is written at once. */
  function Take(b: Buffered, data: string): Buffered {
    if |data| > BUFFER_SIZE then Buffered(b.written + [data], b.buffer) else Buffered(b.written, b.buffer + data)
  }

  function Queue(b: Buffered, data: string): Buffered {
    if data == "" then b else Take(MakeRoom(b, |data|), data)
  }

  function QueueAll(parts: seq<string>): Buffered {
    if parts == [] then Buffered([], "") else Queue(QueueAll(parts[..|parts| - 1]), parts[|parts| - 1])
  }

  /** closeFileBuffer writes what is left. */
  function Chunks(b: Buffered): seq<string> {
    if b.buffer == "" then b.written else b.written + [b.buffer]
  }

  lemma JoinedAppend(parts: seq<string>, s: string)
    ensures Joined(parts + [s]) == Joined(parts) + s
  {
    assert (parts + [s])[..|parts|] == parts;
  }

  /** All bytes queued so far. */
  function TextOf(b: Buffered): string {
    Joined(b.written) + b.buffer
  }

  predicate NoEmpty(chunks: seq<string>) {
    forall i :: 0 <= i < |chunks| ==> chunks[i] != ""
  }

  lemma MakeRoomText(b: Buffered, n: nat)
    requires NoEmpty(b.written)
    ensures TextOf(MakeRoom(b, n)) == TextOf(b) && NoEmpty(MakeRoom(b, n).written)
    ensures n > BUFFER_SIZE ==> MakeRoom(b, n).buffer == ""
  {
    JoinedAppend(b.written, b.buffer);
  }

  lemma TakeText(b: Buffered, data: string)
    requires NoEmpty(b.written) && data != "" && (|data| > BUFFER_SIZE ==> b.buffer == "")
    ensures TextOf(Take(b, data)) == TextOf(b) + data && NoEmpty(Take(b, data).written)
  {
    if |data| > BUFFER_SIZE {
      JoinedAppend(b.written, data);
      assert TextOf(b) == Joined(b.written);
    } else {
      assert Joined(b.written) + (b.buffer + data) == TextOf(b) + data;
    }
  }

  lemma QueueText(b: Buffered, data: string)
    requires NoEmpty(b.written)
    ensures TextOf(Queue(b, data)) == TextOf(b) + data && NoEmpty(Queue(b, data).written)
  {
    hide Take, MakeRoom, TextOf;
    if data == "" {
      assert TextOf(b) + data == TextOf(b);
    } else {
      MakeRoomText(b, |data|);
      TakeText(MakeRoom(b, |data|), data);
    }
  }

  /** Nothing is lost, repeated or reordered between the queue and the chunks. */
  lemma {:induction false} ChunksAreTheText(parts: seq<string>)
    ensures TextOf(QueueAll(parts)) == Joined(parts) && NoEmpty(QueueAll(parts).written)
    ensures Joined(Chunks(QueueAll(parts))) == Joined(parts)
  {
    if parts != [] {
      var init := parts[..|parts| - 1];
      ChunksAreTheText(init);
      QueueText(QueueAll(init), parts[|parts| - 1]);
    }
    var b := QueueAll(parts);
    JoinedAppend(b.written, b.buffer);
  }

  /** What the chunks leave in a freshly emptied file. */
  function Written(chunks: seq<string>, fs: seq<WriteFault>): string {
    if chunks == [] then "" else
      var i := |chunks| - 1;
      Written(chunks[..i], fs) + Landed(chunks[i], FaultAt(fs, i, |chunks[i]|))
  }

  predicate AllWhole(chunks: seq<string>, fs: seq<WriteFault>) {
    forall i :: 0 <= i < |chunks| ==> Whole(chunks[i], FaultAt(fs, i, |chunks[i]|))
  }

  lemma {:induction false} WholeWritesAreTheText(chunks: seq<string>, fs: seq<WriteFault>)
    requires AllWhole(chunks, fs)
    ensures Written(chunks, fs) == Joined(chunks)
  {
    if chunks != [] {
      var i := |chunks| - 1;
      assert AllWhole(chunks[..i], fs) by {
        assert forall k :: 0 <= k < i ==> chunks[..i][k] == chunks[k];
      }
      WholeWritesAreTheText(chunks[..i], fs);
      assert Whole(chunks[i], FaultAt(fs, i, |chunks[i]|));
    }
  }

  // ----- the save as a value -----

  /** The pre-write snapshot: only of a nonempty file of bounded size, fully read. */
  function Snapshot(file: Option<string>, target: Target, f: Faults): Option<string> {
    if target == MemoryCard || file.None? || !f.snapshotReads || !(0 < |file.value| <= MAX_RESTORE) then None
    else file
  }

  /** The file and the verdict after open, writes, close and read-back. */
  function Attempt(file: Option<string>, parts: seq<string>, target: Target, f: Faults): (Option<string>, bool) {
    match f.open
    case Refused => (file, false)
    case EmptiedOnly => (Some(""), false)
    case Opened =>
      var b := QueueAll(parts);
      var chunks := Chunks(b);
      var after := if f.closeFails then f.wreck else Some(Written(chunks, f.writes));
      var ok := AllWhole(chunks, f.writes) && !f.closeFails;
      var rescued := target == Other && b.written == [] && b.buffer != "" && f.verifies && after == Some(b.buffer);
      (after, ok || rescued)
  }

  function Length(file: Option<string>): nat {
    if file.None? then 0 else |file.value|
  }

  /** The restore after a failed save: only when the file now looks shorter than the snapshot. */
  function Restore(file: Option<string>, original: string, f: Faults): Option<string> {
    if (if f.probe then Length(file) else 0) >= |original| || f.restoreOpen == Refused then file
    else if f.restoreOpen == EmptiedOnly then Some("")
    else if f.restoreCloseFails then f.restoreWreck
    else Some(Landed(original, f.restoreWrite))
  }

  datatype Outcome = Outcome(ret: bool, modified: bool, file: Option<string>, attempted: bool)

  /** configWrite: the result, the flag and the file afterwards. populated: the list is not empty. */
  function Save(modified: bool, populated: bool, target: Target, file: Option<string>, parts: seq<string>, f: Faults): Outcome {
    var dirty := modified || (target != NoFile && populated && f.statFails);
    if !dirty then Outcome(true, false, file, false)
    else if target == NoFile || target == RawApa then Outcome(false, true, file, false)
    else
      var original := Snapshot(file, target, f);
      var (after, ok) := Attempt(file, parts, target, f);
      if ok then Outcome(true, false, after, true)
      else Outcome(false, true, if original.Some? then Restore(after, original.value, f) else after, true)
  }

  lemma AllWholeProves(parts: seq<string>, fs: seq<WriteFault>)
    requires AllWhole(Chunks(QueueAll(parts)), fs)
    ensures Written(Chunks(QueueAll(parts)), fs) == Joined(parts)
  {
    ChunksAreTheText(parts);
    WholeWritesAreTheText(Chunks(QueueAll(parts)), fs);
  }

  lemma StillBuffered(parts: seq<string>)
    requires QueueAll(parts).written == []
    ensures QueueAll(parts).buffer == Joined(parts)
  {
    ChunksAreTheText(parts);
    var buffer := QueueAll(parts).buffer;
    assert Joined([]) + buffer == buffer;
  }

  /** An attempt that reports success, by its status codes or by reading back, left exactly the queued bytes. */
  lemma AttemptProves(file: Option<string>, parts: seq<string>, target: Target, f: Faults)
    requires Attempt(file, parts, target, f).1
    ensures Attempt(file, parts, target, f).0 == Some(Joined(parts))
  {
    if AllWhole(Chunks(QueueAll(parts)), f.writes) && !f.closeFails {
      AllWholeProves(parts, f.writes);
    } else {
      StillBuffered(parts);
    }
  }

  /** Success is proof: after a write attempt that returns 1 the file holds exactly the intended bytes. */
  lemma SavedMeansWritten(modified: bool, populated: bool, target: Target, file: Option<string>, parts: seq<string>, f: Faults)
    ensures var o := Save(modified, populated, target, file, parts, f);
            o.ret && o.attempted ==> o.file == Some(Joined(parts)) && !o.modified
  {
    if Attempt(file, parts, target, f).1 {
      AttemptProves(file, parts, target, f);
    }
  }

  lemma QueueFits(b: Buffered, data: string)
    requires |b.buffer| <= BUFFER_SIZE
    ensures |Queue(b, data).buffer| <= BUFFER_SIZE
    ensures Queue(b, data).written == [] <==> b.written == [] && |b.buffer| + |data| <= BUFFER_SIZE
  {
  }

  /** Nothing is written before the close exactly when the whole text fits the buffer. */
  lemma {:induction false} StillBufferedIff(parts: seq<string>)
    ensures |QueueAll(parts).buffer| <= BUFFER_SIZE
    ensures QueueAll(parts).written == [] <==> |Joined(parts)| <= BUFFER_SIZE
  {
    hide Queue;
    if parts != [] {
      var init := parts[..|parts| - 1];
      StillBufferedIff(init);
      QueueFits(QueueAll(init), parts[|parts| - 1]);
      if QueueAll(init).written == [] {
        StillBuffered(init);
      }
    }
  }

  /** What the file holds after the writes and the close, of a file that could be opened. */
  function Left(parts: seq<string>, f: Faults): Option<string> {
    if f.closeFails then f.wreck else Some(Written(Chunks(QueueAll(parts)), f.writes))
  }

  /** No call of the save itself fails: the file opens, every write is whole, the close works. */
  predicate FaultFree(parts: seq<string>, f: Faults) {
    f.open == Opened && AllWhole(Chunks(QueueAll(parts)), f.writes) && !f.closeFails
  }

  /** The read-back can overrule a status code: off memory cards and PFS, for a text no larger than the buffer. */
  predicate Rescued(parts: seq<string>, target: Target, f: Faults) {
    && f.open == Opened && target == Other && 0 < |Joined(parts)| <= BUFFER_SIZE
    && f.verifies && Left(parts, f) == Some(Joined(parts))
  }

  lemma AttemptSucceedsIff(file: Option<string>, parts: seq<string>, target: Target, f: Faults)
    ensures Attempt(file, parts, target, f).1 <==> FaultFree(parts, f) || Rescued(parts, target, f)
  {
    hide AllWhole, Written, QueueAll;
    StillBufferedIff(parts);
    if QueueAll(parts).written == [] {
      StillBuffered(parts);
    }
  }

  /**
   When a save writes and when it succeeds. It writes exactly when the set is modified, or populated and its file cannot
   be found, and the target is a file that is neither missing nor on a raw APA partition; any such save, to a memory
   card, PFS or elsewhere, succeeds exactly when no call of it fails or the read-back finds all the bytes there.
   */
  lemma SavesExactly(modified: bool, populated: bool, target: Target, file: Option<string>, parts: seq<string>, f: Faults)
    ensures var o := Save(modified, populated, target, file, parts, f);
            && (o.attempted <==> target != NoFile && target != RawApa && (modified || (populated && f.statFails)))
            && (o.attempted ==> (o.ret <==> FaultFree(parts, f) || Rescued(parts, target, f)))
            && (!o.attempted ==> (o.ret <==> !modified && !(target != NoFile && populated && f.statFails)))
  {
    AttemptSucceedsIff(file, parts, target, f);
  }

  /** A save that has something to write, has a file to write it to and meets no fault writes it and clears the flag. */
  lemma FaultFreeSaves(modified: bool, populated: bool, target: Target, file: Option<string>, parts: seq<string>, f: Faults)
    requires target != NoFile && target != RawApa && (modified || (populated && f.statFails)) && FaultFree(parts, f)
    ensures Save(modified, populated, target, file, parts, f) == Outcome(true, false, Some(Joined(parts)), true)
  {
    hide Save, FaultFree;
    SavesExactly(modified, populated, target, file, parts, f);
    SavedMeansWritten(modified, populated, target, file, parts, f);
  }

  /** Failure is kept: a save that returns 0 leaves the set modified, and nothing but a write attempt touches the file. */
  lemma FailureKeepsModified(modified: bool, populated: bool, target: Target, file: Option<string>, parts: seq<string>, f: Faults)
    ensures var o := Save(modified, populated, target, file, parts, f);
            && (!o.ret <==> o.modified)
            && (!o.attempted ==> o.file == file)
            && (!modified && !f.statFails ==> o.ret && !o.attempted)
  {
  }

  /**
   A failed save with a snapshot leaves the file at least as long as the snapshot, unless the restore itself met a
   fault; and when the restore works and the probe is honest, the old bytes are back exactly when the damage was
   shorter than the snapshot or was no damage at all.
   */
  lemma FailureRestores(modified: bool, populated: bool, target: Target, file: Option<string>, parts: seq<string>, f: Faults)
    requires var o := Save(modified, populated, target, file, parts, f); !o.ret && o.attempted
    requires target != MemoryCard && file.Some? && 0 < |file.value| <= MAX_RESTORE && f.snapshotReads
    requires f.restoreOpen == Opened && !f.restoreCloseFails && Whole(file.value, f.restoreWrite)
    ensures var o := Save(modified, populated, target, file, parts, f);
            var after := Attempt(file, parts, target, f).0;
            && Length(o.file) >= |file.value|
            && (f.probe ==> (o.file == file <==> after == file || Length(after) < |file.value|))
            && (!f.probe ==> o.file == file)
  {
  }

  /** What a failed attempt leaves behind when there is no snapshot to restore: what the open, the writes and the close left. */
  lemma FailureWithoutSnapshot(modified: bool, populated: bool, target: Target, file: Option<string>, parts: seq<string>, f: Faults)
    requires var o := Save(modified, populated, target, file, parts, f); !o.ret && o.attempted
    requires target == MemoryCard || file.None? || !(0 < |file.value| <= MAX_RESTORE) || !f.snapshotReads
    ensures Save(modified, populated, target, file, parts, f).file ==
            if f.open == Refused then file else if f.open == EmptiedOnly then Some("") else Left(parts, f)
  {
    hide AllWhole, Written, QueueAll;
  }

  /** "Old or new" is not promised: damage at least as long as the snapshot stays, even if every later call works. */
  lemma LongDamageStays(was: string, wreck: string, parts: seq<string>)
    requires 0 < |was| <= MAX_RESTORE && |wreck| >= |was| && wreck != was && wreck != Joined(parts)
    ensures var f := Faults(false, true, Opened, [], true, Some(wreck), true, true, Opened, WriteFault(|was|, true), false, None);
            var o := Save(true, true, Other, Some(was), parts, f);
            !o.ret && o.file == Some(wreck) && o.file != Some(was) && o.file != Some(Joined(parts))
  {
    ChunksAreTheText(parts);
    var b := QueueAll(parts);
    assert b.written == [] ==> TextOf(b) == b.buffer;
  }

  // ----- the save as it runs -----

  class Device {
    var file: Option<string>

    /** write(2) at the end of the open file. */
    method Write(data: string, f: WriteFault) returns (n: int)
      requires file.Some?
      modifies this
      ensures file == Some(old(file.value) + Landed(data, f))
      ensures n == |data| <==> Whole(data, f)
    {
      file := Some(file.value + Landed(data, f));
      n := if f.reported then |Landed(data, f)| else -1;
    }
  }

  /** file_buffer_t in write mode. */
  class FileBuffer {
    const dev: Device
    const faults: seq<WriteFault>
    var buffer: string
    var writeError: bool
    var totalQueued: nat
    var calls: nat
    ghost var state: Buffered

    /** The device holds what the chunks written so far left there, and writeError says whether one fell short. */
    ghost predicate Synced()
      reads this, dev
    {
      && |state.written| == calls && NoEmpty(state.written)
      && dev.file == Some(Written(state.written, faults))
      && (writeError <==> !AllWhole(state.written, faults))
    }

    ghost predicate Valid()
      reads this, dev
    {
      Synced() && state.buffer == buffer && totalQueued == |TextOf(state)|
    }

    constructor (dev: Device, faults: seq<WriteFault>)
      requires dev.file == Some("")
      ensures Valid() && this.dev == dev && this.faults == faults && state == Buffered([], "")
    {
      this.dev, this.faults := dev, faults;
      buffer, writeError, totalQueued, calls, state := "", false, 0, 0, Buffered([], "");
    }

    /** One write call on the device, with its error latched. */
    method Put(data: string)
      requires Synced() && data != ""
      modifies this`writeError, this`calls, this`state, dev
      ensures Synced() && state == Buffered(old(state.written) + [data], old(state.buffer))
    {
      var fault := FaultAt(faults, calls, |data|);
      var n := dev.Write(data, fault);
      if n != |data| {
        writeError := true;
      }
      ghost var before := state.written;
      calls := calls + 1;
      state := Buffered(before + [data], state.buffer);
      assert state.written[..|before|] == before;
      AllWholeAppend(before, data, faults);
    }

    /** Writes the buffer out when the next n bytes would overflow it. */
    method Flush(n: nat)
      requires Valid()
      modifies this, dev
      ensures Valid() && state == MakeRoom(old(state), n) && totalQueued == old(totalQueued)
    {
      MakeRoomText(state, n);
      if buffer != "" && |buffer| + n > BUFFER_SIZE {
        Put(buffer);
        buffer := "";
        state := state.(buffer := "");
      }
    }

    /** Into the buffer, or past it when it is too large. */
    method Enter(data: string)
      requires Valid() && data != "" && (|data| > BUFFER_SIZE ==> buffer == "")
      modifies this, dev
      ensures Valid() && state == Take(old(state), data) && totalQueued == old(totalQueued) + |data|
    {
      TakeText(state, data);
      totalQueued := totalQueued + |data|;
      if |data| > BUFFER_SIZE {
        Put(data);
      } else {
        buffer := buffer + data;
        state := state.(buffer := buffer);
      }
    }

    /** writeFileBuffer. */
    method Add(data: string)
      requires Valid()
      modifies this, dev
      ensures Valid() && state == Queue(old(state), data) && totalQueued == old(totalQueued) + |data|
    {
      hide TextOf, AllWhole, Written, Take;
      if data != "" {
        MakeRoomText(state, |data|);
        Flush(|data|);
        Enter(data);
      }
    }

    /** closeFileBuffer: flushes, closes, and reports the first error. */
    method Close(closeFails: bool, wreck: Option<string>) returns (ok: bool)
      requires Valid()
      modifies this, dev
      ensures ok <==> AllWhole(Chunks(old(state)), faults) && !closeFails
      ensures dev.file == if closeFails then wreck else Some(Written(Chunks(old(state)), faults))
    {
      if buffer != "" {
        Put(buffer);
      }
      if closeFails {
        dev.file := wreck;
      }
      return !writeError && !closeFails;
    }
  }

  lemma AllWholeAppend(chunks: seq<string>, data: string, fs: seq<WriteFault>)
    ensures AllWhole(chunks + [data], fs) <==> AllWhole(chunks, fs) && Whole(data, FaultAt(fs, |chunks|, |data|))
  {
    var all := chunks + [data];
    assert forall i :: 0 <= i < |chunks| ==> all[i] == chunks[i];
    assert all[|chunks|] == data;
  }

  /** Nonempty chunks have no text exactly when there are none. */
  lemma NoTextNoChunks(chunks: seq<string>)
    requires NoEmpty(chunks)
    ensures |Joined(chunks)| == 0 <==> chunks == []
  {
  }

  /** All strings through the buffer, one call each. */
  method AddAll(fb: FileBuffer, parts: seq<string>)
    requires fb.Valid() && fb.state == Buffered([], "")
    modifies fb, fb.dev
    ensures fb.Valid() && fb.state == QueueAll(parts)
  {
    hide Queue, TextOf, Written, AllWhole, NoEmpty;
    QueuedNone();
    for i := 0 to |parts|
      invariant fb.Valid() && fb.state == QueueAll(parts[..i])
    {
      QueuedNext(parts, i);
      fb.Add(parts[i]);
    }
    assert parts[..|parts|] == parts;
  }

  lemma QueuedNone()
    ensures QueueAll([]) == Buffered([], "")
  {
  }

  lemma QueuedNext(parts: seq<string>, i: nat)
    requires i < |parts|
    ensures QueueAll(parts[..i + 1]) == Queue(QueueAll(parts[..i]), parts[i])
  {
    hide Queue;
    assert parts[..i + 1][..i] == parts[..i];
  }

  /** The write attempt of configWrite: true only if the bytes are on the device. */
  method TryWrite(dev: Device, parts: seq<string>, target: Target, f: Faults) returns (ok: bool)
    modifies dev
    ensures (dev.file, ok) == Attempt(old(dev.file), parts, target, f)
  {
    if f.open == Refused {
      return false;
    }
    dev.file := Some("");
    if f.open == EmptiedOnly {
      return false;
    }
    hide AllWhole, Written;
    var fb := new FileBuffer(dev, f.writes);
    AddAll(fb, parts);
    NoTextNoChunks(fb.state.written);
    var intended := if target == Other && fb.buffer != "" && fb.totalQueued == |fb.buffer| then Some(fb.buffer) else None;
    ok := fb.Close(f.closeFails, f.wreck);
    if !ok && intended.Some? && f.verifies && dev.file == intended {
      ok := true;
    }
  }

  /** The restore write of configWrite, on a file that can be opened or at least emptied. */
  method WriteBack(dev: Device, original: string, f: Faults)
    requires f.restoreOpen != Refused
    modifies dev
    ensures dev.file == if f.restoreOpen == EmptiedOnly then Some("")
                        else if f.restoreCloseFails then f.restoreWreck else Some(Landed(original, f.restoreWrite))
  {
    dev.file := Some("");
    if f.restoreOpen == Opened {
      var _ := dev.Write(original, f.restoreWrite);
      assert "" + Landed(original, f.restoreWrite) == Landed(original, f.restoreWrite);
      if f.restoreCloseFails {
        dev.file := f.restoreWreck;
      }
    }
  }

  /** configWrite. parts are the strings handed to writeFileBuffer. */
  method ConfigWrite(cfg: ConfigSet, dev: Device, target: Target, parts: seq<string>, f: Faults) returns (ret: bool)
    requires cfg.Valid()
    modifies cfg`modified, dev
    ensures Outcome(ret, cfg.modified, dev.file, Save(old(cfg.modified), cfg.head != null, target, old(dev.file), parts, f).attempted)
         == Save(old(cfg.modified), cfg.head != null, target, old(dev.file), parts, f)
  {
    if !cfg.modified && target != NoFile && cfg.head != null && f.statFails {
      cfg.modified := true;
    }
    if !cfg.modified {
      return true;
    }
    if target == NoFile || target == RawApa {
      return false;
    }
    var original := Snapshot(dev.file, target, f);
    var ok := TryWrite(dev, parts, target, f);
    if !ok {
      if original.Some? {
        var curLen := if f.probe then Length(dev.file) else 0;
        if curLen < |original.value| && f.restoreOpen != Refused {
          WriteBack(dev, original.value, f);
        }
      }
      return false;
    }
    cfg.modified := false;
    return true;
  }
}
