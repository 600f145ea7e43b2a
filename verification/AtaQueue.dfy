/** The queue object itself (kernel/ata_job.c). */
module AtaQueue {
  import opened Words
  import opened AtaJob
  import opened Buffers

  /** The static variables. */
  datatype State = State(
    area: Area, dirty: bool, loadPending: bool, active: Op, cursor: nat, generation: nat, ovGeneration: nat,
    loadInvalid: bool, handed: Hand, ioState: IoState, ioOp: Op, ioDrive: nat, ioLba: nat, ioCount: nat, ioGen: nat,
    ioFlags: nat, crashArmed: bool, stats: Stats)

  /** What the run so far amounts to. */
  datatype Ledger = Ledger(
    changes: nat,      // overlay changes so far, one per flush request
    snapAt: nat,       // changes that the snapshot being written has
    flushed: nat,      // changes that a finished flush, or the caller after the driver's death, has
    loadAt: nat,       // changes when the load being read started
    image: seq<U8>,    // the snapshot being written
    moved: seq<Xfer>,  // sectors moved by the active overlay job
    retired: set<Job>) // jobs reported, cancelled or lost

  const START: State :=
    State(BASE_AREA, false, false, NoOp, 0, 0, 0, false, NoneHanded, IoNone, IoRead, 0, 0, 0, 0, 0, false,
                              Stats(0, 0, 0, 0, 0, 0, 0))

  predicate IoBusy(s: State) { s.ioState == IoPending || s.ioState == IoWithDriver }

  /** Fields in range and consistent with one another. */
  predicate Shape(s: State)
  {
    && (s.area == BASE_AREA || (s.area.total == MAX_SECTORS && s.area.ext >= 4225))
    && (s.active == NoOp || s.active == WriteOp || s.active == ReadOp)
    && (s.handed == IoHanded <==> s.ioState == IoWithDriver) && (s.handed == OverlayHanded ==> s.active != NoOp)
    && (s.ioState != IoNone ==> 1 <= s.ioCount <= JOB_MAX && (s.ioOp == IoRead || s.ioOp == IoWrite))
    && (s.active != NoOp ==> s.cursor < s.area.total && s.ovGeneration <= s.generation)
    && (IoBusy(s) ==> s.ioGen <= s.generation)
  }

  function IoJob(s: State): Job { Job(s.ioOp, s.ioDrive, s.ioLba, s.ioCount, s.ioGen, s.ioFlags) }

  function ChunkJob(s: State): Job
    requires Shape(s) && s.active != NoOp
  {
    Job(s.active, 0, Lba(s.area, s.cursor), ChunkCount(s.area, s.cursor), s.ovGeneration, 0)
  }

  /** The job that the driver holds. */
  function Live(s: State): Job
    requires Shape(s) && s.handed != NoneHanded
  {
    if s.handed == IoHanded then IoJob(s) else ChunkJob(s)
  }

  /** All that a report is compared on. */
  predicate SameJob(a: Job, b: Job)
  {
    a.op == b.op && a.generation == b.generation && a.lba == b.lba && a.count == b.count && a.drive == b.drive
  }

  /** What has been moved so far is the start of the buffer, sector by sector. */
  ghost predicate Progress(s: State, l: Ledger, b: seq<U8>)
    requires Shape(s)
  {
    && |b| == IMAGE_BYTES
    && (s.active != NoOp ==> Moved(l.moved, s.area, b, s.cursor))
    && (s.active == WriteOp ==> b == l.image && s.area == Geometry(b))
    && (s.active == ReadOp ==> s.area == if s.cursor < OVERLAY_SECTORS then BASE_AREA else Geometry(b))
  }

  /** No change is forgotten, and a load that a change overtook is marked. */
  ghost predicate Covered(s: State, l: Ledger)
  {
    && (s.dirty <==> (if s.active == WriteOp then l.snapAt else l.flushed) < l.changes)
    && (if s.active == WriteOp then l.snapAt else l.flushed) <= l.changes
    && (s.active == WriteOp ==> l.flushed < l.snapAt)
    && (s.active == ReadOp ==>
        l.loadAt <= l.changes && (s.loadInvalid <==> l.changes != l.loadAt) && (s.dirty ==> s.loadInvalid))
  }

  // ---------------------------------------------------------------- spent jobs

  /** lba is the place of an image sector before position cursor. */
  ghost predicate Behind(a: Area, cursor: nat, lba: nat)
  {
    exists k :: 0 <= k < cursor && Lba(a, k) == lba
  }

  /** j does not look like a job that is or will be handed out. */
  ghost predicate Spent(j: Job, s: State)
  {
    && j.generation <= s.generation
    && ((j.op == IoRead || j.op == IoWrite) && IoBusy(s) ==> j.generation != s.ioGen)
    && ((j.op == WriteOp || j.op == ReadOp) && s.active != NoOp && j.generation == s.ovGeneration ==>
        Behind(s.area, s.cursor, j.lba))
  }

  ghost predicate AllSpent(rs: set<Job>, s: State) { forall j :: j in rs ==> Spent(j, s) }

  /** Jobs handed out at t that were not already handed out at s carry new generations or lie further on. */
  ghost predicate Later(s: State, t: State)
  {
    && s.generation <= t.generation
    && (IoBusy(t) ==> (IoBusy(s) && s.ioGen == t.ioGen) || t.ioGen > s.generation)
    && (t.active != NoOp ==>
          (s.active != NoOp && s.ovGeneration == t.ovGeneration && s.cursor <= t.cursor &&
           (s.area == t.area || s.cursor <= OVERLAY_SECTORS))
          || t.ovGeneration > s.generation)
  }

  /** What is spent stays spent, and so is a job that has just been lost. */
  lemma SpentForever(rs: set<Job>, lost: set<Job>, s: State, t: State)
    requires AllSpent(rs, s) && Later(s, t) && forall j :: j in lost ==> Spent(j, t)
    ensures AllSpent(rs + lost, t)
  {
    forall j | j in rs ensures Spent(j, t) {
      assert Spent(j, s);
      if t.active != NoOp && j.generation == t.ovGeneration && (j.op == WriteOp || j.op == ReadOp) {
        var k :| 0 <= k < s.cursor && Lba(s.area, k) == j.lba;
        assert Lba(t.area, k) == j.lba;
      }
    }
  }

  /** A spent job is not the live one, provided the extension does not wrap round. */
  lemma SpentIsNotLive(rs: set<Job>, j: Job, s: State)
    requires Shape(s) && AllSpent(rs, s) && j in rs && NoWrap(s.area) && s.handed != NoneHanded
    ensures !SameJob(j, Live(s))
  {
    if s.handed == OverlayHanded && j.op == s.active && j.generation == s.ovGeneration &&
      j.lba == Lba(s.area, s.cursor) {
      assert Spent(j, s);
      var k :| 0 <= k < s.cursor && Lba(s.area, k) == j.lba;
      PlacesDiffer(s.area, k, s.cursor);
    }
  }

  // ---------------------------------------------------------------- steps of an overlay job

  /** What the buffer holds after the snapshot callback filled its start. */
  function Filled(snap: seq<U8>): (b: seq<U8>)
    requires |snap| <= IMAGE_BYTES
    ensures |b| == IMAGE_BYTES
  {
    snap + seq(IMAGE_BYTES - |snap|, _ => 0)
  }

  /** A sector job goes first, but never while the driver holds a chunk. */
  predicate IoFirst(s: State) { s.handed == IoHanded || (s.handed == NoneHanded && s.ioState == IoPending) }

  lemma IoShape(s: State)
    requires Shape(s)
    ensures s.active != IoWrite && (s.handed == IoHanded <==> s.ioState == IoWithDriver)
    ensures IoFirst(s) ==> s.ioOp == IoRead || s.ioOp == IoWrite
  {
  }

  predicate Startable(s: State) { s.active == NoOp && (s.dirty || s.loadPending) }

  /** A new flush of this image or, when no change waits, a new load. */
  function Started(s: State, image: seq<U8>): State
    requires Startable(s) && |image| >= 24
  {
    var t := s.(cursor := 0, generation := s.generation + 1, ovGeneration := s.generation + 1);
    if s.dirty then t.(dirty := false, active := WriteOp, area := Geometry(image))
    else t.(loadPending := false, loadInvalid := false, active := ReadOp, area := BASE_AREA)
  }

  ghost function StartedLedger(s: State, l: Ledger, image: seq<U8>): Ledger
  {
    if s.dirty then l.(snapAt := l.changes, image := image, moved := []) else l.(loadAt := l.changes, moved := [])
  }

  lemma StartKeeps(s: State, l: Ledger, b: seq<U8>)
    requires Shape(s) && Covered(s, l) && AllSpent(l.retired, s)
    requires s.handed == NoneHanded && Startable(s) && |b| == IMAGE_BYTES
    ensures var t, m := Started(s, b), StartedLedger(s, l, b);
            Shape(t) && Covered(t, m) && AllSpent(m.retired, t) && Progress(t, m, b)
  {
    hide AllSpent, Geometry;
    SpentForever(l.retired, {}, s, Started(s, b));
    assert l.retired + {} == l.retired;
  }

  /** The area known once the chunk at the cursor is done; b is the buffer afterwards. */
  function NextArea(s: State, b: seq<U8>): Area
    requires Shape(s) && s.active != NoOp && |b| == IMAGE_BYTES
  {
    if s.active == ReadOp && s.cursor + ChunkCount(s.area, s.cursor) == OVERLAY_SECTORS then Geometry(b) else s.area
  }

  predicate LastChunk(s: State, b: seq<U8>)
    requires Shape(s) && s.active != NoOp && |b| == IMAGE_BYTES
  {
    s.cursor + ChunkCount(s.area, s.cursor) >= NextArea(s, b).total
  }

  /** The state after a chunk that went well. */
  function Advanced(s: State, b: seq<U8>): State
    requires Shape(s) && s.active != NoOp && |b| == IMAGE_BYTES
  {
    var t := s.(handed := NoneHanded, area := NextArea(s, b));
    if LastChunk(s, b) then t.(active := NoOp, cursor := 0) else t.(cursor := s.cursor + ChunkCount(s.area, s.cursor))
  }

  ghost function AdvancedLedger(s: State, l: Ledger, b: seq<U8>): Ledger
    requires Shape(s) && s.active != NoOp && |b| == IMAGE_BYTES
  {
    l.(moved := l.moved + Transfers(s.area, b, s.cursor, ChunkCount(s.area, s.cursor)),
       retired := l.retired + {ChunkJob(s)},
       flushed := if s.active == WriteOp && LastChunk(s, b) then l.snapAt else l.flushed)
  }

  /** The buffer b' that a chunk of the active job leaves: unchanged by a write, filled from the cursor by a read. */
  ghost predicate ChunkFilled(s: State, b: seq<U8>, b': seq<U8>)
  {
    |b'| == |b| == IMAGE_BYTES && SECTOR * s.cursor <= |b| && b'[..SECTOR * s.cursor] == b[..SECTOR * s.cursor] &&
      (s.active == WriteOp ==> b' == b)
  }

  /** A write leaves the buffer alone; a read puts the delivered chunk at the cursor. */
  predicate Taken(s: State, b: seq<U8>, data: seq<U8>, b': seq<U8>)
    requires Shape(s) && s.active != NoOp && |b| == IMAGE_BYTES
  {
    if s.active == WriteOp then b' == b
    else
      var n := ChunkCount(s.area, s.cursor);
      && SECTOR * n <= |data| && SECTOR * (s.cursor + n) <= |b|
      && b' == b[..SECTOR * s.cursor] + data[..SECTOR * n] + b[SECTOR * (s.cursor + n)..]
  }

  lemma NewAreaMoved(xs: seq<Xfer>, a: Area, b: seq<U8>, n: nat, a': Area)
    requires Moved(xs, a, b, n) && (a == a' || n <= OVERLAY_SECTORS)
    ensures Moved(xs, a', b, n)
  {
    hide SectorOf;
  }

  /** Every sector up to the end of the chunk has now been moved, to or from its place in the area now known. */
  lemma ChunkMoves(s: State, l: Ledger, b: seq<U8>, b': seq<U8>)
    requires Shape(s) && Progress(s, l, b) && s.active != NoOp && ChunkFilled(s, b, b')
    ensures Moved(AdvancedLedger(s, l, b').moved, NextArea(s, b'), b', s.cursor + ChunkCount(s.area, s.cursor))
    ensures s.active == WriteOp ==> NextArea(s, b') == Geometry(b')
    ensures s.active == ReadOp ==>
      NextArea(s, b') == if s.cursor + ChunkCount(s.area, s.cursor) < OVERLAY_SECTORS then BASE_AREA else Geometry(b')
  {
    hide Geometry, Lba, Moved, Transfers;
    var n := ChunkCount(s.area, s.cursor);
    MovedChunk(l.moved, s.area, b, b', s.cursor, n);
    NewAreaMoved(l.moved + Transfers(s.area, b', s.cursor, n), s.area, b', s.cursor + n, NextArea(s, b'));
    if s.active == ReadOp && s.cursor >= OVERLAY_SECTORS { HeaderKept(b, b', SECTOR * s.cursor); }
  }

  lemma HeaderKept(b: seq<U8>, b': seq<U8>, n: nat)
    requires |b| == |b'| == IMAGE_BYTES && SECTOR <= n <= |b| && b'[..n] == b[..n]
    ensures Geometry(b') == Geometry(b)
  {
    hide Geometry;
    SameSector(b, b', n, 0);
    SameHeader(b', b);
  }

  lemma ChunkSpent(s: State, b: seq<U8>)
    requires Shape(s) && s.active != NoOp && |b| == IMAGE_BYTES
    ensures Later(s, Advanced(s, b)) && Spent(ChunkJob(s), Advanced(s, b))
  {
    hide Geometry;
    var t := Advanced(s, b);
    assert Lba(t.area, s.cursor) == Lba(s.area, s.cursor);
  }

  lemma AdvanceShape(s: State, b: seq<U8>)
    requires Shape(s) && s.active != NoOp && |b| == IMAGE_BYTES && s.handed == OverlayHanded
    ensures Shape(Advanced(s, b))
  {
  }

  /** A chunk that went well keeps everything the queue promises; the last one completes the transfer. */
  lemma AdvanceKeeps(s: State, l: Ledger, b: seq<U8>, b': seq<U8>)
    requires Shape(s) && Progress(s, l, b) && Covered(s, l) && AllSpent(l.retired, s)
    requires s.handed == OverlayHanded && ChunkFilled(s, b, b')
    ensures var t, m := Advanced(s, b'), AdvancedLedger(s, l, b');
            Shape(t) && Progress(t, m, b') && Covered(t, m) && AllSpent(m.retired, t)
    ensures LastChunk(s, b') ==> Moved(AdvancedLedger(s, l, b').moved, Geometry(b'), b', Geometry(b').total)
  {
    hide AllSpent, Later, Spent, Moved, Geometry, Transfers, Lba;
    ChunkMoves(s, l, b, b');
    ChunkSpent(s, b');
    AdvanceShape(s, b');
    SpentForever(l.retired, {ChunkJob(s)}, s, Advanced(s, b'));
  }

  // ---------------------------------------------------------------- the queue

  class Queue {
    const buf: array<U8>
    const ioBuf: array<U8>
    var s: State
    ghost var l: Ledger

    ghost predicate Valid()
      reads this, buf
    {
      && buf.Length == IMAGE_BYTES && ioBuf.Length == SECTOR * JOB_MAX && buf != ioBuf
      && Shape(s) && Progress(s, l, buf[..]) && Covered(s, l) && AllSpent(l.retired, s)
    }

    /** `ata_job_init` on a fresh queue. */
    constructor ()
      ensures Valid() && fresh(buf) && fresh(ioBuf) && s == START && l == Ledger(0, 0, 0, 0, [], [], {})
    {
      buf := new U8[IMAGE_BYTES](_ => 0);
      ioBuf := new U8[SECTOR * JOB_MAX](_ => 0);
      s := START;
      l := Ledger(0, 0, 0, 0, [], [], {});
    }

    /** `ata_job_request_flush`: one more change, which from now on is owed to the disk. */
    method RequestFlush()
      requires Valid()
      modifies this
      ensures Valid() && l == old(l).(changes := old(l).changes + 1)
      ensures s == old(s).(dirty := true, loadPending := false,
                           loadInvalid := old(s).loadInvalid || old(s).active == ReadOp)
    {
      hide Progress, AllSpent;
      ghost var was := s;
      s := s.(dirty := true);
      if s.active == ReadOp { s := s.(loadInvalid := true); }
      s := s.(loadPending := false);
      l := l.(changes := l.changes + 1);
      Kept(was, s, old(l), l, buf[..]);
    }

    /** `ata_job_request_load`: ignored while a change is still to be written. */
    method RequestLoad()
      requires Valid()
      modifies `s
      ensures Valid() && s == old(s).(loadPending := old(s).loadPending || !old(s).dirty)
    {
      hide Progress, AllSpent;
      if s.dirty { return; }
      s := s.(loadPending := true);
      Kept(old(s), s, l, l, buf[..]);
    }

    /** `ata_job_pending`: when nothing is pending, every change is on disk and the driver holds no job. */
    method Pending() returns (r: bool)
      requires Valid()
      ensures r <==> s.dirty || s.loadPending || s.active != NoOp || s.ioState == IoPending || s.ioState == IoWithDriver
      ensures !r ==> l.changes == l.flushed && s.handed == NoneHanded
    {
      r := s.dirty || s.loadPending || s.active != NoOp || s.ioState == IoPending || s.ioState == IoWithDriver;
    }

    // -------------------------------------------------------------- sector jobs

    /** `ata_job_io_submit`: accepted only when no sector job is queued or with the driver. */
    method IoSubmit(drive: nat, lba: nat, count: nat, write: bool, data: array?<U8>) returns (rc: int)
      requires Valid() && data != ioBuf && data != buf
      requires write && data != null && count <= JOB_MAX ==> SECTOR * count <= data.Length
      modifies `s, ioBuf
      ensures Valid()
      ensures rc == if old(s).ioState == IoPending || old(s).ioState == IoWithDriver || drive > 1 || count == 0 ||
                       count > JOB_MAX || (write && data == null) then -1 else 0
      ensures rc != 0 ==> s == old(s) && ioBuf[..] == old(ioBuf[..])
      ensures rc == 0 ==>
        s == old(s).(ioState := IoPending, ioOp := if write then IoWrite else IoRead, ioDrive := drive,
                     ioLba := lba, ioCount := count,
                     generation := old(s).generation + 1, ioGen := old(s).generation + 1,
                     ioFlags := if write && old(s).crashArmed then FLAG_CRASH else 0,
                     crashArmed := old(s).crashArmed && !write)
      ensures rc == 0 && !write ==> ioBuf[..] == old(ioBuf[..])
      ensures rc == 0 && write ==> ioBuf[..] == data[..SECTOR * count] + old(ioBuf[SECTOR * count..])
    {
      hide Progress, AllSpent, Covered;
      ghost var was := s;
      if s.ioState == IoPending || s.ioState == IoWithDriver { return -1; }
      if drive > 1 || count == 0 || count > JOB_MAX { return -1; }
      if write && data == null { return -1; }
      s := s.(ioOp := if write then IoWrite else IoRead, ioDrive := drive, ioLba := lba, ioCount := count);
      s := s.(generation := s.generation + 1, ioGen := s.generation + 1);
      if write { CopyBytes(data, 0, ioBuf, 0, SECTOR * count); }
      s := s.(ioFlags := 0);
      if write && s.crashArmed { s := s.(ioFlags := FLAG_CRASH, crashArmed := false); }
      s := s.(ioState := IoPending);
      Kept(was, s, l, l, buf[..]);
      CoveredWith(was, s, l, l);
      return 0;
    }

    /** `ata_job_io_take`: hands over what the driver delivered and frees the slot. */
    method IoTake(out: array?<U8>, capacity: nat) returns (rc: int)
      requires Valid() && out != ioBuf && out != buf && (out != null ==> capacity <= out.Length)
      modifies `s, if out != null then {out} else {}
      ensures Valid()
      ensures rc == if old(s).ioState == IoFinished &&
        (s.ioOp == IoRead ==> out != null && SECTOR * s.ioCount <= capacity) then 0 else -1
      ensures s == if old(s).ioState == IoFinished || old(s).ioState == IoFailed then old(s).(ioState := IoNone)
        else old(s)
      ensures rc == 0 && s.ioOp == IoRead ==> out[..] == ioBuf[..SECTOR * s.ioCount] + old(out[SECTOR * s.ioCount..])
      ensures out != null && !(rc == 0 && s.ioOp == IoRead) ==> out[..] == old(out[..])
    {
      hide Progress, AllSpent, Covered;
      ghost var was := s;
      if s.ioState != IoFinished && s.ioState != IoFailed { return -1; }
      rc := if s.ioState == IoFinished then 0 else -1;
      if rc == 0 && s.ioOp == IoRead {
        if out == null || capacity < SECTOR * s.ioCount { rc := -1; }
        else { CopyBytes(ioBuf, 0, out, 0, SECTOR * s.ioCount); }
      }
      s := s.(ioState := IoNone);
      Kept(was, s, l, l, buf[..]);
      CoveredWith(was, s, l, l);
    }

    /** `ata_job_io_cancel`: the job is retired, so a late report for it will be stale. */
    method IoCancel()
      requires Valid()
      modifies this
      ensures Valid()
      ensures s == if old(s).ioState == IoNone then old(s) else
        old(s).(ioState := IoNone, handed := if old(s).handed == IoHanded then NoneHanded else old(s).handed,
                generation := old(s).generation + 1, stats := old(s).stats.(aborts := old(s).stats.aborts + 1))
      ensures l == old(l).(retired := old(l).retired + if old(s).handed == IoHanded then {Live(old(s))} else {})
    {
      hide Progress, AllSpent, Covered;
      ghost var was, lost := s, if s.handed == IoHanded then {Live(s)} else {};
      if s.ioState == IoNone { NoneLost(l); return; }
      if s.handed == IoHanded { s := s.(handed := NoneHanded); }
      s := s.(ioState := IoNone);
      s := s.(generation := s.generation + 1, stats := s.stats.(aborts := s.stats.aborts + 1));
      SpentForever(l.retired, lost, was, s);
      l := l.(retired := l.retired + lost);
      ProgressKept(was, s, old(l), l, buf[..]);
      CoveredWith(was, s, old(l), l);
    }

    // -------------------------------------------------------------- fetch

    /** The start of a new overlay job: 1 if there is one, 0 if there is nothing to do, -1 if the snapshot failed. */
    method StartOverlay(snap: seq<U8>, snapOk: bool) returns (rc: int)
      requires Valid() && s.active == NoOp && s.handed == NoneHanded && |snap| <= IMAGE_BYTES
      modifies this, buf
      ensures Valid()
      ensures rc == if !Startable(old(s)) then 0 else if old(s).dirty && !snapOk then -1 else 1
      ensures rc != 1 ==> s == old(s) && l == old(l)
      ensures rc == 1 ==> s == Started(old(s), Filled(snap)) && l == StartedLedger(old(s), old(l), Filled(snap))
      ensures rc == 1 && old(s).dirty ==> buf[..] == Filled(snap)
    {
      hide Progress, AllSpent, Geometry;
      ghost var was, led := s, l;
      if s.dirty {
        ZeroBytes(buf);
        ProgressAny(s, l, buf[..]);
        if !snapOk { return -1; }
        PutBytes(snap, buf, 0);
        FilledIs(snap, buf[..]);
        StartKeeps(was, led, buf[..]);
        s := s.(area := Geometry(buf[..]));
        s := s.(dirty := false, active := WriteOp);
      } else if s.loadPending {
        StartKeeps(was, led, buf[..]);
        s := s.(loadPending := false, loadInvalid := false, active := ReadOp, area := BASE_AREA);
      } else {
        return 0;
      }
      s := s.(cursor := 0, generation := s.generation + 1, ovGeneration := s.generation + 1);
      l := StartedLedger(was, led, buf[..]);
      return 1;
    }

    /** `ata_job_fetch`: the next job for the driver, or the one it already holds once more. */
    method Fetch(data: array?<U8>, capacity: nat, snap: seq<U8>, snapOk: bool) returns (rc: int, job: Job)
      requires Valid() && data != buf && data != ioBuf && (data != null ==> capacity <= data.Length) &&
        |snap| <= IMAGE_BYTES
      modifies this, buf, if data != null then {data} else {}
      ensures Valid() && -1 <= rc <= 1
      ensures rc == 1 ==> s.handed != NoneHanded && job == Live(s)
      ensures rc == 1 && old(s).handed != NoneHanded ==> s == old(s) && l == old(l)
      ensures rc == 1 && job.op == WriteOp ==>
        data != null && SECTOR * job.count <= data.Length && SECTOR * (s.cursor + job.count) <= |l.image| &&
        data[..SECTOR * job.count] == l.image[SECTOR * s.cursor..SECTOR * (s.cursor + job.count)]
      ensures rc == 1 && job.op == IoWrite ==>
        data != null && SECTOR * job.count <= data.Length && data[..SECTOR * job.count] == ioBuf[..SECTOR * job.count]
      ensures IoFirst(old(s)) ==>
        l == old(l) && rc == (if s.ioOp == IoWrite && (data == null || capacity < SECTOR * s.ioCount) then -1 else 1)
      ensures IoFirst(old(s)) ==> s == if rc == 1 then old(s).(ioState := IoWithDriver, handed := IoHanded) else old(s)
      ensures !IoFirst(old(s)) && old(s).active == NoOp && !Startable(old(s)) ==> rc == 0 && s == old(s) && l == old(l)
      ensures !IoFirst(old(s)) && Startable(old(s)) && old(s).dirty && !snapOk ==>
        rc == -1 && s == old(s) && l == old(l)
      ensures !IoFirst(old(s)) && Startable(old(s)) && (old(s).dirty ==> snapOk) ==>
        s == Started(old(s), Filled(snap)).(handed := if rc == 1 then OverlayHanded else NoneHanded) &&
          l == StartedLedger(old(s), old(l), Filled(snap))
      ensures !IoFirst(old(s)) && old(s).active != NoOp ==>
        l == old(l) && s == if rc == 1 then old(s).(handed := OverlayHanded) else old(s)
      ensures !IoFirst(old(s)) && s.active != NoOp ==>
        rc == if s.active == WriteOp && (data == null || capacity < SECTOR * ChunkCount(s.area, s.cursor)) then -1
          else 1
      ensures rc == 1 ==>
        var first := if s.cursor < 64 then 64 else s.area.total;
        job == if s.handed == IoHanded then Job(s.ioOp, s.ioDrive, s.ioLba, s.ioCount, s.ioGen, s.ioFlags)
          else Job(s.active, 0, if s.cursor < 64 then s.cursor else (s.area.ext + s.cursor - 64) % 0x1_0000_0000,
                   if first - s.cursor < 8 then first - s.cursor else 8, s.ovGeneration, 0)
      ensures rc == 1 ==> (s.handed == IoHanded <==>
        old(s).handed == IoHanded || (old(s).handed == NoneHanded && old(s).ioState == IoPending))
      ensures rc == 1 && s.handed == OverlayHanded && old(s).active == NoOp ==>
        && s.cursor == 0 && s.ovGeneration == s.generation == old(s).generation + 1 && !s.dirty
        && if old(s).dirty
           then s.active == WriteOp && s.area == Geometry(buf[..]) && l.image == buf[..] && l.snapAt == l.changes &&
             forall k :: 0 <= k < buf.Length ==> buf[k] == if k < |snap| then snap[k] else 0
           else s.active == ReadOp && s.area == Area(64, 0) && !s.loadPending && !s.loadInvalid && old(s).loadPending
    {
      hide Progress, AllSpent, Covered, Shape, Geometry, Lba, Started, StartedLedger, Filled, ChunkCount;
      job := IoJob(s);
      if s.handed == IoHanded || (s.handed == NoneHanded && s.ioState == IoPending) {
        IoShape(s);
        rc := FetchIo(data, capacity);
        return;
      }
      rc, job := FetchOverlay(data, capacity, snap, snapOk);
      IoShape(s);
    }

    /** The overlay job, started if there is none. */
    method FetchOverlay(data: array?<U8>, capacity: nat, snap: seq<U8>, snapOk: bool) returns (rc: int, job: Job)
      requires Valid() && data != buf && data != ioBuf && (data != null ==> capacity <= data.Length) &&
        |snap| <= IMAGE_BYTES && !IoFirst(s)
      modifies this, buf, if data != null then {data} else {}
      ensures Valid() && -1 <= rc <= 1
      ensures rc == 1 ==> s.handed == OverlayHanded && job == Live(s) && job.op == s.active
      ensures rc == 1 && old(s).handed != NoneHanded ==> s == old(s) && l == old(l)
      ensures rc == 1 && job.op == WriteOp ==>
        data != null && SECTOR * job.count <= data.Length && SECTOR * (s.cursor + job.count) <= |l.image| &&
        data[..SECTOR * job.count] == l.image[SECTOR * s.cursor..SECTOR * (s.cursor + job.count)]
      ensures old(s).active == NoOp && !Startable(old(s)) ==> rc == 0 && s == old(s) && l == old(l)
      ensures Startable(old(s)) && old(s).dirty && !snapOk ==> rc == -1 && s == old(s) && l == old(l)
      ensures Startable(old(s)) && (old(s).dirty ==> snapOk) ==>
        s == Started(old(s), Filled(snap)).(handed := if rc == 1 then OverlayHanded else NoneHanded) &&
          l == StartedLedger(old(s), old(l), Filled(snap)) && (old(s).dirty ==> buf[..] == Filled(snap))
      ensures old(s).active != NoOp ==>
        l == old(l) && s == if rc == 1 then old(s).(handed := OverlayHanded) else old(s)
      ensures s.active != NoOp ==>
        rc == if s.active == WriteOp && (data == null || capacity < SECTOR * ChunkCount(s.area, s.cursor)) then -1
          else 1
      ensures rc == 1 ==>
        var first := if s.cursor < 64 then 64 else s.area.total;
        job == Job(s.active, 0, if s.cursor < 64 then s.cursor else (s.area.ext + s.cursor - 64) % 0x1_0000_0000,
                   if first - s.cursor < 8 then first - s.cursor else 8, s.ovGeneration, 0)
      ensures rc == 1 && old(s).active == NoOp ==>
        && s.cursor == 0 && s.ovGeneration == s.generation == old(s).generation + 1 && !s.dirty
        && if old(s).dirty
           then s.active == WriteOp && s.area == Geometry(buf[..]) && l.image == buf[..] && l.snapAt == l.changes &&
             forall k :: 0 <= k < buf.Length ==> buf[k] == if k < |snap| then snap[k] else 0
           else s.active == ReadOp && s.area == Area(64, 0) && !s.loadPending && !s.loadInvalid && old(s).loadPending
    {
      hide Progress, AllSpent, Covered, Geometry, Lba, Started, StartedLedger, Filled;
      job := IoJob(s);
      if s.active == NoOp {
        rc := StartOverlay(snap, snapOk);
        StartedIs(old(s), Filled(snap));
        if rc != 1 { return; }
      }
      rc, job := FetchChunk(data, capacity);
      if rc == 1 {
        ChunkIs(s);
        if Startable(old(s)) { StartedNow(old(s), old(l), snap); }
      }
    }

    /** Hands the sector job to the driver. */
    method FetchIo(data: array?<U8>, capacity: nat) returns (rc: int)
      requires Valid() && data != buf && data != ioBuf && (data != null ==> capacity <= data.Length) && IoFirst(s)
      modifies `s, if data != null then {data} else {}
      ensures Valid() && rc == if s.ioOp == IoWrite && (data == null || capacity < SECTOR * s.ioCount) then -1 else 1
      ensures s == if rc == 1 then old(s).(ioState := IoWithDriver, handed := IoHanded) else old(s)
      ensures rc == 1 && s.ioOp == IoWrite ==> data[..SECTOR * s.ioCount] == ioBuf[..SECTOR * s.ioCount]
    {
      hide Progress, AllSpent, Covered, Geometry;
      ghost var was := s;
      if s.ioOp == IoWrite {
        if data == null || capacity < SECTOR * s.ioCount { return -1; }
        CopyBytes(ioBuf, 0, data, 0, SECTOR * s.ioCount);
      }
      s := s.(ioState := IoWithDriver, handed := IoHanded);
      Kept(was, s, l, l, buf[..]);
      CoveredWith(was, s, l, l);
      return 1;
    }

    /** Hands the chunk at the cursor to the driver. */
    method FetchChunk(data: array?<U8>, capacity: nat) returns (rc: int, job: Job)
      requires Valid() && data != buf && data != ioBuf && (data != null ==> capacity <= data.Length)
      requires s.active != NoOp && s.handed != IoHanded
      modifies `s, if data != null then {data} else {}
      ensures Valid() && rc == if s.active == WriteOp &&
        (data == null || capacity < SECTOR * ChunkCount(s.area, s.cursor)) then -1 else 1
      ensures s == if rc == 1 then old(s).(handed := OverlayHanded) else old(s)
      ensures rc == 1 ==> job == ChunkJob(s)
      ensures rc == 1 && s.active == WriteOp ==>
        SECTOR * (s.cursor + job.count) <= |l.image| &&
          data[..SECTOR * job.count] == l.image[SECTOR * s.cursor..SECTOR * (s.cursor + job.count)]
    {
      hide Progress, AllSpent, Covered, Geometry, Lba;
      ghost var was := s;
      var count := ChunkCount(s.area, s.cursor);
      job := Job(s.active, 0, Lba(s.area, s.cursor), count, s.ovGeneration, 0);
      if s.active == WriteOp {
        if data == null || capacity < SECTOR * count { return -1, job; }
        WritesImage(s, l, buf[..]);
        CopyBytes(buf, SECTOR * s.cursor, data, 0, SECTOR * count);
      }
      s := s.(handed := OverlayHanded);
      Kept(was, s, l, l, buf[..]);
      CoveredWith(was, s, l, l);
      return 1, job;
    }

    // -------------------------------------------------------------- done

    /** `ata_job_done` for the sector job that the driver holds. */
    method DoneIo(job: Job, status: int, data: array?<U8>, capacity: nat) returns (rc: int)
      requires Valid() && s.handed == IoHanded && data != buf && data != ioBuf &&
        (data != null ==> capacity <= data.Length)
      modifies this, ioBuf
      ensures Valid()
      ensures rc == if !SameJob(job, Live(old(s))) ||
        (status == 0 && s.ioOp == IoRead && (data == null || capacity < SECTOR * s.ioCount))
                    then STALE else if status != 0 then FAILED else IO_DONE
      ensures rc == STALE ==> s == old(s) && l == old(l)
      ensures rc != STALE ==> l == old(l).(retired := old(l).retired + {Live(old(s))})
      ensures rc != STALE ==> s == IoReported(old(s), status)
      ensures rc == IO_DONE && s.ioOp == IoRead ==>
        ioBuf[..] == data[..SECTOR * s.ioCount] + old(ioBuf[SECTOR * s.ioCount..])
      ensures !(rc == IO_DONE && s.ioOp == IoRead) ==> ioBuf[..] == old(ioBuf[..])
    {
      hide Progress, AllSpent, Covered, Shape;
      IoReportKeeps(s, l, buf[..], status);
      if s.ioState != IoWithDriver || job.op != s.ioOp || job.generation != s.ioGen || job.lba != s.ioLba ||
        job.count != s.ioCount || job.drive != s.ioDrive {
        return STALE;
      }
      if status == 0 && s.ioOp == IoRead {
        if data == null || capacity < SECTOR * s.ioCount { return STALE; }
        CopyBytes(data, 0, ioBuf, 0, SECTOR * s.ioCount);
      }
      rc := FinishIo(status);
    }

    /** Takes the sector job back from the driver. */
    method FinishIo(status: int) returns (rc: int)
      requires Valid() && s.handed == IoHanded
      modifies `s, `l
      ensures Valid() && rc == if status != 0 then FAILED else IO_DONE
      ensures l == old(l).(retired := old(l).retired + {Live(old(s))}) && s == IoReported(old(s), status)
    {
      hide Progress, AllSpent, Covered, Shape;
      IoReportKeeps(s, l, buf[..], status);
      l := l.(retired := l.retired + {IoJob(s)});
      if status != 0 {
        s := s.(handed := NoneHanded, ioState := IoFailed, stats := s.stats.(failures := s.stats.failures + 1));
        return FAILED;
      }
      s := s.(handed := NoneHanded, ioState := IoFinished,
              stats := if s.ioOp == IoRead then s.stats.(fatRead := s.stats.fatRead + s.ioCount)
                       else s.stats.(fatWritten := s.stats.fatWritten + s.ioCount));
      return IO_DONE;
    }

    /** `ata_job_done` for the chunk that the driver holds, once it is known to match: failure. */
    method FailChunk()
      requires Valid() && s.handed == OverlayHanded
      modifies this
      ensures Valid() && l == old(l).(retired := old(l).retired + {Live(old(s))})
      ensures s == Failed(old(s))
    {
      hide Progress, AllSpent;
      ghost var was, live := s, Live(s);
      var op := s.active;
      s := s.(handed := NoneHanded, active := NoOp, stats := s.stats.(failures := s.stats.failures + 1));
      if op == WriteOp { s := s.(dirty := true); }
      SpentForever(l.retired, {live}, was, s);
      l := l.(retired := l.retired + {live});
      ProgressIdle(was, s, old(l), l, buf[..]);
    }

    /** `ata_job_done` for the chunk that the driver holds, once it is known to match: success. The last chunk of a
        flush completes the transfer of the snapshot; the last chunk of a load hands the buffer to restore, unless a
        change came after the load started. */
    method DoneChunk(data: array?<U8>, capacity: nat, restoreOk: bool) returns (rc: int, restored: bool)
      requires Valid() && s.handed == OverlayHanded && data != buf
      requires data != ioBuf && (data != null ==> capacity <= data.Length)
      modifies this, buf
      ensures Valid()
      ensures rc == STALE <==> old(s).active == ReadOp && (data == null || capacity < SECTOR * Live(old(s)).count)
      ensures rc == STALE ==> s == old(s).(handed := NoneHanded) && l == old(l) && buf[..] == old(buf[..]) && !restored
      ensures rc != STALE ==> Taken(old(s), old(buf[..]), if data == null then [] else data[..], buf[..])
      ensures rc != STALE ==> l == AdvancedLedger(old(s), old(l), buf[..])
      ensures rc != STALE ==> rc == Outcome(old(s), buf[..], restoreOk)
      ensures rc != STALE ==> s == Advanced(old(s), buf[..]).(stats := Tally(old(s).stats, rc))
      ensures rc != STALE && LastChunk(old(s), buf[..]) ==>
        Moved(l.moved, Geometry(buf[..]), buf[..], Geometry(buf[..]).total)
      ensures restored == (rc != STALE && LastChunk(old(s), buf[..]) && old(s).active == ReadOp &&
                           !old(s).loadInvalid && !old(s).dirty)
    {
      hide Progress, AllSpent, Covered, Shape, AdvancedLedger, Advanced, Outcome, Tally, LastChunk, Geometry, Lba,
           Moved;
      ghost var b := buf[..];
      ChunkFits(s);
      var count := ChunkCount(s.area, s.cursor);
      if s.active == ReadOp {
        if data == null || capacity < SECTOR * count {
          Unhanded(s, l, b);
          s := s.(handed := NoneHanded);
          return STALE, false;
        }
        CopyBytes(data, 0, buf, SECTOR * s.cursor, SECTOR * count);
      }
      rc, restored := Advance(restoreOk, b);
    }

    /** The bookkeeping after a chunk that went well; b is the buffer before it. */
    method Advance(restoreOk: bool, ghost b: seq<U8>) returns (rc: int, restored: bool)
      requires buf.Length == IMAGE_BYTES && ioBuf.Length == SECTOR * JOB_MAX && buf != ioBuf
      requires Shape(s) && Progress(s, l, b) && Covered(s, l) && AllSpent(l.retired, s)
      requires s.handed == OverlayHanded && ChunkFilled(s, b, buf[..])
      modifies this
      ensures Valid() && l == AdvancedLedger(old(s), old(l), buf[..])
      ensures rc == Outcome(old(s), buf[..], restoreOk) && rc != STALE
      ensures s == Advanced(old(s), buf[..]).(stats := Tally(old(s).stats, rc))
      ensures LastChunk(old(s), buf[..]) ==> Moved(l.moved, Geometry(buf[..]), buf[..], Geometry(buf[..]).total)
      ensures restored == (LastChunk(old(s), buf[..]) && old(s).active == ReadOp && !old(s).loadInvalid &&
                           !old(s).dirty)
    {
      hide Progress, AllSpent, Covered, Shape, AdvancedLedger, Geometry, Lba, ChunkFilled, Moved;
      AdvanceKeeps(s, l, b, buf[..]);
      ChunkFits(s);
      l := AdvancedLedger(s, l, buf[..]);
      var op, count := s.active, ChunkCount(s.area, s.cursor);
      var area, next := s.area, s.cursor + count;
      if op == ReadOp && next == OVERLAY_SECTORS { area := Geometry(buf[..]); }
      if next < area.total {
        s := s.(handed := NoneHanded, area := area, cursor := next);
        return CHUNK_OK, false;
      }
      restored := op == ReadOp && !s.loadInvalid && !s.dirty;
      rc := if op == WriteOp then FLUSH_DONE else if restored && restoreOk then LOAD_DONE else LOAD_SKIPPED;
      Recount(Advanced(s, buf[..]), l, buf[..], Tally(s.stats, rc));
      s := s.(handed := NoneHanded, area := area, active := NoOp, cursor := 0, stats := Tally(s.stats, rc));
    }

    /** `ata_job_done`. A report counts only if it matches the job that the driver holds; a spent job's never does. When
        a flush is reported done, every sector of its snapshot has been moved to its place; restore is called only if
        nothing has changed since the load started. */
    method Done(job: Job, status: int, data: array?<U8>, capacity: nat, restoreOk: bool)
      returns (rc: int, restored: bool)
      requires Valid() && data != buf && data != ioBuf && (data != null ==> capacity <= data.Length)
      modifies this, buf, ioBuf
      ensures Valid()
      ensures rc == STALE <==>
        old(s).handed == NoneHanded || !SameJob(job, Live(old(s))) ||
          (status == 0 && IsRead(Live(old(s)).op) && (data == null || capacity < SECTOR * Live(old(s)).count))
      ensures rc == STALE ==> l == old(l) && buf[..] == old(buf[..]) && ioBuf[..] == old(ioBuf[..]) && !restored
      ensures rc == STALE ==>
        s == if old(s).handed == OverlayHanded && SameJob(job, Live(old(s))) then old(s).(handed := NoneHanded)
        else old(s)
      ensures forall j :: j in old(l).retired && SameJob(job, j) && NoWrap(old(s).area) ==> rc == STALE && s == old(s)
      ensures rc != STALE && old(s).handed == IoHanded ==>
        rc == (if status != 0 then FAILED else IO_DONE) && s == IoReported(old(s), status)
      ensures rc != STALE && old(s).handed == OverlayHanded && status != 0 ==>
        rc == FAILED && s == Failed(old(s)) && buf[..] == old(buf[..])
      ensures rc != STALE && (old(s).handed == IoHanded || status != 0) ==>
        l == old(l).(retired := old(l).retired + {Live(old(s))})
      ensures rc != STALE && old(s).handed == OverlayHanded && status == 0 ==>
        rc == Outcome(old(s), buf[..], restoreOk) &&
          s == Advanced(old(s), buf[..]).(stats := Tally(old(s).stats, rc)) &&
          l == AdvancedLedger(old(s), old(l), buf[..])
      ensures rc != STALE && old(s).handed == OverlayHanded && status == 0 ==>
        Taken(old(s), old(buf[..]), if data == null then [] else data[..], buf[..])
      ensures rc == IO_DONE && s.ioOp == IoRead ==>
        ioBuf[..] == data[..SECTOR * s.ioCount] + old(ioBuf[SECTOR * s.ioCount..])
      ensures !(rc == IO_DONE && s.ioOp == IoRead) ==> ioBuf[..] == old(ioBuf[..])
      ensures rc == FLUSH_DONE ==>
        |l.image| == IMAGE_BYTES && Moved(l.moved, Geometry(l.image), l.image, Geometry(l.image).total)
      ensures rc == FLUSH_DONE ==> l.image == old(l.image) && l.flushed == old(l.snapAt)
      ensures rc == LOAD_DONE || rc == LOAD_SKIPPED ==>
        Moved(l.moved, Geometry(buf[..]), buf[..], Geometry(buf[..]).total)
      ensures restored ==> l.changes == old(l.loadAt)
      ensures rc == LOAD_DONE ==> restored
      ensures rc == STALE <==>
        || old(s).handed == NoneHanded
        || (var h := Live(old(s));
            || job.op != h.op || job.drive != h.drive || job.lba != h.lba || job.count != h.count
            || job.generation != h.generation
            || (status == 0 && (h.op == ReadOp || h.op == IoRead) && (data == null || capacity < 512 * h.count)))
      ensures rc != STALE ==> s.handed == NoneHanded
      ensures rc != STALE && old(s).handed == IoHanded ==>
        s == old(s).(handed := NoneHanded, ioState := if status == 0 then IoFinished else IoFailed, stats := s.stats)
      ensures rc != STALE && old(s).handed == OverlayHanded && status != 0 ==>
        s == old(s).(handed := NoneHanded, active := NoOp, dirty := old(s).dirty || old(s).active == WriteOp,
                     stats := s.stats)
      ensures rc != STALE && old(s).handed == OverlayHanded && status == 0 ==>
        var end := old(s).cursor + job.count;
        && s.area == (if old(s).active == ReadOp && end == 64 then Geometry(buf[..]) else old(s).area)
        && s == old(s).(handed := NoneHanded, area := s.area, stats := s.stats,
                        active := if end < s.area.total then old(s).active else NoOp,
                        cursor := if end < s.area.total then end else 0)
        && rc == if end < s.area.total then CHUNK_OK else if old(s).active == WriteOp then FLUSH_DONE
           else if old(s).loadInvalid || old(s).dirty || !restoreOk then LOAD_SKIPPED else LOAD_DONE
      ensures rc != STALE && old(s).handed == OverlayHanded && status == 0 ==>
        forall k :: 0 <= k < buf.Length ==>
          buf[k] == if old(s).active == ReadOp && 512 * old(s).cursor <= k < 512 * (old(s).cursor + job.count)
            then data[k - 512 * old(s).cursor] else old(buf[k])
    {
      hide Progress, AllSpent, Covered, Shape, Geometry, Lba, Moved, Advanced, AdvancedLedger, LastChunk, Tally,
           Outcome, Taken, ChunkCount, IoReported, Failed;
      ghost var was, b := s, buf[..];
      if was.handed == OverlayHanded { ChunkFits(was); }
      LiveIs(was);
      rc, restored := Settle(job, status, data, capacity, restoreOk);
      IoReportIs(was, status);
      FailedIs(was);
      if rc != STALE && was.handed == OverlayHanded && status == 0 {
        AdvancedIs(was, b, if data == null then [] else data[..], buf[..], restoreOk);
      }
    }

    /** The report against the job that the driver holds. */
    method Settle(job: Job, status: int, data: array?<U8>, capacity: nat, restoreOk: bool)
      returns (rc: int, restored: bool)
      requires Valid() && data != buf && data != ioBuf && (data != null ==> capacity <= data.Length)
      modifies this, buf, ioBuf
      ensures Valid()
      ensures rc == STALE <==>
        old(s).handed == NoneHanded || !SameJob(job, Live(old(s))) ||
          (status == 0 && IsRead(Live(old(s)).op) && (data == null || capacity < SECTOR * Live(old(s)).count))
      ensures rc == STALE ==> l == old(l) && buf[..] == old(buf[..]) && ioBuf[..] == old(ioBuf[..]) && !restored
      ensures rc == STALE ==>
        s == if old(s).handed == OverlayHanded && SameJob(job, Live(old(s))) then old(s).(handed := NoneHanded)
        else old(s)
      ensures forall j :: j in old(l).retired && SameJob(job, j) && NoWrap(old(s).area) ==> rc == STALE && s == old(s)
      ensures rc != STALE && old(s).handed == IoHanded ==>
        rc == (if status != 0 then FAILED else IO_DONE) && s == IoReported(old(s), status)
      ensures rc != STALE && old(s).handed == OverlayHanded && status != 0 ==>
        rc == FAILED && s == Failed(old(s)) && buf[..] == old(buf[..])
      ensures rc != STALE && (old(s).handed == IoHanded || status != 0) ==>
        l == old(l).(retired := old(l).retired + {Live(old(s))})
      ensures rc != STALE && old(s).handed == OverlayHanded && status == 0 ==>
        rc == Outcome(old(s), buf[..], restoreOk) &&
          s == Advanced(old(s), buf[..]).(stats := Tally(old(s).stats, rc)) &&
          l == AdvancedLedger(old(s), old(l), buf[..])
      ensures rc != STALE && old(s).handed == OverlayHanded && status == 0 ==>
        Taken(old(s), old(buf[..]), if data == null then [] else data[..], buf[..])
      ensures rc == IO_DONE && s.ioOp == IoRead ==>
        ioBuf[..] == data[..SECTOR * s.ioCount] + old(ioBuf[SECTOR * s.ioCount..])
      ensures !(rc == IO_DONE && s.ioOp == IoRead) ==> ioBuf[..] == old(ioBuf[..])
      ensures rc == FLUSH_DONE ==>
        |l.image| == IMAGE_BYTES && Moved(l.moved, Geometry(l.image), l.image, Geometry(l.image).total)
      ensures rc == FLUSH_DONE ==> l.image == old(l.image) && l.flushed == old(l.snapAt)
      ensures rc == LOAD_DONE || rc == LOAD_SKIPPED ==>
        Moved(l.moved, Geometry(buf[..]), buf[..], Geometry(buf[..]).total)
      ensures restored ==> l.changes == old(l.loadAt)
      ensures rc == LOAD_DONE ==> restored
    {
      hide Progress, AllSpent, Covered, Shape, Geometry, Lba, Moved, Advanced, AdvancedLedger, LastChunk, Tally;
      BeforeReport(s, l, buf[..]);
      SpentReports(l.retired, job, s);
      if s.handed == IoHanded {
        rc := DoneIo(job, status, data, capacity);
        return rc, false;
      }
      if s.handed != OverlayHanded || s.active == NoOp { return STALE, false; }
      var live := ChunkJob(s);
      if job.op != live.op || job.generation != live.generation || job.lba != live.lba || job.count != live.count ||
        job.drive != 0 {
        return STALE, false;
      }
      if status != 0 {
        FailChunk();
        return FAILED, false;
      }
      rc, restored := DoneChunk(data, capacity, restoreOk);
      if rc != STALE { AfterReport(old(s), old(l), buf[..]); }
    }

    // -------------------------------------------------------------- driver death

    /** `ata_job_driver_gone`: 1 exactly when a change is not on disk yet; the caller then owes the flush. */
    method DriverGone() returns (needFlush: bool)
      requires Valid()
      modifies this
      ensures Valid() && needFlush == (old(s).dirty || old(s).active == WriteOp)
      ensures needFlush <==> old(l).flushed < old(l).changes
      ensures var t := old(s).(active := NoOp, cursor := 0, loadPending := false, dirty := false, handed := NoneHanded);
        s == if old(s).ioState != IoPending && old(s).ioState != IoWithDriver then t else
          t.(ioState := IoNone, generation := t.generation + 1, stats := t.stats.(aborts := t.stats.aborts + 1))
      ensures l == old(l).(flushed := old(l).changes, retired := old(l).retired + if old(s).handed != NoneHanded
                           then {Live(old(s))} else {})
    {
      hide Progress, AllSpent;
      ghost var was, lost := s, if s.handed != NoneHanded then {Live(s)} else {};
      needFlush := s.dirty || s.active == WriteOp;
      s := s.(active := NoOp, cursor := 0, loadPending := false, dirty := false, handed := NoneHanded);
      if s.ioState == IoPending || s.ioState == IoWithDriver {
        s := s.(ioState := IoNone, generation := s.generation + 1, stats := s.stats.(aborts := s.stats.aborts + 1));
      }
      SpentForever(l.retired, lost, was, s);
      l := l.(flushed := l.changes, retired := l.retired + lost);
      ProgressIdle(was, s, old(l), l, buf[..]);
    }
  }

  lemma NoneLost(l: Ledger)
    ensures l == l.(retired := l.retired + {})
  {
    assert l.retired + {} == l.retired;
  }

  /** A step that leaves the overlay job alone keeps what is known about it. */
  lemma ProgressKept(s: State, t: State, l: Ledger, m: Ledger, b: seq<U8>)
    requires Shape(s) && Shape(t) && Progress(s, l, b) && m.moved == l.moved && m.image == l.image
    requires s.active == t.active && s.cursor == t.cursor && s.area == t.area
    ensures Progress(t, m, b)
  {
  }

  lemma ProgressIdle(s: State, t: State, l: Ledger, m: Ledger, b: seq<U8>)
    requires Shape(s) && Shape(t) && Progress(s, l, b) && t.active == NoOp
    ensures Progress(t, m, b)
  {
  }

  lemma Kept(s: State, t: State, l: Ledger, m: Ledger, b: seq<U8>)
    requires Shape(s) && Shape(t) && Progress(s, l, b) && AllSpent(l.retired, s) && m == l.(changes := m.changes)
    requires s.active == t.active && s.cursor == t.cursor && s.area == t.area && Later(s, t)
    ensures Progress(t, m, b) && AllSpent(m.retired, t)
  {
    hide AllSpent, Later, Moved;
    SpentForever(l.retired, {}, s, t);
    assert l.retired + {} == l.retired;
  }

  lemma ProgressAny(s: State, l: Ledger, b: seq<U8>)
    requires Shape(s) && s.active == NoOp && |b| == IMAGE_BYTES
    ensures Progress(s, l, b)
  {
  }

  lemma FilledIs(snap: seq<U8>, b: seq<U8>)
    requires |snap| <= |b| == IMAGE_BYTES && b[..|snap|] == snap && forall k :: |snap| <= k < |b| ==> b[k] == 0
    ensures b == Filled(snap)
  {
  }

  lemma WritesImage(s: State, l: Ledger, b: seq<U8>)
    requires Shape(s) && s.active == WriteOp && Progress(s, l, b)
    ensures b == l.image && |b| == IMAGE_BYTES
  {
    hide Moved, Geometry;
  }

  lemma LiveIs(s: State)
    requires Shape(s)
    ensures s.handed == OverlayHanded ==> Live(s).drive == 0 && Live(s).count == ChunkCount(s.area, s.cursor)
  {
  }

  lemma IoReportIs(s: State, status: int)
    ensures IoReported(s, status) ==
      s.(handed := NoneHanded, ioState := if status == 0 then IoFinished else IoFailed,
         stats := if status != 0 then s.stats.(failures := s.stats.failures + 1)
           else if s.ioOp == IoRead then s.stats.(fatRead := s.stats.fatRead + s.ioCount)
           else s.stats.(fatWritten := s.stats.fatWritten + s.ioCount))
  {
  }

  lemma FailedIs(s: State)
    ensures Failed(s) == s.(handed := NoneHanded, active := NoOp, dirty := s.dirty || s.active == WriteOp,
                            stats := s.stats.(failures := s.stats.failures + 1))
  {
  }

  /** Only completed transfers are counted, each by its outcome. */
  lemma TallyIs(t: Stats, rc: int)
    ensures Tally(t, rc) == match rc
      case 1 => t.(flushDone := t.flushDone + 1)
      case 2 => t.(loadDone := t.loadDone + 1)
      case 3 => t.(loadSkipped := t.loadSkipped + 1)
      case _ => t
  {
  }

  /** A chunk that went well, in full. */
  lemma AdvancedIs(s: State, b: seq<U8>, data: seq<U8>, b': seq<U8>, restoreOk: bool)
    requires Shape(s) && s.active != NoOp && |b| == IMAGE_BYTES && |b'| == IMAGE_BYTES && Taken(s, b, data, b')
    ensures var t, end := Advanced(s, b'), s.cursor + ChunkCount(s.area, s.cursor);
      && t.area == (if s.active == ReadOp && end == 64 then Geometry(b') else s.area)
      && t == s.(handed := NoneHanded, area := t.area, active := if end < t.area.total then s.active else NoOp,
                 cursor := if end < t.area.total then end else 0)
      && Outcome(s, b', restoreOk) == if end < t.area.total then CHUNK_OK else if s.active == WriteOp then FLUSH_DONE
           else if s.loadInvalid || s.dirty || !restoreOk then LOAD_SKIPPED else LOAD_DONE
    ensures s.active == ReadOp ==> 512 * ChunkCount(s.area, s.cursor) <= |data|
    ensures forall k :: 0 <= k < IMAGE_BYTES ==>
      b'[k] == if s.active == ReadOp && 512 * s.cursor <= k < 512 * (s.cursor + ChunkCount(s.area, s.cursor))
        then data[k - 512 * s.cursor] else b[k]
  {
    hide Geometry, ChunkCount;
  }

  lemma ChunkIs(s: State)
    requires Shape(s) && s.active != NoOp
    ensures var first := if s.cursor < 64 then 64 else s.area.total;
      ChunkJob(s) == Job(s.active, 0, if s.cursor < 64 then s.cursor else (s.area.ext + s.cursor - 64) % 0x1_0000_0000,
                         if first - s.cursor < 8 then first - s.cursor else 8, s.ovGeneration, 0)
  {
  }

  lemma StartedNow(s: State, l: Ledger, snap: seq<U8>)
    requires Startable(s) && |snap| <= IMAGE_BYTES
    ensures var t, m, b := Started(s, Filled(snap)), StartedLedger(s, l, Filled(snap)), Filled(snap);
      && t.cursor == 0 && t.ovGeneration == t.generation == s.generation + 1 && !t.dirty
      && if s.dirty
         then t.active == WriteOp && t.area == Geometry(b) && m.image == b && m.snapAt == m.changes &&
           forall k :: 0 <= k < IMAGE_BYTES ==> b[k] == if k < |snap| then snap[k] else 0
         else t.active == ReadOp && t.area == Area(64, 0) && !t.loadPending && !t.loadInvalid && s.loadPending
  {
    hide Geometry;
  }

  lemma StartedIs(s: State, b: seq<U8>)
    requires |b| == IMAGE_BYTES
    ensures Startable(s) ==>
      Started(s, b).active != NoOp && Started(s, b).handed == s.handed && Started(s, b).ioState == s.ioState
  {
  }

  lemma ChunkFits(s: State)
    requires Shape(s) && s.handed == OverlayHanded
    ensures (s.active == WriteOp || s.active == ReadOp) && s.cursor < s.area.total
    ensures OVERLAY_SECTORS <= s.area.total && Live(s) == ChunkJob(s)
    ensures SECTOR * (s.cursor + ChunkCount(s.area, s.cursor)) <= IMAGE_BYTES
  {
  }

  /** Taking the chunk back from the driver without a result. */
  lemma Unhanded(s: State, l: Ledger, b: seq<U8>)
    requires Shape(s) && Progress(s, l, b) && Covered(s, l) && AllSpent(l.retired, s) && s.handed == OverlayHanded
    ensures var t := s.(handed := NoneHanded);
            Shape(t) && Progress(t, l, b) && Covered(t, l) && AllSpent(l.retired, t)
  {
    hide Progress, AllSpent, Covered;
    var t := s.(handed := NoneHanded);
    Kept(s, t, l, l, b);
    CoveredWith(s, t, l, l);
  }

  lemma Recount(s: State, l: Ledger, b: seq<U8>, stats: Stats)
    requires Shape(s) && Progress(s, l, b) && Covered(s, l) && AllSpent(l.retired, s)
    ensures var t := s.(stats := stats);
            Shape(t) && Progress(t, l, b) && Covered(t, l) && AllSpent(l.retired, t)
  {
    hide Progress, AllSpent, Covered;
    var t := s.(stats := stats);
    Kept(s, t, l, l, b);
    CoveredWith(s, t, l, l);
  }

  /** What is reported back after a chunk that went well. */
  function Outcome(s: State, b: seq<U8>, restoreOk: bool): int
    requires Shape(s) && s.active != NoOp && |b| == IMAGE_BYTES
  {
    if !LastChunk(s, b) then CHUNK_OK
    else if s.active == WriteOp then FLUSH_DONE
    else if s.loadInvalid || s.dirty || !restoreOk then LOAD_SKIPPED else LOAD_DONE
  }

  /** The state after a chunk that failed: a flush starts again from a new snapshot. */
  function Failed(s: State): State
  {
    s.(handed := NoneHanded, active := NoOp, dirty := s.dirty || s.active == WriteOp,
       stats := s.stats.(failures := s.stats.failures + 1))
  }

  predicate IsRead(op: Op) { op == ReadOp || op == IoRead }

  function Tally(t: Stats, rc: int): Stats
  {
    if rc == FLUSH_DONE then t.(flushDone := t.flushDone + 1)
    else if rc == LOAD_DONE then t.(loadDone := t.loadDone + 1)
    else if rc == LOAD_SKIPPED then t.(loadSkipped := t.loadSkipped + 1)
    else t
  }

  lemma BeforeReport(s: State, l: Ledger, b: seq<U8>)
    requires Shape(s) && Progress(s, l, b) && Covered(s, l)
    ensures (s.handed == OverlayHanded ==> s.active == WriteOp || s.active == ReadOp)
    ensures (s.active == WriteOp ==> l.image == b)
    ensures s.active == ReadOp && !s.loadInvalid ==> l.changes == l.loadAt
    ensures s.handed == OverlayHanded ==> Live(s) == ChunkJob(s)
    ensures s.handed == IoHanded ==> Live(s) == IoJob(s) && (s.ioOp == IoRead || s.ioOp == IoWrite)
  {
    hide Moved, Geometry;
  }

  lemma AfterReport(s: State, l: Ledger, b: seq<U8>)
    requires Shape(s) && s.active != NoOp && |b| == IMAGE_BYTES
    ensures var m := AdvancedLedger(s, l, b);
            m.image == l.image && m.changes == l.changes && m.flushed == if s.active == WriteOp && LastChunk(s, b)
              then l.snapAt else l.flushed
  {
    hide LastChunk;
  }

  lemma SpentReports(rs: set<Job>, job: Job, s: State)
    requires Shape(s) && AllSpent(rs, s)
    ensures s.handed != NoneHanded && NoWrap(s.area) ==> forall j :: j in rs && SameJob(job, j) ==>
      !SameJob(job, Live(s))
  {
    if s.handed != NoneHanded && NoWrap(s.area) {
      forall j | j in rs && SameJob(job, j) ensures !SameJob(job, Live(s)) { SpentIsNotLive(rs, j, s); }
    }
  }

  /** The state after the report of a sector job. */
  function IoReported(s: State, status: int): State
  {
    if status != 0 then s.(handed := NoneHanded, ioState := IoFailed,
                           stats := s.stats.(failures := s.stats.failures + 1))
    else s.(handed := NoneHanded, ioState := IoFinished,
            stats := if s.ioOp == IoRead then s.stats.(fatRead := s.stats.fatRead + s.ioCount)
                     else s.stats.(fatWritten := s.stats.fatWritten + s.ioCount))
  }

  lemma IoReportKeeps(s: State, l: Ledger, b: seq<U8>, status: int)
    requires Shape(s) && Progress(s, l, b) && Covered(s, l) && AllSpent(l.retired, s) && s.handed == IoHanded
    ensures Live(s) == IoJob(s) && s.ioState == IoWithDriver && 1 <= s.ioCount <= JOB_MAX
    ensures var t, m := IoReported(s, status), l.(retired := l.retired + {IoJob(s)});
            Shape(t) && Progress(t, m, b) && Covered(t, m) && AllSpent(m.retired, t)
  {
    hide Progress, AllSpent, Covered;
    var t, m := IoReported(s, status), l.(retired := l.retired + {IoJob(s)});
    SpentForever(l.retired, {IoJob(s)}, s, t);
    ProgressKept(s, t, l, m, b);
    CoveredWith(s, t, l, m);
  }

  lemma CoveredWith(s: State, t: State, l: Ledger, m: Ledger)
    requires Covered(s, l) && s.dirty == t.dirty && s.active == t.active && s.loadInvalid == t.loadInvalid
    requires m.changes == l.changes && m.snapAt == l.snapAt && m.flushed == l.flushed && m.loadAt == l.loadAt
    ensures Covered(t, m)
  {
  }
}
