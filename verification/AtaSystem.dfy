/** The job queue together with a disk, a driver and other users of the disk: what holds after every sequence of calls
    and transfers. The driver is assumed to report success only for what it did, and other users to keep off the image.
    */
module AtaSystem {
  import opened Words
  import opened OverlayImage
  import OverlayOps
  import OverlayState
  import Snap = OverlaySnapshot
  import opened AtaJob
  import opened AtaQueue

  /** x is the place of a sector of the chunk with the driver. */
  ghost predicate InChunk(s: State, x: nat)
    requires Shape(s) && s.active != NoOp
  {
    exists k :: s.cursor <= k < s.cursor + ChunkCount(s.area, s.cursor) && x == Lba(s.area, k)
  }

  /** The sectors of the chunk with the driver are on disk. */
  ghost predicate ChunkOnDisk(s: State, image: seq<U8>, d: Disk)
    requires Shape(s) && s.active != NoOp && |image| == IMAGE_BYTES
  {
    forall k :: s.cursor <= k < s.cursor + ChunkCount(s.area, s.cursor) ==> d(Lba(s.area, k)) == SectorOf(image, k)
  }

  /** Two disks agree on every sector that image b can occupy. */
  ghost predicate AgreeOn(d: Disk, d': Disk, a: Area)
  {
    forall k :: 0 <= k < MAX_SECTORS ==> d'(Lba(a, k)) == d(Lba(a, k))
  }

  /** While a flush is under way, what has been reported is on disk. */
  ghost predicate Reported(s: State, l: Ledger, d: Disk)
    requires Shape(s)
  {
    s.active == WriteOp && NoWrap(s.area) ==> |l.image| == IMAGE_BYTES && OnDisk(d, s.area, l.image, s.cursor)
  }

  /** A finished driver write is on disk. */
  ghost predicate Performed(s: State, l: Ledger, d: Disk, performed: bool)
    requires Shape(s)
  {
    performed ==>
      s.handed == OverlayHanded && s.active == WriteOp && |l.image| == IMAGE_BYTES && ChunkOnDisk(s, l.image, d)
  }

  /** A settled disk holds the image kept, taken after the last change. */
  ghost predicate Settled(s: State, l: Ledger, d: Disk, kept: seq<U8>, keptAt: nat)
  {
    && !s.dirty && s.active != WriteOp && |kept| == IMAGE_BYTES && keptAt == l.changes
    && (NoWrap(Geometry(kept)) ==> OnDisk(d, Geometry(kept), kept, Geometry(kept).total))
  }

  /** What a load has read so far is what the disk holds. */
  ghost predicate ReadBack(s: State, l: Ledger, d: Disk)
  {
    s.active == ReadOp ==> forall k :: 0 <= k < |l.moved| ==> l.moved[k].data == d(l.moved[k].lba)
  }

  /** What the driver brings is what the disk holds. */
  ghost predicate Delivers(s: State, data: seq<U8>, d: Disk)
    requires Shape(s) && s.active != NoOp
  {
    var n := ChunkCount(s.area, s.cursor);
    SECTOR * n <= |data| && forall k :: 0 <= k < n ==> SectorOf(data, k) == d(Lba(s.area, s.cursor + k))
  }

  // ---------------------------------------------------------------- steps

  /** A job that has just been started has nothing to show for yet. */
  lemma StartedReports(s: State, l: Ledger, d: Disk, b: seq<U8>, t: State)
    requires Shape(s) && Startable(s) && |b| == IMAGE_BYTES && Shape(t)
    requires t.active == Started(s, b).active && t.area == Started(s, b).area && t.cursor == 0
    ensures Reported(t, StartedLedger(s, l, b), d) && ReadBack(t, StartedLedger(s, l, b), d)
  {
    hide Geometry, Lba;
  }

  /** Writing within the chunk does not disturb what has been reported. */
  lemma ChunkKeepsReported(s: State, l: Ledger, d: Disk, d': Disk)
    requires Shape(s) && s.active == WriteOp && Reported(s, l, d) && forall x :: !InChunk(s, x) ==> d'(x) == d(x)
    ensures Reported(s, l, d')
  {
    hide Lba;
    if NoWrap(s.area) {
      forall k | 0 <= k < s.cursor ensures d'(Lba(s.area, k)) == SectorOf(l.image, k) { BelowChunk(s, k); }
    }
  }

  lemma BelowChunk(s: State, k: nat)
    requires Shape(s) && s.active != NoOp && NoWrap(s.area) && k < s.cursor
    ensures !InChunk(s, Lba(s.area, k))
  {
    hide Lba;
    forall j | s.cursor <= j < s.cursor + ChunkCount(s.area, s.cursor) ensures Lba(s.area, j) != Lba(s.area, k) {
      PlacesDiffer(s.area, k, j);
    }
  }

  lemma ElsewhereKeeps(s: State, l: Ledger, d: Disk, d': Disk, b: seq<U8>, performed: bool)
    requires Shape(s) && Progress(s, l, b) && Reported(s, l, d) && ReadBack(s, l, d)
    requires Performed(s, l, d, performed) && AgreeOn(d, d', s.area)
    ensures Reported(s, l, d') && ReadBack(s, l, d') && Performed(s, l, d', performed)
  {
    hide Lba, Geometry, SectorOf;
  }

  lemma SettledElsewhere(s: State, l: Ledger, d: Disk, d': Disk, kept: seq<U8>, keptAt: nat)
    requires Settled(s, l, d, kept, keptAt) && AgreeOn(d, d', Geometry(kept))
    ensures Settled(s, l, d', kept, keptAt)
  {
    hide Lba, SectorOf, GetU32;
  }

  /** One more chunk reported: more of the image is on disk, in the end all of it. */
  lemma WriteAdvances(s: State, l: Ledger, b: seq<U8>, d: Disk)
    requires Shape(s) && Progress(s, l, b) && s.active == WriteOp
    requires Reported(s, l, d) && Performed(s, l, d, true) && NoWrap(s.area)
    ensures |b| == IMAGE_BYTES && b == l.image && NextArea(s, b) == s.area == Geometry(b)
    ensures SECTOR * (s.cursor + ChunkCount(s.area, s.cursor)) <= IMAGE_BYTES
    ensures OnDisk(d, s.area, b, s.cursor + ChunkCount(s.area, s.cursor))
  {
    hide Lba, Geometry, SectorOf, Moved;
  }

  /** One more chunk read: what has been read is what the disk holds. */
  lemma ReadAdvances(s: State, l: Ledger, b: seq<U8>, data: seq<U8>, b': seq<U8>, d: Disk)
    requires Shape(s) && Progress(s, l, b) && s.active == ReadOp
    requires ReadBack(s, l, d) && Taken(s, b, data, b') && Delivers(s, data, d)
    ensures |b'| == IMAGE_BYTES
    ensures var m := AdvancedLedger(s, l, b'); forall k :: 0 <= k < |m.moved| ==> m.moved[k].data == d(m.moved[k].lba)
  {
    hide Lba, Geometry, Moved;
    var n := ChunkCount(s.area, s.cursor);
    var m := AdvancedLedger(s, l, b');
    var c := |l.moved|;
    forall j | 0 <= j < |m.moved| ensures m.moved[j].data == d(m.moved[j].lba) {
      if j >= c {
        TakenSector(s, b, data, b', j - c);
        assert m.moved[j] == Transfers(s.area, b', s.cursor, n)[j - c];
      }
    }
  }

  lemma TakenSector(s: State, b: seq<U8>, data: seq<U8>, b': seq<U8>, k: nat)
    requires Shape(s) && s.active == ReadOp && |b| == IMAGE_BYTES
    requires Taken(s, b, data, b') && k < ChunkCount(s.area, s.cursor)
    ensures |b'| == IMAGE_BYTES && SECTOR * (s.cursor + k) + SECTOR <= |b'|
    ensures SECTOR * k + SECTOR <= |data| && SectorOf(b', s.cursor + k) == SectorOf(data, k)
  {
    hide Lba, Geometry;
    var n, lo := ChunkCount(s.area, s.cursor), SECTOR * s.cursor;
    var part := data[..SECTOR * n];
    assert b'[lo..lo + SECTOR * n] == part;
    assert SectorOf(b', s.cursor + k) == b'[lo..lo + SECTOR * n][SECTOR * k..SECTOR * k + SECTOR];
    assert SectorOf(data, k) == part[SECTOR * k..SECTOR * k + SECTOR];
  }

  lemma PerformedMeans(s: State, l: Ledger, d: Disk, performed: bool)
    requires Shape(s) && Performed(s, l, d, performed)
    ensures performed ==> s.handed == OverlayHanded && s.active == WriteOp
    ensures s.handed != NoneHanded && performed ==> Live(s).op == WriteOp
  {
  }

  lemma SettledMeans(s: State, l: Ledger, d: Disk, kept: seq<U8>, keptAt: nat, settled: bool)
    requires settled ==> Settled(s, l, d, kept, keptAt)
    ensures settled ==> !s.dirty && s.active != WriteOp && |kept| == IMAGE_BYTES
  {
  }

  lemma CoveredMeans(s: State, l: Ledger)
    requires Covered(s, l)
    ensures !s.dirty && s.active == WriteOp ==> l.changes == l.snapAt
  {
  }

  lemma NotPerformed(t: State, m: Ledger, d: Disk)
    requires Shape(t)
    ensures Performed(t, m, d, false)
  {
  }

  lemma StillSettled(s: State, l: Ledger, t: State, m: Ledger, d: Disk, kept: seq<U8>, keptAt: nat)
    requires Settled(s, l, d, kept, keptAt) && m.changes == l.changes && !t.dirty && t.active != WriteOp
    ensures Settled(t, m, d, kept, keptAt)
  {
  }

  lemma IdleKeeps(t: State, m: Ledger, d: Disk)
    requires Shape(t) && t.active == NoOp
    ensures Reported(t, m, d) && ReadBack(t, m, d)
  {
  }

  /** After a reported write chunk: the invariant goes on, or the disk is settled with the image. */
  lemma WriteReported(s: State, l: Ledger, b: seq<U8>, b': seq<U8>, t: State, m: Ledger, d: Disk)
    requires Shape(s) && Shape(t) && Progress(s, l, b) && s.active == WriteOp
    requires Reported(s, l, d) && Performed(s, l, d, true)
    requires |b| == IMAGE_BYTES && b' == b && t == Advanced(s, b').(stats := t.stats) && m == AdvancedLedger(s, l, b')
    ensures Reported(t, m, d) && ReadBack(t, m, d) && m.changes == l.changes && m.image == l.image
    ensures LastChunk(s, b') && !t.dirty && l.changes == l.snapAt ==> Settled(t, m, d, l.image, l.snapAt)
    ensures !LastChunk(s, b') ==> t.active == WriteOp
    ensures LastChunk(s, b') ==> t.active == NoOp
  {
    hide Geometry, Lba, Moved, SectorOf, ChunkOnDisk, Transfers;
    WritesImage(s, l, b);
    ImageArea(s, l, b);
    if NoWrap(s.area) { WriteAdvances(s, l, b, d); }
  }

  lemma ImageArea(s: State, l: Ledger, b: seq<U8>)
    requires Shape(s) && Progress(s, l, b) && s.active == WriteOp
    ensures |b| == IMAGE_BYTES && s.area == Geometry(b) && NextArea(s, b) == Geometry(b)
  {
    hide Geometry, Moved;
  }

  /** After a reported read chunk: the invariant goes on, and at the end all that was read is what the disk holds. */
  lemma ReadReported(s: State, l: Ledger, b: seq<U8>, data: seq<U8>, b': seq<U8>, t: State, m: Ledger, d: Disk)
    requires Shape(s) && Shape(t) && Progress(s, l, b) && s.active == ReadOp && ReadBack(s, l, d) && |b| == IMAGE_BYTES
    requires Taken(s, b, data, b') && Delivers(s, data, d) && |b'| == IMAGE_BYTES
    requires t == Advanced(s, b').(stats := t.stats) && m == AdvancedLedger(s, l, b')
    ensures Reported(t, m, d) && ReadBack(t, m, d) && m.changes == l.changes && t.dirty == s.dirty &&
      t.active != WriteOp
    ensures forall k :: 0 <= k < |m.moved| ==> m.moved[k].data == d(m.moved[k].lba)
  {
    hide Geometry, Lba, Moved, SectorOf, Transfers, Progress, Delivers, Taken;
    ReadAdvances(s, l, b, data, b', d);
  }

  /** What a finished load has read is the image that a settled disk holds. */
  lemma Rebuilt(m: Ledger, d: Disk, kept: seq<U8>, keptAt: nat, t: State, got: seq<U8>)
    requires Settled(t, m, d, kept, keptAt) && |got| == IMAGE_BYTES
    requires Moved(m.moved, Geometry(got), got, Geometry(got).total)
    requires forall k :: 0 <= k < |m.moved| ==> m.moved[k].data == d(m.moved[k].lba)
    ensures NoWrap(Geometry(kept)) ==>
      Geometry(got) == Geometry(kept) && got[..SECTOR * Geometry(got).total] == kept[..SECTOR * Geometry(got).total]
  {
    hide Geometry, Moved;
    if NoWrap(Geometry(kept)) { LoadRebuilds(d, kept, got, m.moved); }
  }

  /** Whether b is the image of some records is settled by its first bytes. */
  lemma SameImage(b: seq<U8>, c: seq<U8>, n: nat, recs: seq<Record>, ext: U32)
    requires AllSized(recs) && Snap.IsImage(b, recs, ext)
    requires OverlayOps.CapOf(ext) <= n && n <= |b| && n <= |c| && b[..n] == c[..n]
    ensures Snap.IsImage(c, recs, ext)
  {
    hide RecsBytes;
    assert forall k :: 0 <= k < n ==> b[k] == b[..n][k] == c[k];
    var lo, hi := OverlayOps.HdrOf(ext), OverlayOps.HdrOf(ext) + |RecsBytes(recs)|;
    assert b[lo..hi] == c[lo..hi];
  }

  /** A snapshot of the overlay that has been flushed, loaded into any buffer and handed to the overlay's own reader:
      it reads the records that were written, and the extension area they were written for. */
  lemma SnapshotComesBack(snap: seq<U8>, kept: seq<U8>, got: seq<U8>, recs: seq<Record>, ext: U32)
    requires |snap| <= IMAGE_BYTES && kept == Filled(snap) && |got| == IMAGE_BYTES
    requires AllSized(recs) && Snap.IsImage(snap, recs, ext) && (ext == 0 || ext >= OverlayOps.EXT_MIN_LBA)
    requires |recs| <= OverlayState.MAX_NODES && forall k :: 0 <= k < |recs| ==> recs[k].kind <= 2
    requires Geometry(got) == Geometry(kept)
    requires got[..SECTOR * Geometry(kept).total] == kept[..SECTOR * Geometry(kept).total]
    ensures SECTOR * Geometry(kept).total == OverlayOps.CapOf(ext) && Snap.ImageExt(got) == ext
    ensures Snap.IsImage(got, recs, ext)
    ensures Snap.Accepted(got, IMAGE_BYTES) ==
      if Readable(recs, 0, OverlayOps.LimitOf(ext)) then Some(recs) else None
  {
    hide Geometry, Snap.Accepted, Readable, Snap.ImageExt, Snap.IsImage;
    var n := OverlayOps.CapOf(ext);
    ImageHeader(snap, recs, ext);
    assert kept[..|snap|] == snap[..|snap|];
    SameImage(snap, kept, |snap|, recs, ext);
    ImageHeader(kept, recs, ext);
    GeometryAgrees(kept);
    GeometryAgrees(got);
    assert got[..n] == kept[..n];
    SameImage(kept, got, n, recs, ext);
    Snap.ImageAccepted(got, IMAGE_BYTES, recs, ext);
  }

  lemma ImageHeader(b: seq<U8>, recs: seq<Record>, ext: U32)
    requires AllSized(recs) && Snap.IsImage(b, recs, ext) && (ext == 0 || ext >= OverlayOps.EXT_MIN_LBA)
    ensures OverlayOps.CapOf(ext) <= |b| && Snap.ImageExt(b) == ext
  {
    hide GetU32, RecsBytes;
  }

  class System {
    const q: Queue
    ghost var disk: Disk
    ghost var performed: bool  // the driver has written the chunk it holds
    ghost var owed: bool       // a dead driver left a flush to the kernel
    ghost var settled: bool    // the last change is on disk
    ghost var kept: seq<U8>    // the image last flushed
    ghost var keptAt: nat      // changes that it has

    ghost predicate Valid()
      reads this, q, q.buf
    {
      && q.Valid() && Reported(q.s, q.l, disk) && Performed(q.s, q.l, disk, performed) && ReadBack(q.s, q.l, disk)
      && (settled ==> Settled(q.s, q.l, disk, kept, keptAt))
      && (q.l.changes > 0 && !q.s.dirty && q.s.active != WriteOp && !owed ==> settled)
    }

    constructor (ghost d: Disk)
      ensures Valid() && fresh(q) && fresh(q.buf) && fresh(q.ioBuf) && disk == d && !settled && !owed
    {
      q := new Queue();
      disk, performed, owed, settled, kept, keptAt := d, false, false, false, [], 0;
    }

    /** The kernel changes the overlay and asks for a flush. */
    method Change()
      requires Valid()
      modifies this, q
      ensures Valid() && !settled && q.l.changes == old(q.l.changes) + 1
    {
      q.RequestFlush();
      settled := false;
    }

    method RequestLoad()
      requires Valid()
      modifies q
      ensures Valid() && settled == old(settled) &&
        q.s == old(q.s).(loadPending := old(q.s).loadPending || !old(q.s).dirty)
    {
      q.RequestLoad();
    }

    /** The driver asks for a job. */
    method Fetch(data: array?<U8>, capacity: nat, snap: seq<U8>, snapOk: bool) returns (rc: int, job: Job)
      requires Valid() && data != q.buf && data != q.ioBuf
      requires (data != null ==> capacity <= data.Length) && |snap| <= IMAGE_BYTES
      modifies this, q, q.buf, if data != null then {data} else {}
      ensures Valid() && settled == old(settled) && disk == old(disk) && q.l.changes == old(q.l.changes)
      ensures rc == 1 ==> q.s.handed != NoneHanded && job == Live(q.s)
    {
      hide Progress, AllSpent, Covered, Geometry, Lba, Moved, Filled, Reported, ReadBack, Settled, Started,
           ChunkOnDisk;
      ghost var was, led := q.s, q.l;
      rc, job := q.Fetch(data, capacity, snap, snapOk);
      if !IoFirst(was) && Startable(was) && (was.dirty ==> snapOk) { StartedKeeps(was, led, Filled(snap)); }
      else { SlotKeeps(was, led); }
    }

    /** A job that has just been started. */
    lemma StartedKeeps(was: State, led: Ledger, b: seq<U8>)
      requires q.Valid() && Shape(was) && Startable(was) && |b| == IMAGE_BYTES && !performed
      requires settled ==> Settled(was, led, disk, kept, keptAt)
      requires led.changes > 0 && !was.dirty && was.active != WriteOp && !owed ==> settled
      requires q.l == StartedLedger(was, led, b) && q.s == Started(was, b).(handed := q.s.handed)
      ensures Valid()
    {
      hide Progress, AllSpent, Covered, Geometry, Lba, Moved;
      StartedReports(was, led, disk, b, q.s);
    }

    /** The driver writes the chunk it holds. */
    ghost method Write(d: Disk)
      requires Valid() && q.s.handed == OverlayHanded && q.s.active == WriteOp && |q.l.image| == IMAGE_BYTES
      requires ChunkOnDisk(q.s, q.l.image, d) && forall x :: !InChunk(q.s, x) ==> d(x) == disk(x)
      modifies this
      ensures Valid() && disk == d && performed && settled == old(settled)
    {
      ChunkKeepsReported(q.s, q.l, disk, d);
      disk, performed := d, true;
    }

    /** The driver leaves its chunk half written. */
    ghost method Scribble(d: Disk)
      requires Valid() && q.s.handed == OverlayHanded && q.s.active == WriteOp && forall x :: !InChunk(q.s, x) ==>
        d(x) == disk(x)
      modifies this
      ensures Valid() && disk == d && !performed
    {
      ChunkKeepsReported(q.s, q.l, disk, d);
      disk, performed := d, false;
    }

    /** Anyone else writes: sector jobs, clients, the kernel's own transfers, off the image's sectors. */
    ghost method Elsewhere(d: Disk)
      requires Valid() && AgreeOn(disk, d, q.s.area) && (|kept| == IMAGE_BYTES ==> AgreeOn(disk, d, Geometry(kept)))
      modifies this
      ensures Valid() && disk == d && settled == old(settled)
    {
      hide Geometry, Lba;
      ElsewhereKeeps(q.s, q.l, disk, d, q.buf[..], performed);
      if settled { SettledElsewhere(q.s, q.l, disk, d, kept, keptAt); }
      disk := d;
    }

    // -------------------------------------------------------------- reports

    /** What held of the queue before a report. */
    ghost predicate Before(was: State, led: Ledger, b: seq<U8>)
      reads this
    {
      && Shape(was) && Progress(was, led, b) && Covered(was, led) && Reported(was, led, disk) &&
        Performed(was, led, disk, performed)
      && ReadBack(was, led, disk) && (settled ==> Settled(was, led, disk, kept, keptAt))
      && (led.changes > 0 && !was.dirty && was.active != WriteOp && !owed ==> settled)
    }

    /** Books after a failed chunk. */
    ghost method AfterFailure(was: State, led: Ledger, b: seq<U8>)
      requires q.Valid() && Before(was, led, b) && was.active != NoOp
      requires q.l == led.(retired := q.l.retired) && q.s == Failed(was)
      modifies this
      ensures Valid() && disk == old(disk) && kept == old(kept) && settled == (old(settled) && !q.s.dirty)
    {
      hide Progress, AllSpent, Covered, Settled, Reported, ReadBack, Performed, Geometry, Lba, Moved;
      performed := false;
      NotPerformed(q.s, q.l, disk);
      IdleKeeps(q.s, q.l, disk);
      SettledMeans(was, led, disk, kept, keptAt, settled);
      settled := settled && !q.s.dirty;
      if settled { StillSettled(was, led, q.s, q.l, disk, kept, keptAt); }
    }

    /** Books after a write chunk that went well. */
    ghost method AfterWrite(was: State, led: Ledger, b: seq<U8>)
      requires q.Valid() && Before(was, led, b) && was.active == WriteOp && performed && q.buf[..] == b &&
        |b| == IMAGE_BYTES
      requires q.s == Advanced(was, b).(stats := q.s.stats) && q.l == AdvancedLedger(was, led, b)
      modifies this
      ensures Valid() && disk == old(disk)
      ensures LastChunk(was, b) ==> kept == led.image && keptAt == led.snapAt && (settled <==> !was.dirty)
      ensures !LastChunk(was, b) ==> kept == old(kept) && settled == old(settled) && !settled
    {
      hide Progress, AllSpent, Covered, Settled, Reported, ReadBack, Performed, Geometry, Lba, Moved, AdvancedLedger,
           LastChunk, NextArea;
      SettledMeans(was, led, disk, kept, keptAt, settled);
      CoveredMeans(was, led);
      WriteReported(was, led, b, b, q.s, q.l, disk);
      performed := false;
      NotPerformed(q.s, q.l, disk);
      if LastChunk(was, b) {
        kept, keptAt, owed := led.image, led.snapAt, false;
        settled := !q.s.dirty;
      }
    }

    /** Books after a read chunk that went well. */
    ghost method AfterRead(was: State, led: Ledger, b: seq<U8>, data: seq<U8>)
      requires q.Valid() && Before(was, led, b) && was.active == ReadOp && !performed && |b| == IMAGE_BYTES
      requires Taken(was, b, data, q.buf[..]) && Delivers(was, data, disk)
      requires q.s == Advanced(was, q.buf[..]).(stats := q.s.stats) && q.l == AdvancedLedger(was, led, q.buf[..])
      ensures Valid() && q.s.dirty == was.dirty && q.l.changes == led.changes
      ensures forall k :: 0 <= k < |q.l.moved| ==> q.l.moved[k].data == disk(q.l.moved[k].lba)
    {
      hide Progress, AllSpent, Covered, Settled, Reported, ReadBack, Performed, Geometry, Lba, Moved, AdvancedLedger,
           LastChunk, NextArea, Taken, Delivers;
      SettledMeans(was, led, disk, kept, keptAt, settled);
      ReadReported(was, led, b, data, q.buf[..], q.s, q.l, disk);
      NotPerformed(q.s, q.l, disk);
      if settled { StillSettled(was, led, q.s, q.l, disk, kept, keptAt); }
    }

    /** The driver reports the job it holds; a load whose flush came before hands exactly that flush's image to restore.
        */
    method Report(job: Job, status: int, data: array?<U8>, capacity: nat, restoreOk: bool)
      returns (rc: int, restored: bool)
      requires Valid() && data != q.buf && data != q.ioBuf && (data != null ==> capacity <= data.Length)
      requires status == 0 && q.s.handed == OverlayHanded && q.s.active == WriteOp ==> performed
      requires (status == 0 && q.s.handed == OverlayHanded && q.s.active == ReadOp && data != null &&
                capacity >= SECTOR * Live(q.s).count) ==>
        Delivers(q.s, data[..], disk)
      modifies this, q, q.buf, q.ioBuf
      ensures Valid() && disk == old(disk)
      ensures rc == FLUSH_DONE ==> kept == old(q.l.image) && keptAt == old(q.l.snapAt) && (settled <==> !old(q.s.dirty))
      ensures rc != FLUSH_DONE ==> kept == old(kept) && settled == (old(settled) && !q.s.dirty)
      ensures rc == LOAD_DONE && q.l.changes > 0 && !owed ==>
        settled && (NoWrap(Geometry(kept)) ==>
          Geometry(q.buf[..]) == Geometry(kept) &&
            q.buf[..SECTOR * Geometry(kept).total] == kept[..SECTOR * Geometry(kept).total])
    {
      hide Progress, AllSpent, Covered, Geometry, Lba, Moved, Settled, Reported, ReadBack, Performed, Delivers,
           AdvancedLedger, LastChunk, NextArea, Advanced;
      ghost var was, led, b := q.s, q.l, q.buf[..];
      PerformedMeans(was, led, disk, performed);
      rc, restored := q.Settle(job, status, data, capacity, restoreOk);
      if rc == STALE || was.handed == IoHanded {
        SlotKeeps(was, led);
      } else if status != 0 {
        AfterFailure(was, led, b);
      } else if was.active == WriteOp {
        AfterWrite(was, led, b);
      } else {
        AfterRead(was, led, b, if data == null then [] else data[..]);
        if rc == LOAD_DONE && settled { Rebuilt(q.l, disk, kept, keptAt, q.s, q.buf[..]); }
      }
      SettledMeans(q.s, q.l, disk, kept, keptAt, settled);
    }

    // -------------------------------------------------------------- the rest

    /** The driver dies: either the last change is on disk or the kernel is told to flush it. */
    method DriverDies() returns (needFlush: bool)
      requires Valid()
      modifies this, q
      ensures Valid() && disk == old(disk) && owed == (old(owed) || needFlush) && settled == old(settled)
      ensures !needFlush && !owed && q.l.changes > 0 ==> settled
    {
      hide Progress, AllSpent, Covered, Settled, Reported, ReadBack, Performed, Geometry, Lba, Moved;
      ghost var was, led := q.s, q.l;
      SettledMeans(was, led, disk, kept, keptAt, settled);
      needFlush := q.DriverGone();
      owed := owed || needFlush;
      performed := false;
      NotPerformed(q.s, q.l, disk);
      IdleKeeps(q.s, q.l, disk);
      if settled { StillSettled(was, led, q.s, q.l, disk, kept, keptAt); }
    }

    method Submit(drive: nat, lba: nat, count: nat, write: bool, data: array?<U8>) returns (rc: int)
      requires Valid() && data != q.ioBuf && data != q.buf
      requires (write && data != null && count <= JOB_MAX ==> SECTOR * count <= data.Length)
      modifies q, q.ioBuf
      ensures Valid()
    {
      hide Progress, AllSpent, Covered, Settled, Reported, ReadBack, Performed, Geometry, Lba, Moved;
      ghost var was, led := q.s, q.l;
      rc := q.IoSubmit(drive, lba, count, write, data);
      SlotKeeps(was, led);
    }

    method CancelIo()
      requires Valid()
      modifies q
      ensures Valid() && q.s.ioState == IoNone && q.s.handed != IoHanded
    {
      hide Progress, AllSpent, Covered, Settled, Reported, ReadBack, Performed, Geometry, Lba, Moved;
      ghost var was, led := q.s, q.l;
      PerformedMeans(was, led, disk, performed);
      q.IoCancel();
      SlotKeeps(was, led);
    }

    /** A change of the sector-job slot only. */
    lemma SlotKeeps(was: State, led: Ledger)
      requires q.Valid() && Shape(was) && Reported(was, led, disk)
      requires Performed(was, led, disk, performed) && ReadBack(was, led, disk)
      requires settled ==> Settled(was, led, disk, kept, keptAt)
      requires led.changes > 0 && !was.dirty && was.active != WriteOp && !owed ==> settled
      requires q.l == led.(retired := q.l.retired) && q.s.active == was.active
      requires q.s.area == was.area && q.s.cursor == was.cursor && q.s.dirty == was.dirty
      requires performed ==> q.s.handed == was.handed && q.s.ovGeneration == was.ovGeneration
      ensures Valid()
    {
      hide Progress, AllSpent, Covered, Geometry, Lba, Moved;
    }

    /** When nothing is pending and the kernel owes no flush, the disk holds an image taken after the last change. */
    method Quiet() returns (quiet: bool)
      requires Valid()
      ensures quiet && q.l.changes > 0 && !owed ==> settled && keptAt == q.l.changes && |kept| == IMAGE_BYTES
      ensures quiet && q.l.changes > 0 && !owed && NoWrap(Geometry(kept)) ==>
        OnDisk(disk, Geometry(kept), kept, Geometry(kept).total)
    {
      hide Progress, AllSpent, Covered, Reported, ReadBack, Performed, Geometry, Lba, Moved;
      var pending := q.Pending();
      quiet := !pending;
    }
  }
}
