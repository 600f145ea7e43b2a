/** The queue of disk jobs between the kernel and the user-space ATA driver (kernel/ata_job.c): coalesced flushes and
    loads of the overlay image in chunks, and one sector job at a time that slips in between chunks. Generations and
    counters are unbounded here: no wrap-around. */
module AtaJob {
  import opened Words
  import opened OverlayImage
  import OverlayOps
  import Snap = OverlaySnapshot

  const SECTOR: nat := 512
  const OVERLAY_SECTORS: nat := 64
  const EXT_SECTORS: nat := 128
  const MAX_SECTORS: nat := 192
  const JOB_MAX: nat := 8
  const IMAGE_BYTES: nat := 98304

  const CHUNK_OK := 0
  const FLUSH_DONE := 1
  const LOAD_DONE := 2
  const LOAD_SKIPPED := 3
  const FAILED := 4
  const IO_DONE := 5
  const STALE := -86

  const FLAG_CRASH: nat := 1

  datatype Op = NoOp | WriteOp | ReadOp | IoRead | IoWrite
  datatype Hand = NoneHanded | OverlayHanded | IoHanded
  datatype IoState = IoNone | IoPending | IoWithDriver | IoFinished | IoFailed
  datatype Job = Job(op: Op, drive: nat, lba: nat, count: nat, generation: nat, flags: nat)
  datatype Stats = Stats(flushDone: nat, loadDone: nat, loadSkipped: nat, failures: nat, fatRead: nat, fatWritten: nat,
                         aborts: nat)

  // ---------------------------------------------------------------- geometry

  /** How many sectors the image has and where its extension starts. */
  datatype Area = Area(total: nat, ext: U32)

  const BASE_AREA: Area := Area(OVERLAY_SECTORS, 0)

  /** `job_geometry`: read from the image header. */
  function Geometry(b: seq<U8>): (a: Area)
    requires |b| >= 24
    ensures a == BASE_AREA || (a.total == MAX_SECTORS && a.ext >= 4225)
  {
    if GetU32(b, 0) == Snap.SNAP_MAGIC && GetU32(b, 4) == 4 && GetU32(b, 16) >= 4225 && GetU32(b, 20) == EXT_SECTORS
    then Area(MAX_SECTORS, GetU32(b, 16)) else BASE_AREA
  }

  /** `job_lba`: 32-bit, so an extension near the top of the range wraps. */
  function Lba(a: Area, k: nat): (r: nat)
    ensures r < BASE
  {
    if k < OVERLAY_SECTORS then k else (a.ext + k - OVERLAY_SECTORS) % BASE
  }

  /** `chunk_count`. */
  function ChunkCount(a: Area, cursor: nat): (r: nat)
    requires cursor < a.total && OVERLAY_SECTORS <= a.total
    ensures 1 <= r <= JOB_MAX && cursor + r <= a.total && (cursor < OVERLAY_SECTORS ==> cursor + r <= OVERLAY_SECTORS)
  {
    Min((if cursor < OVERLAY_SECTORS then OVERLAY_SECTORS else a.total) - cursor, JOB_MAX)
  }

  predicate NoWrap(a: Area) { a.ext + EXT_SECTORS <= BASE }

  /** The header that the queue reads names the same extension as the overlay's own reader. */
  lemma GeometryAgrees(b: seq<U8>)
    requires |b| >= 24
    ensures Geometry(b).ext == Snap.ImageExt(b) && (Geometry(b).total == MAX_SECTORS <==> Snap.ImageExt(b) != 0)
    ensures SECTOR * Geometry(b).total == OverlayOps.CapOf(Snap.ImageExt(b))
  {
    hide GetU32;
  }

  /** The sectors of a chunk are consecutive on disk, so a chunk never crosses from one area into the other. */
  lemma ChunkContiguous(a: Area, cursor: nat, i: nat)
    requires cursor < a.total && OVERLAY_SECTORS <= a.total <= MAX_SECTORS && i < ChunkCount(a, cursor)
    ensures Lba(a, cursor + i) == (Lba(a, cursor) + i) % BASE
    ensures cursor < OVERLAY_SECTORS <==> cursor + i < OVERLAY_SECTORS
  {
    if cursor >= OVERLAY_SECTORS { WrapSum(a.ext + cursor - OVERLAY_SECTORS, i); }
  }

  lemma WrapSum(x: nat, i: nat)
    requires i < BASE
    ensures (x + i) % BASE == (x % BASE + i) % BASE
  {
  }

  /** Image sectors have distinct places on disk exactly when the extension does not wrap round. */
  lemma DistinctPlaces(a: Area)
    requires a.total == MAX_SECTORS && a.ext >= 4225
    ensures NoWrap(a) <==> forall j, k :: 0 <= j < k < MAX_SECTORS ==> Lba(a, j) != Lba(a, k)
  {
    if !NoWrap(a) {
      var k: nat := OVERLAY_SECTORS + BASE - a.ext;
      assert Lba(a, 0) == 0 && Lba(a, k) == 0;
    }
  }

  // ---------------------------------------------------------------- sectors moved

  function SectorOf(b: seq<U8>, k: nat): seq<U8>
    requires SECTOR * k + SECTOR <= |b|
  {
    b[SECTOR * k..SECTOR * k + SECTOR]
  }

  /** One sector moved between buffer and disk. */
  datatype Xfer = Xfer(lba: nat, data: seq<U8>)

  /** The first n sectors of b, each with its place on disk, in order. */
  ghost predicate Moved(xs: seq<Xfer>, a: Area, b: seq<U8>, n: nat)
  {
    && |xs| == n && SECTOR * n <= |b|
    && forall k :: 0 <= k < n ==> xs[k] == Xfer(Lba(a, k), SectorOf(b, k))
  }

  ghost function Transfers(a: Area, b: seq<U8>, lo: nat, n: nat): (xs: seq<Xfer>)
    requires SECTOR * (lo + n) <= |b|
    ensures |xs| == n && forall k :: 0 <= k < n ==> xs[k] == Xfer(Lba(a, lo + k), SectorOf(b, lo + k))
  {
    seq(n, k requires 0 <= k < n => Xfer(Lba(a, lo + k), SectorOf(b, lo + k)))
  }

  lemma MovedChunk(xs: seq<Xfer>, a: Area, b: seq<U8>, b': seq<U8>, c: nat, n: nat)
    requires Moved(xs, a, b, c) && |b| == |b'| && SECTOR * (c + n) <= |b|
    requires b'[..SECTOR * c] == b[..SECTOR * c]
    ensures Moved(xs + Transfers(a, b', c, n), a, b', c + n)
  {
    hide Lba, SectorOf;
    forall k | 0 <= k < c ensures SectorOf(b', k) == SectorOf(b, k) { SameSector(b, b', SECTOR * c, k); }
  }

  lemma SameSector(b: seq<U8>, b': seq<U8>, n: nat, k: nat)
    requires |b| == |b'| && n <= |b| && b'[..n] == b[..n] && SECTOR * k + SECTOR <= n
    ensures SectorOf(b', k) == SectorOf(b, k)
  {
    assert SectorOf(b', k) == b'[..n][SECTOR * k..SECTOR * k + SECTOR];
    assert SectorOf(b, k) == b[..n][SECTOR * k..SECTOR * k + SECTOR];
  }

  // ---------------------------------------------------------------- the disk

  /** A write to one sector; `mine` if it belongs to the flush in question. */
  datatype DiskWrite = DiskWrite(lba: nat, data: seq<U8>, mine: bool)

  type Disk = nat -> seq<U8>

  ghost function Replay(d: Disk, ws: seq<DiskWrite>): Disk
  {
    if ws == [] then d
    else
      var w := ws[|ws| - 1];
      var before := Replay(d, ws[..|ws| - 1]);
      x => if x == w.lba then w.data else before(x)
  }

  /** The writes of the flush itself, in order. */
  ghost function Mine(ws: seq<DiskWrite>): seq<Xfer>
  {
    if ws == [] then []
    else Mine(ws[..|ws| - 1]) + if ws[|ws| - 1].mine then [Xfer(ws[|ws| - 1].lba, ws[|ws| - 1].data)] else []
  }

  /** Other writes keep off the image's sectors. */
  ghost predicate KeepsOff(ws: seq<DiskWrite>, a: Area, n: nat)
  {
    forall i, k :: 0 <= i < |ws| && !ws[i].mine && 0 <= k < n ==> ws[i].lba != Lba(a, k)
  }

  ghost predicate OnDisk(d: Disk, a: Area, b: seq<U8>, n: nat)
    requires SECTOR * n <= |b|
  {
    forall k :: 0 <= k < n ==> d(Lba(a, k)) == SectorOf(b, k)
  }

  /** However the transfers of a flush interleave with other writes that keep off its sectors, the disk holds the image.
      */
  lemma {:induction false} FlushDurable(d: Disk, ws: seq<DiskWrite>, a: Area, b: seq<U8>, n: nat)
    requires |b| >= 24 && a == Geometry(b) && NoWrap(a) && n <= a.total && SECTOR * n <= |b|
    requires Moved(Mine(ws), a, b, n) && KeepsOff(ws, a, a.total)
    ensures OnDisk(Replay(d, ws), a, b, n)
    decreases |ws|
  {
    hide Geometry, Lba, Mine, KeepsOff, Moved, Replay, SectorOf;
    if ws == [] {
      NothingMoved(a, b, n);
    } else {
      var rest, w := ws[..|ws| - 1], ws[|ws| - 1];
      LastWrite(d, ws, a, a.total);
      if w.mine {
        MovedLast(Mine(rest), Xfer(w.lba, w.data), a, b, n);
        FlushDurable(d, rest, a, b, n - 1);
        forall k | 0 <= k < n - 1 ensures Lba(a, k) != Lba(a, n - 1) { AreaPlaces(a, b, k, n - 1); }
      } else {
        FlushDurable(d, rest, a, b, n);
      }
    }
  }

  /** What the last write adds. */
  lemma LastWrite(d: Disk, ws: seq<DiskWrite>, a: Area, n: nat)
    requires ws != [] && KeepsOff(ws, a, n)
    ensures var rest, w := ws[..|ws| - 1], ws[|ws| - 1];
      && KeepsOff(rest, a, n) && (!w.mine ==> forall k :: 0 <= k < n ==> w.lba != Lba(a, k))
      && (w.mine ==> Mine(ws) == Mine(rest) + [Xfer(w.lba, w.data)]) && (!w.mine ==> Mine(ws) == Mine(rest))
      && forall x: nat :: Replay(d, ws)(x) == if x == w.lba then w.data else Replay(d, rest)(x)
  {
    hide Lba;
  }

  lemma NothingMoved(a: Area, b: seq<U8>, n: nat)
    requires SECTOR * n <= |b| && Moved(Mine([]), a, b, n)
    ensures n == 0
  {
    hide Lba, SectorOf;
  }

  lemma MovedLast(xs: seq<Xfer>, x: Xfer, a: Area, b: seq<U8>, n: nat)
    requires SECTOR * n <= |b| && Moved(xs + [x], a, b, n)
    ensures n > 0 && SECTOR * (n - 1) <= |b| && Moved(xs, a, b, n - 1) && x == Xfer(Lba(a, n - 1), SectorOf(b, n - 1))
  {
    hide Lba, SectorOf;
    assert (xs + [x])[n - 1] == x;
    assert forall k :: 0 <= k < |xs| ==> (xs + [x])[k] == xs[k];
  }

  lemma AreaPlaces(a: Area, b: seq<U8>, j: nat, k: nat)
    requires |b| >= 24 && a == Geometry(b) && NoWrap(a) && j < k < a.total
    ensures Lba(a, j) != Lba(a, k)
  {
    hide GetU32, Lba;
    PlacesDiffer(a, j, k);
  }

  lemma PlacesDiffer(a: Area, j: nat, k: nat)
    requires NoWrap(a) && j < k < a.total && (a == BASE_AREA || (a.total == MAX_SECTORS && a.ext >= 4225))
    ensures Lba(a, j) != Lba(a, k)
  {
  }

  /** An extension that wraps cannot be held by any disk unless the sector that lands on LBA 0 repeats the header
      sector. */
  lemma WrapCannotHold(d: Disk, b: seq<U8>)
    requires |b| == IMAGE_BYTES && Geometry(b).total == MAX_SECTORS && !NoWrap(Geometry(b))
    ensures OnDisk(d, Geometry(b), b, MAX_SECTORS) ==>
              SectorOf(b, OVERLAY_SECTORS + BASE - Geometry(b).ext) == SectorOf(b, 0)
  {
    hide GetU32;
    var a := Geometry(b);
    var k: nat := OVERLAY_SECTORS + BASE - a.ext;
    assert Lba(a, k) == 0 && Lba(a, 0) == 0;
  }

  /** A full load from a disk that holds an image rebuilds the image and finds the same geometry. */
  lemma LoadRebuilds(d: Disk, image: seq<U8>, got: seq<U8>, moved: seq<Xfer>)
    requires |image| == |got| == IMAGE_BYTES
    requires OnDisk(d, Geometry(image), image, Geometry(image).total)
    requires Moved(moved, Geometry(got), got, Geometry(got).total)
    requires forall k :: 0 <= k < |moved| ==> moved[k].data == d(moved[k].lba)
    ensures Geometry(got) == Geometry(image)
    ensures got[..SECTOR * Geometry(got).total] == image[..SECTOR * Geometry(got).total]
  {
    hide GetU32, SectorOf;
    var a := Geometry(got);
    forall k | 0 <= k < OVERLAY_SECTORS ensures SectorOf(got, k) == SectorOf(image, k) {
      assert moved[k].lba == k && Lba(Geometry(image), k) == k;
    }
    SameHeader(got, image);
    forall k | 0 <= k < a.total ensures SectorOf(got, k) == SectorOf(image, k) {
      assert moved[k].lba == Lba(a, k);
    }
    SameSectors(got, image, a.total);
  }

  lemma SameHeader(b: seq<U8>, c: seq<U8>)
    requires |b| == |c| == IMAGE_BYTES && SectorOf(b, 0) == SectorOf(c, 0)
    ensures Geometry(b) == Geometry(c)
  {
    forall i | 0 <= i < 24 ensures b[i] == c[i] {
      assert b[i] == SectorOf(b, 0)[i] && c[i] == SectorOf(c, 0)[i];
    }
  }

  lemma {:induction false} SameSectors(b: seq<U8>, c: seq<U8>, n: nat)
    requires |b| == |c| && SECTOR * n <= |b| && forall k :: 0 <= k < n ==> SectorOf(b, k) == SectorOf(c, k)
    ensures b[..SECTOR * n] == c[..SECTOR * n]
  {
    if n > 0 {
      SameSectors(b, c, n - 1);
      assert SectorOf(b, n - 1) == SectorOf(c, n - 1);
      assert b[..SECTOR * n] == b[..SECTOR * (n - 1)] + SectorOf(b, n - 1);
      assert c[..SECTOR * n] == c[..SECTOR * (n - 1)] + SectorOf(c, n - 1);
    }
  }

  /** Flush, other traffic, load: the load rebuilds the flushed image and its geometry. */
  lemma FlushThenLoad(d: Disk, ws: seq<DiskWrite>, image: seq<U8>, got: seq<U8>, read: seq<Xfer>)
    requires |image| == |got| == IMAGE_BYTES && NoWrap(Geometry(image))
    requires Moved(Mine(ws), Geometry(image), image, Geometry(image).total)
    requires KeepsOff(ws, Geometry(image), Geometry(image).total)
    requires Moved(read, Geometry(got), got, Geometry(got).total)
    requires forall k :: 0 <= k < |read| ==> read[k].data == Replay(d, ws)(read[k].lba)
    ensures Geometry(got) == Geometry(image)
    ensures got[..SECTOR * Geometry(got).total] == image[..SECTOR * Geometry(got).total]
  {
    hide Geometry, KeepsOff, Moved, Mine;
    GeometryFits(image);
    FlushDurable(d, ws, Geometry(image), image, Geometry(image).total);
    LoadRebuilds(Replay(d, ws), image, got, read);
  }

  lemma GeometryFits(b: seq<U8>)
    requires |b| == IMAGE_BYTES
    ensures SECTOR * Geometry(b).total <= |b|
  {
    hide GetU32;
  }
}
