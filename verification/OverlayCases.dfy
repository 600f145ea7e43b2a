/** Runs that show where fs/overlay.c falls short of a map from paths to entries. Every call in them is accepted. */
module OverlayCases {
  import opened Words
  import opened OverlayPaths
  import opened OverlayState
  import opened OverlayOps
  import opened OverlayTree
  import opened OverlayCopy
  import Snap = OverlaySnapshot

  const EMPTY_DISK := Initrd(map[])

  // "."  "./a"  "././a"  "a"  "b"  "b/a"
  const DOT_DIR: Path := [46]
  const DOT_A: Path := [46, 47, 97]
  const DOT_DOT_A: Path := [46, 47, 46, 47, 97]
  const NAME_A: Path := [97]
  const NAME_B: Path := [98]
  const B_A: Path := [98, 47, 97]

  lemma DotNames()
    ensures Normalize(DOT_DIR) == DOT_DIR && Normalize(DOT_DOT_A) == DOT_A && Normalize(DOT_A) == NAME_A
    ensures Normalize(NAME_A) == NAME_A && Normalize(NAME_B) == NAME_B
    ensures Parent(DOT_DIR) == [] && Parent(DOT_A) == DOT_DIR && Parent(NAME_A) == [] && Parent(NAME_B) == []
    ensures DotSlash(DOT_A) && !DotSlash(DOT_DIR) && !DotSlash(NAME_A) && !DotSlash(NAME_B)
  {
    assert DOT_DOT_A[2..] == DOT_A && DOT_A[2..] == NAME_A;
    assert StripLeading(DOT_A) == DOT_A && StripLeading(NAME_A) == NAME_A;
    LastSlashSpec(DOT_A);
    LastSlashSpec(DOT_DIR);
    LastSlashSpec(NAME_A);
    LastSlashSpec(NAME_B);
    assert DOT_A[1] == SLASH && DOT_A[..1] == DOT_DIR;
  }

  lemma NothingOnDisk(p: Path)
    ensures !EMPTY_DISK.IsFile(p) && (EMPTY_DISK.IsDir(p) <==> Normalize(p) == [])
  {
  }

  lemma NothingUnique(items: Items)
    requires items == map[]
    ensures Unique(items)
  {
  }

  /** Small files fit in a small store. */
  lemma SmallFits(o: Overlay, want: Path, n: nat)
    requires o.extLba == 0 && |want| < PATH_MAX && n <= 1000 && Normalize(want) !in o.Store()
    requires Sum(o.pool[..], HeadBytes) <= 10000 && Sum(o.pool[..], FreeBit) >= 10
    ensures Fits(o, want, n) && FoundBytes(o.lay, want) == 0 && FoundNodes(o.lay, want) == 0
    ensures FileBytes(|want|, n) == Blocks(n) * REC_HDR + |want| + n && Blocks(n) <= 3
  {
    hide Sum, StoreOf, Normalize;
    PathsOf(o.lay.items, Normalize(want));
  }

  lemma FirstWrite(o: Overlay, d: seq<U8>)
    requires o.ird == EMPTY_DISK && o.extLba == 0 && |d| <= 1000 && DOT_DIR in o.Store() && o.Store()[DOT_DIR].Dir?
    requires NAME_A !in o.Store() && Sum(o.pool[..], HeadBytes) <= 10000 && Sum(o.pool[..], FreeBit) >= 10
    ensures Fits(o, DOT_A, |d|) && ParentDir(o.Store(), o.ird, DOT_A) && !o.ird.IsDir(DOT_A)
    ensures FoundBytes(o.lay, DOT_A) == 0 && FoundNodes(o.lay, DOT_A) == 0 && FileBytes(|DOT_A|, |d|) <= 1027 &&
      Blocks(|d|) <= 3
  {
    hide Sum, StoreOf, Normalize, Parent, Fits;
    DotNames();
    NothingOnDisk(DOT_A);
    SmallFits(o, DOT_A, |d|);
  }

  lemma OneMore(items: Items, h: nat, k: nat, d: seq<U8>)
    requires items == map[h := Item(DOT_DIR, DirBody)] && k !in items - Gone(items, DOT_A)
    ensures h != k && StoredItems(items, DOT_A, d, k) ==
      map[h := Item(DOT_DIR, DirBody), k := Item(DOT_A, FileBody(Cut(d)))]
  {
    hide Normalize, Cut;
    DotNames();
    assert Gone(items, DOT_A) == {};
    assert items - {} == items;
  }

  /** An overlay with the directory "." and a file that was written to "././a" and is stored as "./a". */
  method DotFile(d: seq<U8>) returns (o: Overlay, ghost h: nat, ghost k: nat)
    requires |d| <= 1000
    ensures fresh(o) && fresh(o.pool) && fresh(o.tmp) && o.Sound() && o.ird == EMPTY_DISK && o.extLba == 0
    ensures h != k && o.lay.items == map[h := Item(DOT_DIR, DirBody), k := Item(DOT_A, FileBody(Cut(d)))] &&
      Unique(o.lay.items)
    ensures o.Store() == map[DOT_DIR := Dir, DOT_A := File(d)]
    ensures Sum(o.pool[..], HeadBytes) <= 1040 && Sum(o.pool[..], FreeBit) >= 250
  {
    hide Sum, Rep, GoodItems, Proper, StoreOf, Unique, Normalize, Parent, Cut, StoredItems;
    o := new Overlay(EMPTY_DISK);
    DotNames();
    NothingOnDisk(DOT_DIR);
    NothingOnDisk(DOT_A);
    NothingUnique(o.lay.items);
    var rc;
    rc, h := Mkdir(o, DOT_DIR);
    assert o.Store() == map[DOT_DIR := Dir];
    FirstWrite(o, d);
    ghost var items := o.lay.items;
    rc, k := Write(o, DOT_DOT_A, d);
    OneMore(items, h, k, d);
  }

  /** Writing "././a" twice: the second write does not find the first, and two items have the path "./a". */
  method WriteTwice(d: seq<U8>, e: seq<U8>) returns (o: Overlay, rc: int)
    requires |d| <= 1000 && |e| <= 1000
    ensures fresh(o) && o.Sound() && rc == |e| && !Unique(o.lay.items)
  {
    hide Sum, Rep, GoodItems, Proper, StoreOf, Unique, Normalize, Cut, StoredItems;
    ghost var h, k, at;
    o, h, k := DotFile(d);
    DotNames();
    FirstWrite(o, e);
    rc, at := Write(o, DOT_DOT_A, e);
  }

  /** Writing "././a" to a store with a file "a": the write is accepted, the old file is gone, and the next write does
      not find the new one. */
  method WriteToUnstablePath(d: seq<U8>, e: seq<U8>) returns (o: Overlay, first: int, second: int)
    requires |d| <= 1000 && |e| <= 1000
    ensures fresh(o) && o.Sound() && first == |d| && second == |e|
    ensures o.Store() == map[DOT_A := File(e)] && !Found(o.Store(), DOT_A)
  {
    hide Sum, Rep, GoodItems, Proper, StoreOf, Unique, Normalize, Cut, StoredItems, Fits;
    o := new Overlay(EMPTY_DISK);
    DotNames();
    NothingOnDisk(NAME_A);
    NothingOnDisk(DOT_A);
    NothingUnique(o.lay.items);
    SmallFits(o, NAME_A, |d|);
    ghost var at;
    first, at := Write(o, NAME_A, d);
    assert o.Store() == map[NAME_A := File(d)];
    SmallReplaces(o, DOT_A, |e|, d);
    second, at := Write(o, DOT_DOT_A, e);
    assert o.Store() == map[DOT_A := File(e)];
  }

  lemma SmallReplaces(o: Overlay, want: Path, n: nat, d: seq<U8>)
    requires o.extLba == 0 && |want| < PATH_MAX && n <= 1000 && Normalize(want) in o.Store()
    requires o.Store()[Normalize(want)] == File(d)
    requires Sum(o.pool[..], HeadBytes) <= 10000 && Sum(o.pool[..], FreeBit) >= 10
    ensures Fits(o, want, n)
  {
    hide Sum, StoreOf, Normalize;
  }

  // ---------------------------------------------------------------- copying below "."

  lemma {:induction false} TallyTwo(f: nat -> nat, h: nat, k: nat, n: nat)
    requires forall x: nat :: x != h && x != k ==> f(x) == 0
    ensures Tally(f, n) <= (if h < n then f(h) else 0) + (if k < n then f(k) else 0)
  {
    if n > 0 { TallyTwo(f, h, k, n - 1); }
  }

  /** Copying "." to "b" when "." holds "./a": the checks pass, the directory is copied, the file is looked up as "a"
      and not found, and the copy gives up for want of space with "b" left behind. */
  method HalfACopy(d: seq<U8>) returns (o: Overlay, rc: int)
    requires |d| <= 1000
    ensures fresh(o) && o.Sound() && rc == ERR_NOSPACE && o.Store() != map[DOT_DIR := Dir, DOT_A := File(d)]
    ensures NAME_B in o.Store()
  {
    hide Sum, Rep, GoodItems, Proper, StoreOf, Unique, Normalize, Cut, CopyCheck, Imaged, DirsCopied, CopyCalm,
         CopyReads, Grown;
    ghost var h, k, img;
    o, h, k := DotFile(d);
    ghost var items := o.lay.items;
    DotNames();
    DotCopyStarts(o, d, h, k);
    rc, img := CopyTree(o, DOT_DIR, NAME_B);
    DirIsThere(items, o.lay.items, img, h, o.FileMax());
  }

  lemma DotCopyStarts(o: Overlay, d: seq<U8>, h: nat, k: nat)
    requires o.ird == EMPTY_DISK && o.extLba == 0 && |d| <= 1000 && h != k
    requires o.lay.items == map[h := Item(DOT_DIR, DirBody), k := Item(DOT_A, FileBody(Cut(d)))]
    requires o.Store() == map[DOT_DIR := Dir, DOT_A := File(d)]
    requires Sum(o.pool[..], HeadBytes) <= 1040 && Sum(o.pool[..], FreeBit) >= 250
    ensures CopyCheck(o, DOT_DIR, NAME_B) == OV_OK && CopyCalm(o, DOT_DIR, NAME_B) && !CopyReads(o, DOT_DIR)
    ensures Normalize(DOT_DIR) == DOT_DIR && Normalize(NAME_B) == NAME_B
  {
    hide Sum, StoreOf, Normalize, Parent, Cut, Tally, ScanNodes, ScanBytes, AllNodes;
    DotNames();
    NothingOnDisk(NAME_B);
    DotScan(o.lay.items, d, h, k);
    assert Under(DOT_DIR, DOT_DIR) && Under(DOT_A, DOT_DIR) && !Under(DOT_DIR, NAME_B) && !Under(NAME_A, NAME_B);
    assert FileSource(o.lay.items, k, DOT_DIR) && !Reads(o.lay.items, k, o.FileMax());
  }

  lemma DotScan(items: Items, d: seq<U8>, h: nat, k: nat)
    requires h != k && |d| <= 1000 && items == map[h := Item(DOT_DIR, DirBody), k := Item(DOT_A, FileBody(Cut(d)))]
    ensures Tally(ScanNodes(items, DOT_DIR), MAX_NODES) <= 4
    ensures Tally(ScanBytes(items, DOT_DIR, NAME_B), MAX_NODES) <= 1100
  {
    hide Tally, Cut, Flat;
    CutFlat(d);
    TallyTwo(ScanNodes(items, DOT_DIR), h, k, MAX_NODES);
    TallyTwo(ScanBytes(items, DOT_DIR, NAME_B), h, k, MAX_NODES);
    assert Moved(DOT_DIR, DOT_DIR, NAME_B) == NAME_B;
  }

  lemma DirIsThere(items: Items, items': Items, img: map<nat, nat>, h: nat, limit: nat)
    requires h in items && items[h] == Item(DOT_DIR, DirBody) && DirsCopied(items, DOT_DIR, img)
    requires Imaged(items, items', img, img.Keys, DOT_DIR, NAME_B, limit)
    ensures NAME_B in StoreOf(items')
  {
    hide StoreOf;
    assert Source(items, h, DOT_DIR);
    assert Moved(DOT_DIR, DOT_DIR, NAME_B) == NAME_B;
    Seen(items', img[h]);
  }

  /** The directory "." with "./a", and a file "a" besides. */
  ghost predicate TwoFiles(items: Items, h: nat, k: nat, l: nat, d: seq<U8>, e: seq<U8>)
  {
    && h != k && h != l && k != l
    && items == map[h := Item(DOT_DIR, DirBody), k := Item(DOT_A, FileBody(Cut(d))),
                    l := Item(NAME_A, FileBody(Cut(e)))]
  }

  /** In such a store the copy of "./a" takes the contents of "a". It costs more room than the
      checks have found whenever that file takes more. */
  lemma ReadsAnother(items: Items, h: nat, k: nat, l: nat, d: seq<U8>, e: seq<U8>, limit: nat)
    requires TwoFiles(items, h, k, l, d, e) && |e| <= limit && 0 < limit
    ensures Unique(items) && Undisturbed(items, DOT_DIR, NAME_B) && AllRead(items, DOT_DIR, limit)
    ensures Source(items, k, DOT_DIR) &&
      ImageOf(items, k, DOT_DIR, NAME_B, limit) == Item(B_A, FileBody(Cut(e)))
    ensures ReadBytes(StoreOf(items), DOT_A, 0, limit) == e
    ensures CopyBytes(items, DOT_DIR, NAME_B, limit, false)(k) > ScanBytes(items, DOT_DIR, NAME_B)(k) <==>
      FileBytes(3, |e|) > FileBytes(3, |d|)
  {
    hide StoreOf, Normalize, Cut, FileBytes, Blocks;
    DotNames();
    CutFlat(d);
    CutFlat(e);
    assert Under(DOT_DIR, DOT_DIR) && Under(DOT_A, DOT_DIR) && !Under(DOT_DIR, NAME_B) && !Under(NAME_A, NAME_B);
    assert !Under(NAME_A, DOT_DIR);
    assert Moved(DOT_A, DOT_DIR, NAME_B) == B_A;
    Seen(items, l);
    assert Slice(e, 0, limit) == e;
    assert ReadBytes(StoreOf(items), DOT_A, 0, limit) == e;
  }

  /** The nodes and bytes that the checks expect of the copy, and those that it takes. */
  lemma AnotherCosts(items: Items, h: nat, k: nat, l: nat, d: seq<U8>, e: seq<U8>)
    requires TwoFiles(items, h, k, l, d, e) && |d| <= 1000 && |e| <= 30000 && h < MAX_NODES && k < MAX_NODES
    ensures Tally(ScanNodes(items, DOT_DIR), MAX_NODES) <= 4
    ensures Tally(ScanBytes(items, DOT_DIR, NAME_B), MAX_NODES) <= 1040
    ensures AllNodes(items, DOT_DIR, FILE_MAX_BYTES) <= 80
    ensures AllBytes(items, DOT_DIR, NAME_B, FILE_MAX_BYTES) >= FileBytes(3, |e|)
  {
    hide Tally, Cut, Flat, StoreOf, Normalize, ReadBytes, ReadCode, Unique, Undisturbed, AllRead;
    CutFlat(d);
    ReadsAnother(items, h, k, l, d, e, FILE_MAX_BYTES);
    assert Under(DOT_DIR, DOT_DIR) && Under(DOT_A, DOT_DIR);
    assert NAME_A[0] != DOT_DIR[0];
    assert Moved(DOT_DIR, DOT_DIR, NAME_B) == NAME_B && Moved(DOT_A, DOT_DIR, NAME_B) == B_A;
    TallyTwo(ScanNodes(items, DOT_DIR), h, k, MAX_NODES);
    TallyTwo(ScanBytes(items, DOT_DIR, NAME_B), h, k, MAX_NODES);
    TallyTwo(CopyNodes(items, DOT_DIR, FILE_MAX_BYTES, true), h, k, MAX_NODES);
    TallyTwo(CopyNodes(items, DOT_DIR, FILE_MAX_BYTES, false), h, k, MAX_NODES);
    TallyHas(CopyBytes(items, DOT_DIR, NAME_B, FILE_MAX_BYTES, false), k, MAX_NODES);
  }

  lemma {:induction false} TallyHas(f: nat -> nat, k: nat, n: nat)
    requires k < n
    ensures Tally(f, n) >= f(k)
  {
    if k < n - 1 { TallyHas(f, k, n - 1); }
  }

  lemma AnotherStarts(o: Overlay, h: nat, k: nat, l: nat, d: seq<U8>, e: seq<U8>)
    requires o.Sound() && o.ird == EMPTY_DISK && o.extLba == 0 && |d| <= 1000 && |e| <= 30000
    requires TwoFiles(o.lay.items, h, k, l, d, e)
    requires o.Store() == map[DOT_DIR := Dir, DOT_A := File(d), NAME_A := File(e)]
    requires Sum(o.pool[..], HeadBytes) <= 31700 && Sum(o.pool[..], FreeBit) >= 100
    ensures CopyCheck(o, DOT_DIR, NAME_B) == OV_OK && CopyCalm(o, DOT_DIR, NAME_B) && CopyReads(o, DOT_DIR)
    ensures NoneTaken(o.Store(), DOT_DIR, NAME_B)
    ensures AllBytes(o.lay.items, DOT_DIR, NAME_B, FILE_MAX_BYTES) >= FileBytes(3, |e|)
  {
    hide Sum, StoreOf, Normalize, Parent, Cut, Tally, ScanNodes, ScanBytes, AllNodes, AllBytes, Rep, GoodItems, AllRead,
         Undisturbed, FileBytes;
    DotNames();
    NothingOnDisk(NAME_B);
    HeadsBelow(o.pool[..], o.lay);
    ReadsAnother(o.lay.items, h, k, l, d, e, FILE_MAX_BYTES);
    AnotherCosts(o.lay.items, h, k, l, d, e);
    assert Moved(DOT_DIR, DOT_DIR, NAME_B) == NAME_B && Moved(DOT_A, DOT_DIR, NAME_B) == B_A && !Under(NAME_A, DOT_DIR);
  }

  lemma MiddleFits(o: Overlay, n: nat)
    requires o.extLba == 0 && n <= 30000 && NAME_A !in o.Store() && Normalize(NAME_A) == NAME_A
    requires Sum(o.pool[..], HeadBytes) <= 1040 && Sum(o.pool[..], FreeBit) >= 250
    ensures Fits(o, NAME_A, n) && FoundBytes(o.lay, NAME_A) == 0 && FoundNodes(o.lay, NAME_A) == 0
    ensures FileBytes(1, n) <= 30640 && Blocks(n) <= 79
  {
    hide Sum, StoreOf, Normalize;
    PathsOf(o.lay.items, NAME_A);
  }

  lemma AddsAnother(items: Items, h: nat, k: nat, l: nat, d: seq<U8>, e: seq<U8>)
    requires h != k && items == map[h := Item(DOT_DIR, DirBody), k := Item(DOT_A, FileBody(Cut(d)))]
    requires l !in items - Gone(items, NAME_A)
    ensures TwoFiles(StoredItems(items, NAME_A, e, l), h, k, l, d, e)
  {
    hide Normalize, Cut;
    DotNames();
    assert Gone(items, NAME_A) == {} && items - {} == items;
  }

  lemma AnotherIsThere(items: Items, items': Items, img: map<nat, nat>, h: nat, k: nat, l: nat, d: seq<U8>, e: seq<U8>)
    requires TwoFiles(items, h, k, l, d, e) && |e| <= FILE_MAX_BYTES && Unique(items')
    requires Imaged(items, items', img, img.Keys, DOT_DIR, NAME_B, FILE_MAX_BYTES)
    requires img.Keys == Sources(items, DOT_DIR)
    ensures B_A in StoreOf(items') && StoreOf(items')[B_A] == File(e)
    ensures DOT_A in StoreOf(items') && StoreOf(items')[DOT_A] == File(d)
  {
    hide StoreOf, Cut, ImageOf, Unique;
    ReadsAnother(items, h, k, l, d, e, FILE_MAX_BYTES);
    CutFlat(d);
    CutFlat(e);
    assert k in img;
    Seen(items', img[k]);
    Seen(items', k);
  }

  /** What does not fit is not saved. */
  method NotSaved(o: Overlay, buf: array<U8>) returns (saved: int)
    requires o.Sound() && !o.Fitting()
    modifies buf
    ensures saved == -1
  {
    hide Sum, Rep, GoodItems, Proper, StoreOf, Unique, Normalize;
    saved := Snap.Snapshot(o, buf, buf.Length);
  }

  /** A small file "./a" and a large one "a": the copy of "." to "b" passes every check and succeeds, but "b/a" holds
      what "a" does; the store no longer fits on disk and the next snapshot fails. */
  method CopyOfAnother(d: seq<U8>, e: seq<U8>, buf: array<U8>)
    returns (o: Overlay, wrote: int, copied: int, saved: int)
    requires |d| <= 1000 && 16100 <= |e| <= 30000
    modifies buf
    ensures fresh(o) && o.Sound() && wrote == |e| && copied == OV_OK && saved == -1 && !o.Fitting()
    ensures B_A in o.Store() && o.Store()[B_A] == File(e) && DOT_A in o.Store() && o.Store()[DOT_A] == File(d)
  {
    hide Sum, Rep, GoodItems, Proper, StoreOf, Unique, Normalize, Cut, StoredItems, Imaged, DirsCopied, CopyCheck,
         CopyCalm, CopyReads, NoneTaken, Sources, TwoFiles, AllBytes, Grown, WholeCopy, UsedBits, Fits, Gone, CopyStore,
         StagePass, Tally, CopyFaithful, MoveRefusal, MoveKeeps, Flat;
    ghost var h, k, l, img;
    o, h, k := DotFile(d);
    DotNames();
    NothingOnDisk(NAME_A);
    MiddleFits(o, |e|);
    ghost var before := o.lay.items;
    wrote, l := Write(o, NAME_A, e);
    AddsAnother(before, h, k, l, d, e);
    ghost var items := o.lay.items;
    assert o.Store() == map[DOT_DIR := Dir, DOT_A := File(d), NAME_A := File(e)];
    AnotherStarts(o, h, k, l, d, e);
    copied, img := CopyTree(o, DOT_DIR, NAME_B);
    AnotherIsThere(items, o.lay.items, img, h, k, l, d, e);
    saved := NotSaved(o, buf);
  }

  // ---------------------------------------------------------------- renaming onto a lost directory

  // "d"  "d/e"  "d/e/f"  "d/e/x"  "n"  "n/e"  "n/e/f"  "x"  "x/f"
  const NAME_D: Path := [100]
  const D_E: Path := [100, 47, 101]
  const D_E_F: Path := [100, 47, 101, 47, 102]
  const D_E_X: Path := [100, 47, 101, 47, 120]
  const NAME_N: Path := [110]
  const N_E: Path := [110, 47, 101]
  const N_E_F: Path := [110, 47, 101, 47, 102]
  const NAME_X: Path := [120]
  const X_F: Path := [120, 47, 102]

  lemma PlainNames()
    ensures Normalize(NAME_D) == NAME_D && Normalize(D_E) == D_E && Normalize(D_E_F) == D_E_F
    ensures Normalize(NAME_N) == NAME_N && Normalize(N_E) == N_E && Normalize(NAME_X) == NAME_X && Normalize(X_F) == X_F
    ensures Parent(NAME_D) == [] && Parent(NAME_N) == [] && Parent(NAME_X) == []
    ensures Parent(D_E_F) == D_E && Parent(N_E) == NAME_N && Parent(X_F) == NAME_X
  {
    NormalizeCanon(NAME_D);
    NormalizeCanon(D_E);
    NormalizeCanon(D_E_F);
    NormalizeCanon(NAME_N);
    NormalizeCanon(N_E);
    NormalizeCanon(NAME_X);
    NormalizeCanon(X_F);
    LastSlashSpec(NAME_D);
    LastSlashSpec(NAME_N);
    LastSlashSpec(NAME_X);
    LastSlashSpec(D_E_F);
    LastSlashSpec(N_E);
    LastSlashSpec(X_F);
    assert D_E_F[3] == SLASH && D_E_F[..3] == D_E;
    assert N_E[1] == SLASH && N_E[..1] == NAME_N;
    assert X_F[1] == SLASH && X_F[..1] == NAME_X;
  }

  /** A ramdisk with the one file "d/e/x". */
  lemma OneFileDisk(data: seq<U8>, ird: Initrd)
    requires ird == Initrd(map[D_E_X := data])
    ensures ird.IsDir(D_E) && !ird.IsDir(D_E_F) && !ird.IsDir(NAME_N) && !ird.IsDir(N_E) && !ird.IsDir(X_F)
    ensures !ird.IsFile(NAME_D) && !ird.IsFile(NAME_N) && !ird.IsFile(N_E) && !ird.IsFile(NAME_X) &&
      !ird.IsFile(D_E_F) && !ird.IsFile(X_F)
  {
    hide Normalize;
    PlainNames();
    assert D_E_X in ird.names && StrictlyUnder(D_E_X, D_E);
  }

  /** The way to the first rename: "d" holds a file whose directory "d/e" exists only in the ramdisk. */
  method LostDirectory(data: seq<U8>, f: seq<U8>) returns (o: Overlay)
    requires |f| <= 1000
    ensures fresh(o) && fresh(o.pool) && fresh(o.tmp) && o.Sound() && o.ird == Initrd(map[D_E_X := data]) &&
      o.extLba == 0
    ensures Unique(o.lay.items) && o.Store() == map[NAME_N := Dir, N_E_F := File(f)]
    ensures Sum(o.pool[..], HeadBytes) <= 1040 && Sum(o.pool[..], FreeBit) >= 250
  {
    hide Sum, Rep, GoodItems, Proper, StoreOf, Unique, Normalize, Cut, StoredItems, Fits, MoveRefusal, MoveStore, Clear,
         Growth;
    o := new Overlay(Initrd(map[D_E_X := data]));
    PlainNames();
    OneFileDisk(data, o.ird);
    NothingUnique(o.lay.items);
    ghost var at;
    var rc;
    rc, at := Mkdir(o, NAME_D);
    assert o.Store() == map[NAME_D := Dir];
    SmallFits(o, D_E_F, |f|);
    rc, at := Write(o, D_E_F, f);
    assert o.Store() == map[NAME_D := Dir, D_E_F := File(f)];
    FirstRename(o, f);
    GrowthAtMost(o.pool[..], NAME_D, NAME_N);
    rc := Rename(o, NAME_D, NAME_N);
  }

  lemma GrowthAtMost(pool: seq<Node>, oldp: Path, newp: Path)
    ensures Sum(pool, Growth(oldp, newp)) <= |pool| * if |newp| > |oldp| then |newp| - |oldp| else 0
  {
    hide Sum;
    SumAtMost(pool, Growth(oldp, newp), if |newp| > |oldp| then |newp| - |oldp| else 0);
  }

  lemma {:induction false} SumAtMost(pool: seq<Node>, f: Node -> nat, m: nat)
    requires forall n :: f(n) <= m
    ensures Sum(pool, f) <= |pool| * m
  {
    if pool != [] { SumAtMost(pool[..|pool| - 1], f, m); }
  }

  lemma FirstRename(o: Overlay, f: seq<U8>)
    requires exists data :: o.ird == Initrd(map[D_E_X := data])
    requires o.Store() == map[NAME_D := Dir, D_E_F := File(f)]
    ensures MoveRefusal(o.Store(), o.ird, NAME_D, NAME_N) == OV_OK && Clear(o.Store(), NAME_D, NAME_N)
    ensures MoveStore(o.Store(), NAME_D, NAME_N) == map[NAME_N := Dir, N_E_F := File(f)]
  {
    hide StoreOf, Normalize, MoveStore, Parent;
    PlainNames();
    var data :| o.ird == Initrd(map[D_E_X := data]);
    OneFileDisk(data, o.ird);
    var st := o.Store();
    assert Moved(NAME_D, NAME_D, NAME_N) == NAME_N && Moved(D_E_F, NAME_D, NAME_N) == N_E_F;
    assert Clear(st, NAME_D, NAME_N);
    MovedTo(st, NAME_D, NAME_D, NAME_N);
    MovedTo(st, D_E_F, NAME_D, NAME_N);
    var st' := MoveStore(st, NAME_D, NAME_N);
    forall q | q in st' ensures q == NAME_N || q == N_E_F { var p := MovedFrom(st, q, NAME_D, NAME_N); }
    assert st' == map[NAME_N := Dir, N_E_F := File(f)];
  }

  /** Then "x" with a file "x/f" is renamed to "n/e": every check passes, for "n/e" is not there, and both files end up
      as "n/e/f". */
  method RenameOntoLost(data: seq<U8>, f: seq<U8>, g: seq<U8>) returns (o: Overlay, rc: int)
    requires |f| <= 1000 && |g| <= 1000
    ensures fresh(o) && o.Sound() && rc == OV_OK && !Unique(o.lay.items)
  {
    hide Sum, Rep, GoodItems, Proper, StoreOf, Unique, Normalize, Cut, StoredItems, Fits, MoveRefusal, MoveStore, Clear,
         Growth, MoveItems, Flat, MoveKeeps, Gone, NoneTaken, StrictlyUnder;
    o := LostDirectory(data, f);
    PlainNames();
    OneFileDisk(data, o.ird);
    ghost var at;
    rc, at := Mkdir(o, NAME_X);
    SmallFits(o, X_F, |g|);
    rc, at := Write(o, X_F, g);
    assert o.Store() == map[NAME_N := Dir, N_E_F := File(f), NAME_X := Dir, X_F := File(g)];
    SecondRename(o, f, g);
    GrowthAtMost(o.pool[..], NAME_X, N_E);
    rc := Rename(o, NAME_X, N_E);
  }

  lemma SecondRename(o: Overlay, f: seq<U8>, g: seq<U8>)
    requires exists data :: o.ird == Initrd(map[D_E_X := data])
    requires o.Store() == map[NAME_N := Dir, N_E_F := File(f), NAME_X := Dir, X_F := File(g)]
    ensures MoveRefusal(o.Store(), o.ird, NAME_X, N_E) == OV_OK && !Clear(o.Store(), NAME_X, N_E)
  {
    hide StoreOf, Normalize, Parent;
    PlainNames();
    var data :| o.ird == Initrd(map[D_E_X := data]);
    OneFileDisk(data, o.ird);
    assert N_E_F[0] != NAME_X[0];
    assert X_F in o.Store() && Under(X_F, NAME_X) && Moved(X_F, NAME_X, N_E) == N_E_F;
  }

  // ---------------------------------------------------------------- dropping the extension area

  /** A file over the small limit, and then `overlay_set_ext(0)`: the store is no longer in order, a snapshot fails if
      the file is too long for the small image, and one that succeeds cannot be loaded. */
  method DropExtension(d: seq<U8>, buf: array<U8>) returns (o: Overlay, saved: int, loaded: int)
    requires FILE_MAX_BYTES < |d| <= FILE_MAX_EXT_BYTES && buf.Length >= SNAP_SIZE
    modifies buf
    ensures fresh(o) && o.Sound() && !o.Valid() && o.Store() == map[NAME_A := File(d)]
    ensures saved == (if 16 + FileBytes(1, |d|) > SNAP_SIZE then -1 else 0) && loaded == -1
  {
    hide Sum, Rep, GoodItems, StoreOf, Unique, Normalize, Cut, Tree, Blocks;
    o := new Overlay(EMPTY_DISK);
    DotNames();
    NothingOnDisk(NAME_A);
    NothingUnique(o.lay.items);
    var rc := SetExt(o, EXT_MIN_LBA);
    LargeFits(o, |d|);
    ghost var at;
    rc, at := Write(o, NAME_A, d);
    assert o.Store() == map[NAME_A := File(d)];
    CutFlat(d);
    assert o.Valid();
    rc := SetExt(o, 0);
    ghost var was := o.Store();
    TooLarge(o.lay.items, at, d);
    var copy := new Overlay(EMPTY_DISK);
    saved, loaded := Snap.SaveThenLoad(o, copy, buf);
  }

  lemma LargeFits(o: Overlay, n: nat)
    requires o.extLba == EXT_MIN_LBA && n <= FILE_MAX_EXT_BYTES && NAME_A !in o.Store() && Normalize(NAME_A) == NAME_A
    requires Sum(o.pool[..], HeadBytes) == 0 && Sum(o.pool[..], FreeBit) == MAX_NODES
    ensures Fits(o, NAME_A, n) && FoundBytes(o.lay, NAME_A) == 0 && FoundNodes(o.lay, NAME_A) == 0
  {
    hide Sum, StoreOf, Normalize;
    PathsOf(o.lay.items, NAME_A);
  }

  lemma TooLarge(items: Items, at: nat, d: seq<U8>)
    requires at in items && items[at].body == FileBody(Cut(d)) && |d| > FILE_MAX_BYTES
    ensures !Within(items, FILE_MAX_BYTES)
  {
    CutFlat(d);
  }
}
