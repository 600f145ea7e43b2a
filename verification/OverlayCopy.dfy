/** Copying subtrees of the overlay store (fs/overlay.c:502-566). */
module OverlayCopy {
  import opened Words
  import opened OverlayPaths
  import opened OverlayState
  import opened OverlayOps
  import opened OverlayTree

  /** A head of the wanted kind under old_. */
  predicate Picked(n: Node, old_: Path, dirs: bool) { n.used && !n.isCont && n.isDir == dirs && Under(n.path, old_) }

  /** The items that a copy reads: those at or below the old name. */
  ghost predicate Source(items: Items, h: nat, old_: Path) { h in items && Under(items[h].path, old_) }

  ghost predicate FileSource(items: Items, h: nat, old_: Path) { Source(items, h, old_) && items[h].body.FileBody? }

  /** What a copy makes of the item at h. A file is read by its path, so it is what a lookup of that path finds. */
  ghost function ImageOf(items: Items, h: nat, old_: Path, new_: Path, limit: nat): Item
    requires Source(items, h, old_)
  {
    Item(Moved(items[h].path, old_, new_),
         if items[h].body.DirBody? then DirBody else FileBody(Cut(ReadBytes(StoreOf(items), items[h].path, 0, limit))))
  }

  /** The file at h can be read by its path. */
  ghost predicate Reads(items: Items, h: nat, limit: nat)
    requires h in items
  {
    ReadCode(StoreOf(items), items[h].path, 0, limit) >= 0
  }

  /** The file at h is what reading its path gives: the path is its own normal form or leads to an equal file, no
      earlier item has it, and the file is within the limit. */
  ghost predicate ReadsBack(items: Items, h: nat, limit: nat)
    requires h in items && items[h].body.FileBody?
  {
    Reads(items, h, limit) && ReadBytes(StoreOf(items), items[h].path, 0, limit) == Flat(items[h].body.blocks)
  }

  ghost predicate AllRead(items: Items, old_: Path, limit: nat)
  {
    forall h :: FileSource(items, h, old_) ==> Reads(items, h, limit)
  }

  ghost predicate AllReadBack(items: Items, old_: Path, limit: nat)
  {
    forall h :: FileSource(items, h, old_) ==> ReadsBack(items, h, limit)
  }

  /** The copies made on the way are not met again: the new name is not above the old one, and no file of the subtree is
      looked up at or below the new name. */
  ghost predicate Undisturbed(items: Items, old_: Path, new_: Path)
  {
    forall h :: Source(items, h, old_) ==>
      !Under(old_, new_) && (items[h].body.FileBody? ==> !Under(Normalize(items[h].path), new_))
  }

  /** Every item is still there, and everything else lies under the new name. */
  ghost predicate Grown(items0: Items, items: Items, new_: Path)
  {
    && (forall h :: h in items0 ==> h in items && items[h] == items0[h])
    && (forall h :: h in items && h !in items0 ==> Under(items[h].path, new_))
  }

  /** The items are the original ones and, one each, the images of `done`; img says which is whose. */
  ghost predicate Imaged(items0: Items, items: Items, img: map<nat, nat>, done: set<nat>, old_: Path, new_: Path,
                         limit: nat)
  {
    && img.Keys == done && (forall h :: h in done ==> Source(items0, h, old_))
    && (forall h :: h in items0 ==> h in items && items[h] == items0[h])
    && (forall h :: h in img ==>
        img[h] !in items0 && img[h] in items && items[img[h]] == ImageOf(items0, h, old_, new_, limit))
    && (forall h, k :: h in img && k in img && img[h] == img[k] ==> h == k)
    && (forall h :: h in items && h !in items0 ==> h in img.Values)
  }

  /** One more image. */
  lemma ImagedMore(items0: Items, items: Items, img: map<nat, nat>, done: set<nat>, old_: Path, new_: Path, limit: nat,
                   h: nat, at: nat)
    requires Imaged(items0, items, img, done, old_, new_, limit) && Source(items0, h, old_) && h !in done &&
      at !in items
    ensures Imaged(items0, items[at := ImageOf(items0, h, old_, new_, limit)], img[h := at], done + {h}, old_, new_,
                   limit)
  {
    hide ImageOf, Source;
    var items', img' := items[at := ImageOf(items0, h, old_, new_, limit)], img[h := at];
    AllImages(items0, items, items', img, h, at);
    assert at !in items0 && forall k :: k in img ==> img[k] != at;
    forall k | k in img'
      ensures img'[k] !in items0 && img'[k] in items' && items'[img'[k]] == ImageOf(items0, k, old_, new_, limit)
    {
      if k != h { assert img'[k] == img[k]; }
    }
  }

  lemma AllImages(items0: Items, items: Items, items': Items, img: map<nat, nat>, h: nat, at: nat)
    requires h !in img && items'.Keys == items.Keys + {at} && forall k :: k in items && k !in items0 ==> k in img.Values
    ensures forall k :: k in items' && k !in items0 ==> k in img[h := at].Values
  {
    var img' := img[h := at];
    forall k | k in items' && k !in items0 ensures k in img'.Values {
      if k == at {
        assert img'[h] == k;
      } else {
        var l :| l in img && img[l] == k;
        assert l in img' && img'[l] == k;
      }
    }
  }

  lemma NothingImaged(items: Items, old_: Path, new_: Path, limit: nat)
    ensures Imaged(items, items, map[], {}, old_, new_, limit)
  {
  }

  // ---------------------------------------------------------------- what copying costs

  /** A total over the slots below n. */
  ghost function Tally(f: nat -> nat, n: nat): nat { if n == 0 then 0 else Tally(f, n - 1) + f(n - 1) }

  lemma {:induction false} TallyMore(f: nat -> nat, k: nat, n: nat)
    requires k <= n
    ensures Tally(f, k) <= Tally(f, n)
  {
    if k < n { TallyMore(f, k, n - 1); }
  }

  lemma {:induction false} TallySum(f: nat -> nat, g: nat -> nat, t: nat -> nat, n: nat)
    requires forall h: nat :: f(h) + g(h) <= t(h)
    ensures Tally(f, n) + Tally(g, n) <= Tally(t, n)
  {
    if n > 0 { TallySum(f, g, t, n - 1); }
  }

  /** Nodes and image bytes that copying the item at h takes, by what is read. */
  ghost function CopyNodes(items: Items, old_: Path, limit: nat, dirs: bool): nat -> nat
  {
    (h: nat) => if !Source(items, h, old_) || items[h].body.DirBody? != dirs then 0
                else if dirs then 1 else Blocks(|ReadBytes(StoreOf(items), items[h].path, 0, limit)|)
  }

  ghost function CopyBytes(items: Items, old_: Path, new_: Path, limit: nat, dirs: bool): nat -> nat
  {
    (h: nat) => if !Source(items, h, old_) || items[h].body.DirBody? != dirs then 0
                else if dirs then REC_HDR + |Moved(items[h].path, old_, new_)|
                else FileBytes(|Moved(items[h].path, old_, new_)|, |ReadBytes(StoreOf(items), items[h].path, 0, limit)|)
  }

  /** What the scan expects: as many nodes as the item has, and the bytes of its size. */
  ghost function ScanNodes(items: Items, old_: Path): nat -> nat
  {
    (h: nat) => if !Source(items, h, old_) then 0 else if items[h].body.DirBody? then 1 else |items[h].body.blocks|
  }

  ghost function ScanBytes(items: Items, old_: Path, new_: Path): nat -> nat
  {
    (h: nat) => if !Source(items, h, old_) then 0
      else EntryBytes(Moved(items[h].path, old_, new_), EntryOf(items[h].body))
  }

  // ---------------------------------------------------------------- what copying does, step by step

  /** The state of a copy: the items so far, the slots in use, and whether it goes on. */
  datatype Stage = Stage(items: Items, used: seq<bool>, ok: bool)

  ghost function ImageNodes(items: Items, h: nat, limit: nat): nat
    requires h in items
  {
    if items[h].body.DirBody? then 1 else Blocks(|ReadBytes(StoreOf(items), items[h].path, 0, limit)|)
  }

  /** The item at h can be copied: it is a directory or can be read, and there are nodes for its image. */
  ghost predicate CanCopy(g: Stage, h: nat, limit: nat)
    requires h in g.items
  {
    (g.items[h].body.DirBody? || Reads(g.items, h, limit)) && ImageNodes(g.items, h, limit) <= FreeSlots(g.used)
  }

  /** What a pass does at slot i, with everything that it has copied so far in the store. */
  ghost function StageStep(g: Stage, i: nat, old_: Path, new_: Path, limit: nat, dirs: bool): Stage
  {
    if !g.ok || !Source(g.items, i, old_) || g.items[i].body.DirBody? != dirs then g
    else if !CanCopy(g, i, limit) then g.(ok := false)
    else Stage(g.items[FirstFree(g.used) := ImageOf(g.items, i, old_, new_, limit)],
               Taken(g.used, ImageNodes(g.items, i, limit)), true)
  }

  ghost function StagePass(g: Stage, n: nat, old_: Path, new_: Path, limit: nat, dirs: bool): Stage
  {
    if n == 0 then g else StageStep(StagePass(g, n - 1, old_, new_, limit, dirs), n - 1, old_, new_, limit, dirs)
  }

  /** The whole copy: the directories, then the files. */
  ghost function WholeCopy(items: Items, used: seq<bool>, old_: Path, new_: Path, limit: nat): Stage
  {
    StagePass(StagePass(Stage(items, used, true), MAX_NODES, old_, new_, limit, true), MAX_NODES, old_, new_, limit,
              false)
  }

  lemma {:induction false} StageStopped(g: Stage, n: nat, m: nat, old_: Path, new_: Path, limit: nat, dirs: bool)
    requires n <= m && !StagePass(g, n, old_, new_, limit, dirs).ok
    ensures StagePass(g, m, old_, new_, limit, dirs) == StagePass(g, n, old_, new_, limit, dirs)
  {
    if n < m { StageStopped(g, n, m - 1, old_, new_, limit, dirs); }
  }

  // ---------------------------------------------------------------- one entry

  /** Adds the file p out of free nodes, if there are enough. */
  method AddFile(o: Overlay, p: Path, data: seq<U8>, n: U32) returns (ok: bool, ghost at: nat)
    requires o.Sound() && p != [] && |p| <= PATH_MAX - 1 && NoNul(p) && n <= |data| && n <= FILE_MAX_EXT_BYTES
    modifies o`lay, o.pool
    ensures o.Sound() && (ok <==> old(Sum(o.pool[..], FreeBit)) >= Blocks(n))
    ensures ok ==> at !in old(o.lay.items) && o.lay.items == old(o.lay.items)[at := Item(p, FileBody(Cut(data[..n])))]
    ensures !ok ==> o.lay == old(o.lay)
    ensures forall i :: 0 <= i < o.pool.Length && old(o.pool[i].used) ==> o.pool[i] == old(o.pool[i])
    ensures Sum(o.pool[..], FreeBit) + (if ok then Blocks(n) else 0) == old(Sum(o.pool[..], FreeBit))
    ensures Sum(o.pool[..], HeadBytes) == old(Sum(o.pool[..], HeadBytes)) + if ok then FileBytes(|p|, n) else 0
    ensures ok ==> at == old(FirstFree(UsedBits(o.pool[..])))
    ensures UsedBits(o.pool[..]) == old(if ok then Taken(UsedBits(o.pool[..]), Blocks(n)) else UsedBits(o.pool[..]))
  {
    hide Sum, Rep, ChainOk, Blocks, FileBytes, Replaced, Leading, FirstFree, Taken, UsedBits, Cut, Flat,
         OthersKept;
    at := 0;
    ghost var was, lay, it := o.pool[..], o.lay, Item(p, FileBody(Cut(data[..n])));
    ghost var c;
    var head: int;
    head, c := Build(o.pool, p, data, n);
    ok := head >= 0;
    if ok {
      NewFileKept(was, o.pool[..], lay, c);
      ChainTakes(was, o.pool[..], c, it);
      ReplacedRep(was, o.pool[..], lay, {}, c, it);
      assert lay.items - {} == lay.items;
      CutFlat(data[..n]);
      at := c[0];
      o.lay := Replaced(lay, {}, c, it);
    } else {
      StillFree(was, o.pool[..], lay, c);
      assert UsedBits(o.pool[..]) == UsedBits(was) by { SameBits(was, o.pool[..], c); }
    }
  }

  lemma SameBits(was: seq<Node>, now: seq<Node>, c: seq<nat>)
    requires |now| == |was| && forall i :: 0 <= i < |was| && i !in c ==> now[i] == was[i]
    requires forall i :: i in c ==> i < |now| && !now[i].used && !was[i].used
    ensures UsedBits(now) == UsedBits(was)
  {
  }

  /** A new chain of the first free nodes. */
  lemma ChainTakes(was: seq<Node>, now: seq<Node>, c: seq<nat>, it: Item)
    requires Leading(was, c) && c != [] && |now| == |was| && ChainOk(now, c, it)
    requires forall i :: 0 <= i < |was| && i !in c ==> now[i] == was[i]
    ensures c[0] == FirstFree(UsedBits(was)) && UsedBits(now) == Taken(UsedBits(was), |c|)
  {
    hide Leading, ChainOk, FirstFree, Taken;
    ChainUsed(now, c, it);
    TakenIs(was, now, c);
  }

  lemma NewFileKept(was: seq<Node>, now: seq<Node>, lay: Layout, c: seq<nat>)
    requires Rep(was, lay) && |now| == |was|
    requires forall k :: 0 <= k < |c| ==> c[k] < |was| && !was[c[k]].used
    requires forall i :: 0 <= i < |was| && i !in c ==> now[i] == was[i]
    ensures OthersKept(was, now, lay, {}, c) && Available(lay, {}, c)
  {
    hide Chained, Owned;
  }

  /** Nodes that were free and are free again are in no chain. */
  lemma StillFree(was: seq<Node>, now: seq<Node>, lay: Layout, c: seq<nat>)
    requires Rep(was, lay) && |now| == |was|
    requires forall k :: 0 <= k < |c| ==> c[k] < |was| && !was[c[k]].used
    requires forall i :: i in c ==> i < |now| && !now[i].used
    requires forall i :: 0 <= i < |was| && i !in c ==> now[i] == was[i]
    ensures Rep(now, lay)
  {
    hide Rep, OthersKept;
    NoneDisturbed(was, now, lay, c);
    RemovedRep(was, now, lay, {});
    RemovedNothing(lay);
  }

  lemma NoneDisturbed(was: seq<Node>, now: seq<Node>, lay: Layout, c: seq<nat>)
    requires Rep(was, lay) && |now| == |was|
    requires forall k :: 0 <= k < |c| ==> c[k] < |was| && !was[c[k]].used
    requires forall i :: i in c ==> i < |now| && !now[i].used
    requires forall i :: 0 <= i < |was| && i !in c ==> now[i] == was[i]
    ensures OthersKept(was, now, lay, {}, [])
  {
    hide Chained, Owned;
  }

  lemma RemovedNothing(lay: Layout)
    ensures Removed(lay, {}) == lay
  {
    assert Without(lay.owner, {}) == lay.owner && lay.items - {} == lay.items && lay.chains - {} == lay.chains;
  }

  /** A step of the copy can be made: a free node for a directory, and for a file one that can be read and stored. */
  ghost predicate StepOk(o: Overlay, p: Path, dirs: bool)
    reads o, o.pool
  {
    if dirs then Sum(o.pool[..], FreeBit) > 0
    else ReadCode(o.Store(), p, 0, o.FileMax()) >= 0 &&
         Sum(o.pool[..], FreeBit) >= Blocks(|ReadBytes(o.Store(), p, 0, o.FileMax())|)
  }

  ghost function StepNodes(o: Overlay, p: Path, dirs: bool): nat
    reads o
  {
    if dirs then 1 else Blocks(|ReadBytes(o.Store(), p, 0, o.FileMax())|)
  }

  ghost function StepItem(o: Overlay, p: Path, oldp: Path, newp: Path, dirs: bool): Item
    requires oldp <= p
    reads o
  {
    Item(Moved(p, oldp, newp), if dirs then DirBody else FileBody(Cut(ReadBytes(o.Store(), p, 0, o.FileMax()))))
  }

  ghost function StepBytes(o: Overlay, p: Path, oldp: Path, newp: Path, dirs: bool): nat
    requires oldp <= p
    reads o
  {
    if dirs then REC_HDR + |Moved(p, oldp, newp)|
    else FileBytes(|Moved(p, oldp, newp)|, |ReadBytes(o.Store(), p, 0, o.FileMax())|)
  }

  /** One step of a pass: copies the entry whose head is slot i, or gives up with everything as it was. */
  method CopyEntry(o: Overlay, i: nat, oldp: Path, newp: Path, dirs: bool) returns (ok: bool, ghost at: nat)
    requires o.Sound() && i < MAX_NODES && Picked(o.pool[i], oldp, dirs) && newp != [] && NoNul(newp)
    requires |newp| + |o.pool[i].path| - |oldp| < PATH_MAX
    modifies o`lay, o.pool, o.tmp
    ensures o.Sound() && (ok <==> old(StepOk(o, o.pool[i].path, dirs)))
    ensures ok ==> at !in old(o.lay.items)
    ensures ok ==> o.lay.items == old(o.lay.items)[at := old(StepItem(o, o.pool[i].path, oldp, newp, dirs))]
    ensures !ok ==> o.lay == old(o.lay)
    ensures forall j :: 0 <= j < o.pool.Length && old(o.pool[j].used) ==> o.pool[j] == old(o.pool[j])
    ensures ok ==> Sum(o.pool[..], FreeBit) == old(Sum(o.pool[..], FreeBit) - StepNodes(o, o.pool[i].path, dirs))
    ensures ok ==>
      Sum(o.pool[..], HeadBytes) == old(Sum(o.pool[..], HeadBytes) + StepBytes(o, o.pool[i].path, oldp, newp, dirs))
    ensures ok ==> at == old(FirstFree(UsedBits(o.pool[..])))
    ensures UsedBits(o.pool[..]) == if ok then old(Taken(UsedBits(o.pool[..]), StepNodes(o, o.pool[i].path, dirs)))
      else old(UsedBits(o.pool[..]))
  {
    hide Sum, Rep, Blocks, FileBytes, Replaced, Normalize, StoreOf, GoodItems, ReadBytes, ReadCode, UsedBits, Taken,
         FirstFree;
    ghost var was := o.pool[..];
    var p := o.pool[i].path;
    var target := Moved(p, oldp, newp);
    TargetGood(o.pool[..], o.lay, i, oldp, newp);
    if dirs {
      var n := Alloc(o.pool);
      if n < 0 { return false, 0; }
      AddDir(o, target, n, o.pool[n].data);
      OneTaken(was, o.pool[..], n);
      return true, n;
    }
    var got := ReadAt(o, p, o.tmp, o.FileMax(), 0);
    ReadSize(o.Store(), p, o.FileMax());
    if got < 0 { return false, 0; }
    ghost var d := ReadBytes(o.Store(), p, 0, o.FileMax());
    ok, at := AddFile(o, target, o.tmp[..], got);
    assert o.tmp[..][..got] == d;
  }

  lemma OneTaken(was: seq<Node>, now: seq<Node>, n: nat)
    requires n < |was| == |now| && !was[n].used && now[n].used && forall j :: 0 <= j < n ==> was[j].used
    requires forall i :: 0 <= i < |was| && i != n ==> now[i] == was[i]
    ensures n == FirstFree(UsedBits(was)) && UsedBits(now) == Taken(UsedBits(was), 1)
  {
    hide Taken, FirstFree;
    TakenIs(was, now, [n]);
  }

  lemma ReadSize(st: Store, p: Path, limit: nat)
    requires 0 < limit
    ensures ReadCode(st, p, 0, limit) >= 0 ==> ReadCode(st, p, 0, limit) == |ReadBytes(st, p, 0, limit)| <= limit
  {
  }

  lemma TargetGood(pool: seq<Node>, lay: Layout, i: nat, oldp: Path, newp: Path)
    requires Rep(pool, lay) && GoodItems(lay.items) && i < |pool| && pool[i].used && !pool[i].isCont
    requires Under(pool[i].path, oldp) && newp != [] && NoNul(newp) && |newp| + |pool[i].path| - |oldp| < PATH_MAX
    ensures GoodItem(Item(Moved(pool[i].path, oldp, newp), DirBody))
  {
    hide Rep;
    HeadIsItem(pool, lay, i);
    ConcatNoNul(newp, pool[i].path[|oldp|..]);
  }

  // ---------------------------------------------------------------- one pass

  /** The sources copied once the pass has reached slot i: directories go first. */
  ghost function DoneAt(items: Items, old_: Path, dirs: bool, i: nat): set<nat>
  {
    set h | h in items && Source(items, h, old_) && (if items[h].body.DirBody? == dirs then h < i else !dirs)
  }

  ghost function Sources(items: Items, old_: Path): set<nat> { set h | h in items && Source(items, h, old_) }

  lemma DoneEnds(items: Items, old_: Path)
    requires forall h :: h in items ==> h < MAX_NODES
    ensures DoneAt(items, old_, true, 0) == {} && DoneAt(items, old_, true, MAX_NODES) == DoneAt(items, old_, false, 0)
    ensures DoneAt(items, old_, false, MAX_NODES) == Sources(items, old_)
  {
  }

  lemma DoneStep(items: Items, old_: Path, dirs: bool, i: nat)
    ensures var mine := i in items && Source(items, i, old_) && items[i].body.DirBody? == dirs;
      && (mine ==> i !in DoneAt(items, old_, dirs, i))
      && (mine ==> DoneAt(items, old_, dirs, i + 1) == DoneAt(items, old_, dirs, i) + {i})
      && (!mine ==> DoneAt(items, old_, dirs, i + 1) == DoneAt(items, old_, dirs, i))
  {
  }

  /** Every path under the old name still fits under the new one. */
  ghost predicate AllFit(items: Items, old_: Path, new_: Path)
  {
    forall h :: Source(items, h, old_) ==> |new_| + |items[h].path| - |old_| < PATH_MAX
  }

  /** What holds between the steps of any copy: nothing of the original pool is touched. */
  ghost predicate Copying(o: Overlay, pool0: seq<Node>, lay0: Layout, old_: Path, new_: Path)
    reads o, o.pool
  {
    && o.Sound() && Rep(pool0, lay0) && Grown(lay0.items, o.lay.items, new_) && AllFit(o.lay.items, old_, new_)
    && (forall i :: 0 <= i < MAX_NODES && pool0[i].used ==> o.pool[i] == pool0[i])
    && old_ != [] && new_ != [] && NoNul(new_) && !Under(new_, old_)
  }

  /** Of two names above the same path, one is above the other. */
  lemma Nested(q: Path, a: Path, b: Path)
    requires Under(q, a) && Under(q, b)
    ensures Under(b, a) || Under(a, b)
  {
    assert |a| < |b| ==> b[|a|] == q[|a|];
    assert |b| < |a| ==> a[|b|] == q[|b|];
  }

  /** The slots that a pass picks: always an item under the old name, and an original one if nothing disturbs it. */
  lemma PickedItem(o: Overlay, pool0: seq<Node>, lay0: Layout, old_: Path, new_: Path, i: nat, dirs: bool,
                   img: map<nat, nat>, done: set<nat>, limit: nat)
    requires Copying(o, pool0, lay0, old_, new_) && i < MAX_NODES
    ensures Picked(o.pool[i], old_, dirs) <==> Source(o.lay.items, i, old_) && o.lay.items[i].body.DirBody? == dirs
    ensures Picked(o.pool[i], old_, dirs) ==> o.pool[i].path == o.lay.items[i].path
    ensures Undisturbed(lay0.items, old_, new_) && Imaged(lay0.items, o.lay.items, img, done, old_, new_, limit) ==>
      (Picked(o.pool[i], old_, dirs) <==> Source(lay0.items, i, old_) && lay0.items[i].body.DirBody? == dirs)
  {
    hide Rep, HeadBytes, EntryBytes, ImageOf, GoodItems, Undisturbed;
    if o.pool[i].used && !o.pool[i].isCont { HeadIsItem(o.pool[..], o.lay, i); }
    if i in o.lay.items { HeadOf(o.pool[..], o.lay, i); }
    if Picked(o.pool[i], old_, dirs) && i !in lay0.items && Undisturbed(lay0.items, old_, new_) {
      Nested(o.pool[i].path, old_, new_);
      if Imaged(lay0.items, o.lay.items, img, done, old_, new_, limit) {
        var k :| k in img && img[k] == i;
        NotAbove(lay0.items, k, old_, new_);
      }
    }
  }

  lemma NotAbove(items: Items, h: nat, old_: Path, new_: Path)
    requires Undisturbed(items, old_, new_) && Source(items, h, old_)
    ensures !Under(old_, new_)
  {
  }

  /** A file of the subtree is read as before the copy. */
  lemma ReadSame(items0: Items, items: Items, old_: Path, new_: Path, h: nat, limit: nat)
    requires Grown(items0, items, new_) && Undisturbed(items0, old_, new_) && FileSource(items0, h, old_)
    ensures var p := items0[h].path;
      && ReadBytes(StoreOf(items), p, 0, limit) == ReadBytes(StoreOf(items0), p, 0, limit)
      && ReadCode(StoreOf(items), p, 0, limit) == ReadCode(StoreOf(items0), p, 0, limit)
  {
    hide StoreOf, Normalize, Slice;
    var q := Normalize(items0[h].path);
    forall k: nat ensures At(items0, q, k) <==> At(items, q, k) { }
    SameFirst(items0, items, q);
  }

  ghost function StageOf(o: Overlay, ok: bool): Stage
    reads o, o.pool
  {
    Stage(o.lay.items, UsedBits(o.pool[..]), ok)
  }

  /** The step at one slot. */
  method CopySlot(o: Overlay, i: nat, oldp: Path, newp: Path, dirs: bool,
                  ghost pool0: seq<Node>, ghost lay0: Layout, ghost img: map<nat, nat>)
                    returns (ok: bool, ghost img': map<nat, nat>)
    requires Copying(o, pool0, lay0, oldp, newp) && i < MAX_NODES
    requires Undisturbed(lay0.items, oldp, newp) ==>
      Imaged(lay0.items, o.lay.items, img, DoneAt(lay0.items, oldp, dirs, i), oldp, newp, o.FileMax())
    modifies o`lay, o.pool, o.tmp
    ensures Copying(o, pool0, lay0, oldp, newp)
    ensures StageOf(o, ok) == StageStep(old(StageOf(o, true)), i, oldp, newp, o.FileMax(), dirs)
    ensures !ok ==> img' == img && o.lay == old(o.lay)
    ensures Undisturbed(lay0.items, oldp, newp) && ok ==>
      && Imaged(lay0.items, o.lay.items, img', DoneAt(lay0.items, oldp, dirs, i + 1), oldp, newp, o.FileMax())
      && Sum(o.pool[..], FreeBit) + CopyNodes(lay0.items, oldp, o.FileMax(), dirs)(i) == old(Sum(o.pool[..], FreeBit))
      && Sum(o.pool[..], HeadBytes) ==
        old(Sum(o.pool[..], HeadBytes)) + CopyBytes(lay0.items, oldp, newp, o.FileMax(), dirs)(i)
      && (FileSource(lay0.items, i, oldp) && !dirs ==> Reads(lay0.items, i, o.FileMax()))
    ensures Undisturbed(lay0.items, oldp, newp) && !ok ==>
      || CopyNodes(lay0.items, oldp, o.FileMax(), dirs)(i) > old(Sum(o.pool[..], FreeBit))
      || (!dirs && FileSource(lay0.items, i, oldp) && !Reads(lay0.items, i, o.FileMax()))
  {
    hide Sum, Imaged, Undisturbed, ImageOf, StoreOf, Rep, GoodItems, Blocks, FileBytes, ReadBytes, ReadCode, DoneAt,
         Grown, AllFit, Moved, StageStep, UsedBits, Taken, FirstFree;
    ghost var done, limit, items := DoneAt(lay0.items, oldp, dirs, i), o.FileMax(), o.lay.items;
    ghost var stage := StageOf(o, true);
    FreeSlotsSum(o.pool[..]);
    StageIs(stage, i, oldp, newp, limit, dirs);
    PickedItem(o, pool0, lay0, oldp, newp, i, dirs, img, done, limit);
    DoneStep(lay0.items, oldp, dirs, i);
    img' := img;
    if !Picked(o.pool[i], oldp, dirs) { return true, img; }
    FitsHere(items, i, oldp, newp);
    if Undisturbed(lay0.items, oldp, newp) {
      SameItem(lay0.items, items, i, newp);
      if !dirs { ReadSame(lay0.items, items, oldp, newp, i, limit); }
    }
    ghost var it := StepItem(o, o.pool[i].path, oldp, newp, dirs);
    ghost var at;
    ok, at := CopyEntry(o, i, oldp, newp, dirs);
    if ok {
      GrownMore(lay0.items, items, i, oldp, newp, at, it);
      if Undisturbed(lay0.items, oldp, newp) {
        ImageIs(lay0.items, i, oldp, newp, limit);
        ImagedMore(lay0.items, items, img, done, oldp, newp, limit, i, at);
        img' := img[i := at];
      }
    }
  }

  lemma StageIs(g: Stage, i: nat, old_: Path, new_: Path, limit: nat, dirs: bool)
    ensures g.ok && !(Source(g.items, i, old_) && g.items[i].body.DirBody? == dirs) ==>
      StageStep(g, i, old_, new_, limit, dirs) == g
    ensures g.ok && Source(g.items, i, old_) && g.items[i].body.DirBody? == dirs ==>
      var p, st := g.items[i].path, StoreOf(g.items);
      var d := ReadBytes(st, p, 0, limit);
      var n := if dirs then 1 else Blocks(|d|);
      StageStep(g, i, old_, new_, limit, dirs) ==
      if (dirs || ReadCode(st, p, 0, limit) >= 0) && n <= FreeSlots(g.used)
      then Stage(g.items[FirstFree(g.used) := Item(Moved(p, old_, new_), if dirs then DirBody else FileBody(Cut(d)))],
                 Taken(g.used, n), true)
      else g.(ok := false)
  {
    hide StoreOf, ReadBytes, ReadCode, Taken, FirstFree, FreeSlots, Moved;
  }

  lemma FitsHere(items: Items, h: nat, old_: Path, new_: Path)
    requires AllFit(items, old_, new_) && Source(items, h, old_)
    ensures |new_| + |items[h].path| - |old_| < PATH_MAX
  {
  }

  lemma SameItem(items0: Items, items: Items, h: nat, new_: Path)
    requires Grown(items0, items, new_) && h in items0
    ensures h in items && items[h] == items0[h]
  {
  }

  lemma ImageIs(items: Items, h: nat, old_: Path, new_: Path, limit: nat)
    requires Source(items, h, old_)
    ensures ImageOf(items, h, old_, new_, limit) == Item(Moved(items[h].path, old_, new_),
      if items[h].body.DirBody? then DirBody else FileBody(Cut(ReadBytes(StoreOf(items), items[h].path, 0, limit))))
  {
  }

  /** An image of any item keeps what holds of any copy: a path copied twice only gets shorter. */
  lemma GrownMore(items0: Items, items: Items, h: nat, old_: Path, new_: Path, at: nat, it: Item)
    requires Grown(items0, items, new_) && AllFit(items, old_, new_) && !Under(new_, old_)
    requires Source(items, h, old_) && at !in items && it.path == Moved(items[h].path, old_, new_)
    ensures Grown(items0, items[at := it], new_) && AllFit(items[at := it], old_, new_)
  {
    MovedBelow(items[h].path, old_, new_);
    if Under(it.path, old_) { Nested(it.path, old_, new_); }
  }

  /** One pass over the pool. If nothing disturbs it, it succeeds exactly when every file is read and there are nodes
      for all of them, and then exactly the originals of its kind have been copied, once; otherwise it stops half way.
      */
  method CopyPass(o: Overlay, oldp: Path, newp: Path, dirs: bool,
                  ghost pool0: seq<Node>, ghost lay0: Layout, ghost img: map<nat, nat>)
    returns (ok: bool, ghost img': map<nat, nat>, ghost upTo: nat)
    requires Copying(o, pool0, lay0, oldp, newp)
    requires Undisturbed(lay0.items, oldp, newp) ==>
      Imaged(lay0.items, o.lay.items, img, DoneAt(lay0.items, oldp, dirs, 0), oldp, newp, o.FileMax())
    modifies o`lay, o.pool, o.tmp
    ensures Copying(o, pool0, lay0, oldp, newp)
    ensures StageOf(o, ok) == StagePass(old(StageOf(o, true)), MAX_NODES, oldp, newp, o.FileMax(), dirs)
    ensures Undisturbed(lay0.items, oldp, newp) ==>
      (ok <==>
        && (dirs || ReadBelow(lay0.items, oldp, o.FileMax(), MAX_NODES))
        && Tally(CopyNodes(lay0.items, oldp, o.FileMax(), dirs), MAX_NODES) <= old(Sum(o.pool[..], FreeBit)))
    ensures Undisturbed(lay0.items, oldp, newp) ==>
      Imaged(lay0.items, o.lay.items, img', DoneAt(lay0.items, oldp, dirs, upTo), oldp, newp, o.FileMax())
    ensures ok ==> upTo == MAX_NODES
    ensures Undisturbed(lay0.items, oldp, newp) && ok ==>
      && Sum(o.pool[..], FreeBit) + Tally(CopyNodes(lay0.items, oldp, o.FileMax(), dirs), MAX_NODES)
         == old(Sum(o.pool[..], FreeBit))
      && Sum(o.pool[..], HeadBytes)
         == old(Sum(o.pool[..], HeadBytes)) + Tally(CopyBytes(lay0.items, oldp, newp, o.FileMax(), dirs), MAX_NODES)
  {
    hide Sum, Copying, Imaged, Undisturbed, DoneAt, CopyNodes, CopyBytes, Reads, FileSource, Tally, ReadBelow,
         StageStep, StagePass, StageOf;
    ghost var stage := StageOf(o, true);
    PassNone(stage, oldp, newp, o.FileMax(), dirs);
    ghost var free, bytes, limit := Sum(o.pool[..], FreeBit), Sum(o.pool[..], HeadBytes), o.FileMax();
    ghost var nodesOf, bytesOf := CopyNodes(lay0.items, oldp, limit, dirs),
      CopyBytes(lay0.items, oldp, newp, limit, dirs);
    ghost var und := Undisturbed(lay0.items, oldp, newp);
    img', upTo := img, 0;
    TallyNone(nodesOf);
    TallyNone(bytesOf);
    ReadNone(lay0.items, oldp, limit);
    for i := 0 to MAX_NODES
      invariant Copying(o, pool0, lay0, oldp, newp)
      invariant StageOf(o, true) == StagePass(stage, i, oldp, newp, limit, dirs)
      invariant und ==> Imaged(lay0.items, o.lay.items, img', DoneAt(lay0.items, oldp, dirs, i), oldp, newp, limit)
      invariant und ==> Sum(o.pool[..], FreeBit) + Tally(nodesOf, i) == free
      invariant und ==> Sum(o.pool[..], HeadBytes) == bytes + Tally(bytesOf, i)
      invariant und && !dirs ==> ReadBelow(lay0.items, oldp, limit, i)
    {
      TallyStep(nodesOf, i);
      TallyStep(bytesOf, i);
      TallyMore(nodesOf, i + 1, MAX_NODES);
      ReadStep(lay0.items, oldp, limit, i);
      ok, img' := CopySlot(o, i, oldp, newp, dirs, pool0, lay0, img');
      PassStep(stage, i, oldp, newp, limit, dirs);
      if !ok {
        StageOk(o, ok);
        StageStopped(stage, i + 1, MAX_NODES, oldp, newp, limit, dirs);
        return false, img', i;
      }
    }
    return true, img', MAX_NODES;
  }

  lemma PassNone(g: Stage, old_: Path, new_: Path, limit: nat, dirs: bool)
    ensures StagePass(g, 0, old_, new_, limit, dirs) == g
  {
  }

  lemma PassStep(g: Stage, n: nat, old_: Path, new_: Path, limit: nat, dirs: bool)
    ensures StagePass(g, n + 1, old_, new_, limit, dirs) ==
      StageStep(StagePass(g, n, old_, new_, limit, dirs), n, old_, new_, limit, dirs)
  {
  }

  lemma StageOk(o: Overlay, ok: bool)
    ensures StageOf(o, ok).ok == ok
  {
  }

  lemma ReadNone(items: Items, old_: Path, limit: nat)
    ensures ReadBelow(items, old_, limit, 0)
  {
  }

  lemma ReadStep(items: Items, old_: Path, limit: nat, n: nat)
    ensures ReadBelow(items, old_, limit, n + 1) <==>
      ReadBelow(items, old_, limit, n) && (FileSource(items, n, old_) ==> Reads(items, n, limit))
    ensures n < MAX_NODES && FileSource(items, n, old_) && !Reads(items, n, limit) ==>
      !ReadBelow(items, old_, limit, MAX_NODES)
  {
    hide Reads;
  }

  ghost predicate ReadBelow(items: Items, old_: Path, limit: nat, n: nat)
  {
    forall h: nat :: h < n && FileSource(items, h, old_) ==> Reads(items, h, limit)
  }

  // ---------------------------------------------------------------- the scan

  /** The scan before a copy: nodes and bytes expected, or -1 as soon as one path would not fit. */
  method ScanCopy(o: Overlay, oldp: Path, newp: Path) returns (nodes: int, bytes: nat)
    requires o.Sound() && oldp != []
    ensures nodes < 0 <==> TooLong(o.Store(), oldp, newp)
    ensures nodes < 0 <==> !AllFit(o.lay.items, oldp, newp)
    ensures nodes >= 0 ==> nodes == Tally(ScanNodes(o.lay.items, oldp), MAX_NODES)
    ensures nodes >= 0 ==> bytes == Tally(ScanBytes(o.lay.items, oldp, newp), MAX_NODES)
  {
    hide Sum, Rep, Blocks, FileBytes, HeadBytes, StoreOf, Linked, GoodItems, Tally, ScanNodes, ScanBytes;
    ghost var pl, items := o.pool[..], o.lay.items;
    ghost var nodesOf, bytesOf := ScanNodes(items, oldp), ScanBytes(items, oldp, newp);
    TallyNone(nodesOf);
    TallyNone(bytesOf);
    nodes, bytes := 0, 0;
    for i := 0 to MAX_NODES
      invariant nodes >= 0 && nodes == Tally(nodesOf, i) && bytes == Tally(bytesOf, i)
      invariant forall h: nat :: h < i && Source(items, h, oldp) ==> |newp| + |items[h].path| - |oldp| < PATH_MAX
    {
      var n := o.pool[i];
      SlotFacts(pl, o.lay, i);
      TallyStep(nodesOf, i);
      TallyStep(bytesOf, i);
      ScanAt(pl, o.lay, i, oldp, newp);
      if n.used && !n.isCont && Under(n.path, oldp) {
        var rest := |n.path| - |oldp|;
        if |newp| + rest >= PATH_MAX {
          Seen(items, i);
          return -1, bytes;
        }
        var len := 1;
        if !n.isDir { len := ChainLen(o.pool, i, o.lay.chains[i]); }
        nodes := nodes + len;
        bytes := bytes + if n.isDir then REC_HDR + |newp| + rest else FileBytes(|newp| + rest, n.size);
      }
    }
    forall h: nat | Source(items, h, oldp) ensures h < MAX_NODES { HeadOf(pl, o.lay, h); }
    forall p | p in o.Store() && Under(p, oldp) ensures |newp| + |p| - |oldp| < PATH_MAX {
      var h := Behind(items, p);
      assert Source(items, h, oldp);
    }
  }

  lemma TallyNone(f: nat -> nat)
    ensures Tally(f, 0) == 0
  {
  }

  lemma TallyStep(f: nat -> nat, n: nat)
    ensures Tally(f, n + 1) == Tally(f, n) + f(n)
  {
  }

  /** What the scan adds for one slot. */
  lemma ScanAt(pool: seq<Node>, lay: Layout, i: nat, oldp: Path, newp: Path)
    requires Rep(pool, lay) && i < |pool|
    ensures !(pool[i].used && !pool[i].isCont && Under(pool[i].path, oldp)) ==>
      ScanNodes(lay.items, oldp)(i) == 0 && ScanBytes(lay.items, oldp, newp)(i) == 0
    ensures pool[i].used && !pool[i].isCont && Under(pool[i].path, oldp) ==>
      && i in lay.chains && ScanNodes(lay.items, oldp)(i) == (if pool[i].isDir then 1 else |lay.chains[i]|)
      && ScanBytes(lay.items, oldp, newp)(i) == var rest := |pool[i].path| - |oldp|;
         if pool[i].isDir then REC_HDR + |newp| + rest else FileBytes(|newp| + rest, pool[i].size)
  {
    hide Rep, FileBytes, Linked;
    SlotFacts(pool, lay, i);
  }

  lemma SlotFacts(pool: seq<Node>, lay: Layout, i: nat)
    requires Rep(pool, lay) && i < |pool|
    ensures pool[i].used && !pool[i].isCont <==> i in lay.items
    ensures i in lay.items ==>
      i in lay.chains && lay.chains[i] != [] && lay.chains[i][0] == i && Linked(pool, lay.chains[i])
    ensures i in lay.items ==> pool[i].path == lay.items[i].path && pool[i].isDir == lay.items[i].body.DirBody?
    ensures i in lay.items && lay.items[i].body.FileBody? ==>
      |lay.chains[i]| == |lay.items[i].body.blocks| && pool[i].size == |Flat(lay.items[i].body.blocks)|
  {
    hide HeadBytes, EntryBytes;
    if pool[i].used && !pool[i].isCont { HeadIsItem(pool, lay, i); }
    if i in lay.items {
      HeadOf(pool, lay, i);
      ChainIsLinked(pool, lay.chains[i], lay.items[i]);
    }
  }

  lemma CostAt(pool: seq<Node>, lay: Layout, h: nat, old_: Path, new_: Path, limit: nat)
    requires Rep(pool, lay) && AllReadBack(lay.items, old_, limit)
    ensures CopyNodes(lay.items, old_, limit, true)(h) + CopyNodes(lay.items, old_, limit, false)(h)
         <= ScanNodes(lay.items, old_)(h)
    ensures CopyBytes(lay.items, old_, new_, limit, true)(h) + CopyBytes(lay.items, old_, new_, limit, false)(h)
         <= ScanBytes(lay.items, old_, new_)(h)
  {
    hide StoreOf, ReadBytes, ReadCode, Flat, Blocks, FileBytes, Owned, UsedOwned;
    if FileSource(lay.items, h, old_) {
      assert ReadsBack(lay.items, h, limit);
      assert ChainOk(pool, lay.chains[h], lay.items[h]);
      CutCount(lay.items[h].body.blocks);
    }
  }

  /** If every file is read back, the copy costs no more nodes and bytes than the scan expects. */
  lemma CostExpected(pool: seq<Node>, lay: Layout, old_: Path, new_: Path, limit: nat)
    requires Rep(pool, lay) && AllReadBack(lay.items, old_, limit)
    ensures Tally(CopyNodes(lay.items, old_, limit, true), MAX_NODES)
      + Tally(CopyNodes(lay.items, old_, limit, false), MAX_NODES)
         <= Tally(ScanNodes(lay.items, old_), MAX_NODES)
    ensures Tally(CopyBytes(lay.items, old_, new_, limit, true), MAX_NODES)
          + Tally(CopyBytes(lay.items, old_, new_, limit, false), MAX_NODES)
         <= Tally(ScanBytes(lay.items, old_, new_), MAX_NODES)
  {
    hide *;
    var items := lay.items;
    forall h: nat
      ensures CopyNodes(items, old_, limit, true)(h) + CopyNodes(items, old_, limit, false)(h) <=
        ScanNodes(items, old_)(h)
      ensures CopyBytes(items, old_, new_, limit, true)(h) + CopyBytes(items, old_, new_, limit, false)(h)
           <= ScanBytes(items, old_, new_)(h)
    {
      CostAt(pool, lay, h, old_, new_, limit);
    }
    TallySum(CopyNodes(items, old_, limit, true), CopyNodes(items, old_, limit, false), ScanNodes(items, old_),
             MAX_NODES);
    TallySum(CopyBytes(items, old_, new_, limit, true), CopyBytes(items, old_, new_, limit, false),
             ScanBytes(items, old_, new_), MAX_NODES);
  }

  /** And exactly what the scan expects, if the blocks of every file are full besides. */
  lemma CostExact(pool: seq<Node>, lay: Layout, old_: Path, new_: Path, limit: nat)
    requires Rep(pool, lay) && AllReadBack(lay.items, old_, limit) && AllFull(lay.items)
    ensures Tally(ScanNodes(lay.items, old_), MAX_NODES) ==
      Tally(CopyNodes(lay.items, old_, limit, true), MAX_NODES)
      + Tally(CopyNodes(lay.items, old_, limit, false), MAX_NODES)
    ensures Tally(ScanBytes(lay.items, old_, new_), MAX_NODES) ==
      Tally(CopyBytes(lay.items, old_, new_, limit, true), MAX_NODES)
      + Tally(CopyBytes(lay.items, old_, new_, limit, false), MAX_NODES)
  {
    hide *;
    var items := lay.items;
    CostExpected(pool, lay, old_, new_, limit);
    forall h: nat
      ensures ScanNodes(items, old_)(h) <=
        CopyNodes(items, old_, limit, true)(h) + CopyNodes(items, old_, limit, false)(h)
      ensures ScanBytes(items, old_, new_)(h) <=
        CopyBytes(items, old_, new_, limit, true)(h) + CopyBytes(items, old_, new_, limit, false)(h)
    {
      FullCost(pool, lay, h, old_, new_, limit);
    }
    TallyBelow(CopyNodes(items, old_, limit, true), CopyNodes(items, old_, limit, false), ScanNodes(items, old_),
               MAX_NODES);
    TallyBelow(CopyBytes(items, old_, new_, limit, true), CopyBytes(items, old_, new_, limit, false),
               ScanBytes(items, old_, new_), MAX_NODES);
  }

  lemma {:induction false} TallyBelow(f: nat -> nat, g: nat -> nat, t: nat -> nat, n: nat)
    requires forall h: nat :: t(h) <= f(h) + g(h)
    ensures Tally(t, n) <= Tally(f, n) + Tally(g, n)
  {
    if n > 0 { TallyBelow(f, g, t, n - 1); }
  }

  lemma FullCost(pool: seq<Node>, lay: Layout, h: nat, old_: Path, new_: Path, limit: nat)
    requires Rep(pool, lay) && AllReadBack(lay.items, old_, limit) && AllFull(lay.items)
    ensures ScanNodes(lay.items, old_)(h) <=
      CopyNodes(lay.items, old_, limit, true)(h) + CopyNodes(lay.items, old_, limit, false)(h)
    ensures ScanBytes(lay.items, old_, new_)(h) <=
      CopyBytes(lay.items, old_, new_, limit, true)(h) + CopyBytes(lay.items, old_, new_, limit, false)(h)
  {
    hide StoreOf, ReadBytes, ReadCode, Flat, Blocks, FileBytes, Owned, UsedOwned, Full;
    if FileSource(lay.items, h, old_) {
      assert ReadsBack(lay.items, h, limit);
      assert ChainOk(pool, lay.chains[h], lay.items[h]);
      FullIsCut(lay.items[h].body.blocks);
      CutCount(Cut(Flat(lay.items[h].body.blocks)));
      assert Blocks(|Flat(lay.items[h].body.blocks)|) == |lay.items[h].body.blocks|;
    }
  }

  // ---------------------------------------------------------------- what copying does to the store

  /** No image of the subtree lands on a stored path. */
  ghost predicate NoneTaken(st: Store, old_: Path, new_: Path)
  {
    forall p :: p in st && Under(p, old_) ==> Moved(p, old_, new_) !in st
  }

  /** The entry that is copied to q. */
  ghost function SourceOf(st: Store, old_: Path, new_: Path, q: Path): (p: Path)
    requires exists p :: p in st && Under(p, old_) && Moved(p, old_, new_) == q
    ensures p in st && Under(p, old_) && Moved(p, old_, new_) == q
  {
    var p :| p in st && Under(p, old_) && Moved(p, old_, new_) == q;
    p
  }

  /** The store with the images of the subtree added. */
  ghost function CopyStore(st: Store, old_: Path, new_: Path): Store
  {
    st + map q | q in (set p | p in st && Under(p, old_) :: Moved(p, old_, new_)) :: st[SourceOf(st, old_, new_, q)]
  }

  lemma CopiedTo(st: Store, p: Path, old_: Path, new_: Path)
    requires p in st && Under(p, old_)
    ensures Moved(p, old_, new_) in CopyStore(st, old_, new_) &&
      CopyStore(st, old_, new_)[Moved(p, old_, new_)] == st[p]
  {
    var q := Moved(p, old_, new_);
    assert q in (set x | x in st && Under(x, old_) :: Moved(x, old_, new_));
    MovedInjective(p, SourceOf(st, old_, new_, q), old_, new_);
  }

  lemma CopiedFrom(st: Store, q: Path, old_: Path, new_: Path) returns (p: Path)
    requires q in CopyStore(st, old_, new_) && q !in st
    ensures p in st && Under(p, old_) && Moved(p, old_, new_) == q && CopyStore(st, old_, new_)[q] == st[p]
  {
    p := SourceOf(st, old_, new_, q);
  }

  lemma CopiedKept(st: Store, p: Path, old_: Path, new_: Path)
    requires p in st && NoneTaken(st, old_, new_)
    ensures p in CopyStore(st, old_, new_) && CopyStore(st, old_, new_)[p] == st[p]
  {
    assert p !in (set x | x in st && Under(x, old_) :: Moved(x, old_, new_));
  }

  /** Unique paths stay unique exactly when no image lands on a stored path; then, if every file was read back, the
      store has gained exactly the images. */
  lemma CopiedUnique(items: Items, items': Items, img: map<nat, nat>, old_: Path, new_: Path, limit: nat)
    requires Unique(items) && Imaged(items, items', img, Sources(items, old_), old_, new_, limit)
    ensures Unique(items') <==> NoneTaken(StoreOf(items), old_, new_)
    ensures Unique(items') && AllReadBack(items, old_, limit) ==>
      StoreOf(items') == CopyStore(StoreOf(items), old_, new_)
  {
    hide StoreOf, Imaged, Unique, NoneTaken, CopyStore, AllReadBack;
    if NoneTaken(StoreOf(items), old_, new_) {
      CopyIsUnique(items, items', img, old_, new_, limit);
      if AllReadBack(items, old_, limit) { CopiedStore(items, items', img, old_, new_, limit); }
    } else {
      CopyTwice(items, items', img, old_, new_, limit);
    }
  }

  lemma CopyTwice(items: Items, items': Items, img: map<nat, nat>, old_: Path, new_: Path, limit: nat)
    requires Imaged(items, items', img, Sources(items, old_), old_, new_, limit) &&
      !NoneTaken(StoreOf(items), old_, new_)
    ensures !Unique(items')
  {
    hide StoreOf;
    var p :| p in StoreOf(items) && Under(p, old_) && Moved(p, old_, new_) in StoreOf(items);
    var h := Behind(items, p);
    var k := Behind(items, Moved(p, old_, new_));
    assert h in Sources(items, old_) && items'[img[h]].path == items'[k].path && img[h] != k;
  }

  lemma CopyIsUnique(items: Items, items': Items, img: map<nat, nat>, old_: Path, new_: Path, limit: nat)
    requires Unique(items) && Imaged(items, items', img, Sources(items, old_), old_, new_, limit)
    requires NoneTaken(StoreOf(items), old_, new_)
    ensures Unique(items')
  {
    hide StoreOf;
    forall h, k | h in items' && k in items' && items'[h].path == items'[k].path ensures h == k {
      if h in items && k in items {
      } else if h !in items && k !in items {
        var a :| a in img && img[a] == h;
        var b :| b in img && img[b] == k;
        MovedInjective(items[a].path, items[b].path, old_, new_);
      } else if h in items {
        var b :| b in img && img[b] == k;
        Seen(items, h);
        Seen(items, b);
      } else {
        var a :| a in img && img[a] == h;
        Seen(items, k);
        Seen(items, a);
      }
    }
  }

  lemma ImageEntry(items: Items, h: nat, old_: Path, new_: Path, limit: nat)
    requires Source(items, h, old_) && AllReadBack(items, old_, limit)
    ensures EntryOf(ImageOf(items, h, old_, new_, limit).body) == EntryOf(items[h].body)
    ensures ImageOf(items, h, old_, new_, limit).path == Moved(items[h].path, old_, new_)
  {
    hide StoreOf, ReadBytes, ReadCode;
    if items[h].body.FileBody? {
      assert ReadsBack(items, h, limit);
      CutFlat(Flat(items[h].body.blocks));
    }
  }

  lemma CopiedStore(items: Items, items': Items, img: map<nat, nat>, old_: Path, new_: Path, limit: nat)
    requires Unique(items) && Imaged(items, items', img, Sources(items, old_), old_, new_, limit) && Unique(items')
    requires NoneTaken(StoreOf(items), old_, new_) && AllReadBack(items, old_, limit)
    ensures StoreOf(items') == CopyStore(StoreOf(items), old_, new_)
  {
    hide StoreOf, CopyStore, ImageOf, Unique, NoneTaken, AllReadBack, EntryOf;
    var st, a, b := StoreOf(items), StoreOf(items'), CopyStore(StoreOf(items), old_, new_);
    forall q | q in a ensures q in b && b[q] == a[q] {
      var h := Behind(items', q);
      if h in items {
        Seen(items, h);
        CopiedKept(st, q, old_, new_);
      } else {
        var k :| k in img && img[k] == h;
        Seen(items, k);
        ImageEntry(items, k, old_, new_, limit);
        CopiedTo(st, items[k].path, old_, new_);
      }
    }
    forall q | q in b ensures q in a {
      if q in st {
        var h := Behind(items, q);
        Seen(items', h);
      } else {
        var p := CopiedFrom(st, q, old_, new_);
        var h := Behind(items, p);
        ImageEntry(items, h, old_, new_, limit);
        assert h in Sources(items, old_);
        Seen(items', img[h]);
      }
    }
    assert a.Keys == b.Keys;
  }

  // ---------------------------------------------------------------- copying within a store in order

  /** Copying the whole subtree keeps the tree exactly when it is portable. */
  lemma CopiedTree(st: Store, ird: Initrd, old_: Path, new_: Path)
    requires CanMove(st, ird, old_, new_)
    ensures Tree(CopyStore(st, old_, new_), ird) <==> Portable(st, old_, new_)
  {
    hide MoveStore, CopyStore;
    var st', moved := CopyStore(st, old_, new_), MoveStore(st, old_, new_);
    FreeIsVacant(st, ird, new_);
    VacantIsClear(st, old_, new_);
    VacantIsNoneTaken(st, old_, new_);
    forall q | Under(q, new_) ensures (q in st' <==> q in moved) && (q in st' ==> st'[q] == moved[q]) {
      if q in moved {
        var p := MovedFrom(st, q, old_, new_);
        CopiedTo(st, p, old_, new_);
      } else if q in st' {
        var p := CopiedFrom(st, q, old_, new_);
        MovedTo(st, p, old_, new_);
      }
    }
    forall p | p in st && StrictlyUnder(p, old_)
      ensures Moved(p, old_, new_) in st' && st'[Moved(p, old_, new_)] == st[p]
      ensures (var q := Moved(p, old_, new_); Canon(q) && DirAt(st', ird, Up(q)) && (st[p].File? ==> !ird.IsDir(q)))
              <==> PortableAt(st, p, new_)
    {
      CopiedTo(st, p, old_, new_);
      MovedEntry(st, st', ird, p, old_, new_);
    }
    if Portable(st, old_, new_) {
      forall q | q in st' ensures Canon(q) && DirAt(st', ird, Up(q)) && (st'[q].File? ==> !ird.IsDir(q)) {
        if q in st {
          CopiedKept(st, q, old_, new_);
          if Up(q) in st { CopiedKept(st, Up(q), old_, new_); }
        } else {
          var p := CopiedFrom(st, q, old_, new_);
          if p == old_ {
            assert q == new_ && DirAt(st, ird, Up(new_));
            if Up(new_) in st { CopiedKept(st, Up(new_), old_, new_); }
          }
        }
      }
    }
  }

  lemma VacantIsNoneTaken(st: Store, old_: Path, new_: Path)
    requires Vacant(st, new_)
    ensures NoneTaken(st, old_, new_)
  {
    forall p | p in st && Under(p, old_) ensures Moved(p, old_, new_) !in st { MovedBelow(p, old_, new_); }
  }

  /** A store in order stays so under a copy that passes the checks exactly when the move keeps it. */
  lemma CopyKeepsTree(st: Store, ird: Initrd, old_: Path, new_: Path)
    requires Tree(st, ird) && Trimmed(old_) && Trimmed(new_) && old_ != [] && new_ != [] && old_ != new_
    requires NoNul(old_) && NoNul(new_) && MoveRefusal(st, ird, old_, new_) == OV_OK
    ensures Vacant(st, new_) && (Tree(CopyStore(st, old_, new_), ird) <==> MoveKeeps(st, old_, new_))
  {
    hide CopyStore, MoveRefusal, Normalize;
    MoveIsClean(st, ird, old_, new_);
    VacantIsNoneTaken(st, old_, new_);
    if p :| p in st && Under(p, old_) {
      assert !DotSlash(old_) by { assert |old_| >= 2 ==> p[0] == old_[0] && p[1] == old_[1]; }
      if DotSlash(new_) {
        CopiedTo(st, p, old_, new_);
        assert DotSlash(Moved(p, old_, new_));
      } else {
        CopiedTree(st, ird, old_, new_);
        assert Portable(st, old_, new_) <==> MoveKeeps(st, old_, new_);
      }
    } else {
      NothingCopied(st, old_, new_);
    }
  }

  lemma NothingCopied(st: Store, old_: Path, new_: Path)
    requires forall p :: p in st ==> !Under(p, old_)
    ensures CopyStore(st, old_, new_) == st
  {
    hide CopyStore;
    var st' := CopyStore(st, old_, new_);
    forall p | p in st ensures p in st' && st'[p] == st[p] { CopiedKept(st, p, old_, new_); }
    forall q | q in st' && q !in st ensures false { var p := CopiedFrom(st, q, old_, new_); }
    assert st'.Keys == st.Keys;
  }

  /** In a store in order nothing disturbs a copy that passes the checks, and every file is read back. */
  lemma ProperCopies(items: Items, ird: Initrd, limit: nat, old_: Path, new_: Path)
    requires Proper(items, ird, limit) && 0 < limit && Vacant(StoreOf(items), new_) && !Under(new_, old_)
    ensures Undisturbed(items, old_, new_) && AllReadBack(items, old_, limit) && NoneTaken(StoreOf(items), old_, new_)
  {
    hide StoreOf, Normalize, Flat, NoneTaken;
    VacantIsNoneTaken(StoreOf(items), old_, new_);
    forall h | Source(items, h, old_)
      ensures !Under(old_, new_) &&
        (items[h].body.FileBody? ==> !Under(Normalize(items[h].path), new_) && ReadsBack(items, h, limit))
    {
      var p := items[h].path;
      Seen(items, h);
      NormalizeCanon(p);
      if Under(old_, new_) { UnderTransitive(p, old_, new_); }
      if items[h].body.FileBody? {
        var d := Flat(items[h].body.blocks);
        assert Slice(d, 0, limit) == d;
      }
    }
  }

  // ---------------------------------------------------------------- copy

  /** The answer of the checks that come before any change. */
  ghost function CopyCheck(o: Overlay, oldp: Path, newp: Path): int
    reads o, o.pool
  {
    if oldp == [] || newp == [] then ERR_INVAL
    else if oldp == newp then ERR_EXISTS
    else if MoveRefusal(o.Store(), o.ird, oldp, newp) != OV_OK then MoveRefusal(o.Store(), o.ird, oldp, newp)
    else if Tally(ScanNodes(o.lay.items, oldp), MAX_NODES) > Sum(o.pool[..], FreeBit) then ERR_NOSPACE
    else if o.Hdr() + Sum(o.pool[..], HeadBytes) + Tally(ScanBytes(o.lay.items, oldp, newp), MAX_NODES) > o.Capacity()
    then ERR_NOSPACE else OV_OK
  }

  /** Nodes and bytes that the whole copy takes. */
  ghost function AllNodes(items: Items, old_: Path, limit: nat): nat
  {
    Tally(CopyNodes(items, old_, limit, true), MAX_NODES) + Tally(CopyNodes(items, old_, limit, false), MAX_NODES)
  }

  ghost function AllBytes(items: Items, old_: Path, new_: Path, limit: nat): nat
  {
    Tally(CopyBytes(items, old_, new_, limit, true), MAX_NODES)
      + Tally(CopyBytes(items, old_, new_, limit, false), MAX_NODES)
  }

  /** `overlay_copy` after its checks. */
  method CopyPasses(o: Overlay, oldp: Path, newp: Path) returns (ok: bool, ghost img: map<nat, nat>)
    requires o.Sound() && oldp != [] && newp != [] && NoNul(newp) && !Under(newp, oldp) &&
      AllFit(o.lay.items, oldp, newp)
    requires Tally(ScanNodes(o.lay.items, oldp), MAX_NODES) <= Sum(o.pool[..], FreeBit)
    modifies o`lay, o.pool, o.tmp
    ensures o.Sound() && Grown(old(o.lay.items), o.lay.items, newp)
    ensures StageOf(o, ok) == WholeCopy(old(o.lay.items), old(UsedBits(o.pool[..])), oldp, newp, o.FileMax())
    ensures Undisturbed(old(o.lay.items), oldp, newp) ==>
      && Imaged(old(o.lay.items), o.lay.items, img, img.Keys, oldp, newp, o.FileMax()) &&
        DirsCopied(old(o.lay.items), oldp, img)
    ensures Undisturbed(old(o.lay.items), oldp, newp) ==>
      (ok <==>
        && AllRead(old(o.lay.items), oldp, o.FileMax())
        && AllNodes(old(o.lay.items), oldp, o.FileMax()) <= old(Sum(o.pool[..], FreeBit)))
    ensures Undisturbed(old(o.lay.items), oldp, newp) && ok ==>
      && Imaged(old(o.lay.items), o.lay.items, img, Sources(old(o.lay.items), oldp), oldp, newp, o.FileMax())
      && Sum(o.pool[..], HeadBytes) ==
        old(Sum(o.pool[..], HeadBytes)) + AllBytes(old(o.lay.items), oldp, newp, o.FileMax())
  {
    hide Sum, Copying, Imaged, Undisturbed, DoneAt, CopyNodes, CopyBytes, Tally, AllRead, ReadBelow, Grown, Rep,
         GoodItems, Sources, AllFit, ScanNodes, DirsCopied, StagePass, UsedBits;
    ghost var pool0, lay0, limit := o.pool[..], o.lay, o.FileMax();
    CopyStart(o, oldp, newp);
    HeadsBelow(pool0, lay0);
    DoneEnds(lay0.items, oldp);
    NothingImaged(lay0.items, oldp, newp, limit);
    ReadAll(lay0.items, oldp, limit);
    DirsExpected(lay0.items, oldp, limit);
    ghost var upTo;
    ok, img, upTo := CopyPass(o, oldp, newp, true, pool0, lay0, map[]);
    CopyState(o, pool0, lay0, oldp, newp);
    if !ok {
      ghost var stopped := StageOf(o, false);
      PassNone(stopped, oldp, newp, limit, false);
      StageStopped(stopped, 0, MAX_NODES, oldp, newp, limit, false);
      return false, img;
    }
    ok, img, upTo := CopyPass(o, oldp, newp, false, pool0, lay0, img);
    CopyState(o, pool0, lay0, oldp, newp);
    if Undisturbed(lay0.items, oldp, newp) {
      DirsAreDone(lay0.items, o.lay.items, img, oldp, newp, limit, upTo);
    }
  }

  /** Every directory of the subtree has its image. */
  ghost predicate DirsCopied(items: Items, old_: Path, img: map<nat, nat>)
  {
    forall h :: Source(items, h, old_) && items[h].body.DirBody? ==> h in img
  }

  lemma DirsAreDone(items: Items, items': Items, img: map<nat, nat>, old_: Path, new_: Path, limit: nat, n: nat)
    requires Imaged(items, items', img, DoneAt(items, old_, false, n), old_, new_, limit)
    ensures Imaged(items, items', img, img.Keys, old_, new_, limit) && DirsCopied(items, old_, img)
  {
    hide ImageOf;
  }

  /** The scan has counted the directories. */
  lemma DirsExpected(items: Items, old_: Path, limit: nat)
    ensures Tally(CopyNodes(items, old_, limit, true), MAX_NODES) <= Tally(ScanNodes(items, old_), MAX_NODES)
  {
    hide Tally;
    var none := (h: nat) => 0;
    TallySum(CopyNodes(items, old_, limit, true), none, ScanNodes(items, old_), MAX_NODES);
  }

  lemma CopyStart(o: Overlay, oldp: Path, newp: Path)
    requires o.Sound() && oldp != [] && newp != [] && NoNul(newp) && !Under(newp, oldp) &&
      AllFit(o.lay.items, oldp, newp)
    ensures Copying(o, o.pool[..], o.lay, oldp, newp)
  {
    hide Rep, GoodItems;
  }

  lemma CopyState(o: Overlay, pool0: seq<Node>, lay0: Layout, old_: Path, new_: Path)
    requires Copying(o, pool0, lay0, old_, new_)
    ensures o.Sound() && Grown(lay0.items, o.lay.items, new_)
  {
  }

  lemma ReadAll(items: Items, old_: Path, limit: nat)
    requires forall h :: h in items ==> h < MAX_NODES
    ensures ReadBelow(items, old_, limit, MAX_NODES) <==> AllRead(items, old_, limit)
  {
    hide Reads;
  }

  /** `overlay_copy`. The checks refuse without a change. After them every original item stays and whatever is added
      lies under the new name; if nothing disturbs the copy, it succeeds exactly when every file of the subtree is read
      by its path and there are nodes for what was read, and then there is exactly one image of each; otherwise it gives
      up with all directories and some files copied. If every file is read back as it is stored, it always succeeds and
      the image still fits on disk. */
  method CopyTree(o: Overlay, src: Path, dst: Path) returns (rc: int, ghost img: map<nat, nat>)
    requires o.Sound() && NoNul(src) && NoNul(dst)
    modifies o`lay, o.pool, o.tmp
    ensures o.Sound() && rc <= OV_OK
    ensures old(CopyCheck(o, Normalize(src), Normalize(dst))) != OV_OK ==>
      rc == old(CopyCheck(o, Normalize(src), Normalize(dst))) && o.lay == old(o.lay) && o.pool[..] == old(o.pool[..])
    ensures old(CopyCheck(o, Normalize(src), Normalize(dst))) == OV_OK ==>
      (rc == OV_OK || rc == ERR_NOSPACE) && Grown(old(o.lay.items), o.lay.items, Normalize(dst))
    ensures old(CopyCheck(o, Normalize(src), Normalize(dst))) == OV_OK ==>
      StageOf(o, rc == OV_OK) ==
      WholeCopy(old(o.lay.items), old(UsedBits(o.pool[..])), Normalize(src), Normalize(dst), o.FileMax())
    ensures old(CopyCheck(o, Normalize(src), Normalize(dst))) == OV_OK ==>
      var dirs := StagePass(Stage(old(o.lay.items), old(UsedBits(o.pool[..])), true), 288, Normalize(src),
                            Normalize(dst), o.FileMax(), true);
      StageOf(o, rc == OV_OK) == StagePass(dirs, 288, Normalize(src), Normalize(dst), o.FileMax(), false)
    ensures old(CopyCheck(o, Normalize(src), Normalize(dst))) ==
      var oldp, newp := Normalize(src), Normalize(dst);
      var refusal := MoveRefusal(old(o.Store()), o.ird, oldp, newp);
      if oldp == [] || newp == [] then ERR_INVAL
      else if oldp == newp then ERR_EXISTS
      else if refusal != OV_OK then refusal
      else if old(Tally(ScanNodes(o.lay.items, oldp), 288) > Sum(o.pool[..], FreeBit)) ||
              o.Hdr() + old(Sum(o.pool[..], HeadBytes) + Tally(ScanBytes(o.lay.items, oldp, newp), 288)) > o.Capacity()
      then ERR_NOSPACE else OV_OK
    ensures old(CopyCheck(o, Normalize(src), Normalize(dst))) == OV_OK && old(CopyCalm(o, src, dst)) ==>
      (rc == OV_OK <==> old(CopyReads(o, src)))
    ensures old(CopyCheck(o, Normalize(src), Normalize(dst))) == OV_OK && old(CopyCalm(o, src, dst)) ==>
      && Imaged(old(o.lay.items), o.lay.items, img, img.Keys, Normalize(src), Normalize(dst), o.FileMax())
      && DirsCopied(old(o.lay.items), Normalize(src), img)
    ensures rc == OV_OK && old(CopyCalm(o, src, dst)) ==>
      && img.Keys == Sources(old(o.lay.items), Normalize(src))
      && Sum(o.pool[..], HeadBytes)
         == old(Sum(o.pool[..], HeadBytes)) + AllBytes(old(o.lay.items), Normalize(src), Normalize(dst), o.FileMax())
    ensures rc == OV_OK && old(CopyCalm(o, src, dst)) && old(Unique(o.lay.items)) ==>
      (Unique(o.lay.items) <==> NoneTaken(old(o.Store()), Normalize(src), Normalize(dst)))
    ensures old(CopyCheck(o, Normalize(src), Normalize(dst)) == OV_OK && CopyFaithful(o, src, dst)) ==>
      rc == OV_OK && o.Fitting()
    ensures rc == OV_OK && old(CopyFaithful(o, src, dst) && Unique(o.lay.items)) && Unique(o.lay.items) ==>
      o.Store() == CopyStore(old(o.Store()), Normalize(src), Normalize(dst))
    ensures old(CopyCheck(o, Normalize(src), Normalize(dst))) == OV_OK && old(o.Valid()) ==>
      rc == OV_OK && (o.Valid() <==> MoveKeeps(old(o.Store()), Normalize(src), Normalize(dst)))
  {
    hide Sum, Rep, Normalize, MoveRefusal, TooLong, CopyNodes, CopyBytes, ScanNodes, ScanBytes, Tally, Imaged,
         Undisturbed, Grown, Sources, HeadBytes, StoreOf, GoodItems, Unique, Proper, AllReadBack, AllRead, AllFit,
         NoneTaken, CopyStore, MoveKeeps, AllNodes, AllBytes, DirsCopied, StagePass, UsedBits;
    img := map[];
    var oldp, newp := Normalize(src), Normalize(dst);
    NormalizeTrims(src);
    NormalizeTrims(dst);
    if oldp == [] || newp == [] { return ERR_INVAL, img; }
    if oldp == newp { return ERR_EXISTS, img; }
    rc := CheckMove(o, oldp, newp);
    RefusalSign(o.Store(), o.ird, oldp, newp);
    if rc != OV_OK { return rc, img; }
    var nodes, bytes := ScanCopy(o, oldp, newp);
    if nodes < 0 { return ERR_INVAL, img; }
    var free := FreeCount(o.pool);
    if nodes > free { return ERR_NOSPACE, img; }
    var total := SnapshotBytes(o);
    if total + bytes > o.Capacity() { return ERR_NOSPACE, img; }
    ghost var pool0, lay0, limit := o.pool[..], o.lay, o.FileMax();
    NotInside(lay0.items, o.ird, oldp, newp);
    CopyForecast(pool0, lay0, o.ird, oldp, newp, limit);
    var ok;
    ok, img := CopyPasses(o, oldp, newp);
    if !ok { return ERR_NOSPACE, img; }
    ImagedKeys(lay0.items, o.lay.items, img, oldp, newp, limit);
    if Unique(lay0.items) && Undisturbed(lay0.items, oldp, newp) {
      CopiedUnique(lay0.items, o.lay.items, img, oldp, newp, limit);
      CopiedProper(lay0.items, o.lay.items, img, o.ird, limit, oldp, newp);
    }
    return OV_OK, img;
  }

  lemma ImagedKeys(items: Items, items': Items, img: map<nat, nat>, old_: Path, new_: Path, limit: nat)
    ensures Imaged(items, items', img, Sources(items, old_), old_, new_, limit) ==> img.Keys == Sources(items, old_)
  {
  }

  ghost predicate CopyCalm(o: Overlay, src: Path, dst: Path)
    reads o
  {
    Undisturbed(o.lay.items, Normalize(src), Normalize(dst))
  }

  ghost predicate CopyFaithful(o: Overlay, src: Path, dst: Path)
    reads o
  {
    CopyCalm(o, src, dst) && AllReadBack(o.lay.items, Normalize(src), o.FileMax())
  }

  ghost predicate CopyReads(o: Overlay, src: Path)
    reads o, o.pool
  {
    AllRead(o.lay.items, Normalize(src), o.FileMax()) &&
      AllNodes(o.lay.items, Normalize(src), o.FileMax()) <= Sum(o.pool[..], FreeBit)
  }

  lemma NotInside(items: Items, ird: Initrd, old_: Path, new_: Path)
    requires MoveRefusal(StoreOf(items), ird, old_, new_) == OV_OK && old_ != new_
    ensures !Under(new_, old_)
  {
    hide StoreOf, Normalize;
    assert |new_| == |old_| && Under(new_, old_) ==> new_ == old_;
  }

  /** What the checks already settle: with every file read back the nodes are there and the bytes fit, and in a store in
      order every file is. */
  lemma CopyForecast(pool: seq<Node>, lay: Layout, ird: Initrd, oldp: Path, newp: Path, limit: nat)
    requires Rep(pool, lay) && 0 < limit && oldp != newp && MoveRefusal(StoreOf(lay.items), ird, oldp, newp) == OV_OK
    requires Trimmed(oldp) && Trimmed(newp) && oldp != [] && newp != [] && NoNul(oldp) && NoNul(newp)
    ensures AllReadBack(lay.items, oldp, limit) ==>
      && AllRead(lay.items, oldp, limit)
      && AllNodes(lay.items, oldp, limit) <= Tally(ScanNodes(lay.items, oldp), MAX_NODES)
      && AllBytes(lay.items, oldp, newp, limit) <= Tally(ScanBytes(lay.items, oldp, newp), MAX_NODES)
    ensures Proper(lay.items, ird, limit) ==>
      && Undisturbed(lay.items, oldp, newp) && AllReadBack(lay.items, oldp, limit) && Unique(lay.items)
      && NoneTaken(StoreOf(lay.items), oldp, newp)
  {
    hide StoreOf, Rep, MoveRefusal, Undisturbed, Tally, CopyNodes, CopyBytes, ScanNodes, ScanBytes, NoneTaken, Reads,
         Unique, AllFull, Within;
    if Proper(lay.items, ird, limit) {
      NotInside(lay.items, ird, oldp, newp);
      MoveIsClean(StoreOf(lay.items), ird, oldp, newp);
      ProperCopies(lay.items, ird, limit, oldp, newp);
    }
    if AllReadBack(lay.items, oldp, limit) { CostExpected(pool, lay, oldp, newp, limit); }
  }

  lemma CopiedProper(items: Items, items': Items, img: map<nat, nat>, ird: Initrd, limit: nat, old_: Path, new_: Path)
    requires Imaged(items, items', img, Sources(items, old_), old_, new_, limit)
    requires Unique(items') && AllReadBack(items, old_, limit) ==>
      StoreOf(items') == CopyStore(StoreOf(items), old_, new_)
    requires Unique(items') <==> NoneTaken(StoreOf(items), old_, new_)
    requires Trimmed(old_) && Trimmed(new_) && old_ != [] && new_ != [] && old_ != new_
    requires NoNul(old_) && NoNul(new_) && MoveRefusal(StoreOf(items), ird, old_, new_) == OV_OK && 0 < limit
    ensures Proper(items, ird, limit) ==> (Proper(items', ird, limit) <==> MoveKeeps(StoreOf(items), old_, new_))
  {
    hide StoreOf, CopyStore, MoveRefusal, MoveKeeps, Imaged, NoneTaken, AllReadBack, Unique, Full, Flat, Tree;
    if Proper(items, ird, limit) {
      NotInside(items, ird, old_, new_);
      CopyKeepsTree(StoreOf(items), ird, old_, new_);
      ProperCopies(items, ird, limit, old_, new_);
      ImagesFull(items, items', img, old_, new_, limit);
    }
  }

  lemma ImagesFull(items: Items, items': Items, img: map<nat, nat>, old_: Path, new_: Path, limit: nat)
    requires Imaged(items, items', img, Sources(items, old_), old_, new_, limit) && AllFull(items) &&
      Within(items, limit)
    ensures AllFull(items') && Within(items', limit)
  {
    hide StoreOf, Flat, Full;
    forall h | h in items' && items'[h].body.FileBody?
      ensures Full(items'[h].body.blocks) && |Flat(items'[h].body.blocks)| <= limit
    {
      if h !in items {
        var k :| k in img && img[k] == h;
        CutFlat(ReadBytes(StoreOf(items), items[k].path, 0, limit));
      }
    }
  }
}
