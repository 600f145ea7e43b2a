/** The overlay store's operations on single entries (fs/overlay.c:23-48, 111-158, 230-433). */
module OverlayOps {
  import opened Words
  import opened OverlayPaths
  import opened OverlayState

  const OV_OK := 0
  const ERR_NOTFOUND := -1
  const ERR_EXISTS := -2
  const ERR_NOTDIR := -3
  const ERR_ISDIR := -4
  const ERR_NOTEMPTY := -5
  const ERR_NOSPACE := -6
  const ERR_INVAL := -7
  const ERR_PROTECTED := -8

  const SNAP_SIZE: nat := 32768
  const SNAP_SIZE_MAX: nat := 98304
  const FILE_MAX_BYTES: nat := 30720
  const FILE_MAX_EXT_BYTES: nat := 65536

  const EXT_MIN_LBA: nat := 4225

  /** Header bytes, image bytes and file limit of a layout, with and without an extension area. */
  function HdrOf(ext: U32): nat { if ext != 0 then 32 else 16 }
  function CapOf(ext: U32): nat { if ext != 0 then SNAP_SIZE_MAX else SNAP_SIZE }
  function LimitOf(ext: U32): nat { if ext != 0 then FILE_MAX_EXT_BYTES else FILE_MAX_BYTES }

  /** What no operation ever breaks about one item. */
  predicate GoodItem(it: Item)
  {
    && it.path != [] && |it.path| < PATH_MAX && NoNul(it.path)
    && (it.body.FileBody? ==> |Flat(it.body.blocks)| <= FILE_MAX_EXT_BYTES)
  }

  ghost predicate GoodItems(items: Items) { forall h :: h in items ==> GoodItem(items[h]) }

  /** No file is over the limit. */
  ghost predicate Within(items: Items, limit: nat)
  {
    forall h :: h in items && items[h].body.FileBody? ==> |Flat(items[h].body.blocks)| <= limit
  }

  /** Every block but the last of every file is full. */
  ghost predicate AllFull(items: Items)
  {
    forall h :: h in items && items[h].body.FileBody? ==> Full(items[h].body.blocks)
  }

  /** What the store is meant to be besides: a tree of unique paths, files in full blocks and within the limit. */
  ghost predicate Proper(items: Items, ird: Initrd, limit: nat)
  {
    Unique(items) && AllFull(items) && Within(items, limit) && Tree(StoreOf(items), ird)
  }

  /** The global state of fs/overlay.c: the node pool, the extension area and the scratch buffer. */
  class Overlay {
    const pool: array<Node>
    const ird: Initrd
    const tmp: array<U8>
    var extLba: U32
    ghost var lay: Layout

    function Hdr(): nat reads this`extLba { HdrOf(extLba) }

    function Capacity(): nat reads this`extLba { CapOf(extLba) }

    function FileMax(): nat reads this`extLba { LimitOf(extLba) }

    /** The map that lookups see. */
    ghost function Store(): Store reads this`lay { StoreOf(lay.items) }

    /** What every operation keeps, on every input: the pool holds the items, each in its own chain. */
    ghost predicate Sound()
      reads this, pool
    {
      && pool.Length == MAX_NODES && tmp.Length == FILE_MAX_EXT_BYTES && (extLba == 0 || extLba >= EXT_MIN_LBA)
      && Rep(pool[..], lay) && GoodItems(lay.items)
    }

    /** The image fits on disk. */
    ghost predicate Fitting() reads this, pool { Hdr() + Sum(pool[..], HeadBytes) <= Capacity() }

    /** A store in order. Which operations keep it, and on which inputs, is stated with each of them. */
    ghost predicate Valid()
      reads this, pool
    {
      Sound() && Fitting() && Proper(lay.items, ird, FileMax())
    }

    /** `overlay_init` on a fresh pool: the empty store. */
    constructor (ird: Initrd)
      ensures Valid() && lay == NOTHING && Store() == map[] && extLba == 0 && this.ird == ird && fresh(pool) &&
        fresh(tmp)
      ensures Sum(pool[..], HeadBytes) == 0 && Sum(pool[..], FreeBit) == MAX_NODES
    {
      hide Rep, GoodItems, Proper, Sum, StoreOf;
      this.ird := ird;
      pool := new Node[MAX_NODES](_ => EMPTY_NODE);
      tmp := new U8[FILE_MAX_EXT_BYTES](_ => 0);
      extLba := 0;
      lay := NOTHING;
      new;
      NothingHeld(pool[..], ird, FileMax());
    }
  }

  lemma NothingHeld(pool: seq<Node>, ird: Initrd, limit: nat)
    requires |pool| == MAX_NODES && forall i :: 0 <= i < |pool| ==> !pool[i].used
    ensures Rep(pool, NOTHING) && GoodItems(map[]) && Proper(map[], ird, limit) && StoreOf(map[]) == map[]
    ensures Sum(pool, HeadBytes) == 0 && Sum(pool, FreeBit) == MAX_NODES
  {
    hide Sum;
    SumZero(pool, HeadBytes);
    SumFree(pool);
    assert StoreOf(map[]) == map[];
  }

  // ---------------------------------------------------------------- chains

  function Freed(n: Node): Node
  {
    n.(used := false, isDir := false, isCont := false, next := -1, size := 0, path := [])
  }

  /** The nodes c are a linked list of used nodes whose tail nodes are continuations. */
  ghost predicate Linked(pool: seq<Node>, c: seq<nat>)
  {
    && Distinct(c)
    && (forall k :: 0 <= k < |c| ==> c[k] < |pool| && LinkedAt(pool[c[k]], c, k))
  }

  predicate LinkedAt(n: Node, c: seq<nat>, k: nat)
    requires k < |c|
  {
    n.used && n.isCont == (k > 0) && n.next == (if k + 1 < |c| then c[k + 1] else -1)
  }

  lemma ChainIsLinked(pool: seq<Node>, c: seq<nat>, it: Item)
    requires ChainOk(pool, c, it)
    ensures Linked(pool, c)
  {
    forall k | 0 <= k < |c| ensures c[k] < |pool| && LinkedAt(pool[c[k]], c, k) {
      assert LinkOk(pool[c[k]], c, k, it.path);
    }
  }

  /** The first k nodes of the chain are free; the rest of the pool is as it was. */
  ghost predicate FreedTo(was: seq<Node>, now: seq<Node>, c: seq<nat>, k: nat)
    requires c != [] && forall l :: 0 <= l < |c| ==> c[l] < |was|
  {
    && |now| == |was|
    && (forall l :: 0 <= l < |c| ==> now[c[l]] == if l < k then Freed(was[c[l]]) else was[c[l]])
    && (forall i :: 0 <= i < |was| && i !in c ==> now[i] == was[i])
    && Sum(now, HeadBytes) + (if k == 0 then 0 else HeadBytes(was[c[0]])) == Sum(was, HeadBytes)
    && Sum(now, FreeBit) == Sum(was, FreeBit) + k
  }

  lemma FreedNext(was: seq<Node>, now: seq<Node>, c: seq<nat>, k: nat)
    requires c != [] && Linked(was, c) && FreedTo(was, now, c, k) && k < |c|
    ensures c[k] < |now| && now[c[k]].next == if k + 1 < |c| then c[k + 1] else -1
    ensures FreedTo(was, now[c[k] := Freed(now[c[k]])], c, k + 1)
  {
    hide Sum;
    assert LinkedAt(was[c[k]], c, k);
    SumUpdate(now, c[k], Freed(now[c[k]]), HeadBytes);
    SumUpdate(now, c[k], Freed(now[c[k]]), FreeBit);
  }

  /** `ov_free_chain`: every node of the chain becomes free, no other node changes. */
  method FreeChain(pool: array<Node>, head: nat, ghost c: seq<nat>)
    requires pool.Length == MAX_NODES && c != [] && c[0] == head && Linked(pool[..], c)
    modifies pool
    ensures forall k :: 0 <= k < |c| ==> pool[c[k]] == Freed(old(pool[c[k]]))
    ensures forall i :: 0 <= i < pool.Length && i !in c ==> pool[i] == old(pool[i])
    ensures Sum(pool[..], HeadBytes) + HeadBytes(old(pool[head])) == old(Sum(pool[..], HeadBytes))
    ensures Sum(pool[..], FreeBit) == old(Sum(pool[..], FreeBit)) + |c|
  {
    hide Sum, FreedTo, Freed, LinkedAt;
    ghost var was := pool[..];
    ghost var k := 0;
    var curr: int := head;
    FreedNone(was, c);
    while curr >= 0
      invariant 0 <= k <= |c| && curr == (if k < |c| then c[k] else -1)
      invariant FreedTo(was, pool[..], c, k)
      decreases |c| - k
    {
      ghost var before := pool[..];
      FreedNext(was, before, c, k);
      var next := pool[curr].next;
      pool[curr] := Freed(pool[curr]);
      assert pool[..] == before[curr := Freed(before[curr])];
      curr := if 0 <= next < MAX_NODES then next else -1;
      k := k + 1;
    }
    FreedAll(was, pool[..], c);
  }

  lemma FreedNone(was: seq<Node>, c: seq<nat>)
    requires c != [] && forall l :: 0 <= l < |c| ==> c[l] < |was|
    ensures FreedTo(was, was, c, 0)
  {
  }

  lemma FreedAll(was: seq<Node>, now: seq<Node>, c: seq<nat>)
    requires c != [] && (forall l :: 0 <= l < |c| ==> c[l] < |was|) && FreedTo(was, now, c, |c|)
    ensures |now| == |was| && forall k :: 0 <= k < |c| ==> now[c[k]] == Freed(was[c[k]])
    ensures forall i :: 0 <= i < |was| && i !in c ==> now[i] == was[i]
    ensures Sum(now, HeadBytes) + HeadBytes(was[c[0]]) == Sum(was, HeadBytes)
    ensures Sum(now, FreeBit) == Sum(was, FreeBit) + |c|
  {
  }

  /** `ov_alloc`: the first free slot, or -1. */
  method Alloc(pool: array<Node>) returns (r: int)
    ensures r >= 0 ==> r < pool.Length && !pool[r].used && forall j :: 0 <= j < r ==> pool[j].used
    ensures r == -1 <==> Sum(pool[..], FreeBit) == 0
    ensures r >= -1
  {
    for i := 0 to pool.Length
      invariant forall j :: 0 <= j < i ==> pool[j].used
    {
      if !pool[i].used {
        SumUpdate(pool[..], i, pool[i].(used := true), FreeBit);
        return i;
      }
    }
    SumZero(pool[..], FreeBit);
    return -1;
  }

  /** The first |c| blocks of a file of n bytes are in place and linked; the head has no path yet. */
  ghost predicate Draft(pool: seq<Node>, c: seq<nat>, data: seq<U8>, n: nat)
    requires n <= |data|
  {
    && Distinct(c) && |c| <= Blocks(n)
    && (forall k :: 0 <= k < |c| ==> c[k] < |pool| && DraftAt(pool[c[k]], c, k, data, n))
  }

  predicate DraftAt(node: Node, c: seq<nat>, k: nat, data: seq<U8>, n: nat)
    requires k < |c| <= Blocks(n) && n <= |data|
  {
    && LinkedAt(node, c, k) && node.path == [] && !node.isDir && node.size == BlockLen(n, k)
    && node.data[..BlockLen(n, k)] == data[k * DATA_MAX..k * DATA_MAX + BlockLen(n, k)]
  }

  /** A block of data at the front of a node's buffer. */
  function Overwritten(b: Block, d: seq<U8>): (r: Block)
    requires |d| <= DATA_MAX
    ensures r[..|d|] == d
  {
    d + b[|d|..]
  }

  /** One round of `ov_build`: fill the free node cur and link it behind prev. */
  method PlaceBlock(pool: array<Node>, cur: nat, prev: int, data: seq<U8>, n: U32, off: nat, ghost c: seq<nat>)
    requires cur < pool.Length == MAX_NODES && !pool[cur].used && n <= |data|
    requires Draft(pool[..], c, data, n) && |c| < Blocks(n) && off == |c| * DATA_MAX
    requires prev == if c == [] then -1 else c[|c| - 1]
    modifies pool
    ensures Draft(pool[..], c + [cur], data, n) && cur !in c
    ensures forall i :: 0 <= i < pool.Length && i != cur && i !in c ==> pool[i] == old(pool[i])
    ensures Sum(pool[..], HeadBytes) == old(Sum(pool[..], HeadBytes)) + if c == [] then HeadBytes(pool[cur]) else 0
    ensures c != [] ==> HeadBytes(pool[c[0]]) == old(HeadBytes(pool[c[0]]))
    ensures Sum(pool[..], FreeBit) + 1 == old(Sum(pool[..], FreeBit))
  {
    hide Sum, Blocks, BlockLen, FileBytes, Draft;
    ghost var was := pool[..];
    DraftFree(was, c, data, n, cur);
    var chunk := if n - off > DATA_MAX then DATA_MAX else n - off;
    BlockIs(n, |c|, chunk);
    var node := Node(true, false, prev >= 0, -1, [], Overwritten(pool[cur].data, data[off..off + chunk]), chunk);
    SumUpdate(was, cur, node, HeadBytes);
    SumUpdate(was, cur, node, FreeBit);
    pool[cur] := node;
    ghost var mid := pool[..];
    assert mid == was[cur := node];
    if prev >= 0 {
      SumUpdate(mid, prev, mid[prev].(next := cur), HeadBytes);
      SumUpdate(mid, prev, mid[prev].(next := cur), FreeBit);
      pool[prev] := pool[prev].(next := cur);
      assert pool[..] == mid[prev := mid[prev].(next := cur)];
    }
    DraftExtend(was, pool[..], c, cur, data, n);
  }

  lemma DraftEmpty(pool: seq<Node>, data: seq<U8>, n: nat)
    requires n <= |data|
    ensures Draft(pool, [], data, n)
  {
  }

  /** A free node is in no draft, and a draft's last node is a used node with nothing behind it. */
  lemma DraftFree(pool: seq<Node>, c: seq<nat>, data: seq<U8>, n: nat, cur: nat)
    requires n <= |data| && Draft(pool, c, data, n) && cur < |pool| && !pool[cur].used
    ensures cur !in c && forall k :: 0 <= k < |c| ==> c[k] < |pool|
    ensures c != [] ==>
      c[|c| - 1] < |pool| && c[0] < |pool| && pool[c[|c| - 1]].used && pool[c[|c| - 1]].isCont == (|c| > 1)
    ensures c != [] ==> !pool[c[0]].isCont && !pool[c[0]].isDir && !pool[c[|c| - 1]].isDir
  {
    forall k | 0 <= k < |c| ensures c[k] < |pool| && pool[c[k]].used && pool[c[k]].isCont == (k > 0) &&
      !pool[c[k]].isDir {
      assert DraftAt(pool[c[k]], c, k, data, n);
    }
  }

  lemma DraftExtend(was: seq<Node>, now: seq<Node>, c: seq<nat>, cur: nat, data: seq<U8>, n: nat)
    requires n <= |data| && Draft(was, c, data, n) && |c| < Blocks(n) && cur < |was| == |now| && cur !in c
    requires DraftAt(now[cur], c + [cur], |c|, data, n)
    requires forall i :: 0 <= i < |was| && i != cur ==>
               now[i] == if c != [] && i == c[|c| - 1] then was[i].(next := cur) else was[i]
    ensures Draft(now, c + [cur], data, n)
  {
    hide Blocks, BlockLen;
    var c' := c + [cur];
    forall k | 0 <= k < |c'| ensures c'[k] < |now| && DraftAt(now[c'[k]], c', k, data, n) {
      if k < |c| { assert DraftAt(was[c[k]], c, k, data, n); }
    }
  }

  lemma BlockIs(n: nat, k: nat, chunk: int)
    requires k < Blocks(n) && chunk == if n - k * DATA_MAX > DATA_MAX then DATA_MAX else n - k * DATA_MAX
    ensures BlockLen(n, k) == chunk && 0 <= chunk <= DATA_MAX && k * DATA_MAX + chunk <= n
    ensures k + 1 == Blocks(n) <==> k * DATA_MAX + chunk == n
    ensures k + 1 < Blocks(n) ==> chunk == DATA_MAX
  {
  }

  /** `ov_build`: a fresh chain for WANT holding the first n bytes of data, out of free nodes only. It succeeds exactly
      when there are enough of them; otherwise the nodes it took are free again. */
  method Build(pool: array<Node>, want: Path, data: seq<U8>, n: U32) returns (head: int, ghost c: seq<nat>)
    requires pool.Length == MAX_NODES && n <= |data| && |want| <= PATH_MAX - 1
    modifies pool
    ensures head >= 0 <==> old(Sum(pool[..], FreeBit)) >= Blocks(n)
    ensures head >= 0 ==> ChainOk(pool[..], c, Item(want, FileBody(Cut(data[..n])))) && c[0] == head
    ensures forall k :: 0 <= k < |c| ==> c[k] < pool.Length && !old(pool[c[k]].used)
    ensures forall i :: 0 <= i < pool.Length && i !in c ==> pool[i] == old(pool[i])
    ensures head < 0 ==> forall i :: i in c ==> i < pool.Length && !pool[i].used
    ensures Sum(pool[..], HeadBytes) == old(Sum(pool[..], HeadBytes)) + if head >= 0 then FileBytes(|want|, n) else 0
    ensures Sum(pool[..], FreeBit) + (if head >= 0 then Blocks(n) else 0) == old(Sum(pool[..], FreeBit))
    ensures |c| <= Blocks(n) && (head >= 0 ==> |c| == Blocks(n)) && Leading(old(pool[..]), c)
  {
    hide Sum, Blocks, BlockLen, FileBytes, Draft, ChainOk, Linked, Leading;
    ghost var was := pool[..];
    DraftEmpty(was, data, n);
    LeadingNone(was);
    var off, prev, first := 0, -1, true;
    head, c := 0, [];
    BlockIs(n, 0, if n > DATA_MAX then DATA_MAX else n);
    while first || off < n
      invariant first <==> c == []
      invariant |c| <= Blocks(n) && forall k :: 0 <= k < |c| ==> c[k] < pool.Length
      invariant Draft(pool[..], c, data, n) && prev == (if c == [] then -1 else c[|c| - 1])
      invariant 0 <= head < pool.Length && (c != [] ==> head == c[0])
      invariant off == (if |c| == Blocks(n) then n else |c| * DATA_MAX) && (off < n ==> |c| < Blocks(n))
      invariant forall k :: 0 <= k < |c| ==> !was[c[k]].used
      invariant Leading(was, c) && forall i :: 0 <= i < pool.Length && i !in c ==> pool[i] == was[i]
      invariant Sum(pool[..], HeadBytes) == Sum(was, HeadBytes) + if c == [] then 0 else HeadBytes(pool[head])
      invariant Sum(pool[..], FreeBit) + |c| == Sum(was, FreeBit)
      decreases Blocks(n) - |c|
    {
      var cur := Alloc(pool);
      if cur < 0 {
        if prev >= 0 {
          DraftIsLinked(pool[..], c, data, n);
          FreeChain(pool, head, c);
        }
        return -1, c;
      }
      var chunk := if n - off > DATA_MAX then DATA_MAX else n - off;
      BlockIs(n, |c|, chunk);
      DraftFree(pool[..], c, data, n, cur);
      LeadingMore(was, pool[..], c, cur);
      PlaceBlock(pool, cur, prev, data, n, off, c);
      off := off + chunk;
      if prev < 0 { head := cur; }
      prev := cur;
      first := false;
      c := c + [cur];
    }
    assert |c| == Blocks(n);
    FinishChain(pool, want, data, n, head, c);
  }

  lemma DraftIsLinked(pool: seq<Node>, c: seq<nat>, data: seq<U8>, n: nat)
    requires n <= |data| && Draft(pool, c, data, n)
    ensures Linked(pool, c)
  {
    forall k | 0 <= k < |c| ensures c[k] < |pool| && LinkedAt(pool[c[k]], c, k) {
      assert DraftAt(pool[c[k]], c, k, data, n);
    }
  }

  /** The head gets its total size and, last of all, its path. */
  method FinishChain(pool: array<Node>, want: Path, data: seq<U8>, n: U32, head: nat, ghost c: seq<nat>)
    requires pool.Length == MAX_NODES && n <= |data| && c != [] && head == c[0] && |c| == Blocks(n)
    requires Draft(pool[..], c, data, n)
    modifies pool
    ensures ChainOk(pool[..], c, Item(want, FileBody(Cut(data[..n]))))
    ensures forall i :: 0 <= i < pool.Length && i != head ==> pool[i] == old(pool[i])
    ensures Sum(pool[..], HeadBytes) + old(HeadBytes(pool[head])) ==
      old(Sum(pool[..], HeadBytes)) + FileBytes(|want|, n)
    ensures Sum(pool[..], FreeBit) == old(Sum(pool[..], FreeBit))
  {
    hide Sum, Blocks, BlockLen, FileBytes, Draft, ChainOk;
    ghost var was := pool[..];
    DraftHead(was, c, data, n);
    var done := pool[head].(size := n, path := want);
    SumUpdate(was, head, done, HeadBytes);
    SumUpdate(was, head, done, FreeBit);
    pool[head] := done;
    assert pool[..] == was[head := done];
    DraftDone(was, pool[..], c, want, data, n);
  }

  lemma DraftHead(pool: seq<Node>, c: seq<nat>, data: seq<U8>, n: nat)
    requires n <= |data| && c != [] && Draft(pool, c, data, n)
    ensures c[0] < |pool| && pool[c[0]].used && !pool[c[0]].isDir && !pool[c[0]].isCont
  {
    assert DraftAt(pool[c[0]], c, 0, data, n);
  }

  /** A complete draft whose head has its size and path is a chain. */
  lemma DraftDone(was: seq<Node>, now: seq<Node>, c: seq<nat>, want: Path, data: seq<U8>, n: U32)
    requires n <= |data| && c != [] && |c| == Blocks(n) && Draft(was, c, data, n)
    requires now == was[c[0] := was[c[0]].(size := n, path := want)]
    ensures ChainOk(now, c, Item(want, FileBody(Cut(data[..n]))))
  {
    hide Blocks, BlockLen, Flat, WellCut;
    var d := data[..n];
    CutFlat(d);
    forall k | 0 <= k < |c| ensures LinkOk(now[c[k]], c, k, want) && BlockOk(now[c[k]], k, Cut(d)) {
      assert DraftAt(was[c[k]], c, k, data, n);
      BlockIs(n, k, if n - k * DATA_MAX > DATA_MAX then DATA_MAX else n - k * DATA_MAX);
      assert d[k * DATA_MAX..k * DATA_MAX + BlockLen(n, k)] == data[k * DATA_MAX..k * DATA_MAX + BlockLen(n, k)];
      assert Cut(d)[k] == BlockOf(d, k);
    }
  }

  // ---------------------------------------------------------------- lookups

  /** `ov_find`: the first head with the path's normal form, or -1. */
  method Find(o: Overlay, path: Path) returns (r: int)
    requires o.Sound()
    ensures -1 <= r && (r >= 0 <==> Found(o.Store(), path))
    ensures r >= 0 ==> r < MAX_NODES && IsFirst(o.lay.items, Normalize(path), r) && o.pool[r].path == Normalize(path)
    ensures r >= 0 ==>
      o.Store()[Normalize(path)] == EntryOf(o.lay.items[r].body) && o.pool[r].isDir == o.lay.items[r].body.DirBody?
  {
    hide Sum, Rep, Normalize, HeadBytes, EntryBytes, StoreOf, EntryOf;
    var want := Normalize(path);
    ghost var pl, items := o.pool[..], o.lay.items;
    if want == [] {
      RootIsNoItem(items);
      return -1;
    }
    for i := 0 to MAX_NODES
      invariant forall j :: 0 <= j < i ==> !(pl[j].used && !pl[j].isCont && pl[j].path == want)
    {
      if o.pool[i].used && !o.pool[i].isCont && o.pool[i].path == want {
        HeadIsItem(pl, o.lay, i);
        forall k: nat | At(items, want, k) ensures i <= k { HeadOf(pl, o.lay, k); }
        HeadOf(pl, o.lay, i);
        FirstIs(items, want, i);
        return i;
      }
    }
    if want in StoreOf(items) {
      ghost var h := Behind(items, want);
      HeadOf(pl, o.lay, h);
    }
    return -1;
  }

  lemma RootIsNoItem(items: Items)
    requires GoodItems(items)
    ensures [] !in StoreOf(items)
  {
    hide StoreOf;
    if [] in StoreOf(items) { var h := Behind(items, []); }
  }

  /** `overlay_is_dir`. */
  method IsDir(o: Overlay, path: Path) returns (r: bool)
    requires o.Sound()
    ensures r <==> StoreDir(o.Store(), path)
  {
    hide Rep, GoodItems, StoreOf, Normalize;
    var want := Normalize(path);
    if want == [] { return true; }
    var n := Find(o, want);
    if n < 0 { return false; }
    return o.pool[n].isDir;
  }

  /** `ov_parent_is_dir`. */
  method ParentIsDir(o: Overlay, path: Path) returns (r: bool)
    requires o.Sound()
    ensures r <==> ParentDir(o.Store(), o.ird, path)
  {
    hide Rep, GoodItems, StoreOf;
    var parent := Parent(path);
    if parent == [] { return true; }
    r := IsDir(o, parent);
    if !r { r := o.ird.IsDir(parent); }
  }

  /** The path lies below a directory; everything lies below the root. */
  predicate Below(q: Path, d: Path) { d == [] || StrictlyUnder(q, d) }

  /** `ov_has_children`: something in the store lies below the path. */
  method HasChildren(o: Overlay, path: Path) returns (r: bool)
    requires o.Sound()
    ensures r <==> exists q :: q in o.Store() && Below(q, Normalize(path))
  {
    hide Sum, Rep, Normalize, HeadBytes, EntryBytes, StoreOf;
    var want := Normalize(path);
    ghost var pl, items := o.pool[..], o.lay.items;
    for i := 0 to MAX_NODES
      invariant forall j :: 0 <= j < i && pl[j].used && pl[j].path != [] ==> !Below(pl[j].path, want)
    {
      if o.pool[i].used {
        if want == [] {
          if o.pool[i].path != [] {
            UsedPath(pl, o.lay, i);
            Seen(items, i);
            assert Below(pl[i].path, want);
            return true;
          }
        } else if want <= o.pool[i].path && |o.pool[i].path| > |want| && o.pool[i].path[|want|] == SLASH {
          UsedPath(pl, o.lay, i);
          Seen(items, i);
          assert Below(pl[i].path, want);
          return true;
        }
      }
    }
    forall q | q in StoreOf(items) ensures !Below(q, want) {
      var h := Behind(items, q);
      HeadOf(pl, o.lay, h);
    }
    return false;
  }

  /** A used node with a path is the head of an item with that path. */
  lemma UsedPath(pool: seq<Node>, lay: Layout, i: nat)
    requires Rep(pool, lay) && i < |pool| && pool[i].used && pool[i].path != []
    ensures i in lay.items && lay.items[i].path == pool[i].path && !pool[i].isCont
  {
    var Slot(h, k) := lay.owner[i];
    var c := lay.chains[h];
    assert OwnedAt(lay, i) && c[k] == i;
    assert ChainOk(pool, c, lay.items[h]);
    assert LinkOk(pool[c[k]], c, k, lay.items[h].path);
  }

  /** `overlay_snapshot_bytes`. */
  method SnapshotBytes(o: Overlay) returns (total: nat)
    requires o.pool.Length == MAX_NODES
    ensures total == o.Hdr() + Sum(o.pool[..], HeadBytes)
  {
    hide Sum;
    total := o.Hdr();
    ghost var pl := o.pool[..];
    SumEmpty(pl, HeadBytes);
    for i := 0 to MAX_NODES
      invariant total == o.Hdr() + Sum(pl[..i], HeadBytes)
    {
      SumSnoc(pl, i, HeadBytes);
      if o.pool[i].used && !o.pool[i].isCont { total := total + HeadBytes(o.pool[i]); }
    }
    assert pl[..MAX_NODES] == pl;
  }

  /** `ov_free_count`. */
  method FreeCount(pool: array<Node>) returns (k: nat)
    ensures k == Sum(pool[..], FreeBit)
  {
    hide Sum;
    k := 0;
    ghost var pl := pool[..];
    SumEmpty(pl, FreeBit);
    for i := 0 to pool.Length
      invariant k == Sum(pl[..i], FreeBit)
    {
      SumSnoc(pl, i, FreeBit);
      if !pool[i].used { k := k + 1; }
    }
    assert pl[..pool.Length] == pl;
  }

  lemma SumEmpty(pool: seq<Node>, f: Node -> nat)
    ensures Sum(pool[..0], f) == 0
  {
  }

  /** `ov_chain_len`: the guard of 288 never cuts a chain short. */
  method ChainLen(pool: array<Node>, head: nat, ghost c: seq<nat>) returns (k: nat)
    requires pool.Length == MAX_NODES && c != [] && c[0] == head && Linked(pool[..], c)
    ensures k == |c|
  {
    k := 0;
    var curr: int := head;
    DistinctBound(c, MAX_NODES);
    while curr >= 0 && k < MAX_NODES
      invariant 0 <= k <= |c| && curr == (if k < |c| then c[k] else -1)
      decreases MAX_NODES - k
    {
      assert LinkedAt(pool[..][c[k]], c, k);
      k := k + 1;
      curr := if 0 <= pool[curr].next < MAX_NODES then pool[curr].next else -1;
    }
  }

  // ---------------------------------------------------------------- extension area

  /** What is stored fits the layout with this extension area: in total, and file by file. */
  ghost predicate FitsLayout(bytes: nat, items: Items, ext: U32)
  {
    HdrOf(ext) + bytes <= CapOf(ext) && Within(items, LimitOf(ext))
  }

  /** `overlay_set_ext`: the area may be dropped or moved at any time, and nothing checks the store against the smaller
      layout; a store in order stays so exactly when it fits. */
  method SetExt(o: Overlay, lba: U32) returns (rc: int)
    requires o.Sound()
    modifies o`extLba
    ensures rc == if lba != 0 && lba < EXT_MIN_LBA then -1 else 0
    ensures o.extLba == if rc == 0 then lba else old(o.extLba)
    ensures o.Sound() && o.lay == old(o.lay) && o.pool[..] == old(o.pool[..])
    ensures old(o.Valid()) ==> (o.Valid() <==> FitsLayout(Sum(o.pool[..], HeadBytes), o.lay.items, o.extLba))
    ensures old(o.Valid()) ==> (o.Valid() <==>
      && (o.extLba == 0 ==> 16 + Sum(o.pool[..], HeadBytes) <= 32768)
      && forall h :: h in o.lay.items && o.lay.items[h].body.FileBody? && o.extLba == 0 ==>
           |Flat(o.lay.items[h].body.blocks)| <= 30720)
    ensures old(o.Valid()) && lba != 0 ==> o.Valid()
  {
    hide Sum, Rep, Tree, StoreOf, Unique;
    if lba != 0 && lba < EXT_MIN_LBA { return -1; }
    o.extLba := lba;
    return 0;
  }

  // ---------------------------------------------------------------- mkdir

  /** `overlay_mkdir`: either exactly one new directory, or a refusal that changes nothing. Paths stay unique exactly
      when the path was not stored, which the lookup of its second normal form does not find out. */
  method Mkdir(o: Overlay, path: Path) returns (rc: int, ghost at: nat)
    requires o.Sound() && NoNul(path)
    modifies o`lay, o.pool
    ensures rc == var want, st := Normalize(path), old(o.Store());
      if want == [] || Found(st, want) || o.ird.IsFile(want) then ERR_EXISTS
      else if !ParentDir(st, o.ird, want) then ERR_NOTDIR
      else if o.Hdr() + old(Sum(o.pool[..], HeadBytes)) + REC_HDR + |want| > o.Capacity() ||
        old(Sum(o.pool[..], FreeBit)) == 0
      then ERR_NOSPACE else OV_OK
    ensures o.Sound() && (rc != OV_OK ==> o.lay == old(o.lay) && o.pool[..] == old(o.pool[..]))
    ensures rc == OV_OK ==> o.Fitting() && at !in old(o.lay.items)
    ensures rc == OV_OK ==> o.lay.items == old(o.lay.items)[at := Item(Normalize(path), DirBody)]
    ensures rc == OV_OK ==> Sum(o.pool[..], FreeBit) == old(Sum(o.pool[..], FreeBit)) - 1
    ensures rc == OV_OK ==> Sum(o.pool[..], HeadBytes) == old(Sum(o.pool[..], HeadBytes)) + REC_HDR + |Normalize(path)|
    ensures rc == OV_OK && Normalize(path) !in old(o.Store()) ==> o.Store() == old(o.Store())[Normalize(path) := Dir]
    ensures rc == OV_OK && old(Unique(o.lay.items)) ==> (Unique(o.lay.items) <==> Normalize(path) !in old(o.Store()))
    ensures rc == OV_OK && old(o.Valid()) ==> (o.Valid() <==> !DotSlash(Normalize(path)))
  {
    hide Sum, Rep, Proper, Normalize, StoreOf, GoodItems, Unique;
    var want := Normalize(path);
    if want == [] { return ERR_EXISTS, 0; }
    var found := Find(o, want);
    if found >= 0 { return ERR_EXISTS, 0; }
    if o.ird.IsFile(want) { return ERR_EXISTS, 0; }
    var inDir := ParentIsDir(o, want);
    if !inDir { return ERR_NOTDIR, 0; }
    var bytes := SnapshotBytes(o);
    if bytes + REC_HDR + |want| > o.Capacity() { return ERR_NOSPACE, 0; }
    var n := Alloc(o.pool);
    if n < 0 { return ERR_NOSPACE, 0; }
    ghost var items := o.lay.items;
    NormalizeTrims(path);
    AddDir(o, want, n, o.pool[n].data[0 := 0]);
    AddedItem(items, n, Item(want, DirBody));
    DirAdded(items, n, o.ird, want, o.FileMax());
    return OV_OK, n;
  }

  /** A new directory keeps a store in order exactly when its path is canonical. */
  lemma DirAdded(items: Items, h: nat, ird: Initrd, want: Path, limit: nat)
    requires h !in items && Trimmed(want) && want != [] && NoNul(want) && ParentDir(StoreOf(items), ird, want)
    requires !Found(StoreOf(items), want)
    ensures Proper(items, ird, limit) ==> (Proper(items[h := Item(want, DirBody)], ird, limit) <==> !DotSlash(want))
  {
    hide StoreOf, Normalize, Unique;
    var it := Item(want, DirBody);
    AddedItem(items, h, it);
    if Proper(items, ird, limit) {
      if DotSlash(want) {
        Seen(items[h := it], h);
      } else {
        CanonLookups(StoreOf(items), ird, want);
        TreeStored(StoreOf(items), ird, want, Dir);
      }
    }
  }

  /** Fills the free node n as the directory p. */
  method AddDir(o: Overlay, p: Path, n: nat, data: Block)
    requires o.Sound() && n < MAX_NODES && !o.pool[n].used && GoodItem(Item(p, DirBody))
    modifies o`lay, o.pool
    ensures o.Sound() && n !in old(o.lay.items) && o.lay == old(Replaced(o.lay, {}, [n], Item(p, DirBody)))
    ensures o.lay.items == old(o.lay.items)[n := Item(p, DirBody)]
    ensures o.pool[n].used && forall i :: 0 <= i < o.pool.Length && i != n ==> o.pool[i] == old(o.pool[i])
    ensures Sum(o.pool[..], FreeBit) + 1 == old(Sum(o.pool[..], FreeBit))
    ensures Sum(o.pool[..], HeadBytes) == old(Sum(o.pool[..], HeadBytes)) + REC_HDR + |p|
  {
    hide Sum, Rep, Replaced;
    ghost var was, lay := o.pool[..], o.lay;
    var node := Node(true, true, false, -1, p, data, 0);
    SumUpdate(was, n, node, HeadBytes);
    SumUpdate(was, n, node, FreeBit);
    o.pool[n] := node;
    assert o.pool[..] == was[n := node];
    NewDirRep(was, lay, p, n, node);
    o.lay := Replaced(lay, {}, [n], Item(p, DirBody));
  }

  lemma NewDirRep(was: seq<Node>, lay: Layout, p: Path, n: nat, node: Node)
    requires Rep(was, lay) && n < |was| && !was[n].used
    requires node.used && node.isDir && !node.isCont && node.next == -1 && node.path == p && node.size == 0
    ensures n !in lay.items && Rep(was[n := node], Replaced(lay, {}, [n], Item(p, DirBody)))
    ensures Replaced(lay, {}, [n], Item(p, DirBody)).items == lay.items[n := Item(p, DirBody)]
  {
    hide Rep, ChainOk, Replaced;
    NewDirKept(was, lay, p, n, node);
    ReplacedRep(was, was[n := node], lay, {}, [n], Item(p, DirBody));
    assert lay.items - {} == lay.items;
  }

  lemma NewDirKept(was: seq<Node>, lay: Layout, p: Path, n: nat, node: Node)
    requires Rep(was, lay) && n < |was| && !was[n].used
    requires node.used && node.isDir && !node.isCont && node.next == -1 && node.path == p && node.size == 0
    ensures ChainOk(was[n := node], [n], Item(p, DirBody)) && Available(lay, {}, [n])
    ensures OthersKept(was, was[n := node], lay, {}, [n])
  {
    hide Chained, Owned;
    assert LinkOk(was[n := node][[n][0]], [n], 0, p);
  }

  // ---------------------------------------------------------------- storing a file

  /** The heads that storing under `want` replaces: the one a lookup finds, if any. */
  ghost function Gone(items: Items, want: Path): set<nat>
  {
    if Normalize(want) in Paths(items) then {First(items, Normalize(want))} else {}
  }

  /** Image bytes and nodes of the entry that a lookup of `want` finds. */
  ghost function FoundBytes(lay: Layout, want: Path): nat
  {
    if Found(StoreOf(lay.items), want) then EntryBytes(Normalize(want), StoreOf(lay.items)[Normalize(want)]) else 0
  }

  ghost function FoundNodes(lay: Layout, want: Path): nat
  {
    if Normalize(want) in Paths(lay.items) && First(lay.items, Normalize(want)) in lay.chains
    then |lay.chains[First(lay.items, Normalize(want))]| else 0
  }

  /** The three limits that `ov_store` checks before it changes anything. */
  ghost predicate Fits(o: Overlay, want: Path, n: nat)
    reads o, o.pool
  {
    && n <= o.FileMax()
    && o.Hdr() + Sum(o.pool[..], HeadBytes) - FoundBytes(o.lay, want) + FileBytes(|want|, n) <= o.Capacity()
    && Sum(o.pool[..], FreeBit) + FoundNodes(o.lay, want) >= Blocks(n)
  }

  /** The items after a file has been stored at slot h. */
  ghost function StoredItems(items: Items, want: Path, d: seq<U8>, h: nat): Items
  {
    (items - Gone(items, want))[h := Item(want, FileBody(Cut(d)))]
  }

  lemma GoneIs(items: Items, want: Path, found: int)
    requires -1 <= found && (found >= 0 <==> Found(StoreOf(items), want))
    requires found >= 0 ==> IsFirst(items, Normalize(want), found)
    ensures Gone(items, want) == if found >= 0 then {found} else {}
    ensures found >= 0 ==> Normalize(want) in Paths(items) && First(items, Normalize(want)) == found
    ensures found < 0 ==> Normalize(want) !in Paths(items)
  {
    if found >= 0 { assert IsFirst(items, Normalize(want), First(items, Normalize(want))); }
  }

  /** `ov_store`: the item found under `want` is replaced by the file, or nothing changes. */
  method StoreFile(o: Overlay, want: Path, data: seq<U8>, n: U32) returns (rc: int, ghost at: nat)
    requires o.Sound() && n <= |data| && want != [] && |want| <= PATH_MAX - 1 && NoNul(want)
    modifies o`lay, o.pool
    ensures rc == if old(Fits(o, want, n)) then n else ERR_NOSPACE
    ensures rc >= 0 <==>
      && n <= (if o.extLba == 0 then 30720 else 65536)
      && old(Sum(o.pool[..], HeadBytes) - FoundBytes(o.lay, want)) + FileBytes(|want|, n)
         <= (if o.extLba == 0 then 32768 - 16 else 98304 - 32)
      && Blocks(n) <= old(Sum(o.pool[..], FreeBit) + FoundNodes(o.lay, want))
    ensures o.Sound() && (rc < 0 ==> o.lay == old(o.lay) && o.pool[..] == old(o.pool[..]))
    ensures rc >= 0 ==> o.Fitting() && at !in old(o.lay.items - Gone(o.lay.items, want))
    ensures rc >= 0 ==> o.lay.items == StoredItems(old(o.lay.items), want, data[..n], at)
    ensures rc >= 0 ==> Sum(o.pool[..], FreeBit) == old(Sum(o.pool[..], FreeBit) + FoundNodes(o.lay, want)) - Blocks(n)
    ensures rc >= 0 ==>
      Sum(o.pool[..], HeadBytes) == old(Sum(o.pool[..], HeadBytes) - FoundBytes(o.lay, want)) + FileBytes(|want|, n)
  {
    hide Sum, Rep, Normalize, ChainOk, Blocks, FileBytes, Linked, HeadBytes, EntryBytes, StoreOf, EntryOf, Gone,
         GoodItems;
    ghost var was, lay := o.pool[..], o.lay;
    var found := Find(o, want);
    GoneIs(lay.items, want, found);
    var oldNodes, oldBytes := 0, 0;
    ghost var oldChain: seq<nat> := [];
    if found >= 0 {
      OldChain(was, lay, found);
      oldChain := lay.chains[found];
      oldNodes := ChainLen(o.pool, found, oldChain);
      oldBytes := HeadBytes(o.pool[found]);
    }
    var total := SnapshotBytes(o);
    var free := FreeCount(o.pool);
    if n > o.FileMax() { return ERR_NOSPACE, 0; }
    if total - oldBytes + FileBytes(|want|, n) > o.Capacity() { return ERR_NOSPACE, 0; }
    if free + oldNodes < Blocks(n) { return ERR_NOSPACE, 0; }
    at := ReplaceFile(o, want, data, n, found, free, oldChain);
    return n, at;
  }

  /** The part of `ov_store` after its checks. */
  method ReplaceFile(o: Overlay, want: Path, data: seq<U8>, n: U32, found: int, free: nat, ghost oldChain: seq<nat>)
    returns (ghost at: nat)
    requires o.Sound() && n <= |data| && want != [] && |want| <= PATH_MAX - 1 && NoNul(want) && found < MAX_NODES
    requires Gone(o.lay.items, want) == if found >= 0 then {found} else {}
    requires if found >= 0 then found in o.lay.items && found in o.lay.chains && oldChain == o.lay.chains[found]
      else oldChain == []
    requires found >= 0 ==> oldChain != [] && oldChain[0] == found && Linked(o.pool[..], oldChain)
    requires free == Sum(o.pool[..], FreeBit) && free + |oldChain| >= Blocks(n) && n <= o.FileMax()
    requires o.Hdr() + Sum(o.pool[..], HeadBytes) + FileBytes(|want|, n)
          <= o.Capacity() + if found >= 0 then HeadBytes(o.pool[found]) else 0
    modifies o`lay, o.pool
    ensures o.Sound() && o.Fitting() && at !in old(o.lay.items - Gone(o.lay.items, want))
    ensures o.lay.items == StoredItems(old(o.lay.items), want, data[..n], at)
    ensures Sum(o.pool[..], FreeBit) == free + |oldChain| - Blocks(n)
    ensures Sum(o.pool[..], HeadBytes) + (if found >= 0 then HeadBytes(old(o.pool[..])[found]) else 0)
         == old(Sum(o.pool[..], HeadBytes)) + FileBytes(|want|, n)
  {
    hide Sum, Rep, Normalize, ChainOk, Blocks, FileBytes, Replaced, Linked, HeadBytes, Swapped, Gone;
    ghost var gone, was, lay := Gone(o.lay.items, want), o.pool[..], o.lay;
    ghost var it := Item(want, FileBody(Cut(data[..n])));
    ghost var c: seq<nat>;
    if free >= Blocks(n) {
      c := BuildThenFree(o.pool, want, data, n, found, oldChain);
    } else {
      c := FreeThenBuild(o.pool, want, data, n, found, oldChain);
    }
    GoneOwners(was, lay, gone, found, oldChain);
    ReplaceKept(was, o.pool[..], lay, gone, c, oldChain);
    ReplacedRep(was, o.pool[..], lay, gone, c, it);
    CutFlat(data[..n]);
    at := c[0];
    o.lay := Replaced(lay, gone, c, it);
  }

  lemma OldChain(pool: seq<Node>, lay: Layout, h: nat)
    requires Rep(pool, lay) && h in lay.items
    ensures h < |pool| && h in lay.chains && lay.chains[h] != [] && lay.chains[h][0] == h && Linked(pool, lay.chains[h])
    ensures HeadBytes(pool[h]) == EntryBytes(lay.items[h].path, EntryOf(lay.items[h].body))
    ensures pool[h].isDir == lay.items[h].body.DirBody?
  {
    HeadOf(pool, lay, h);
    ChainIsLinked(pool, lay.chains[h], lay.items[h]);
  }

  /** The pool after a replacement: the new chain, the old one free, the rest as before. */
  ghost predicate Swapped(was: seq<Node>, now: seq<Node>, c: seq<nat>, oldChain: seq<nat>)
  {
    && |now| == |was|
    && (forall k :: 0 <= k < |c| ==> c[k] < |was| && (!was[c[k]].used || c[k] in oldChain))
    && (forall i :: 0 <= i < |was| && i !in c && i !in oldChain ==> now[i] == was[i])
    && (forall i :: 0 <= i < |was| && i !in c && i in oldChain ==> !now[i].used)
  }

  lemma ReplaceKept(was: seq<Node>, now: seq<Node>, lay: Layout, gone: set<nat>, c: seq<nat>, oldChain: seq<nat>)
    requires UsedOwned(was, lay) && Swapped(was, now, c, oldChain)
    requires forall i :: i in lay.owner ==> (lay.owner[i].head in gone <==> i in oldChain)
    requires forall i :: i in oldChain ==> i in lay.owner
    ensures OthersKept(was, now, lay, gone, c) && Available(lay, gone, c)
  {
  }

  lemma GoneOwners(pool: seq<Node>, lay: Layout, gone: set<nat>, found: int, oldChain: seq<nat>)
    requires Rep(pool, lay) && gone == if found >= 0 then {found} else {}
    requires if found >= 0 then found in lay.chains && oldChain == lay.chains[found] else oldChain == []
    ensures UsedOwned(pool, lay) && forall i :: i in lay.owner ==> (lay.owner[i].head in gone <==> i in oldChain)
    ensures forall i :: i in oldChain ==> i in lay.owner
  {
    hide Owned, Chained;
    if found >= 0 { OwnersOf(pool, lay, found); }
  }

  /** A node is in the chain at h exactly when h owns it. */
  lemma OwnersOf(pool: seq<Node>, lay: Layout, h: nat)
    requires Rep(pool, lay)
    ensures forall i :: i in lay.owner ==> (lay.owner[i].head == h <==> h in lay.chains && i in lay.chains[h])
    ensures h in lay.chains ==> forall i :: i in lay.chains[h] ==> i in lay.owner
    ensures h in lay.chains <==> h in lay.items
  {
    hide ChainOk, UsedOwned;
    if h in lay.chains { assert OwnsChain(lay, h); }
    forall i | i in lay.owner ensures lay.owner[i].head == h <==> h in lay.chains && i in lay.chains[h] {
      assert OwnedAt(lay, i);
    }
  }

  /** Enough free nodes: the old head is hidden, the new chain built, then the old chain freed. */
  method BuildThenFree(pool: array<Node>, want: Path, data: seq<U8>, n: U32, found: int, ghost oldChain: seq<nat>)
    returns (ghost c: seq<nat>)
    requires pool.Length == MAX_NODES && n <= |data| && |want| <= PATH_MAX - 1
    requires Sum(pool[..], FreeBit) >= Blocks(n) && found < MAX_NODES
    requires if found >= 0 then oldChain != [] && oldChain[0] == found && Linked(pool[..], oldChain) else oldChain == []
    modifies pool
    ensures ChainOk(pool[..], c, Item(want, FileBody(Cut(data[..n])))) && Swapped(old(pool[..]), pool[..], c, oldChain)
    ensures Sum(pool[..], HeadBytes) + (if found >= 0 then HeadBytes(old(pool[..])[found]) else 0)
         == old(Sum(pool[..], HeadBytes)) + FileBytes(|want|, n)
    ensures Sum(pool[..], FreeBit) + Blocks(n) == old(Sum(pool[..], FreeBit)) + |oldChain|
  {
    hide Sum, ChainOk, Blocks, FileBytes, Linked;
    ghost var was := pool[..];
    if found >= 0 {
      LinkedUsed(was, oldChain);
      var hidden := pool[found].(path := []);
      SumUpdate(was, found, hidden, HeadBytes);
      SumUpdate(was, found, hidden, FreeBit);
      pool[found] := hidden;
      assert pool[..] == was[found := hidden];
      LinkedSame(was, pool[..], oldChain);
    }
    ghost var mid := pool[..];
    var head: int;
    head, c := Build(pool, want, data, n);
    if found >= 0 {
      ghost var built := pool[..];
      LinkedUsed(mid, oldChain);
      LinkedSame(mid, built, oldChain);
      FreeChain(pool, found, oldChain);
      ChainSame(built, pool[..], c, Item(want, FileBody(Cut(data[..n]))));
    }
    ChainBelow(pool[..], c, Item(want, FileBody(Cut(data[..n]))));
  }

  /** Too few free nodes: the old chain is freed first, which gives enough. */
  method FreeThenBuild(pool: array<Node>, want: Path, data: seq<U8>, n: U32, found: nat, ghost oldChain: seq<nat>)
    returns (ghost c: seq<nat>)
    requires pool.Length == MAX_NODES && n <= |data| && |want| <= PATH_MAX - 1
    requires oldChain != [] && oldChain[0] == found < MAX_NODES && Linked(pool[..], oldChain)
    requires Sum(pool[..], FreeBit) + |oldChain| >= Blocks(n)
    modifies pool
    ensures ChainOk(pool[..], c, Item(want, FileBody(Cut(data[..n])))) && Swapped(old(pool[..]), pool[..], c, oldChain)
    ensures Sum(pool[..], HeadBytes) + HeadBytes(old(pool[..])[found]) ==
      old(Sum(pool[..], HeadBytes)) + FileBytes(|want|, n)
    ensures Sum(pool[..], FreeBit) + Blocks(n) == old(Sum(pool[..], FreeBit)) + |oldChain|
  {
    hide Sum, ChainOk, Blocks, FileBytes, Linked;
    ghost var was := pool[..];
    LinkedUsed(was, oldChain);
    FreeChain(pool, found, oldChain);
    ghost var mid := pool[..];
    var head: int;
    head, c := Build(pool, want, data, n);
    ChainBelow(pool[..], c, Item(want, FileBody(Cut(data[..n]))));
    forall k | 0 <= k < |c| ensures !was[c[k]].used || c[k] in oldChain {
      assert c[k] !in oldChain ==> mid[c[k]] == was[c[k]];
    }
  }

  lemma LinkedUsed(pool: seq<Node>, c: seq<nat>)
    requires Linked(pool, c)
    ensures forall k :: 0 <= k < |c| ==> c[k] < |pool| && pool[c[k]].used
    ensures forall i :: i in c ==> i < |pool| && pool[i].used
  {
    forall k | 0 <= k < |c| ensures c[k] < |pool| && pool[c[k]].used { assert LinkedAt(pool[c[k]], c, k); }
  }

  /** A list stays linked when its nodes keep everything but path, size and data. */
  lemma LinkedSame(pool: seq<Node>, pool': seq<Node>, c: seq<nat>)
    requires Linked(pool, c) && |pool'| == |pool|
    requires forall k :: 0 <= k < |c| && c[k] < |pool| ==>
      pool'[c[k]].used == pool[c[k]].used && pool'[c[k]].isCont == pool[c[k]].isCont &&
        pool'[c[k]].next == pool[c[k]].next
    ensures Linked(pool', c)
  {
    forall k | 0 <= k < |c| ensures c[k] < |pool'| && LinkedAt(pool'[c[k]], c, k) { assert LinkedAt(pool[c[k]], c, k); }
  }

  lemma ChainSame(pool: seq<Node>, pool': seq<Node>, c: seq<nat>, it: Item)
    requires ChainOk(pool, c, it) && |pool'| == |pool|
    requires forall k :: 0 <= k < |c| && c[k] < |pool| ==> pool'[c[k]] == pool[c[k]]
    ensures ChainOk(pool', c, it)
  {
  }

  lemma ChainBelow(pool: seq<Node>, c: seq<nat>, it: Item)
    requires ChainOk(pool, c, it)
    ensures c != [] && Distinct(c) && forall k :: 0 <= k < |c| ==> c[k] < |pool|
  {
  }

  // ---------------------------------------------------------------- write

  /** What storing a file makes of a store with unique paths: they stay unique exactly when the path is stable or was
      not stored, and then one entry is replaced. */
  lemma StoredUnique(items: Items, want: Path, d: seq<U8>, h: nat)
    requires Unique(items) && h !in items - Gone(items, want)
    ensures var st, items' := StoreOf(items), StoredItems(items, want, d, h);
      && (Unique(items') <==> Normalize(want) == want || want !in st)
      && (Unique(items') ==> StoreOf(items') == (st - {Normalize(want)})[want := File(d)])
  {
    hide StoreOf, Normalize, Unique;
    var st, gone := StoreOf(items), Gone(items, want);
    CutFlat(d);
    if Normalize(want) in Paths(items) {
      var f := First(items, Normalize(want));
      RemovedItem(items, f);
      AddedItem(items - {f}, h, Item(want, FileBody(Cut(d))));
    } else {
      PathsOf(items, Normalize(want));
      assert items - gone == items && st - {Normalize(want)} == st;
      AddedItem(items, h, Item(want, FileBody(Cut(d))));
    }
  }

  lemma PathsOf(items: Items, p: Path)
    ensures p in Paths(items) <==> p in StoreOf(items)
  {
  }

  /** What a successful write makes of the store. */
  function Written(st: Store, path: Path, data: seq<U8>): Store
  {
    (st - {Normalize(Normalize(path))})[Normalize(path) := File(data)]
  }

  /** `overlay_write`: the file is replaced or created, or nothing changes. On an unstable path the entry that is
      replaced is the one the second normalisation finds, and a second item gets the path if it was stored already. */
  method Write(o: Overlay, path: Path, data: seq<U8>) returns (rc: int, ghost at: nat)
    requires o.Sound() && NoNul(path) && |data| < BASE
    modifies o`lay, o.pool
    ensures rc == var want, st := Normalize(path), old(o.Store());
      var key := Normalize(want);
      if want == [] then ERR_INVAL
      else if |data| > o.FileMax() then ERR_NOSPACE
      else if (key in st && st[key].Dir?) || o.ird.IsDir(want) then ERR_ISDIR
      else if key !in st && !ParentDir(st, o.ird, want) then ERR_NOTDIR
      else if old(Fits(o, want, |data|)) then |data| else ERR_NOSPACE
    ensures o.Sound() && (rc < 0 ==> o.lay == old(o.lay) && o.pool[..] == old(o.pool[..]))
    ensures rc >= 0 ==> o.Fitting() && at !in old(o.lay.items - Gone(o.lay.items, Normalize(path)))
    ensures rc >= 0 ==> o.lay.items == StoredItems(old(o.lay.items), Normalize(path), data, at)
    ensures rc >= 0 ==>
      && at in o.lay.items && o.lay.items[at].path == Normalize(path) && o.lay.items[at].body.FileBody?
      && Flat(o.lay.items[at].body.blocks) == data
    ensures rc >= 0 ==>
      Sum(o.pool[..], FreeBit) == old(Sum(o.pool[..], FreeBit) + FoundNodes(o.lay, Normalize(path))) - Blocks(|data|)
    ensures rc >= 0 ==>
      Sum(o.pool[..], HeadBytes) ==
      old(Sum(o.pool[..], HeadBytes) - FoundBytes(o.lay, Normalize(path))) + FileBytes(|Normalize(path)|, |data|)
    ensures rc >= 0 && old(Unique(o.lay.items)) ==>
      (Unique(o.lay.items) <==> Normalize(Normalize(path)) == Normalize(path) || Normalize(path) !in old(o.Store()))
    ensures rc >= 0 && old(Unique(o.lay.items)) && Unique(o.lay.items) ==>
      o.Store() == Written(old(o.Store()), path, data)
    ensures rc >= 0 && old(o.Valid()) ==> (o.Valid() <==> !DotSlash(Normalize(path)))
  {
    hide Sum, Rep, Proper, Normalize, StoreOf, GoodItems, Unique, Fits, StoredItems, EntryOf, Gone;
    var want := Normalize(path);
    if want == [] { return ERR_INVAL, 0; }
    if |data| > o.FileMax() { return ERR_NOSPACE, 0; }
    var node := Find(o, want);
    ghost var items := o.lay.items;
    FoundKind(items, node, want);
    if node >= 0 && o.pool[node].isDir { return ERR_ISDIR, 0; }
    if o.ird.IsDir(want) { return ERR_ISDIR, 0; }
    if node < 0 {
      var inDir := ParentIsDir(o, want);
      if !inDir { return ERR_NOTDIR, 0; }
    }
    NormalizeTrims(path);
    rc, at := StoreFile(o, want, data, |data|);
    if rc >= 0 {
      assert data[..|data|] == data;
      WrittenFacts(items, o.ird, want, data, at, o.FileMax());
      StoredIs(items, want, data, at);
    }
  }

  lemma FoundKind(items: Items, node: int, want: Path)
    requires node >= 0 ==> IsFirst(items, Normalize(want), node)
    requires node >= 0 ==> Found(StoreOf(items), want) && StoreOf(items)[Normalize(want)] == EntryOf(items[node].body)
    ensures node >= 0 ==> StoreOf(items)[Normalize(want)].Dir? == items[node].body.DirBody?
  {
  }

  /** Storing a file under a path that the checks let pass: unique paths, and a store in order, before and after. */
  lemma WrittenFacts(items: Items, ird: Initrd, want: Path, d: seq<U8>, h: nat, limit: nat)
    requires h !in items - Gone(items, want) && Trimmed(want) && want != [] && NoNul(want) && |d| <= limit
    requires !ird.IsDir(want)
    requires if Found(StoreOf(items), want) then StoreOf(items)[Normalize(want)].File?
             else ParentDir(StoreOf(items), ird, want) || ird.IsFile(want)
    ensures var st, items' := StoreOf(items), StoredItems(items, want, d, h);
      && (Unique(items) ==> (Unique(items') <==> Normalize(want) == want || want !in st))
      && (Unique(items) && Unique(items') ==> StoreOf(items') == (st - {Normalize(want)})[want := File(d)])
      && (Proper(items, ird, limit) ==> (Proper(items', ird, limit) <==> !DotSlash(want)))
  {
    hide StoreOf, Normalize, Unique, Flat, Full, Cut, Gone;
    var items' := StoredItems(items, want, d, h);
    if Unique(items) { StoredUnique(items, want, d, h); }
    CutFlat(d);
    if Proper(items, ird, limit) {
      if DotSlash(want) {
        Seen(items', h);
      } else {
        NormalizeCanon(want);
        FileKeepsTree(StoreOf(items), ird, want, d);
        ChangedItems(items, want, d, h);
      }
    }
  }

  lemma ChangedItems(items: Items, want: Path, d: seq<U8>, h: nat)
    ensures forall k :: k in StoredItems(items, want, d, h) ==>
      k == h || (k in items && items[k] == StoredItems(items, want, d, h)[k])
    ensures h in StoredItems(items, want, d, h) && StoredItems(items, want, d, h)[h] == Item(want, FileBody(Cut(d)))
  {
  }

  /** The next write, append or directory query (which normalise twice) finds a written file exactly when its path does
      not still begin with "./" after normalisation; then, or when nothing is stored under the second normal form, no
      other entry is lost. */
  lemma WrittenIsFound(st: Store, path: Path, data: seq<U8>)
    ensures Found(Written(st, path, data), Normalize(path)) <==> !DotSlash(Normalize(path))
    ensures Written(st, path, data) == st[Normalize(path) := File(data)] <==>
            !DotSlash(Normalize(path)) || Normalize(Normalize(path)) !in st
  {
    hide Normalize, DotSlash;
    NormalizeStable(path);
    var w := Normalize(path);
    if DotSlash(w) && Normalize(w) in st {
      assert Normalize(w) !in Written(st, path, data) && Normalize(w) in st[w := File(data)];
    }
  }

  /** On a canonical path, replacing the entry found there is a plain map update that keeps the tree. */
  lemma FileKeepsTree(st: Store, ird: Initrd, want: Path, data: seq<U8>)
    requires Tree(st, ird) && Canon(want) && !ird.IsDir(want)
    requires if Found(st, want) then st[Normalize(want)].File? else ParentDir(st, ird, want) || ird.IsFile(want)
    ensures (st - {Normalize(want)})[want := File(data)] == st[want := File(data)]
    ensures Tree((st - {Normalize(want)})[want := File(data)], ird)
  {
    NormalizeCanon(want);
    CanonLookups(st, ird, want);
    UpSpec(want);
    UpStrict(want);
    if !Found(st, want) && Up(want) != [] && ird.IsFile(want) { InitrdClosed(ird, want, Up(want)); }
    TreeStored(st, ird, want, File(data));
    assert (st - {want})[want := File(data)] == st[want := File(data)];
  }

  // ---------------------------------------------------------------- read

  /** The bytes [offset, offset + max) of d. */
  function Slice(d: seq<U8>, offset: nat, max: nat): seq<U8>
  {
    if offset >= |d| then [] else d[offset..Min(offset + max, |d|)]
  }

  /** What a file node says about its block. */
  lemma BlockFacts(pool: seq<Node>, c: seq<nat>, p: Path, bs: seq<seq<U8>>, k: nat)
    requires ChainOk(pool, c, Item(p, FileBody(bs))) && k < |c|
    ensures |c| == |bs| && WellCut(bs) && c[k] < |pool| && (k + 1 < |c| ==> c[k + 1] < |pool|) && !pool[c[k]].isDir
    ensures pool[c[k]].isCont == (k > 0) && pool[c[k]].next == (if k + 1 < |c| then c[k + 1] else -1)
    ensures pool[c[k]].size == (if k == 0 then |Flat(bs)| else |bs[k]|)
    ensures |bs[k]| <= DATA_MAX && pool[c[k]].data[..|bs[k]|] == bs[k]
    ensures |bs[0]| == if |Flat(bs)| > DATA_MAX then DATA_MAX else |Flat(bs)|
  {
    assert LinkOk(pool[c[k]], c, k, p) && BlockOk(pool[c[k]], k, bs);
    CutCount(bs);
  }

  /** The inner copy loop: the rest of a block from byte i0, as far as the buffer goes. */
  method CopyOut(buf: array<U8>, start: nat, max: nat, block: seq<U8>, i0: nat) returns (out: nat)
    requires start <= max <= buf.Length && i0 <= |block|
    modifies buf
    ensures out == Min(start + |block| - i0, max) && start <= out
    ensures buf[..out] == old(buf[..start]) + block[i0..i0 + out - start]
    ensures forall j :: out <= j < buf.Length ==> buf[j] == old(buf[j])
  {
    out := start;
    var i := i0;
    while i < |block| && out < max
      invariant i0 <= i <= |block| && out == start + i - i0 <= max
      invariant buf[..out] == old(buf[..start]) + block[i0..i]
      invariant forall j :: out <= j < buf.Length ==> buf[j] == old(buf[j])
    {
      buf[out] := block[i];
      out := out + 1;
      i := i + 1;
    }
  }

  /** The bytes a read delivers, and its result. */
  function ReadBytes(st: Store, path: Path, offset: nat, max: nat): (r: seq<U8>)
    ensures |r| <= max
  {
    if Found(st, path) && st[Normalize(path)].File? then Slice(st[Normalize(path)].bytes, offset, max) else []
  }

  function ReadCode(st: Store, path: Path, offset: nat, max: nat): int
  {
    if !Found(st, path) then ERR_NOTFOUND else if st[Normalize(path)].Dir? then ERR_ISDIR
    else if max == 0 then ERR_INVAL else |ReadBytes(st, path, offset, max)|
  }

  /** `overlay_read_at`: exactly the requested slice of the file, the rest of the buffer untouched. */
  method ReadAt(o: Overlay, path: Path, buf: array<U8>, max: U32, offset: U32) returns (rc: int)
    requires o.Sound() && max <= buf.Length
    modifies buf
    ensures rc <= buf.Length && rc == ReadCode(o.Store(), path, offset, max)
    ensures rc >= 0 ==> buf[..rc] == ReadBytes(o.Store(), path, offset, max)
    ensures forall j :: (if rc < 0 then 0 else rc) <= j < buf.Length ==> buf[j] == old(buf[j])
    ensures Normalize(path) !in o.Store() ==> rc == ERR_NOTFOUND
    ensures Normalize(path) in o.Store() && o.Store()[Normalize(path)].Dir? ==> rc == ERR_ISDIR
    ensures Normalize(path) in o.Store() && o.Store()[Normalize(path)].File? ==>
      var d := o.Store()[Normalize(path)].bytes;
      && rc == (if max == 0 then ERR_INVAL else if offset >= |d| then 0
                else if |d| - offset < max then |d| - offset else max)
      && forall k :: 0 <= k < rc ==> buf[k] == d[offset + k]
  {
    hide Sum, Rep, Normalize, ChainOk, StoreOf, GoodItems, HeadBytes, EntryBytes, Flat;
    var found := Find(o, path);
    if found < 0 { return ERR_NOTFOUND; }
    ghost var it := o.lay.items[found];
    HeadOf(o.pool[..], o.lay, found);
    if o.pool[found].isDir { return ERR_ISDIR; }
    if max == 0 { return ERR_INVAL; }
    if offset >= o.pool[found].size {
      assert buf[..0] == [];
      return 0;
    }
    ChainAt(o.pool[..], o.lay, found);
    rc := ReadChain(o.pool, found, buf, max, offset, o.lay.chains[found], it.path, it.body.blocks);
  }

  /** Reads one after the other, of any sizes in turn, until one gives nothing: together they are the file. */
  method ReadThrough(o: Overlay, path: Path, buf: array<U8>, sizes: seq<U32>) returns (all: seq<U8>)
    requires o.Sound() && Normalize(path) in o.Store() && o.Store()[Normalize(path)].File?
    requires sizes != [] && forall k :: 0 <= k < |sizes| ==> 0 < sizes[k] <= buf.Length
    modifies buf
    ensures all == old(o.Store())[Normalize(path)].bytes
  {
    hide Sum, Rep, Normalize, StoreOf, ReadBytes, ReadCode, GoodItems;
    ghost var d := o.Store()[Normalize(path)].bytes;
    StoredSize(o, path);
    all := [];
    var offset, n := 0, 0;
    while true
      invariant offset <= |d| && all == d[..offset] && 0 <= n < |sizes|
      decreases |d| - offset
    {
      var rc := ReadAt(o, path, buf, sizes[n], offset);
      if rc == 0 { return; }
      assert buf[..rc] == d[offset..offset + rc];
      all := all + buf[..rc];
      offset, n := offset + rc, (n + 1) % |sizes|;
    }
  }

  lemma StoredSize(o: Overlay, path: Path)
    requires o.Sound() && Normalize(path) in o.Store() && o.Store()[Normalize(path)].File?
    ensures |o.Store()[Normalize(path)].bytes| <= FILE_MAX_EXT_BYTES
  {
    hide Sum, Rep, Normalize, StoreOf;
    var h := Behind(o.lay.items, Normalize(path));
  }

  lemma ChainAt(pool: seq<Node>, lay: Layout, h: nat)
    requires Rep(pool, lay) && h in lay.items
    ensures h in lay.chains && lay.chains[h] != [] && lay.chains[h][0] == h &&
      ChainOk(pool, lay.chains[h], lay.items[h])
  {
  }

  /** The loop over the chain, however its blocks are cut. */
  method ReadChain(pool: array<Node>, head: nat, buf: array<U8>, max: U32, offset: U32,
                   ghost c: seq<nat>, ghost p: Path, ghost bs: seq<seq<U8>>) returns (out: nat)
    requires pool.Length == MAX_NODES && c != [] && c[0] == head && ChainOk(pool[..], c, Item(p, FileBody(bs)))
    requires 0 < max <= buf.Length && offset < |Flat(bs)|
    modifies buf
    ensures out == |Slice(Flat(bs), offset, max)| && out <= buf.Length
    ensures buf[..out] == Slice(Flat(bs), offset, max) && forall j :: out <= j < buf.Length ==> buf[j] == old(buf[j])
  {
    hide ChainOk, Flat, WellCut, Reached;
    ghost var pl, k, d := pool[..], 0, Flat(bs);
    BlockFacts(pl, c, p, bs, 0);
    FlatNone(bs);
    var curr: int, pos := head, 0;
    out := 0;
    ReachedNone(offset, max);
    while curr >= 0 && out < max
      invariant 0 <= k <= |c| == |bs| && curr == (if k < |c| then c[k] else -1)
      invariant pos == |Flat(bs[..k])| <= |d| && (k == |c| ==> pos == |d|)
      invariant out == Reached(pos, offset, max)
      invariant buf[..out] == d[offset..offset + out]
      invariant forall j :: out <= j < buf.Length ==> buf[j] == old(buf[j])
      decreases |c| - k
    {
      BlockFacts(pl, c, p, bs, k);
      BlockAt(bs, k);
      FlatSnoc(bs, k);
      var node := pool[curr];
      var blk: nat := if node.isCont then node.size else Min(node.size, DATA_MAX);
      assert node.data[..blk] == d[pos..pos + blk];
      ReachedNot(pos, blk, offset, max);
      if pos + blk > offset { out := ReadBlock(buf, out, max, offset, pos, node.data[..blk], d); }
      pos := pos + blk;
      curr := if 0 <= node.next < MAX_NODES then node.next else -1;
      k := k + 1;
    }
    ReachedAll(d, offset, max, pos, out);
  }

  /** The part of one block that the request covers. */
  method ReadBlock(buf: array<U8>, start: nat, max: nat, offset: nat, pos: nat, block: seq<U8>, ghost d: seq<U8>)
    returns (out: nat)
    requires max <= buf.Length && offset < pos + |block| <= |d| && block == d[pos..pos + |block|]
    requires start == Reached(pos, offset, max) < max && buf[..start] == d[offset..offset + start]
    modifies buf
    ensures out == Reached(pos + |block|, offset, max) && buf[..out] == d[offset..offset + out]
    ensures start <= out && forall j :: out <= j < buf.Length ==> buf[j] == old(buf[j])
  {
    var i := if offset > pos then offset - pos else 0;
    out := CopyOut(buf, start, max, block, i);
    ReadStep(buf[..out], d, offset, max, pos, |block|, start, i);
  }

  /** How many bytes have been delivered once the chain is read up to pos. */
  lemma ReachedNot(pos: nat, n: nat, offset: nat, max: nat)
    ensures pos + n <= offset ==> Reached(pos + n, offset, max) == Reached(pos, offset, max) == 0
  {
  }

  lemma ReachedNone(offset: nat, max: nat)
    ensures Reached(0, offset, max) == 0
  {
  }

  /** A step that stays before the offset reaches nothing, and the end of the file or of the request ends the slice. */
  lemma ReachedAll(d: seq<U8>, offset: nat, max: nat, pos: nat, out: nat)
    requires 0 < max && offset < |d| && pos <= |d| && out == Reached(pos, offset, max) && (pos == |d| || out >= max)
    ensures offset + out <= |d| && Slice(d, offset, max) == d[offset..offset + out]
  {
  }

  function Reached(pos: int, offset: nat, max: nat): (r: nat)
    ensures r <= max && (r == 0 || offset + r <= pos)
  {
    if pos <= offset then 0 else Min(pos - offset, max)
  }

  lemma ReadStep(now: seq<U8>, d: seq<U8>, offset: nat, max: nat, pos: nat, blk: nat, start: nat, i: nat)
    requires pos + blk <= |d| && offset < pos + blk && start == Reached(pos, offset, max) < max
    requires i == (if offset > pos then offset - pos else 0) && |now| == Min(start + blk - i, max)
    requires now == d[offset..offset + start] + d[pos..pos + blk][i..i + |now| - start]
    ensures |now| == Reached(pos + blk, offset, max) && now == d[offset..offset + |now|]
  {
    assert pos + i == offset + start;
    SliceOfSlice(d, pos, pos + blk, i, i + |now| - start);
  }

  lemma SliceOfSlice(d: seq<U8>, a: nat, b: nat, i: nat, j: nat)
    requires a <= b <= |d| && i <= j <= b - a
    ensures d[a..b][i..j] == d[a + i..a + j]
  {
    var x, y := d[a..b][i..j], d[a + i..a + j];
    assert |x| == |y| && forall k :: 0 <= k < |x| ==> x[k] == y[k];
  }

  // ---------------------------------------------------------------- append

  /** What an append starts from: the stored file, or the ramdisk file cut at the limit, or nothing. */
  ghost function AppendBase(st: Store, ird: Initrd, want: Path, limit: nat): seq<U8>
  {
    if Found(st, want) && st[Normalize(want)].File? then st[Normalize(want)].bytes
    else if ird.IsFile(want) then Slice(ird.names[Normalize(want)], 0, limit) else []
  }

  /** `overlay_append`: the data goes behind what the path holds, or nothing changes. */
  method Append(o: Overlay, path: Path, data: seq<U8>) returns (rc: int, ghost at: nat, ghost base: seq<U8>)
    requires o.Sound() && NoNul(path) && |data| + FILE_MAX_EXT_BYTES < BASE
    modifies o`lay, o.pool, o.tmp
    ensures base == var key, st, f := Normalize(Normalize(path)), old(o.Store()), o.ird.names;
      if key in st && st[key].File? then st[key].bytes
      else if key !in f then [] else if |f[key]| > o.FileMax() then f[key][..o.FileMax()] else f[key]
    ensures rc == var want, st := Normalize(path), old(o.Store());
      var key := Normalize(want);
      if want == [] then ERR_INVAL
      else if o.ird.IsDir(want) || (key in st && st[key].Dir?) then ERR_ISDIR
      else if key !in st && key !in o.ird.names && !ParentDir(st, o.ird, want) then ERR_NOTDIR
      else if old(Fits(o, want, |base| + |data|)) then |data| else ERR_NOSPACE
    ensures o.Sound() && (rc < 0 ==> o.lay == old(o.lay) && o.pool[..] == old(o.pool[..]))
    ensures rc >= 0 ==> o.Fitting() && at !in old(o.lay.items - Gone(o.lay.items, Normalize(path)))
    ensures rc >= 0 ==> o.lay.items == StoredItems(old(o.lay.items), Normalize(path), base + data, at)
    ensures rc >= 0 ==>
      && at in o.lay.items && o.lay.items[at].path == Normalize(path) && o.lay.items[at].body.FileBody?
      && Flat(o.lay.items[at].body.blocks) == base + data
    ensures rc >= 0 && old(Unique(o.lay.items)) ==>
      (Unique(o.lay.items) <==> Normalize(Normalize(path)) == Normalize(path) || Normalize(path) !in old(o.Store()))
    ensures rc >= 0 && old(Unique(o.lay.items)) && Unique(o.lay.items) ==>
      && o.Store() == Written(old(o.Store()), path, base + data)
      && Normalize(path) in o.Store() && o.Store()[Normalize(path)] == File(base + data)
    ensures rc >= 0 && old(o.Valid()) ==> (o.Valid() <==> !DotSlash(Normalize(path)))
  {
    hide Sum, Rep, Proper, Normalize, StoreOf, GoodItems, Unique, StoredItems, EntryOf, Blocks, FileBytes, Gone, Fits,
         AppendBase;
    var want := Normalize(path);
    base := AppendBase(o.Store(), o.ird, want, o.FileMax());
    BaseIs(o.Store(), o.ird, want, o.FileMax());
    if want == [] { return ERR_INVAL, 0, base; }
    if o.ird.IsDir(want) { return ERR_ISDIR, 0, base; }
    var head := Find(o, want);
    ghost var items := o.lay.items;
    FoundKind(items, head, want);
    if head >= 0 && o.pool[head].isDir { return ERR_ISDIR, 0, base; }
    if head >= 0 { HeadSize(o.pool[..], o.lay, head); }
    NotFitting(o, want, |base| + |data|);
    if head >= 0 && o.pool[head].size + |data| > o.FileMax() { return ERR_NOSPACE, 0, base; }
    var have := GatherBase(o, want, head);
    if have < 0 { return ERR_NOTDIR, 0, base; }
    if have + |data| > o.FileMax() { return ERR_NOSPACE, 0, base; }
    NormalizeTrims(path);
    rc, at := AppendTo(o, want, have, data, base);
    if rc < 0 { return rc, 0, base; }
    WrittenFacts(items, o.ird, want, base + data, at, o.FileMax());
    StoredIs(items, want, base + data, at);
    return |data|, at, base;
  }

  /** Puts the data behind what has been gathered, and stores it. */
  method AppendTo(o: Overlay, want: Path, have: nat, data: seq<U8>, ghost base: seq<U8>)
    returns (rc: int, ghost at: nat)
    requires o.Sound() && want != [] && |want| <= PATH_MAX - 1 && NoNul(want)
    requires have + |data| <= o.FileMax() && o.tmp[..have] == base
    modifies o`lay, o.pool, o.tmp
    ensures rc == if old(Fits(o, want, |base| + |data|)) then |base| + |data| else ERR_NOSPACE
    ensures o.Sound() && (rc < 0 ==> o.lay == old(o.lay) && o.pool[..] == old(o.pool[..]))
    ensures rc >= 0 ==> o.Fitting() && at !in old(o.lay.items - Gone(o.lay.items, want))
    ensures rc >= 0 ==> o.lay.items == StoredItems(old(o.lay.items), want, base + data, at)
  {
    hide Sum, Rep, StoreOf, GoodItems, StoredItems, Blocks, FileBytes, Gone, Fits;
    AppendBytes(o.tmp, have, data);
    rc, at := StoreFile(o, want, o.tmp[..], have + |data|);
    assert o.tmp[..][..have + |data|] == base + data;
  }

  lemma NotFitting(o: Overlay, want: Path, n: nat)
    ensures n > o.FileMax() ==> !Fits(o, want, n)
  {
  }

  lemma BaseIs(st: Store, ird: Initrd, want: Path, limit: nat)
    ensures AppendBase(st, ird, want, limit) == var key, f := Normalize(want), ird.names;
      if key in st && st[key].File? then st[key].bytes
      else if key !in f then [] else if |f[key]| > limit then f[key][..limit] else f[key]
  {
    hide Normalize;
  }

  lemma StoredIs(items: Items, want: Path, d: seq<U8>, h: nat)
    ensures var items' := StoredItems(items, want, d, h);
      h in items' && items'[h] == Item(want, FileBody(Cut(d))) && Flat(Cut(d)) == d
  {
    CutFlat(d);
  }

  lemma HeadSize(pool: seq<Node>, lay: Layout, h: nat)
    requires Rep(pool, lay) && h in lay.items && lay.items[h].body.FileBody?
    ensures h < |pool| && EntryOf(lay.items[h].body).File? && pool[h].size == |EntryOf(lay.items[h].body).bytes|
  {
    HeadOf(pool, lay, h);
  }

  /** Brings what the path holds into the scratch buffer; -1 when there is nothing and no directory to create it in. */
  method GatherBase(o: Overlay, want: Path, head: int) returns (have: int)
    requires o.Sound() && (head >= 0 <==> Found(o.Store(), want))
    requires Found(o.Store(), want) ==>
      o.Store()[Normalize(want)].File? && |o.Store()[Normalize(want)].bytes| <= o.FileMax()
    modifies o.tmp
    ensures have < 0 <==> !Found(o.Store(), want) && !o.ird.IsFile(want) && !ParentDir(o.Store(), o.ird, want)
    ensures have >= 0 ==> have <= o.tmp.Length && o.tmp[..have] == AppendBase(o.Store(), o.ird, want, o.FileMax())
  {
    hide Sum, Rep, Normalize, StoreOf, GoodItems;
    have := 0;
    if head >= 0 {
      have := ReadAt(o, want, o.tmp, o.FileMax(), 0);
      ghost var d := o.Store()[Normalize(want)].bytes;
      assert Slice(d, 0, o.FileMax()) == d;
    } else if o.ird.IsFile(want) {
      have := InitrdReadInto(o.ird, want, o.tmp, o.FileMax());
    } else {
      var inDir := ParentIsDir(o, want);
      if !inDir { return -1; }
    }
  }

  method InitrdReadInto(ird: Initrd, path: Path, buf: array<U8>, max: nat) returns (n: nat)
    requires ird.IsFile(path) && max <= buf.Length
    modifies buf
    ensures n == |Slice(ird.names[Normalize(path)], 0, max)| <= max
    ensures buf[..n] == Slice(ird.names[Normalize(path)], 0, max)
  {
    var f := ird.names[Normalize(path)];
    n := Min(|f|, max);
    AppendBytes(buf, 0, f[..n]);
  }

  method AppendBytes(buf: array<U8>, have: nat, data: seq<U8>)
    requires have + |data| <= buf.Length
    modifies buf
    ensures buf[..have + |data|] == old(buf[..have]) + data
  {
    for i := 0 to |data|
      invariant buf[..have + i] == old(buf[..have]) + data[..i]
    {
      buf[have + i] := data[i];
    }
  }

  // ---------------------------------------------------------------- unlink

  /** `overlay_unlink`: exactly one item goes, never a directory with something below it. */
  method Unlink(o: Overlay, path: Path) returns (rc: int)
    requires o.Sound() && NoNul(path)
    modifies o`lay, o.pool
    ensures rc == var want, st := Normalize(path), old(o.Store());
      if want == [] then ERR_INVAL
      else if !Found(st, want) then (if o.ird.IsFile(want) || o.ird.IsDir(want) then ERR_PROTECTED else ERR_NOTFOUND)
      else if st[Normalize(want)].Dir? && exists q :: q in st && StrictlyUnder(q, Normalize(want)) then ERR_NOTEMPTY
        else OV_OK
    ensures o.Sound() && (rc != OV_OK ==> o.lay == old(o.lay) && o.pool[..] == old(o.pool[..]))
    ensures rc == OV_OK ==> o.lay.items == old(o.lay.items - Gone(o.lay.items, Normalize(path)))
    ensures rc == OV_OK ==>
      Sum(o.pool[..], FreeBit) == old(Sum(o.pool[..], FreeBit) + FoundNodes(o.lay, Normalize(path)))
    ensures rc == OV_OK ==>
      Sum(o.pool[..], HeadBytes) == old(Sum(o.pool[..], HeadBytes) - FoundBytes(o.lay, Normalize(path)))
    ensures old(Unique(o.lay.items)) ==> Unique(o.lay.items)
    ensures rc == OV_OK && old(Unique(o.lay.items)) ==> o.Store() == old(o.Store()) - {Normalize(Normalize(path))}
    ensures (old(o.Fitting()) ==> o.Fitting()) && (old(o.Valid()) ==> o.Valid())
  {
    hide Sum, Rep, Tree, Normalize, HeadBytes, EntryBytes, Linked, Removed, StoreOf, GoodItems, Unique, AllFull, Within,
         Gone, EntryOf;
    var want := Normalize(path);
    if want == [] { return ERR_INVAL; }
    var n := Find(o, want);
    if n < 0 {
      if o.ird.IsFile(want) || o.ird.IsDir(want) { return ERR_PROTECTED; }
      return ERR_NOTFOUND;
    }
    ghost var p, was, lay := Normalize(want), o.pool[..], o.lay;
    GoneIs(lay.items, want, n);
    FoundKind(lay.items, n, want);
    OldChain(was, lay, n);
    RootIsNoItem(lay.items);
    if o.pool[n].isDir {
      var below := HasChildren(o, want);
      assert forall q :: q in StoreOf(lay.items) ==> (Below(q, p) <==> StrictlyUnder(q, p));
      if below { return ERR_NOTEMPTY; }
    }
    ghost var c := lay.chains[n];
    FreeChain(o.pool, n, c);
    UnlinkKept(was, o.pool[..], lay, n);
    RemovedRep(was, o.pool[..], lay, {n});
    if Unique(lay.items) { RemovedItem(lay.items, n); }
    if Tree(StoreOf(lay.items), o.ird) { TreeRemoved(StoreOf(lay.items), o.ird, p); }
    RemovedKeeps(lay, {n}, o.FileMax());
    o.lay := Removed(lay, {n});
    return OV_OK;
  }

  lemma RemovedKeeps(lay: Layout, gone: set<nat>, limit: nat)
    ensures Removed(lay, gone).items == lay.items - gone
    ensures GoodItems(lay.items) ==> GoodItems(lay.items - gone)
    ensures Within(lay.items, limit) ==> Within(lay.items - gone, limit)
    ensures AllFull(lay.items) ==> AllFull(lay.items - gone)
  {
  }

  lemma UnlinkKept(was: seq<Node>, now: seq<Node>, lay: Layout, h: nat)
    requires Rep(was, lay) && h in lay.items && h in lay.chains && |now| == |was|
    requires forall k :: 0 <= k < |lay.chains[h]| && lay.chains[h][k] < |was| ==> !now[lay.chains[h][k]].used
    requires forall i :: 0 <= i < |was| && i !in lay.chains[h] ==> now[i] == was[i]
    ensures OthersKept(was, now, lay, {h}, [])
  {
    hide Owned, Chained;
    OwnersOf(was, lay, h);
  }
}
