/** The node pool of the overlay store and the map of paths it represents (fs/overlay.c:9-48, 253-293). */
module OverlayState {
  import opened Words
  import opened OverlayPaths

  const MAX_NODES: nat := 288
  const DATA_MAX: nat := 384
  const REC_HDR: nat := 8

  type Block = s: seq<U8> | |s| == 384 witness seq(384, i => 0)

  /** One slot of the pool: a directory, the first block of a file, or a further block. */
  datatype Node = Node(used: bool, isDir: bool, isCont: bool, next: int, path: Path, data: Block, size: U32)

  const EMPTY_NODE := Node(false, false, false, -1, [], seq(384, i => 0), 0)

  /** What a path stands for. */
  datatype Entry = Dir | File(bytes: seq<U8>)

  type Store = map<Path, Entry>

  /** The read-only files of the initial ramdisk, by normalised name. */
  datatype Initrd = Initrd(names: map<Path, seq<U8>>) {
    predicate IsFile(p: Path) { Normalize(p) in names }

    predicate IsDir(p: Path) { Normalize(p) == [] || exists f :: f in names && StrictlyUnder(f, Normalize(p)) }
  }

  predicate StrictlyUnder(f: Path, d: Path) { Under(f, d) && f != d }

  /** `ov_blocks_for`. */
  function Blocks(n: nat): (r: nat)
    ensures r >= 1 && n <= r * DATA_MAX && (n > 0 ==> (r - 1) * DATA_MAX < n)
  {
    if n == 0 then 1 else (n + DATA_MAX - 1) / DATA_MAX
  }

  /** Bytes held by block k of a file of n bytes. */
  function BlockLen(n: nat, k: nat): (r: nat)
    requires k < Blocks(n)
    ensures r <= DATA_MAX && k * DATA_MAX + r <= n
  {
    if n - k * DATA_MAX > DATA_MAX then DATA_MAX else n - k * DATA_MAX
  }

  /** `ov_file_bytes`: image bytes of a file. */
  function FileBytes(plen: nat, n: nat): nat { Blocks(n) * REC_HDR + plen + n }

  /** `ov_chain_bytes`: image bytes of the entry whose head is this node; other nodes count nothing. */
  function HeadBytes(n: Node): nat
  {
    if !n.used || n.isCont then 0
    else if n.isDir then REC_HDR + |n.path| else FileBytes(|n.path|, n.size)
  }

  function EntryBytes(p: Path, e: Entry): nat
  {
    match e case Dir => REC_HDR + |p| case File(d) => FileBytes(|p|, |d|)
  }

  function FreeBit(n: Node): nat { if n.used then 0 else 1 }

  /** A total over the pool. */
  function Sum(pool: seq<Node>, f: Node -> nat): nat
  {
    if pool == [] then 0 else Sum(pool[..|pool| - 1], f) + f(pool[|pool| - 1])
  }

  lemma SumSnoc(pool: seq<Node>, i: nat, f: Node -> nat)
    requires i < |pool|
    ensures Sum(pool[..i + 1], f) == Sum(pool[..i], f) + f(pool[i])
  {
    assert pool[..i + 1][..i] == pool[..i];
  }

  lemma {:induction false} SumUpdate(pool: seq<Node>, i: nat, x: Node, f: Node -> nat)
    requires i < |pool|
    ensures Sum(pool[i := x], f) + f(pool[i]) == Sum(pool, f) + f(x)
  {
    var k := |pool| - 1;
    if i == k {
      assert pool[i := x][..k] == pool[..k];
    } else {
      SumUpdate(pool[..k], i, x, f);
      assert pool[i := x][..k] == pool[..k][i := x];
    }
  }

  lemma {:induction false} SumZero(pool: seq<Node>, f: Node -> nat)
    requires forall i :: 0 <= i < |pool| ==> f(pool[i]) == 0
    ensures Sum(pool, f) == 0
  {
    if pool != [] { SumZero(pool[..|pool| - 1], f); }
  }

  lemma {:induction false} SumPrefix(pool: seq<Node>, i: nat, f: Node -> nat)
    requires i <= |pool|
    ensures Sum(pool[..i], f) <= Sum(pool, f)
    decreases |pool| - i
  {
    if i < |pool| {
      SumSnoc(pool, i, f);
      SumPrefix(pool, i + 1, f);
    } else {
      assert pool[..i] == pool;
    }
  }

  lemma {:induction false} SumFree(pool: seq<Node>)
    requires forall i :: 0 <= i < |pool| ==> !pool[i].used
    ensures Sum(pool, FreeBit) == |pool|
  {
    if pool != [] { SumFree(pool[..|pool| - 1]); }
  }

  // ---------------------------------------------------------------- slots in use

  /** Which slots are in use. */
  function UsedBits(pool: seq<Node>): seq<bool> { seq(|pool|, i requires 0 <= i < |pool| => pool[i].used) }

  function FreeSlots(used: seq<bool>): nat
  {
    if used == [] then 0 else FreeSlots(used[..|used| - 1]) + if used[|used| - 1] then 0 else 1
  }

  /** The slot that the next allocation takes, or the number of slots if all are in use. */
  function FirstFree(used: seq<bool>): (r: nat)
    ensures r <= |used| && (r < |used| ==> !used[r]) && forall i :: 0 <= i < r ==> used[i]
  {
    if used == [] || !used[0] then 0 else 1 + FirstFree(used[1..])
  }

  /** The slots in use after n allocations. */
  function Taken(used: seq<bool>, n: nat): (r: seq<bool>)
    ensures |r| == |used|
  {
    if n == 0 then used
    else
      var t := Taken(used, n - 1);
      if FirstFree(t) < |t| then t[FirstFree(t) := true] else t
  }

  lemma {:induction false} FreeSlotsSum(pool: seq<Node>)
    ensures FreeSlots(UsedBits(pool)) == Sum(pool, FreeBit)
  {
    if pool != [] {
      var k := |pool| - 1;
      FreeSlotsSum(pool[..k]);
      assert UsedBits(pool)[..k] == UsedBits(pool[..k]);
    }
  }

  /** The nodes c are the first free ones, in order. */
  ghost predicate Leading(pool: seq<Node>, c: seq<nat>)
  {
    forall k :: 0 <= k < |c| ==> c[k] < |pool| && LeadsAt(pool, c, k)
  }

  predicate LeadsAt(pool: seq<Node>, c: seq<nat>, k: nat)
    requires k < |c| && c[k] < |pool|
  {
    !pool[c[k]].used && c[k] !in c[..k] && forall j :: 0 <= j < c[k] && !pool[j].used ==> j in c[..k]
  }

  lemma LeadingNone(pool: seq<Node>)
    ensures Leading(pool, [])
  {
  }

  lemma LeadingMore(was: seq<Node>, now: seq<Node>, c: seq<nat>, cur: nat)
    requires Leading(was, c) && |now| == |was| && cur < |was| && cur !in c
    requires forall i :: 0 <= i < |was| && i !in c ==> now[i] == was[i]
    requires !now[cur].used && forall j :: 0 <= j < cur ==> now[j].used
    ensures Leading(was, c + [cur])
  {
    var c' := c + [cur];
    forall k | 0 <= k < |c'| ensures c'[k] < |was| && LeadsAt(was, c', k) {
      assert c'[..k] == c[..k];
      if k < |c| { assert LeadsAt(was, c, k); }
    }
  }

  /** The slots in use once the first k nodes of c are taken. */
  function Marked(pool: seq<Node>, c: seq<nat>, k: nat): seq<bool>
    requires k <= |c|
  {
    seq(|pool|, i requires 0 <= i < |pool| => pool[i].used || i in c[..k])
  }

  lemma MarkedNext(pool: seq<Node>, c: seq<nat>, k: nat)
    requires Leading(pool, c) && k < |c|
    ensures FirstFree(Marked(pool, c, k)) == c[k] < |pool|
    ensures Marked(pool, c, k)[c[k] := true] == Marked(pool, c, k + 1)
  {
    assert LeadsAt(pool, c, k);
    assert c[..k + 1] == c[..k] + [c[k]];
    var t, f := Marked(pool, c, k), FirstFree(Marked(pool, c, k));
    assert !t[c[k]] && forall j :: 0 <= j < c[k] ==> t[j];
    assert f == c[k];
    assert t[c[k] := true] == Marked(pool, c, k + 1);
  }

  lemma {:induction false} TakenIsMarked(pool: seq<Node>, c: seq<nat>, k: nat)
    requires Leading(pool, c) && k <= |c|
    ensures Taken(UsedBits(pool), k) == Marked(pool, c, k)
  {
    if k == 0 {
      assert Marked(pool, c, 0) == UsedBits(pool);
    } else {
      TakenIsMarked(pool, c, k - 1);
      MarkedNext(pool, c, k - 1);
    }
  }

  /** Taking the first free nodes is that many allocations. */
  lemma TakenIs(was: seq<Node>, now: seq<Node>, c: seq<nat>)
    requires Leading(was, c) && |now| == |was|
    requires forall i :: 0 <= i < |was| ==> (now[i].used <==> was[i].used || i in c)
    ensures UsedBits(now) == Taken(UsedBits(was), |c|)
    ensures c != [] ==> c[0] == FirstFree(UsedBits(was))
  {
    hide Taken, Leading, FirstFree;
    TakenIsMarked(was, c, |c|);
    assert c[..|c|] == c && UsedBits(now) == Marked(was, c, |c|);
    if c != [] {
      MarkedNext(was, c, 0);
      assert Marked(was, c, 0) == UsedBits(was);
    }
  }
  // ---------------------------------------------------------------- blocks

  /** The bytes of a list of blocks, in order. */
  function Flat(bs: seq<seq<U8>>): seq<U8>
  {
    if bs == [] then [] else Flat(bs[..|bs| - 1]) + bs[|bs| - 1]
  }

  /** Blocks as a chain holds them: the head is full if anything follows, and no further block is empty. */
  predicate WellCut(bs: seq<seq<U8>>)
  {
    && |bs| >= 1 && (|bs| > 1 ==> |bs[0]| == DATA_MAX)
    && forall k :: 0 <= k < |bs| ==> |bs[k]| <= DATA_MAX && (k > 0 ==> |bs[k]| > 0)
  }

  /** Every block but the last is full, as `ov_build` leaves them. */
  predicate Full(bs: seq<seq<U8>>) { forall k :: 0 <= k < |bs| - 1 ==> |bs[k]| == DATA_MAX }

  /** Block k of a file. */
  function BlockOf(d: seq<U8>, k: nat): (r: seq<U8>)
    requires k < Blocks(|d|)
    ensures |r| == BlockLen(|d|, k)
  {
    d[k * DATA_MAX..k * DATA_MAX + BlockLen(|d|, k)]
  }

  /** A file cut into full blocks. */
  function Cut(d: seq<U8>): (bs: seq<seq<U8>>)
    ensures |bs| == Blocks(|d|) && forall k :: 0 <= k < |bs| ==> bs[k] == BlockOf(d, k)
  {
    seq(Blocks(|d|), k requires 0 <= k < Blocks(|d|) => BlockOf(d, k))
  }

  lemma FlatNone(bs: seq<seq<U8>>)
    ensures Flat(bs[..0]) == []
  {
  }

  lemma FlatSnoc(bs: seq<seq<U8>>, k: nat)
    requires k < |bs|
    ensures Flat(bs[..k + 1]) == Flat(bs[..k]) + bs[k]
  {
    assert bs[..k + 1][..k] == bs[..k];
  }

  /** Block k lies behind the blocks before it. */
  lemma {:induction false} BlockAt(bs: seq<seq<U8>>, k: nat)
    requires k < |bs|
    ensures |Flat(bs[..k])| + |bs[k]| <= |Flat(bs)|
    ensures Flat(bs)[|Flat(bs[..k])|..|Flat(bs[..k])| + |bs[k]|] == bs[k]
    ensures k + 1 == |bs| ==> |Flat(bs[..k])| + |bs[k]| == |Flat(bs)|
  {
    var n := |bs| - 1;
    if k == n {
      FlatSnoc(bs, k);
      assert bs[..n + 1] == bs;
    } else {
      BlockAt(bs[..n], k);
      assert bs[..n][..k] == bs[..k];
      var lo, hi := |Flat(bs[..k])|, |Flat(bs[..k])| + |bs[k]|;
      assert Flat(bs)[lo..hi] == Flat(bs[..n])[lo..hi];
    }
  }

  /** k full blocks are k * 384 bytes. */
  lemma {:induction false} FlatFull(bs: seq<seq<U8>>, k: nat)
    requires k <= |bs| && forall j :: 0 <= j < k ==> |bs[j]| == DATA_MAX
    ensures |Flat(bs[..k])| == k * DATA_MAX
  {
    if k > 0 {
      FlatFull(bs, k - 1);
      FlatSnoc(bs, k - 1);
    }
  }

  lemma {:induction false} FlatAtMost(bs: seq<seq<U8>>, k: nat)
    requires k <= |bs| && forall j :: 0 <= j < k ==> |bs[j]| <= DATA_MAX
    ensures |Flat(bs[..k])| <= k * DATA_MAX
  {
    if k > 0 {
      FlatAtMost(bs, k - 1);
      FlatSnoc(bs, k - 1);
    }
  }

  lemma {:induction false} CutPrefix(d: seq<U8>, k: nat)
    requires k <= Blocks(|d|)
    ensures Flat(Cut(d)[..k]) == if k == Blocks(|d|) then d else d[..k * DATA_MAX]
    ensures k < Blocks(|d|) ==> k * DATA_MAX <= |d|
  {
    hide Flat;
    if k == 0 {
      FlatNone(Cut(d));
    } else {
      CutPrefix(d, k - 1);
      FlatSnoc(Cut(d), k - 1);
      var lo, hi := (k - 1) * DATA_MAX, (k - 1) * DATA_MAX + BlockLen(|d|, k - 1);
      assert d[..lo] + d[lo..hi] == d[..hi];
    }
  }

  /** Cutting loses nothing. */
  lemma CutFlat(d: seq<U8>)
    ensures WellCut(Cut(d)) && Full(Cut(d)) && Flat(Cut(d)) == d
  {
    CutPrefix(d, Blocks(|d|));
    assert Cut(d)[..Blocks(|d|)] == Cut(d);
  }

  /** Full blocks are the cut of what they hold. */
  lemma FullIsCut(bs: seq<seq<U8>>)
    requires WellCut(bs) && Full(bs)
    ensures bs == Cut(Flat(bs))
  {
    hide Flat;
    var d, n := Flat(bs), |bs| - 1;
    FlatFull(bs, n);
    BlockAt(bs, n);
    assert Blocks(|d|) == |bs|;
    forall k | 0 <= k < |bs| ensures bs[k] == BlockOf(d, k) {
      FlatFull(bs, k);
      BlockAt(bs, k);
    }
  }

  /** However a file is cut, it takes no fewer blocks than full ones. */
  lemma CutCount(bs: seq<seq<U8>>)
    requires WellCut(bs)
    ensures Blocks(|Flat(bs)|) <= |bs| && |Flat(bs)| <= |bs| * DATA_MAX
    ensures |bs[0]| == if |Flat(bs)| > DATA_MAX then DATA_MAX else |Flat(bs)|
  {
    hide Flat;
    FlatAtMost(bs, |bs|);
    assert bs[..|bs|] == bs;
    BlockAt(bs, 0);
    FlatFull(bs, 0);
    if |bs| > 1 {
      BlockAt(bs, 1);
      FlatFull(bs, 1);
    }
  }

  // ---------------------------------------------------------------- representation

  /** How an entry lies in the pool: a directory, or the blocks of a file. */
  datatype Body = DirBody | FileBody(blocks: seq<seq<U8>>)

  /** An entry of the pool under its path. */
  datatype Item = Item(path: Path, body: Body)

  /** What is in the pool, by the slot of its head. */
  type Items = map<nat, Item>

  function EntryOf(b: Body): Entry
  {
    match b case DirBody => Dir case FileBody(bs) => File(Flat(bs))
  }

  predicate Distinct(c: seq<nat>) { forall k, l :: 0 <= k < l < |c| ==> c[k] != c[l] }

  /** The nodes c form, in this order, the chain that stores the item. */
  ghost predicate ChainOk(pool: seq<Node>, c: seq<nat>, it: Item)
  {
    && |c| >= 1
    && (forall k :: 0 <= k < |c| ==> c[k] < |pool|)
    && Distinct(c)
    && (forall k :: 0 <= k < |c| ==> LinkOk(pool[c[k]], c, k, it.path))
    && match it.body
       case DirBody => |c| == 1 && pool[c[0]].isDir && pool[c[0]].size == 0
       case FileBody(bs) => WellCut(bs) && |c| == |bs| && (forall k :: 0 <= k < |c| ==> BlockOk(pool[c[k]], k, bs))
  }

  /** Node k of a chain: in use, linked to the next one, and only the head carries the path. */
  predicate LinkOk(n: Node, c: seq<nat>, k: nat, p: Path)
    requires k < |c|
  {
    && n.used && n.isCont == (k > 0) && n.next == (if k + 1 < |c| then c[k + 1] else -1)
    && n.path == (if k == 0 then p else [])
  }

  /** Node k holds block k; the head's size is the whole length. */
  predicate BlockOk(n: Node, k: nat, bs: seq<seq<U8>>)
    requires k < |bs|
  {
    && !n.isDir && n.size == (if k == 0 then |Flat(bs)| else |bs[k]|)
    && |bs[k]| <= DATA_MAX && n.data[..|bs[k]|] == bs[k]
  }

  /** A place in a chain. */
  datatype Slot = Slot(head: nat, pos: nat)

  /** Which nodes stand for which item: every chain, and the place that each used node has. */
  datatype Layout = Layout(items: Items, chains: map<nat, seq<nat>>, owner: map<nat, Slot>)

  const NOTHING := Layout(map[], map[], map[])

  /** Every item has its chain. */
  ghost predicate Chained(pool: seq<Node>, lay: Layout)
  {
    && lay.chains.Keys == lay.items.Keys
    && forall h :: h in lay.items ==>
      |lay.chains[h]| > 0 && lay.chains[h][0] == h && ChainOk(pool, lay.chains[h], lay.items[h])
  }

  /** The nodes of the chain at h are owned by it, each at its place. */
  predicate OwnsChain(lay: Layout, h: nat)
    requires h in lay.chains
  {
    forall k :: 0 <= k < |lay.chains[h]| ==> lay.chains[h][k] in lay.owner && lay.owner[lay.chains[h][k]] == Slot(h, k)
  }

  /** Node i has the place it is said to have. */
  predicate OwnedAt(lay: Layout, i: nat)
    requires i in lay.owner
  {
    var s := lay.owner[i];
    s.head in lay.chains && s.pos < |lay.chains[s.head]| && lay.chains[s.head][s.pos] == i
  }

  /** Chains and owners agree, so chains are disjoint. */
  ghost predicate Owned(lay: Layout)
  {
    && (forall h :: h in lay.chains ==> OwnsChain(lay, h))
    && (forall i :: i in lay.owner ==> OwnedAt(lay, i))
  }

  /** Exactly the owned nodes are in use. */
  ghost predicate UsedOwned(pool: seq<Node>, lay: Layout)
  {
    forall i :: 0 <= i < |pool| ==> (pool[i].used <==> i in lay.owner)
  }

  /** The pool holds these items: each has its own chain and no used node is outside a chain. */
  ghost predicate Rep(pool: seq<Node>, lay: Layout)
  {
    |pool| == MAX_NODES && Chained(pool, lay) && Owned(lay) && UsedOwned(pool, lay)
  }

  /** The owners outside these chains. */
  function Without(owner: map<nat, Slot>, gone: set<nat>): map<nat, Slot>
  {
    map i | i in owner && owner[i].head !in gone :: owner[i]
  }

  /** The places of a chain. */
  function Places(c: seq<nat>): (m: map<nat, Slot>)
    requires Distinct(c) && c != []
    ensures forall i :: i in m <==> i in c
    ensures forall k :: 0 <= k < |c| ==> c[k] in m && m[c[k]] == Slot(c[0], k)
  {
    map k | 0 <= k < |c| :: c[k] := Slot(c[0], k)
  }

  /** The layout without the chains at these heads. */
  ghost function Removed(lay: Layout, gone: set<nat>): Layout
  {
    Layout(lay.items - gone, lay.chains - gone, Without(lay.owner, gone))
  }

  /** The layout with one more item, in nodes c. */
  ghost function Stored(lay: Layout, c: seq<nat>, it: Item): Layout
    requires Distinct(c) && c != []
  {
    Layout(lay.items[c[0] := it], lay.chains[c[0] := c], lay.owner + Places(c))
  }

  /** The layout after the chains at these heads have made way for the item in nodes c. */
  ghost function Replaced(lay: Layout, gone: set<nat>, c: seq<nat>, it: Item): Layout
    requires Distinct(c) && c != []
  {
    Stored(Removed(lay, gone), c, it)
  }

  /** Every node of a chain that stays is as before, and other nodes outside c are free. */
  ghost predicate OthersKept(pool: seq<Node>, pool': seq<Node>, lay: Layout, gone: set<nat>, c: seq<nat>)
  {
    && |pool'| == |pool|
    && (forall i :: i in lay.owner && i < |pool| && lay.owner[i].head !in gone ==> pool'[i] == pool[i])
    && (forall i :: 0 <= i < |pool| && i !in c && (i !in lay.owner || lay.owner[i].head in gone) ==> !pool'[i].used)
  }

  /** The nodes c were free or belonged to a chain that goes. */
  ghost predicate Available(lay: Layout, gone: set<nat>, c: seq<nat>)
  {
    forall k :: 0 <= k < |c| ==> (c[k] !in lay.owner || lay.owner[c[k]].head in gone)
  }

  lemma ChainOfOther(pool: seq<Node>, pool': seq<Node>, lay: Layout, gone: set<nat>, h: nat, c: seq<nat>)
    requires Rep(pool, lay) && OthersKept(pool, pool', lay, gone, c) && h in lay.items && h !in gone
    ensures ChainOk(pool', lay.chains[h], lay.items[h])
  {
    hide LinkOk, BlockOk, WellCut, Distinct, UsedOwned;
    var d := lay.chains[h];
    assert OwnsChain(lay, h) && ChainOk(pool, d, lay.items[h]);
    forall k | 0 <= k < |d| ensures pool'[d[k]] == pool[d[k]] {
      assert lay.owner[d[k]] == Slot(h, k);
    }
  }

  lemma RemovedOwners(lay: Layout, gone: set<nat>)
    requires Owned(lay)
    ensures Owned(Removed(lay, gone))
  {
    var lay' := Removed(lay, gone);
    forall h | h in lay'.chains ensures OwnsChain(lay', h) {
      assert OwnsChain(lay, h);
    }
    forall i | i in lay'.owner ensures OwnedAt(lay', i) {
      assert OwnedAt(lay, i);
    }
  }

  /** Ownership after an item is stored in nodes c that no chain owns. */
  lemma StoredOwners(lay: Layout, c: seq<nat>, it: Item)
    requires Owned(lay) && Available(lay, {}, c) && Distinct(c) && c != []
    requires forall h :: h in lay.chains ==> |lay.chains[h]| > 0 && lay.chains[h][0] == h
    ensures Owned(Stored(lay, c, it)) && c[0] !in lay.chains
  {
    var lay' := Stored(lay, c, it);
    assert c[0] in lay.chains ==> OwnsChain(lay, c[0]);
    forall h | h in lay'.chains ensures OwnsChain(lay', h) {
      if h != c[0] {
        assert OwnsChain(lay, h);
        forall k | 0 <= k < |lay.chains[h]| ensures lay.chains[h][k] !in c {
          assert lay.owner[lay.chains[h][k]].head == h;
        }
      }
    }
    forall i | i in lay'.owner ensures OwnedAt(lay', i) {
      if i !in c { assert OwnedAt(lay, i); }
    }
  }

  lemma ChainUsed(pool: seq<Node>, c: seq<nat>, it: Item)
    requires ChainOk(pool, c, it)
    ensures forall i :: i in c ==> i < |pool| && pool[i].used
  {
    forall i | i in c ensures i < |pool| && pool[i].used {
      var k :| 0 <= k < |c| && c[k] == i;
      assert LinkOk(pool[c[k]], c, k, it.path);
    }
  }

  lemma ReplacedUsed(pool: seq<Node>, pool': seq<Node>, lay: Layout, gone: set<nat>, c: seq<nat>, it: Item)
    requires UsedOwned(pool, lay) && OthersKept(pool, pool', lay, gone, c) && Distinct(c) && c != []
    requires forall i :: i in c ==> i < |pool'| && pool'[i].used
    ensures UsedOwned(pool', Replaced(lay, gone, c, it))
  {
  }

  lemma ReplacedChained(pool: seq<Node>, pool': seq<Node>, lay: Layout, gone: set<nat>, c: seq<nat>, it: Item)
    requires Rep(pool, lay) && OthersKept(pool, pool', lay, gone, c) && ChainOk(pool', c, it) && c != [] && Distinct(c)
    ensures Chained(pool', Replaced(lay, gone, c, it))
  {
    hide ChainOk, Owned, UsedOwned, OthersKept, Distinct, Without, Places;
    var lay' := Replaced(lay, gone, c, it);
    assert lay'.chains == (lay.chains - gone)[c[0] := c] && lay'.items == (lay.items - gone)[c[0] := it];
    forall h | h in lay'.items
      ensures h in lay'.chains && |lay'.chains[h]| > 0 && lay'.chains[h][0] == h &&
        ChainOk(pool', lay'.chains[h], lay'.items[h])
    {
      if h != c[0] { ChainOfOther(pool, pool', lay, gone, h, c); }
    }
  }

  lemma ReplacedFacts(pool: seq<Node>, pool': seq<Node>, lay: Layout, gone: set<nat>, c: seq<nat>, it: Item)
    requires OthersKept(pool, pool', lay, gone, c) && ChainOk(pool', c, it) && Available(lay, gone, c)
    ensures Distinct(c) && c != [] && |pool'| == |pool| && Available(Removed(lay, gone), {}, c)
  {
  }

  /** Storing an item in nodes that were free or belonged to chains that go gives a pool that holds exactly the other
      items and this one. */
  lemma ReplacedRep(pool: seq<Node>, pool': seq<Node>, lay: Layout, gone: set<nat>, c: seq<nat>, it: Item)
    requires Rep(pool, lay) && OthersKept(pool, pool', lay, gone, c) && ChainOk(pool', c, it) && Available(lay, gone, c)
    ensures Distinct(c) && c != [] && c[0] !in lay.items - gone
    ensures Rep(pool', Replaced(lay, gone, c, it)) && Replaced(lay, gone, c, it).items == (lay.items - gone)[c[0] := it]
  {
    ReplacedFacts(pool, pool', lay, gone, c, it);
    HeadsFirst(pool, lay, gone);
    hide ChainOk, Chained, Owned, UsedOwned, OthersKept, Available, Distinct;
    RemovedOwners(lay, gone);
    StoredOwners(Removed(lay, gone), c, it);
    ChainUsed(pool', c, it);
    ReplacedUsed(pool, pool', lay, gone, c, it);
    ReplacedChained(pool, pool', lay, gone, c, it);
  }

  lemma HeadsFirst(pool: seq<Node>, lay: Layout, gone: set<nat>)
    requires Chained(pool, lay)
    ensures lay.chains.Keys == lay.items.Keys
    ensures forall h :: h in Removed(lay, gone).chains ==>
              |Removed(lay, gone).chains[h]| > 0 && Removed(lay, gone).chains[h][0] == h
  {
  }

  /** Freeing the nodes of chains gives the pool of the other items. */
  lemma RemovedRep(pool: seq<Node>, pool': seq<Node>, lay: Layout, gone: set<nat>)
    requires Rep(pool, lay) && OthersKept(pool, pool', lay, gone, [])
    ensures Rep(pool', Removed(lay, gone))
  {
    hide ChainOk, Owned, OthersKept, UsedOwned;
    RemovedOwners(lay, gone);
    RemovedUsed(pool, pool', lay, gone);
    RemovedLength(pool, pool', lay, gone);
    var lay' := Removed(lay, gone);
    assert lay'.chains == lay.chains - gone && lay'.items == lay.items - gone;
    forall h | h in lay'.items ensures ChainOk(pool', lay'.chains[h], lay'.items[h]) {
      ChainOfOther(pool, pool', lay, gone, h, []);
    }
  }

  lemma RemovedUsed(pool: seq<Node>, pool': seq<Node>, lay: Layout, gone: set<nat>)
    requires UsedOwned(pool, lay) && OthersKept(pool, pool', lay, gone, [])
    ensures UsedOwned(pool', Removed(lay, gone))
  {
  }

  lemma RemovedLength(pool: seq<Node>, pool': seq<Node>, lay: Layout, gone: set<nat>)
    requires OthersKept(pool, pool', lay, gone, [])
    ensures |pool'| == |pool|
  {
  }

  /** A used node that continues nothing is the head of an item, under the item's path. */
  lemma HeadIsItem(pool: seq<Node>, lay: Layout, i: nat)
    requires Rep(pool, lay) && i < |pool| && pool[i].used && !pool[i].isCont
    ensures i in lay.items && lay.items[i].path == pool[i].path && i in lay.chains
  {
    var Slot(h, k) := lay.owner[i];
    var c := lay.chains[h];
    assert OwnedAt(lay, i) && c[k] == i;
    assert ChainOk(pool, c, lay.items[h]);
    assert LinkOk(pool[c[k]], c, k, lay.items[h].path);
  }

  /** The head of an item. */
  lemma HeadOf(pool: seq<Node>, lay: Layout, h: nat)
    requires Rep(pool, lay) && h in lay.items
    ensures h < |pool| && h in lay.chains && |lay.chains[h]| >= 1 && lay.chains[h][0] == h
    ensures var n, it := pool[h], lay.items[h];
            && n.used && !n.isCont && n.path == it.path && n.isDir == it.body.DirBody?
            && HeadBytes(n) == EntryBytes(it.path, EntryOf(it.body))
            && n.size == (match it.body case DirBody => 0 case FileBody(bs) => |Flat(bs)|)
  {
    var c := lay.chains[h];
    assert LinkOk(pool[c[0]], c, 0, lay.items[h].path);
    match lay.items[h].body {
      case DirBody =>
      case FileBody(bs) => assert BlockOk(pool[c[0]], 0, bs);
    }
  }

  lemma HeadsBelow(pool: seq<Node>, lay: Layout)
    requires Rep(pool, lay)
    ensures forall h :: h in lay.items ==> h < MAX_NODES
  {
    hide HeadBytes, EntryBytes, Chained, Owned, UsedOwned;
    forall h | h in lay.items ensures h < MAX_NODES { HeadOf(pool, lay, h); }
  }

  // ---------------------------------------------------------------- the store that lookups see

  ghost predicate At(items: Items, p: Path, h: nat) { h in items && items[h].path == p }

  /** h is the first head with this path, the one a scan of the pool meets. */
  ghost predicate IsFirst(items: Items, p: Path, h: nat)
  {
    At(items, p, h) && forall k :: At(items, p, k) ==> h <= k
  }

  ghost function Paths(items: Items): set<Path> { set h | h in items :: items[h].path }

  lemma {:induction false} FirstExists(items: Items, p: Path, h: nat)
    requires At(items, p, h)
    ensures exists k :: IsFirst(items, p, k)
  {
    if k: nat :| At(items, p, k) && k < h {
      FirstExists(items, p, k);
    } else {
      assert IsFirst(items, p, h);
    }
  }

  ghost function First(items: Items, p: Path): (h: nat)
    requires p in Paths(items)
    ensures IsFirst(items, p, h)
  {
    var k :| k in items && items[k].path == p;
    FirstExists(items, p, k);
    var h :| IsFirst(items, p, h);
    h
  }

  /** The map from paths to entries that lookups see: of several items with one path, the first in slot order. */
  ghost function StoreOf(items: Items): Store
  {
    map p | p in Paths(items) :: EntryOf(items[First(items, p)].body)
  }

  /** No path occurs twice. */
  ghost predicate Unique(items: Items)
  {
    forall h, k :: h in items && k in items && items[h].path == items[k].path ==> h == k
  }

  lemma FirstIs(items: Items, p: Path, h: nat)
    requires IsFirst(items, p, h)
    ensures p in StoreOf(items) && StoreOf(items)[p] == EntryOf(items[h].body)
  {
    assert p in Paths(items);
    assert IsFirst(items, p, First(items, p));
  }

  /** Every stored path has its first head. */
  lemma Behind(items: Items, p: Path) returns (h: nat)
    requires p in StoreOf(items)
    ensures IsFirst(items, p, h) && StoreOf(items)[p] == EntryOf(items[h].body)
  {
    h := First(items, p);
  }

  lemma Seen(items: Items, h: nat)
    requires h in items
    ensures items[h].path in StoreOf(items)
    ensures Unique(items) ==>
      IsFirst(items, items[h].path, h) && StoreOf(items)[items[h].path] == EntryOf(items[h].body)
  {
    assert items[h].path in Paths(items);
    if Unique(items) { FirstIs(items, items[h].path, h); }
  }

  /** A lookup sees the same in two pools that hold the same items under its path. */
  lemma SameFirst(a: Items, b: Items, p: Path)
    requires forall h :: At(a, p, h) <==> At(b, p, h)
    requires forall h :: At(a, p, h) && h in b ==> EntryOf(a[h].body) == EntryOf(b[h].body)
    ensures p in StoreOf(a) <==> p in StoreOf(b)
    ensures p in StoreOf(a) ==> StoreOf(a)[p] == StoreOf(b)[p]
  {
    if p in StoreOf(a) {
      var h := Behind(a, p);
      assert IsFirst(b, p, h);
      FirstIs(b, p, h);
    }
    if p in StoreOf(b) {
      var h := Behind(b, p);
      assert At(a, p, h);
      Seen(a, h);
    }
  }

  /** One more item: the paths stay unique exactly when its path is new, and then the store gains exactly that entry. */
  lemma AddedItem(items: Items, h: nat, it: Item)
    requires h !in items
    ensures Unique(items) ==> (Unique(items[h := it]) <==> it.path !in StoreOf(items))
    ensures it.path !in StoreOf(items) ==> StoreOf(items[h := it]) == StoreOf(items)[it.path := EntryOf(it.body)]
  {
    hide StoreOf;
    var items' := items[h := it];
    if it.path in StoreOf(items) {
      var k := Behind(items, it.path);
      assert k in items' && h in items' && k != h && items'[k].path == items'[h].path;
    } else {
      forall k | k in items ensures items[k].path != it.path { Seen(items, k); }
      AddedStore(items, h, it);
    }
  }

  lemma AddedStore(items: Items, h: nat, it: Item)
    requires h !in items && forall k :: k in items ==> items[k].path != it.path
    ensures StoreOf(items[h := it]) == StoreOf(items)[it.path := EntryOf(it.body)]
  {
    hide StoreOf;
    var items' := items[h := it];
    assert IsFirst(items', it.path, h);
    FirstIs(items', it.path, h);
    var a, b := StoreOf(items'), StoreOf(items)[it.path := EntryOf(it.body)];
    forall p ensures p in a <==> p in b
      ensures p in a ==> a[p] == b[p]
    {
      if p != it.path {
        assert forall k :: At(items, p, k) <==> At(items', p, k);
        SameFirst(items, items', p);
      }
    }
    assert a == b;
  }

  /** Without the first head of a path: unique paths stay unique, and the store loses exactly that path. */
  lemma RemovedItem(items: Items, h: nat)
    requires h in items && Unique(items)
    ensures Unique(items - {h}) && StoreOf(items - {h}) == StoreOf(items) - {items[h].path}
  {
    hide StoreOf;
    var items', q := items - {h}, items[h].path;
    var a, b := StoreOf(items'), StoreOf(items) - {q};
    forall p ensures p in a <==> p in b
      ensures p in a ==> a[p] == b[p]
    {
      if p == q {
        if q in a { var k := Behind(items', q); }
      } else {
        assert forall k :: At(items, p, k) <==> At(items', p, k);
        SameFirst(items, items', p);
      }
    }
    assert a == b;
  }

  // ---------------------------------------------------------------- the tree of paths

  /** d is a directory of the store or of the ramdisk; the root is one. */
  ghost predicate DirAt(store: Store, ird: Initrd, d: Path)
  {
    d == [] || (d in store && store[d].Dir?) || ird.IsDir(d)
  }

  /** Canonical paths, each in an existing directory, and no file hides a ramdisk directory. */
  ghost predicate Tree(store: Store, ird: Initrd)
  {
    forall p :: p in store ==> Canon(p) && DirAt(store, ird, Up(p)) && (store[p].File? ==> !ird.IsDir(p))
  }

  lemma UnderTransitive(f: Path, q: Path, d: Path)
    requires Under(f, q) && Under(q, d)
    ensures Under(f, d)
  {
    assert |q| > |d| ==> f[|d|] == q[|d|];
  }

  /** Ramdisk directories are closed under parents, as they exist only through the files below them. */
  lemma InitrdClosed(ird: Initrd, q: Path, d: Path)
    requires Canon(q) && Canon(d) && StrictlyUnder(q, d) && (ird.IsDir(q) || ird.IsFile(q))
    ensures ird.IsDir(d)
  {
    NormalizeCanon(q);
    NormalizeCanon(d);
    if ird.IsFile(q) {
      assert StrictlyUnder(q, Normalize(d));
    } else {
      var f :| f in ird.names && StrictlyUnder(f, q);
      UnderTransitive(f, q, d);
      assert StrictlyUnder(f, Normalize(d));
    }
  }

  /** Whatever lies below d in the store makes d a directory. */
  lemma {:induction false} AncestorIsDir(store: Store, ird: Initrd, p: Path, d: Path)
    requires Tree(store, ird) && p in store && Canon(d) && StrictlyUnder(p, d)
    ensures DirAt(store, ird, d)
    decreases |p|
  {
    UpSpec(p);
    UpUnder(p, d);
    var u := Up(p);
    if u != d {
      if u in store && store[u].Dir? {
        AncestorIsDir(store, ird, u, d);
      } else {
        InitrdClosed(ird, u, d);
      }
    }
  }

  // ---------------------------------------------------------------- lookups as the code makes them

  /** `ov_find`: the entry a path names is looked up under its normal form. */
  predicate Found(store: Store, p: Path) { Normalize(p) in store }

  /** `overlay_is_dir`, which normalises once more before it looks. */
  ghost predicate StoreDir(store: Store, p: Path)
  {
    Normalize(p) == [] || (Found(store, Normalize(p)) && store[Normalize(Normalize(p))].Dir?)
  }

  /** `ov_parent_is_dir`. */
  ghost predicate ParentDir(store: Store, ird: Initrd, p: Path)
  {
    Parent(p) == [] || StoreDir(store, Parent(p)) || ird.IsDir(Parent(p))
  }

  /** On canonical paths the lookups mean what they say. */
  lemma CanonLookups(store: Store, ird: Initrd, p: Path)
    requires Canon(p)
    ensures Found(store, p) <==> p in store
    ensures ParentDir(store, ird, p) <==> DirAt(store, ird, Up(p))
  {
    NormalizeCanon(p);
    UpSpec(p);
    var u := Up(p);
    if u != [] { NormalizeCanon(u); }
  }

  /** A new or replaced entry keeps the tree, if its parent is a directory and no directory is replaced. */
  lemma TreeStored(store: Store, ird: Initrd, p: Path, e: Entry)
    requires Tree(store, ird) && Canon(p) && DirAt(store, ird, Up(p))
    requires e.File? ==> !ird.IsDir(p) && (p in store ==> store[p].File?)
    ensures Tree(store[p := e], ird)
  {
    var store' := store[p := e];
    forall q | q in store' ensures DirAt(store', ird, Up(q)) {
      assert q != p ==> DirAt(store, ird, Up(q));
      UpSpec(q);
    }
  }

  /** Removing an entry keeps the tree if nothing lies below it or it is a file. */
  lemma TreeRemoved(store: Store, ird: Initrd, p: Path)
    requires Tree(store, ird) && p in store
    requires store[p].File? || forall q :: q in store ==> !StrictlyUnder(q, p)
    ensures Tree(store - {p}, ird)
  {
    var store' := store - {p};
    forall q | q in store' ensures DirAt(store', ird, Up(q)) {
      UpStrict(q);
    }
  }

  lemma UpStrict(q: Path)
    requires Canon(q)
    ensures Up(q) != [] ==> StrictlyUnder(q, Up(q))
  {
    UpSpec(q);
  }

  function Elems(c: seq<nat>): set<nat> { set i | i in c }

  /** At most n distinct nodes below n. */
  lemma DistinctBound(c: seq<nat>, n: nat)
    requires Distinct(c) && forall k :: 0 <= k < |c| ==> c[k] < n
    ensures |c| <= n
  {
    DistinctCard(c);
    RangeCard(Elems(c), n);
  }

  lemma {:induction false} DistinctCard(c: seq<nat>)
    requires Distinct(c)
    ensures |Elems(c)| == |c|
  {
    if c != [] {
      var k := |c| - 1;
      var t := Elems(c[..k]);
      DistinctCard(c[..k]);
      assert Elems(c) == t + {c[k]} by { assert c == c[..k] + [c[k]]; }
      assert c[k] !in t;
    }
  }

  lemma {:induction false} RangeCard(s: set<nat>, n: nat)
    requires forall i :: i in s ==> i < n
    ensures |s| <= n
  {
    if n > 0 {
      RangeCard(s - {n - 1}, n - 1);
      assert n - 1 in s ==> s == (s - {n - 1}) + {n - 1};
      assert n - 1 !in s ==> s == s - {n - 1};
    } else {
      assert s == {};
    }
  }
}
