/** Writing the overlay store to a disk image and reading it back (fs/overlay.c:726-864). */
module OverlaySnapshot {
  import opened Words
  import opened Buffers
  import opened OverlayPaths
  import opened OverlayState
  import opened OverlayOps
  import opened OverlayImage
  import opened OverlayListing
  import opened OverlayLoading

  const SNAP_MAGIC: U32 := 0x564F4941
  const V3_NODES: U32 := 128
  const V4_NODES: U32 := 288
  const EXT_SECTORS: U32 := 128

  /** The bytes that say what the rest is: magic, version, node slots, record count and, in v4, the extension area. */
  predicate HeaderIs(b: seq<U8>, count: nat, ext: U32)
  {
    && |b| >= HdrOf(ext) && GetU32(b, 0) == SNAP_MAGIC && GetU32(b, 4) == (if ext != 0 then 4 else 3)
    && GetU32(b, 8) == (if ext != 0 then V4_NODES else V3_NODES) && GetU32(b, 12) == count
    && (ext != 0 ==> GetU32(b, 16) == ext && GetU32(b, 20) == EXT_SECTORS)
  }

  /** b is the image of these records: header, records, zero padding up to the area's end. */
  predicate IsImage(b: seq<U8>, recs: seq<Record>, ext: U32)
    requires AllSized(recs)
  {
    var body := RecsBytes(recs);
    var off := HdrOf(ext) + |body|;
    && off <= CapOf(ext) <= |b| && HeaderIs(b, |recs|, ext) && b[HdrOf(ext)..off] == body
    && forall k :: off <= k < CapOf(ext) ==> b[k] == 0
  }

  // ---------------------------------------------------------------- what a snapshot saves

  /** The blocks that a snapshot takes from a chain for a file of n bytes: every block but the last is taken whole,
      whatever the node says it holds. */
  ghost function RawBlocks(pool: seq<Node>, c: seq<nat>, n: nat): (bs: seq<seq<U8>>)
    requires Blocks(n) <= |c| && forall k :: 0 <= k < |c| ==> c[k] < |pool|
    ensures |bs| == Blocks(n) && forall k :: 0 <= k < |bs| ==> bs[k] == pool[c[k]].data[..BlockLen(n, k)]
  {
    seq(Blocks(n), k requires 0 <= k < Blocks(n) => pool[c[k]].data[..BlockLen(n, k)])
  }

  /** They are full blocks of a file of the right length. */
  lemma RawFacts(pool: seq<Node>, c: seq<nat>, n: nat)
    requires Blocks(n) <= |c| && forall k :: 0 <= k < |c| ==> c[k] < |pool|
    ensures var bs := RawBlocks(pool, c, n); WellCut(bs) && Full(bs) && |Flat(bs)| == n
  {
    hide Flat;
    var bs := RawBlocks(pool, c, n);
    var k := |bs| - 1;
    FlatFull(bs, k);
    BlockAt(bs, k);
  }

  /** Of a file in full blocks they are its own. */
  lemma RawOfFull(pool: seq<Node>, c: seq<nat>, p: Path, bs: seq<seq<U8>>)
    requires ChainOk(pool, c, Item(p, FileBody(bs))) && Full(bs)
    ensures Blocks(|Flat(bs)|) == |c| && RawBlocks(pool, c, |Flat(bs)|) == bs
  {
    hide Flat, Blocks, BlockLen, ChainOk;
    ChainBelow(pool, c, Item(p, FileBody(bs)));
    BlockFacts(pool, c, p, bs, 0);
    FullIsCut(bs);
    var d := Flat(bs);
    assert bs == Cut(d);
    forall k | 0 <= k < |bs| ensures RawBlocks(pool, c, |d|)[k] == bs[k] {
      BlockFacts(pool, c, p, bs, k);
      assert bs[k] == BlockOf(d, k);
    }
  }

  /** Every pool that holds the blocks in these nodes is saved with the right contents if and only if every block but
      the last is full. */
  lemma SavedWhole(pool: seq<Node>, c: seq<nat>, p: Path, bs: seq<seq<U8>>)
    requires ChainOk(pool, c, Item(p, FileBody(bs))) && Blocks(|Flat(bs)|) <= |c|
    requires forall k :: 0 <= k < |c| ==> c[k] < |pool|
    ensures (forall pool' :: |pool'| == |pool| && ChainOk(pool', c, Item(p, FileBody(bs))) ==>
              Flat(RawBlocks(pool', c, |Flat(bs)|)) == Flat(bs)) <==> Full(bs)
  {
    hide Flat, Blocks, ChainOk;
    if Full(bs) {
      forall pool' | |pool'| == |pool| && ChainOk(pool', c, Item(p, FileBody(bs)))
        ensures Flat(RawBlocks(pool', c, |Flat(bs)|)) == Flat(bs)
      {
        RawOfFull(pool', c, p, bs);
      }
    } else {
      var pool' := SpoilBlock(pool, c, p, bs);
    }
  }

  /** The first short block before the last. */
  lemma ShortBlock(bs: seq<seq<U8>>) returns (k: nat)
    requires WellCut(bs) && !Full(bs)
    ensures 0 < k < |bs| - 1 && |bs[k]| < DATA_MAX && |bs[k + 1]| > 0 && forall j :: 0 <= j < k ==> |bs[j]| == DATA_MAX
  {
    k := 0;
    while |bs[k]| == DATA_MAX
      invariant k < |bs| - 1 && forall j :: 0 <= j < k ==> |bs[j]| == DATA_MAX
      decreases |bs| - k
    {
      k := k + 1;
    }
  }

  /** Where the byte behind the short block k belongs, and what stands there in the file. */
  lemma BehindShort(bs: seq<seq<U8>>, k: nat)
    requires WellCut(bs) && 0 < k < |bs| - 1 && |bs[k]| < DATA_MAX && forall j :: 0 <= j < k ==> |bs[j]| == DATA_MAX
    ensures var pos, n := k * DATA_MAX + |bs[k]|, |Flat(bs)|;
      pos < n && k < Blocks(n) && |bs[k]| < BlockLen(n, k) && Flat(bs)[pos] == bs[k + 1][0]
  {
    hide Flat;
    FlatFull(bs, k);
    FlatSnoc(bs, k);
    BlockAt(bs, k + 1);
    var pos := k * DATA_MAX + |bs[k]|;
    assert Flat(bs)[pos..pos + |bs[k + 1]|][0] == bs[k + 1][0];
  }

  /** The unused part of a short block can hold anything, and is saved as part of the file. */
  lemma SpoilBlock(pool: seq<Node>, c: seq<nat>, p: Path, bs: seq<seq<U8>>) returns (pool': seq<Node>)
    requires ChainOk(pool, c, Item(p, FileBody(bs))) && Blocks(|Flat(bs)|) <= |c| && !Full(bs)
    ensures |pool'| == |pool| && ChainOk(pool', c, Item(p, FileBody(bs)))
    ensures Blocks(|Flat(bs)|) <= |c| && forall k :: 0 <= k < |c| ==> c[k] < |pool'|
    ensures Flat(RawBlocks(pool', c, |Flat(bs)|)) != Flat(bs)
  {
    hide Flat, Blocks, BlockLen, Full, ChainOk, WellCut;
    ChainBelow(pool, c, Item(p, FileBody(bs)));
    BlockFacts(pool, c, p, bs, 0);
    var k := ShortBlock(bs);
    BehindShort(bs, k);
    var n, j := |Flat(bs)|, |bs[k]|;
    var v: U8 := if bs[k + 1][0] == 0 then 1 else 0;
    BlockFacts(pool, c, p, bs, k);
    var node := pool[c[k]].(data := pool[c[k]].data[j := v]);
    pool' := pool[c[k] := node];
    SpoiltChain(pool, pool', c, p, bs, k, v);
    RawFacts(pool', c, n);
    var raw := RawBlocks(pool', c, n);
    SpoiltByte(raw, k, j, v);
  }

  lemma SpoiltByte(raw: seq<seq<U8>>, k: nat, j: nat, v: U8)
    requires WellCut(raw) && Full(raw) && k < |raw| && j < |raw[k]| && raw[k][j] == v
    ensures k * DATA_MAX + j < |Flat(raw)| && Flat(raw)[k * DATA_MAX + j] == v
  {
    hide Flat;
    FlatFull(raw, k);
    BlockAt(raw, k);
    var lo := k * DATA_MAX;
    assert Flat(raw)[lo..lo + |raw[k]|][j] == v;
  }

  lemma SpoiltChain(pool: seq<Node>, pool': seq<Node>, c: seq<nat>, p: Path, bs: seq<seq<U8>>, k: nat, v: U8)
    requires ChainOk(pool, c, Item(p, FileBody(bs))) && k < |bs| == |c| && c[k] < |pool| && |bs[k]| < DATA_MAX
    requires pool' == pool[c[k] := pool[c[k]].(data := pool[c[k]].data[|bs[k]| := v])]
    ensures ChainOk(pool', c, Item(p, FileBody(bs)))
  {
    hide Flat, WellCut;
    forall i | 0 <= i < |c| ensures LinkOk(pool'[c[i]], c, i, p) && BlockOk(pool'[c[i]], i, bs) {
      assert LinkOk(pool[c[i]], c, i, p) && BlockOk(pool[c[i]], i, bs);
      if i == k { assert pool'[c[k]].data[..|bs[k]|] == pool[c[k]].data[..|bs[k]|]; }
    }
  }

  /** What a snapshot saves of the item at h. */
  ghost function SavedItem(pool: seq<Node>, lay: Layout, h: nat): Item
    requires Rep(pool, lay) && h in lay.items
  {
    match lay.items[h].body
    case DirBody => lay.items[h]
    case FileBody(bs) =>
      ChainAt(pool, lay, h);
      CutCount(bs);
      Item(lay.items[h].path, FileBody(RawBlocks(pool, lay.chains[h], |Flat(bs)|)))
  }

  ghost function SavedItems(pool: seq<Node>, lay: Layout): Items
    requires Rep(pool, lay)
  {
    map h | h in lay.items :: SavedItem(pool, lay, h)
  }

  /** The list that a snapshot writes. */
  ghost function SavedList(pool: seq<Node>, lay: Layout, n: nat): seq<Item>
    requires Rep(pool, lay)
  {
    InOrder(SavedItems(pool, lay), n)
  }

  /** A saved item can be stored, is in full blocks, and has the path, kind and length of the item. */
  lemma SavedFacts(pool: seq<Node>, lay: Layout, h: nat)
    requires Rep(pool, lay) && h in lay.items && GoodItem(lay.items[h])
    ensures var it, s := lay.items[h], SavedItem(pool, lay, h);
      && Storable(s) && Dense(s) && s.path == it.path && s.body.DirBody? == it.body.DirBody?
      && SizeOf(s) == SizeOf(it) && RecCount(s) <= RecCount(it) &&
        (s.body.FileBody? ==> |Flat(s.body.blocks)| == |Flat(it.body.blocks)|)
      && (Dense(it) ==> s == it)
  {
    hide Flat, Blocks, Owned, UsedOwned, Full, WellCut;
    var it := lay.items[h];
    if it.body.FileBody? {
      var bs := it.body.blocks;
      ChainAt(pool, lay, h);
      BlockFacts(pool, lay.chains[h], it.path, bs, 0);
      CutCount(bs);
      RawFacts(pool, lay.chains[h], |Flat(bs)|);
      if Full(bs) { RawOfFull(pool, lay.chains[h], it.path, bs); }
    }
  }

  /** In full blocks, what is saved is what is there. */
  lemma SavedAll(pool: seq<Node>, lay: Layout)
    requires Rep(pool, lay) && GoodItems(lay.items) && AllFull(lay.items)
    ensures SavedItems(pool, lay) == lay.items
  {
    hide Rep, SavedItem, GoodItem, Full;
    forall h | h in lay.items ensures SavedItem(pool, lay, h) == lay.items[h] { SavedFacts(pool, lay, h); }
  }

  /** The nodes of the chains whose heads are in the first n slots. */
  ghost function ChainNodes(lay: Layout, n: nat): set<nat> { set x | x in lay.owner && lay.owner[x].head < n }

  /** A head adds the nodes of its chain. */
  lemma NodesStep(pool: seq<Node>, lay: Layout, n: nat)
    requires Rep(pool, lay)
    ensures n in lay.items ==> |ChainNodes(lay, n + 1)| == |ChainNodes(lay, n)| + RecCount(lay.items[n])
    ensures n !in lay.items ==> ChainNodes(lay, n + 1) == ChainNodes(lay, n)
  {
    hide Rep;
    OwnersOf(pool, lay, n);
    if n in lay.items {
      ChainCount(pool, lay, n);
      var mine, was := Elems(lay.chains[n]), ChainNodes(lay, n);
      assert ChainNodes(lay, n + 1) == was + mine && was !! mine;
    }
  }

  lemma ChainCount(pool: seq<Node>, lay: Layout, h: nat)
    requires Rep(pool, lay) && h in lay.items
    ensures h in lay.chains && |Elems(lay.chains[h])| == RecCount(lay.items[h])
  {
    ChainAt(pool, lay, h);
    DistinctCard(lay.chains[h]);
  }

  /** What the first n slots contribute: storable items in full blocks, the bytes of the size formula, and no more
      records than nodes. */
  lemma {:induction false} SavedIs(pool: seq<Node>, lay: Layout, n: nat)
    requires Rep(pool, lay) && GoodItems(lay.items) && n <= |pool|
    ensures var l := SavedList(pool, lay, n);
      && Listable(l) && (forall k :: 0 <= k < |l| ==> Dense(l[k])) && ListSize(l) == Sum(pool[..n], HeadBytes)
      && |ListRecs(l)| <= |ChainNodes(lay, n)|
  {
    hide *;
    if n == 0 {
      SumEmpty(pool, HeadBytes);
      SavedNone(pool, lay);
    } else {
      SavedIs(pool, lay, n - 1);
      SumSnoc(pool, n - 1, HeadBytes);
      NodesStep(pool, lay, n - 1);
      SlotSize(pool, lay, n - 1);
      SavedListStep(pool, lay, n - 1);
      if n - 1 in lay.items {
        GoodAt(lay.items, n - 1);
        SavedFacts(pool, lay, n - 1);
        ListRecsSnoc(SavedList(pool, lay, n - 1), SavedItem(pool, lay, n - 1));
      }
    }
  }

  lemma GoodAt(items: Items, h: nat)
    requires GoodItems(items) && h in items
    ensures GoodItem(items[h])
  {
  }

  lemma SavedNone(pool: seq<Node>, lay: Layout)
    requires Rep(pool, lay)
    ensures SavedList(pool, lay, 0) == [] && Listable([]) && ListRecs([]) == [] && ListSize([]) == 0
  {
  }

  lemma SavedListStep(pool: seq<Node>, lay: Layout, n: nat)
    requires Rep(pool, lay)
    ensures n in lay.items ==> SavedList(pool, lay, n + 1) == SavedList(pool, lay, n) + [SavedItem(pool, lay, n)]
    ensures n !in lay.items ==> SavedList(pool, lay, n + 1) == SavedList(pool, lay, n)
  {
    hide SavedItem, Rep;
  }

  lemma SlotSize(pool: seq<Node>, lay: Layout, i: nat)
    requires Rep(pool, lay) && i < |pool|
    ensures HeadBytes(pool[i]) == if i in lay.items then SizeOf(lay.items[i]) else 0
    ensures i in lay.items <==> pool[i].used && !pool[i].isCont
  {
    hide Rep, EntryBytes;
    if pool[i].used && !pool[i].isCont { HeadIsItem(pool, lay, i); }
    if i in lay.items { HeadOf(pool, lay, i); }
  }

  /** A snapshot never writes more records than the pool has nodes. */
  lemma SavedCount(pool: seq<Node>, lay: Layout)
    requires Rep(pool, lay) && GoodItems(lay.items)
    ensures Listable(SavedList(pool, lay, MAX_NODES)) && |ListRecs(SavedList(pool, lay, MAX_NODES))| <= MAX_NODES
  {
    hide Chained, Owned, UsedOwned, SavedList, GoodItems, Listable, ListRecs;
    SavedIs(pool, lay, MAX_NODES);
    var s := ChainNodes(lay, MAX_NODES);
    forall x | x in s ensures x < MAX_NODES { NodeBelow(pool, lay, x); }
    RangeCard(s, MAX_NODES);
  }

  lemma NodeBelow(pool: seq<Node>, lay: Layout, x: nat)
    requires Rep(pool, lay) && x in lay.owner
    ensures x < MAX_NODES
  {
    var h := lay.owner[x].head;
    assert OwnedAt(lay, x) && ChainOk(pool, lay.chains[h], lay.items[h]);
  }

  // ---------------------------------------------------------------- snapshot

  /** b' is b with s written at off. */
  predicate Wrote(b: seq<U8>, b': seq<U8>, off: nat, s: seq<U8>)
  {
    && off + |s| <= |b| == |b'| && b'[off..off + |s|] == s
    && forall k :: 0 <= k < |b| && !(off <= k < off + |s|) ==> b'[k] == b[k]
  }

  method PutAt(buf: array<U8>, off: nat, s: seq<U8>)
    requires off + |s| <= buf.Length
    modifies buf
    ensures Wrote(old(buf[..]), buf[..], off, s)
  {
    PutBytes(s, buf, off);
    assert buf[..][off..off + |s|] == buf[off..off + |s|];
  }

  lemma WroteTwice(a: seq<U8>, b: seq<U8>, c: seq<U8>, off: nat, s: seq<U8>, t: seq<U8>)
    requires Wrote(a, b, off, s) && Wrote(b, c, off + |s|, t)
    ensures Wrote(a, c, off, s + t)
  {
    var n := off + |s|;
    assert c[off..n] == b[off..n];
    assert c[off..n + |t|] == c[off..n] + c[n..n + |t|];
  }

  /** `ov_put_rec`: the record's bytes at off; returns the offset behind them. */
  method PutRec(buf: array<U8>, off: nat, kind: U8, path: Path, data: Block, dlen: nat, size: U32) returns (off': nat)
    requires |path| < PATH_MAX && dlen <= DATA_MAX && off + REC_HDR + |path| + dlen <= buf.Length
    modifies buf
    ensures off' == off + REC_HDR + |path| + dlen
    ensures Wrote(old(buf[..]), buf[..], off, RecBytes(Record(kind, path, data[..dlen], size)))
  {
    hide Wrote;
    ghost var a, w := [kind, |path|] + U16LE(dlen), U32LE(size);
    PutAt(buf, off, [kind, |path|] + U16LE(dlen));
    ghost var b1 := buf[..];
    PutAt(buf, off + 4, U32LE(size));
    ghost var b2 := buf[..];
    WroteTwice(old(buf[..]), b1, b2, off, a, w);
    PutAt(buf, off + REC_HDR, path);
    ghost var b3 := buf[..];
    WroteTwice(old(buf[..]), b2, b3, off, a + w, path);
    PutAt(buf, off + REC_HDR + |path|, data[..dlen]);
    WroteTwice(old(buf[..]), b3, buf[..], off, a + w + path, data[..dlen]);
    off' := off + REC_HDR + |path| + dlen;
  }

  /** The records of one file, walked along its chain. */
  method PutFile(pool: array<Node>, head: nat, buf: array<U8>, off: nat,
                 ghost c: seq<nat>, ghost p: Path, ghost bs: seq<seq<U8>>, ghost s: Item) returns (off': nat, recs: nat)
    requires pool.Length == MAX_NODES && c != [] && c[0] == head && ChainOk(pool[..], c, Item(p, FileBody(bs)))
    requires Blocks(|Flat(bs)|) <= |c| && (forall k :: 0 <= k < |c| ==> c[k] < |pool[..]|) && Storable(s) && Dense(s)
    requires s == Item(p, FileBody(RawBlocks(pool[..], c, |Flat(bs)|))) && |Flat(s.body.blocks)| == |Flat(bs)|
    requires pool[head].path == p && off + SizeOf(s) <= buf.Length
    modifies buf
    ensures off' == off + SizeOf(s) && recs == RecCount(s) && AllSized(ItemRecs(s))
    ensures Wrote(old(buf[..]), buf[..], off, RecsBytes(ItemRecs(s)))
  {
    hide ChainOk, Blocks, BlockLen, RecsBytes, RecBytes, Wrote, Flat, Dense, Storable, ItemRec, AllSized, SizeOf;
    ghost var pl, was, n := pool[..], buf[..], |s.body.blocks|;
    BlockFacts(pl, c, p, bs, 0);
    FileStart(s, was, off);
    BlocksPositive(|Flat(bs)|);
    var curr: int, left: nat, first := head, pool[head].size, true;
    off', recs := off, 0;
    while first || (left > 0 && curr >= 0)
      invariant 0 <= recs <= n <= |c| && curr == (if recs < |c| then c[recs] else -1) && (first <==> recs == 0)
      invariant left == (if recs == n then 0 else |Flat(bs)| - recs * DATA_MAX) && (left == 0 && !first ==> recs == n)
      invariant AllSized(ItemRecs(s)[..recs]) && off' == off + |RecsBytes(ItemRecs(s)[..recs])|
      invariant Wrote(was, buf[..], off, RecsBytes(ItemRecs(s)[..recs]))
      decreases n - recs
    {
      BlockFacts(pl, c, p, bs, recs);
      var node := pool[curr];
      var blk := if left > DATA_MAX then DATA_MAX else left;
      BlockIs(|Flat(bs)|, recs, blk);
      NextBlock(s, recs);
      NextIs(s, recs, if first then node.path else [], node.data, blk, if first then node.size else 0);
      ghost var before := buf[..];
      off' := PutRec(buf, off', if first then KIND_FILE else KIND_BLOCK, if first then node.path
                     else [], node.data, blk,
                     if first then node.size else 0);
      WroteTwice(was, before, buf[..], off, RecsBytes(ItemRecs(s)[..recs]), RecBytes(ItemRec(s, recs)));
      left := left - blk;
      first := false;
      curr := if 0 <= node.next < MAX_NODES then node.next else -1;
      recs := recs + 1;
    }
    DenseBytes(s);
    assert ItemRecs(s)[..n] == ItemRecs(s);
  }

  lemma BlocksPositive(n: nat)
    ensures Blocks(n) >= 1
  {
  }

  lemma FileStart(s: Item, was: seq<U8>, off: nat)
    requires Storable(s) && off <= |was|
    ensures AllSized(ItemRecs(s)[..0]) && RecsBytes(ItemRecs(s)[..0]) == [] && Wrote(was, was, off, [])
  {
  }

  /** What the writer puts for block k is the record of the saved item. */
  lemma NextIs(s: Item, k: nat, path: Path, data: Block, blk: nat, size: U32)
    requires Storable(s) && s.body.FileBody? && k < |s.body.blocks| && blk <= DATA_MAX &&
      s.body.blocks[k] == data[..blk]
    requires (k == 0 ==> path == s.path && size == |Flat(s.body.blocks)|) && (k > 0 ==> path == [] && size == 0)
    ensures ItemRec(s, k) == Record(if k == 0 then KIND_FILE else KIND_BLOCK, path, data[..blk], size)
  {
  }

  /** One more block behind the ones written still fits in the file's share of the image. */
  lemma NextBlock(s: Item, k: nat)
    requires Storable(s) && Dense(s) && k < RecCount(s)
    ensures AllSized(ItemRecs(s)[..k]) && AllSized(ItemRecs(s)[..k + 1]) && Sized(ItemRec(s, k))
    ensures RecsBytes(ItemRecs(s)[..k + 1]) == RecsBytes(ItemRecs(s)[..k]) + RecBytes(ItemRec(s, k))
    ensures |RecsBytes(ItemRecs(s)[..k + 1])| <= SizeOf(s)
    ensures |RecBytes(ItemRec(s, k))| == REC_HDR + |ItemRec(s, k).path| + |ItemRec(s, k).data|
  {
    hide RecBytes, RecsBytes, Dense, Storable, ItemRec, SizeOf;
    DenseBytes(s);
    var all, r := ItemRecs(s), ItemRec(s, k);
    assert all[k] == r && all[..k + 1] == all[..k] + [r] && all == all[..k + 1] + all[k + 1..];
    RecsBytesOne(r);
    RecsBytesAppend(all[..k], [r]);
    RecsBytesAppend(all[..k + 1], all[k + 1..]);
  }

  /** The records of the entry whose head is slot i. */
  method PutEntry(o: Overlay, i: nat, buf: array<U8>, off: nat) returns (off': nat, recs: nat)
    requires o.Sound() && i < MAX_NODES && i in o.lay.items && off + HeadBytes(o.pool[i]) <= buf.Length
    modifies buf
    ensures off' == off + HeadBytes(o.pool[i])
    ensures var s := SavedItem(o.pool[..], o.lay, i);
      && Storable(s) && AllSized(ItemRecs(s)) && recs == RecCount(s)
      && Wrote(old(buf[..]), buf[..], off, RecsBytes(ItemRecs(s)))
  {
    hide Rep, Sum, ChainOk, Blocks, RecsBytes, Wrote, Flat, Full, WellCut, HeadBytes, RecBytes;
    ghost var it, s := o.lay.items[i], SavedItem(o.pool[..], o.lay, i);
    SavedFacts(o.pool[..], o.lay, i);
    SlotSize(o.pool[..], o.lay, i);
    HeadOf(o.pool[..], o.lay, i);
    ChainAt(o.pool[..], o.lay, i);
    if o.pool[i].isDir {
      off' := PutRec(buf, off, KIND_DIR, o.pool[i].path, o.pool[i].data, 0, 0);
      recs := 1;
      assert o.pool[i].data[..0] == [];
      RecsBytesOne(ItemRec(s, 0));
      assert ItemRecs(s) == [ItemRec(s, 0)];
    } else {
      RawRoom(o.pool[..], o.lay.chains[i], it);
      off', recs := PutFile(o.pool, i, buf, off, o.lay.chains[i], it.path, it.body.blocks, s);
    }
  }

  lemma RawRoom(pool: seq<Node>, c: seq<nat>, it: Item)
    requires ChainOk(pool, c, it) && it.body.FileBody?
    ensures Blocks(|Flat(it.body.blocks)|) <= |c| && forall k :: 0 <= k < |c| ==> c[k] < |pool|
  {
    CutCount(it.body.blocks);
  }

  /** The list that a snapshot of o writes. */
  ghost function Listing(o: Overlay): seq<Item>
    requires o.Sound()
    reads o, o.pool
  {
    SavedList(o.pool[..], o.lay, MAX_NODES)
  }

  lemma ListingFacts(o: Overlay)
    requires o.Sound()
    ensures Listable(Listing(o)) && AllSized(ListRecs(Listing(o))) && |ListRecs(Listing(o))| <= MAX_NODES
    ensures |RecsBytes(ListRecs(Listing(o)))| == ListSize(Listing(o)) == Sum(o.pool[..], HeadBytes)
    ensures forall k :: 0 <= k < |Listing(o)| ==> Dense(Listing(o)[k])
  {
    hide Rep, GoodItems, Sum, SavedList, RecsBytes, ListRecs, Listable, ListSize, AllSized, Dense;
    var pl := o.pool[..];
    SavedIs(pl, o.lay, MAX_NODES);
    SavedCount(pl, o.lay);
    ListBytes(Listing(o));
    assert pl[..MAX_NODES] == pl;
  }

  /** `overlay_snapshot`: refuses exactly when the buffer is too small or the items do not fit in the image; otherwise
      the buffer is the image of the list of items, and whatever else was there stays. */
  method Snapshot(o: Overlay, buf: array<U8>, max: nat) returns (rc: int)
    requires o.Sound() && max <= buf.Length
    modifies buf
    ensures rc == if max < o.Capacity() || !o.Fitting() then -1 else 0
    ensures rc != 0 ==> buf[..] == old(buf[..])
    ensures Listable(Listing(o)) && AllSized(ListRecs(Listing(o)))
    ensures rc == 0 ==> IsImage(buf[..], ListRecs(Listing(o)), o.extLba)
    ensures rc == 0 ==>
      && buf.Length >= 32 && buf[..4] == [0x41, 0x49, 0x4F, 0x56]
      && buf[4..8] == [if o.extLba == 0 then 3 else 4, 0, 0, 0]
      && buf[8..12] == (if o.extLba == 0 then [128, 0, 0, 0] else [32, 1, 0, 0])
      && (o.extLba != 0 ==> buf[20..24] == [128, 0, 0, 0])
    ensures rc == 0 ==>
      var at, body := if o.extLba == 0 then 16 else 32, RecsBytes(ListRecs(Listing(o)));
      && at + |body| <= o.Capacity() <= buf.Length && buf[at..at + |body|] == body
      && forall k :: at + |body| <= k < o.Capacity() ==> buf[k] == 0
    ensures rc == 0 ==> forall k :: (o.Capacity() <= k < buf.Length) || (o.extLba != 0 && 24 <= k < 32) ==>
      buf[k] == old(buf[k])
  {
    hide Rep, GoodItems, Sum, RecsBytes, Wrote, Listable, ListRecs, AllSized, HeadBytes, SavedList, ListSize, Dense;
    ghost var was := buf[..];
    var cap := o.Capacity();
    ListingFacts(o);
    if max < cap { return -1; }
    var total := SnapshotBytes(o);
    if total > cap { return -1; }
    var off, count := WriteBody(o, buf);
    ghost var body := buf[..];
    for b := off to cap
      invariant forall k :: 0 <= k < buf.Length ==> buf[k] == if off <= k < b then 0 else body[k]
    {
      buf[b] := 0;
    }
    ghost var padded := buf[..];
    PutHeader(buf, count, o.extLba);
    HeaderBytes(buf[..], count, o.extLba);
    ImageDone(was, body, padded, buf[..], ListRecs(Listing(o)), o.extLba);
    return 0;
  }

  lemma HeaderBytes(b: seq<U8>, count: nat, ext: U32)
    requires HeaderIs(b, count, ext)
    ensures b[..4] == [0x41, 0x49, 0x4F, 0x56] && b[4..8] == [if ext == 0 then 3 else 4, 0, 0, 0]
    ensures b[8..12] == if ext == 0 then [128, 0, 0, 0] else [32, 1, 0, 0]
    ensures ext != 0 ==> b[20..24] == [128, 0, 0, 0]
  {
    hide GetU32;
    WordBack(b, 0);
    WordBack(b, 4);
    WordBack(b, 8);
    if ext != 0 { WordBack(b, 20); }
    assert b[..4] == b[0..4];
  }

  lemma ImageDone(was: seq<U8>, body: seq<U8>, padded: seq<U8>, b: seq<U8>, recs: seq<Record>, ext: U32)
    requires AllSized(recs) && Wrote(was, body, HdrOf(ext), RecsBytes(recs))
    requires HdrOf(ext) + |RecsBytes(recs)| <= CapOf(ext) <= |body| == |padded| == |b|
    requires forall k :: 0 <= k < |body| ==>
      padded[k] == if HdrOf(ext) + |RecsBytes(recs)| <= k < CapOf(ext) then 0 else body[k]
    requires HeaderIs(b, |recs|, ext) && forall k :: (if ext != 0 then 24 else 16) <= k < |b| ==> b[k] == padded[k]
    ensures IsImage(b, recs, ext)
    ensures forall k :: (CapOf(ext) <= k < |b|) || (ext != 0 && 24 <= k < 32) ==> b[k] == was[k]
  {
    hide RecsBytes;
    var h := HdrOf(ext);
    assert b[h..h + |RecsBytes(recs)|] == body[h..h + |RecsBytes(recs)|];
  }

  /** All records, in slot order, from the header's end. */
  method WriteBody(o: Overlay, buf: array<U8>) returns (off: nat, count: nat)
    requires o.Sound() && o.Fitting() && o.Capacity() <= buf.Length && Listable(Listing(o))
    modifies buf
    ensures off == o.Hdr() + Sum(o.pool[..], HeadBytes) && count == |ListRecs(Listing(o))|
    ensures AllSized(ListRecs(Listing(o)))
    ensures Wrote(old(buf[..]), buf[..], o.Hdr(), RecsBytes(ListRecs(Listing(o))))
  {
    hide Rep, GoodItems, Sum, RecsBytes, Wrote, Listable, ListRecs, AllSized, HeadBytes, SavedItem, Storable, ItemRecs,
         SavedList, ListSize, Dense;
    ghost var pl, lay, was := o.pool[..], o.lay, buf[..];
    off, count := o.Hdr(), 0;
    NothingWritten(pl, lay, was, off);
    SumEmpty(pl, HeadBytes);
    for i := 0 to MAX_NODES
      invariant Listable(SavedList(pl, lay, i)) && AllSized(ListRecs(SavedList(pl, lay, i)))
      invariant off == o.Hdr() + Sum(pl[..i], HeadBytes) == o.Hdr() + |RecsBytes(ListRecs(SavedList(pl, lay, i)))|
      invariant count == |ListRecs(SavedList(pl, lay, i))|
      invariant Wrote(was, buf[..], o.Hdr(), RecsBytes(ListRecs(SavedList(pl, lay, i))))
    {
      SumSnoc(pl, i, HeadBytes);
      SumPrefix(pl, i + 1, HeadBytes);
      SavedIs(pl, lay, i + 1);
      ListBytes(SavedList(pl, lay, i + 1));
      SavedListStep(pl, lay, i);
      SlotSize(pl, lay, i);
      if o.pool[i].used && !o.pool[i].isCont {
        ghost var l, s, before := SavedList(pl, lay, i), SavedItem(pl, lay, i), buf[..];
        var recs;
        off, recs := PutEntry(o, i, buf, off);
        ListRecsSnoc(l, s);
        RecsBytesAppend(ListRecs(l), ItemRecs(s));
        WroteTwice(was, before, buf[..], o.Hdr(), RecsBytes(ListRecs(l)), RecsBytes(ItemRecs(s)));
        count := count + recs;
      }
    }
    assert pl[..MAX_NODES] == pl;
  }

  lemma NothingWritten(pl: seq<Node>, lay: Layout, was: seq<U8>, off: nat)
    requires Rep(pl, lay) && off <= |was|
    ensures SavedList(pl, lay, 0) == [] && Listable([]) && ListRecs([]) == [] && AllSized([]) && RecsBytes([]) == []
    ensures Wrote(was, was, off, [])
  {
  }

  /** The header words, least significant byte first. Bytes 24 to 31 of a v4 header are left as they were. */
  method PutHeader(buf: array<U8>, count: nat, ext: U32)
    requires HdrOf(ext) <= buf.Length && count < BASE
    modifies buf
    ensures HeaderIs(buf[..], count, ext)
    ensures forall k :: (if ext != 0 then 24 else 16) <= k < buf.Length ==> buf[k] == old(buf[k])
  {
    PutAt(buf, 0, U32LE(SNAP_MAGIC));
    WordsRoundTrip(buf[..], 0, SNAP_MAGIC);
    PutWord(buf, 4, if ext != 0 then 4 else 3);
    PutWord(buf, 8, if ext != 0 then V4_NODES else V3_NODES);
    PutWord(buf, 12, count);
    if ext != 0 {
      PutWord(buf, 16, ext);
      PutWord(buf, 20, EXT_SECTORS);
    }
  }

  /** `ov_put_u32` behind words already written. */
  method PutWord(buf: array<U8>, off: nat, v: U32)
    requires off + 4 <= buf.Length
    modifies buf
    ensures GetU32(buf[..], off) == v
    ensures forall k :: 0 <= k < buf.Length && !(off <= k < off + 4) ==> buf[k] == old(buf[k])
  {
    PutAt(buf, off, U32LE(v));
    WordsRoundTrip(buf[..], off, v);
  }

  // ---------------------------------------------------------------- restore

  /** Records already read, in front of what is still to be read. */
  function Prepend(a: seq<Record>, o: Option<seq<Record>>): Option<seq<Record>>
  {
    match o case None => None case Some(x) => Some(a + x)
  }

  /** The node that a record fills, before any link. */
  function NodeOf(n: Node, r: Record): Node
    requires |r.data| <= DATA_MAX
  {
    Node(true, r.kind == KIND_DIR, r.kind == KIND_BLOCK, -1, r.path, Overwritten(n.data, r.data),
         if r.kind == KIND_FILE then r.size else |r.data|)
  }

  /** One record into the next slot, linked behind the previous one if it is a further block. */
  method LoadRecord(pool: array<Node>, slot: nat, r: Record, ghost parsed: seq<Record>)
    requires slot == |parsed| < pool.Length && Loaded(pool[..], parsed) && |r.data| <= DATA_MAX
    modifies pool
    ensures Loaded(pool[..], parsed + [r])
  {
    ghost var was := pool[..];
    pool[slot] := NodeOf(pool[slot], r);
    if r.kind == KIND_BLOCK && slot > 0 { pool[slot - 1] := pool[slot - 1].(next := slot); }
    ghost var recs := parsed + [r];
    forall k | 0 <= k < |recs| ensures LoadedAt(pool[k], recs, k) {
      if k < slot { assert LoadedAt(was[k], parsed, k); }
    }
  }

  /** What one step of the reader does to the parse. */
  lemma ParseStep(b: seq<U8>, n: nat, off: nat, count: nat, left: nat, limit: nat, parsed: seq<Record>)
    requires n <= |b| && count > 0
    ensures !InBounds(b, n, off) ==> Parse(b, n, off, count, left, limit) == None
    ensures InBounds(b, n, off) && !Admitted(RecordAt(b, off), left, limit) ==>
      Parse(b, n, off, count, left, limit) == None
    ensures InBounds(b, n, off) && Admitted(RecordAt(b, off), left, limit) ==>
      LeftAfter(RecordAt(b, off), left) >= 0 &&
      Prepend(parsed, Parse(b, n, off, count, left, limit)) ==
      Prepend(parsed + [RecordAt(b, off)],
              Parse(b, n, off + RecLen(b, off), count - 1, LeftAfter(RecordAt(b, off), left), limit))
  {
    if InBounds(b, n, off) && Admitted(RecordAt(b, off), left, limit) {
      var rec := RecordAt(b, off);
      match Parse(b, n, off + RecLen(b, off), count - 1, LeftAfter(rec, left), limit) {
        case None =>
        case Some(rest) => assert parsed + ([rec] + rest) == (parsed + [rec]) + rest;
      }
    }
  }

  /** One pass of `ov_restore_v3`: the first checks the whole image, the second repeats the checks and fills the pool.
      */
  method RestorePass(pool: array<Node>, buf: array<U8>, n: nat, hdr: nat, recs: nat, limit: nat, apply: bool)
    returns (ok: bool)
    requires pool.Length == MAX_NODES && n <= buf.Length && recs <= MAX_NODES
    requires apply ==> Loaded(pool[..], [])
    modifies pool
    ensures ok <==> Parse(buf[..], n, hdr, recs, 0, limit).Some?
    ensures !apply ==> pool[..] == old(pool[..])
    ensures apply && ok ==> Loaded(pool[..], Parse(buf[..], n, hdr, recs, 0, limit).value)
  {
    hide Parse, InBounds, RecordAt, RecLen, Admitted, LeftAfter, Loaded;
    ghost var b, all := buf[..], Parse(buf[..], n, hdr, recs, 0, limit);
    ghost var parsed: seq<Record> := [];
    var off, r, left := hdr, 0, 0;
    PrependNothing(all);
    while r < recs
      invariant 0 <= r <= recs && |parsed| == r && left >= 0 && buf[..] == b
      invariant all == Prepend(parsed, Parse(b, n, off, recs - r, left, limit))
      invariant !apply ==> pool[..] == old(pool[..])
      invariant apply ==> Loaded(pool[..], parsed)
    {
      ParseStep(b, n, off, recs - r, left, limit, parsed);
      var rec, len := ReadRecord(buf, n, off);
      if len == 0 { return false; }
      if !Admitted(rec, left, limit) { return false; }
      RecordFits(b, n, off);
      if apply { LoadRecord(pool, r, rec, parsed); }
      left := LeftAfter(rec, left);
      off := off + len;
      parsed := parsed + [rec];
      r := r + 1;
    }
    ParseEnd(b, n, off, left, limit, parsed);
    return left == 0;
  }

  lemma PrependNothing(o: Option<seq<Record>>)
    ensures o == Prepend([], o)
  {
    if o.Some? { assert [] + o.value == o.value; }
  }

  lemma ParseEnd(b: seq<U8>, n: nat, off: nat, left: nat, limit: nat, parsed: seq<Record>)
    requires n <= |b|
    ensures Prepend(parsed, Parse(b, n, off, 0, left, limit)) == if left == 0 then Some(parsed) else None
  {
    assert parsed + [] == parsed;
  }

  lemma RecordFits(b: seq<U8>, n: nat, off: nat)
    requires n <= |b| && InBounds(b, n, off)
    ensures off + 8 <= |b| && off + RecLen(b, off) <= |b| && |RecordAt(b, off).data| <= DATA_MAX
  {
  }

  /** The record at off, or length 0 when it does not lie within the image. */
  method ReadRecord(buf: array<U8>, n: nat, off: nat) returns (rec: Record, len: nat)
    requires n <= buf.Length
    ensures len == 0 <==> !InBounds(buf[..], n, off)
    ensures len != 0 ==> len == RecLen(buf[..], off) && rec == RecordAt(buf[..], off)
  {
    rec, len := Record(0, [], [], 0), 0;
    if off + REC_HDR > n { return; }
    var b := buf[..];
    var kind, plen, dlen := b[off], b[off + 1], GetU16(b, off + 2);
    if kind > 2 || plen >= PATH_MAX || dlen > DATA_MAX { return; }
    if off + REC_HDR + plen + dlen > n { return; }
    rec, len := RecordAt(b, off), REC_HDR + plen + dlen;
  }

  /** `overlay_init` on the pool. */
  method ClearPool(pool: array<Node>)
    requires pool.Length == MAX_NODES
    modifies pool
    ensures Loaded(pool[..], [])
  {
    for i := 0 to MAX_NODES
      invariant forall k :: 0 <= k < i ==> !pool[k].used
    {
      pool[i] := pool[i].(used := false, path := [], size := 0, isDir := false, isCont := false, next := -1);
    }
  }

  /** The records that `ov_restore_v3` accepts, or None. */
  function AcceptedV3(b: seq<U8>, n: nat, hdr: nat, nodes: U32, limit: nat): Option<seq<Record>>
    requires 16 <= hdr && n <= |b|
  {
    if n < hdr || GetU32(b, 8) != nodes || GetU32(b, 12) > MAX_NODES then None
    else Parse(b, n, hdr, GetU32(b, 12), 0, limit)
  }

  /** `ov_restore_v3`: the pool is filled with exactly the accepted records, or not touched at all. */
  method RestoreV3(pool: array<Node>, buf: array<U8>, n: nat, hdr: nat, nodes: U32, limit: nat) returns (rc: int)
    requires pool.Length == MAX_NODES && 16 <= hdr && n <= buf.Length
    modifies pool
    ensures rc == if AcceptedV3(buf[..], n, hdr, nodes, limit).Some? then 0 else -1
    ensures rc == 0 <==>
      && hdr <= n && GetU32(buf[..], 8) == nodes && GetU32(buf[..], 12) <= 288
      && Parse(buf[..], n, hdr, GetU32(buf[..], 12), 0, limit).Some?
    ensures rc != 0 ==> pool[..] == old(pool[..])
    ensures rc == 0 ==> Loaded(pool[..], AcceptedV3(buf[..], n, hdr, nodes, limit).value)
  {
    if n < hdr { return -1; }
    hide Parse, Loaded;
    var b := buf[..];
    if GetU32(b, 8) != nodes { return -1; }
    var recs := GetU32(b, 12);
    if recs > MAX_NODES { return -1; }
    for pass := 0 to 2
      invariant buf[..] == b
      invariant pass == 0 ==> pool[..] == old(pool[..])
      invariant pass > 0 ==> Parse(b, n, hdr, recs, 0, limit).Some?
      invariant pass == 1 ==> pool[..] == old(pool[..])
      invariant pass == 2 ==> Loaded(pool[..], Parse(b, n, hdr, recs, 0, limit).value)
    {
      if pass == 1 { ClearPool(pool); }
      var ok := RestorePass(pool, buf, n, hdr, recs, limit, pass == 1);
      if !ok { return -1; }
    }
    return 0;
  }

  /** `overlay_image_ext_lba`: the extension area a v4 header names, or 0. */
  function ImageExt(b: seq<U8>): U32
    requires |b| >= 24
  {
    if GetU32(b, 0) != SNAP_MAGIC || GetU32(b, 4) != 4 then 0
    else if GetU32(b, 16) < EXT_MIN_LBA || GetU32(b, 20) != EXT_SECTORS then 0 else GetU32(b, 16)
  }

  predicate HasVersion(b: seq<U8>, n: nat, hdr: nat, version: U32)
    requires 16 <= hdr && n <= |b|
  {
    n >= hdr && GetU32(b, 0) == SNAP_MAGIC && GetU32(b, 4) == version
  }

  /** The records that a dense image (v3 or v4) of n bytes yields, or None. */
  function Accepted(b: seq<U8>, n: nat): Option<seq<Record>>
    requires n <= |b|
  {
    if HasVersion(b, n, 16, 3) then AcceptedV3(b, n, 16, V3_NODES, FILE_MAX_BYTES)
    else if HasVersion(b, n, 32, 4) && ImageExt(b) != 0 && n >= SNAP_SIZE_MAX
    then AcceptedV3(b, SNAP_SIZE_MAX, 32, V4_NODES, FILE_MAX_EXT_BYTES)
    else None
  }

  /** The limit under which the records of a dense image were accepted. */
  function LimitFor(b: seq<U8>, n: nat): nat
    requires n <= |b|
  {
    if HasVersion(b, n, 16, 3) then FILE_MAX_BYTES else FILE_MAX_EXT_BYTES
  }

  /** What is parsed can be read again: accepted records satisfy the reader's rules. */
  lemma {:induction false} ParsedReadable(b: seq<U8>, n: nat, off: nat, count: nat, left: nat, limit: nat)
    requires n <= |b| && Parse(b, n, off, count, left, limit).Some?
    ensures Readable(Parse(b, n, off, count, left, limit).value, left, limit)
    decreases count
  {
    hide RecordAt, RecLen, Admitted, LeftAfter;
    if count > 0 {
      var rec := RecordAt(b, off);
      ParsedReadable(b, n, off + RecLen(b, off), count - 1, LeftAfter(rec, left), limit);
      var rest := Parse(b, n, off + RecLen(b, off), count - 1, LeftAfter(rec, left), limit).value;
      assert ([rec] + rest)[1..] == rest;
      RecordSized(b, n, off);
    }
  }

  lemma RecordSized(b: seq<U8>, n: nat, off: nat)
    requires n <= |b| && InBounds(b, n, off)
    ensures off + 8 <= |b| && off + RecLen(b, off) <= |b| && Sized(RecordAt(b, off))
  {
  }

  lemma AcceptedReadable(b: seq<U8>, n: nat)
    requires n <= |b| && Accepted(b, n).Some?
    ensures Readable(Accepted(b, n).value, 0, LimitFor(b, n))
  {
    hide Parse, Readable, GetU32;
    if HasVersion(b, n, 16, 3) {
      ParsedReadable(b, n, 16, GetU32(b, 12), 0, FILE_MAX_BYTES);
    } else {
      ParsedReadable(b, SNAP_SIZE_MAX, 32, GetU32(b, 12), 0, FILE_MAX_EXT_BYTES);
    }
  }

  /** `overlay_restore` on dense images: an accepted image fills the pool with exactly its items, in order, whatever
      they are; any other leaves everything as it was. `legacy` says that the image goes on to the fixed-slot reader. */
  method Restore(o: Overlay, buf: array<U8>, n: nat) returns (rc: int, legacy: bool, ghost items: seq<Item>)
    requires o.Sound() && n <= buf.Length
    modifies o`lay, o`extLba, o.pool
    ensures o.Sound()
    ensures legacy <==> !HasVersion(buf[..], n, 16, 3) && !HasVersion(buf[..], n, 32, 4)
    ensures rc == if Accepted(buf[..], n).Some? then 0 else -1
    ensures rc != 0 ==> o.pool[..] == old(o.pool[..]) && o.extLba == old(o.extLba) && o.lay == old(o.lay)
    ensures rc == 0 ==> o.extLba == if HasVersion(buf[..], n, 16, 3) then old(o.extLba) else ImageExt(buf[..])
    ensures rc == 0 ==> Listable(items) && ListRecs(items) == AllPlain(Accepted(buf[..], n).value)
    ensures rc == 0 ==> InOrder(o.lay.items, MAX_NODES) == items && Loaded(o.pool[..], ListRecs(items))
  {
    hide Parse, Loaded, AcceptedV3, Listable, ListRecs, LayoutOf, InOrder, Rep, GoodItems, GetU32, AllPlain, Readable;
    var b := buf[..];
    legacy := false;
    SoundShape(o);
    if HasVersion(b, n, 16, 3) {
      rc := RestoreV3(o.pool, buf, n, 16, V3_NODES, FILE_MAX_BYTES);
      if rc != 0 { return -1, false, []; }
    } else if HasVersion(b, n, 32, 4) {
      var ext := ImageExt(b);
      if ext == 0 || n < SNAP_SIZE_MAX { return -1, false, []; }
      rc := RestoreV3(o.pool, buf, SNAP_SIZE_MAX, 32, V4_NODES, FILE_MAX_EXT_BYTES);
      if rc != 0 { return -1, false, []; }
      ExtInRange(b);
      o.extLba := ext;
    } else {
      return -1, true, [];
    }
    items := TakeOver(o, b, n);
  }

  lemma SoundShape(o: Overlay)
    requires o.Sound()
    ensures o.pool.Length == MAX_NODES && o.tmp.Length == FILE_MAX_EXT_BYTES &&
      (o.extLba == 0 || o.extLba >= EXT_MIN_LBA)
  {
    hide Rep;
  }

  lemma ExtInRange(b: seq<U8>)
    requires |b| >= 24
    ensures ImageExt(b) == 0 || ImageExt(b) >= EXT_MIN_LBA
  {
    hide GetU32;
  }

  /** The layout of the records just read. */
  ghost method TakeOver(o: Overlay, b: seq<U8>, n: nat) returns (items: seq<Item>)
    requires o.pool.Length == MAX_NODES && o.tmp.Length == FILE_MAX_EXT_BYTES &&
      (o.extLba == 0 || o.extLba >= EXT_MIN_LBA)
    requires n <= |b| && Accepted(b, n).Some? && Loaded(o.pool[..], Accepted(b, n).value)
    modifies o`lay
    ensures o.Sound() && Listable(items) && ListRecs(items) == AllPlain(Accepted(b, n).value)
    ensures InOrder(o.lay.items, MAX_NODES) == items && Loaded(o.pool[..], ListRecs(items))
  {
    hide Accepted, Loaded, Listable, ListRecs, LayoutOf, InOrder, Rep, GoodItems, AllPlain, Readable;
    var recs := Accepted(b, n).value;
    AcceptedReadable(b, n);
    items := Grouped(recs, LimitFor(b, n));
    LoadedPlain(o.pool[..], recs);
    LoadedRep(o.pool[..], items);
    LayoutInOrder(items);
    LoadedRoom(o.pool[..], ListRecs(items));
    InOrderLater(LayoutOf(items).items, |ListRecs(items)|, MAX_NODES);
    LayoutGood(items);
    o.lay := LayoutOf(items);
  }

  lemma LoadedRoom(pool: seq<Node>, recs: seq<Record>)
    requires Loaded(pool, recs)
    ensures |recs| <= MAX_NODES
  {
  }

  // ---------------------------------------------------------------- round trip

  lemma HeaderAccepted(b: seq<U8>, n: nat, count: nat, ext: U32)
    requires HeaderIs(b, count, ext) && CapOf(ext) <= n <= |b| && count <= MAX_NODES && (ext == 0 || ext >= EXT_MIN_LBA)
    ensures HasVersion(b, n, 16, 3) == (ext == 0) && (ext != 0 ==> ImageExt(b) == ext)
    ensures Accepted(b, n) == Parse(b, if ext == 0 then n else SNAP_SIZE_MAX, HdrOf(ext), count, 0, LimitOf(ext))
  {
    hide GetU32, Parse;
  }

  /** An image is accepted exactly when the reader's rules admit its records, and yields exactly those. */
  lemma ImageAccepted(b: seq<U8>, n: nat, recs: seq<Record>, ext: U32)
    requires AllSized(recs) && IsImage(b, recs, ext) && |recs| <= MAX_NODES && forall k :: 0 <= k < |recs| ==>
      recs[k].kind <= 2
    requires CapOf(ext) <= n <= |b| && (ext == 0 || ext >= EXT_MIN_LBA)
    ensures HasVersion(b, n, 16, 3) == (ext == 0) && (ext != 0 ==> ImageExt(b) == ext)
    ensures Accepted(b, n) == if Readable(recs, 0, LimitOf(ext)) then Some(recs) else None
  {
    hide HeaderIs, Readable, Parse, RecsBytes, AcceptedV3, Accepted, ImageExt, HasVersion;
    HeaderAccepted(b, n, |recs|, ext);
    ParseSerialised(b, if ext == 0 then n else SNAP_SIZE_MAX, HdrOf(ext), recs, 0, LimitOf(ext));
  }

  lemma {:induction false} ListKinds(l: seq<Item>)
    requires Listable(l)
    ensures forall k :: 0 <= k < |ListRecs(l)| ==> ListRecs(l)[k].kind <= 2 && Plain(ListRecs(l)[k]) == ListRecs(l)[k]
  {
    hide Storable;
    if l != [] {
      ListKinds(l[..|l| - 1]);
      var it := l[|l| - 1];
      forall k | 0 <= k < |ItemRecs(it)| ensures ItemRecs(it)[k].kind <= 2 &&
        Plain(ItemRecs(it)[k]) == ItemRecs(it)[k] {
        assert ItemRecs(it)[k] == ItemRec(it, k);
      }
    }
  }

  /** Records of a list come back as they are. */
  lemma PlainList(l: seq<Item>)
    requires Listable(l)
    ensures AllPlain(ListRecs(l)) == ListRecs(l)
  {
    ListKinds(l);
  }

  /** A snapshot can be read back exactly when no file is over the limit of the layout it was written for. */
  lemma ListingReadable(o: Overlay)
    requires o.Sound() && Listable(Listing(o))
    ensures Readable(ListRecs(Listing(o)), 0, o.FileMax()) <==> Within(o.lay.items, o.FileMax())
  {
    hide Rep, GoodItems, ListRecs, Readable, SavedItems, Listable, InOrder, Flat;
    var l, limit := Listing(o), o.FileMax();
    NothingReadable(limit);
    ListRead(l, [], limit);
    assert ListRecs(l) + [] == ListRecs(l);
    SavedLimits(o.pool[..], o.lay, limit);
  }

  lemma NothingReadable(limit: nat)
    ensures Readable([], 0, limit)
  {
  }

  lemma SavedLimits(pool: seq<Node>, lay: Layout, limit: nat)
    requires Rep(pool, lay) && GoodItems(lay.items)
    ensures (forall k :: 0 <= k < |SavedList(pool, lay, MAX_NODES)| ==>
             InLimit(SavedList(pool, lay, MAX_NODES)[k], limit))
      <==> Within(lay.items, limit)
  {
    hide Rep, GoodItem, SavedItem, InOrder, Flat;
    var l, saved := SavedList(pool, lay, MAX_NODES), SavedItems(pool, lay);
    HeadsBelow(pool, lay);
    forall h | h in lay.items
      ensures h in saved && saved[h] in l && (InLimit(saved[h], limit) <==> InLimit(lay.items[h], limit))
    {
      SavedFacts(pool, lay, h);
      assert Has(saved, MAX_NODES, saved[h]);
      InOrderHas(saved, MAX_NODES, saved[h]);
    }
    forall k | 0 <= k < |l| ensures exists h :: h in lay.items && saved[h] == l[k] {
      InOrderHas(saved, MAX_NODES, l[k]);
    }
  }

  /** A pool with the saved list in it: what it has in common with the pool that was saved. */
  lemma CameBack(pool: seq<Node>, lay: Layout, ext: U32, dst: Overlay)
    requires Rep(pool, lay) && GoodItems(lay.items) && dst.Sound()
    requires InOrder(dst.lay.items, MAX_NODES) == SavedList(pool, lay, MAX_NODES)
    requires dst.extLba == ext || ext == 0
    ensures AllFull(lay.items) ==>
      dst.Store() == StoreOf(lay.items) && (Unique(dst.lay.items) <==> Unique(lay.items))
    ensures Proper(lay.items, dst.ird, LimitOf(ext)) && HdrOf(ext) + Sum(pool, HeadBytes) <= CapOf(ext) ==> dst.Valid()
  {
    hide Rep, GoodItems, StoreOf, Unique, InOrder, SavedItem, Tree, Sum, HeadBytes, Full, Flat;
    if AllFull(lay.items) {
      SavedAll(pool, lay);
      HeadsBelow(pool, lay);
      HeadsBelow(dst.pool[..], dst.lay);
      SameInOrder(dst.lay.items, lay.items, MAX_NODES);
      SavedAll(dst.pool[..], dst.lay);
      SavedTotal(pool, lay);
      SavedTotal(dst.pool[..], dst.lay);
      assert Within(lay.items, LimitOf(ext)) ==> Within(dst.lay.items, LimitOf(ext));
    }
  }

  lemma SavedTotal(pool: seq<Node>, lay: Layout)
    requires Rep(pool, lay) && GoodItems(lay.items)
    ensures ListSize(SavedList(pool, lay, MAX_NODES)) == Sum(pool, HeadBytes)
  {
    hide Chained, Owned, UsedOwned, SavedList, GoodItems, ListSize, Sum;
    SavedIs(pool, lay, MAX_NODES);
    assert pool[..MAX_NODES] == pool;
  }

  lemma SourceFacts(o: Overlay)
    requires o.Sound()
    ensures Rep(o.pool[..], o.lay) && GoodItems(o.lay.items) && Listing(o) == SavedList(o.pool[..], o.lay, MAX_NODES)
    ensures o.Capacity() == CapOf(o.extLba) && o.FileMax() == LimitOf(o.extLba) &&
      (o.extLba == 0 || o.extLba >= EXT_MIN_LBA)
    ensures o.Valid() ==>
      Proper(o.lay.items, o.ird, LimitOf(o.extLba)) && HdrOf(o.extLba) + Sum(o.pool[..], HeadBytes) <= CapOf(o.extLba)
    ensures o.Store() == StoreOf(o.lay.items)
  {
    hide Rep, GoodItems, Proper, Sum;
  }

  /** Snapshot then restore, into the same or another overlay: it is saved exactly when it fits, and can be loaded
      exactly when no file is over the limit; then the saved list comes back item for item. Of a store in full blocks
      that is the store itself, repeated paths included, and a store in order comes back in order. */
  method SaveThenLoad(src: Overlay, dst: Overlay, buf: array<U8>) returns (saved: int, loaded: int)
    requires src.Sound() && dst.Sound() && src.ird == dst.ird && (src != dst ==> src.pool != dst.pool)
    modifies buf, dst`lay, dst`extLba, dst.pool
    ensures saved == if buf.Length < old(src.Capacity()) || !old(src.Fitting()) then -1 else 0
    ensures loaded == if saved == 0 && Within(old(src.lay.items), old(src.FileMax())) then 0 else -1
    ensures dst.Sound()
    ensures saved == 0 && loaded == 0 ==> InOrder(dst.lay.items, MAX_NODES) == old(Listing(src))
    ensures saved == 0 && loaded == 0 ==>
      dst.extLba == if old(src.extLba) != 0 then old(src.extLba) else old(dst.extLba)
    ensures saved == 0 && loaded == 0 && old(AllFull(src.lay.items)) ==>
      dst.Store() == old(src.Store()) && (Unique(dst.lay.items) <==> old(Unique(src.lay.items)))
    ensures saved == 0 && loaded == 0 && old(src.Valid()) ==> dst.Valid()
  {
    hide *;
    saved, loaded := 0, -1;
    SourceFacts(src);
    ListingFacts(src);
    ListingReadable(src);
    ghost var l, recs, ext, lay, pool := Listing(src), ListRecs(Listing(src)), src.extLba, src.lay, src.pool[..];
    saved := Snapshot(src, buf, buf.Length);
    if saved != 0 { return; }
    ListKinds(l);
    ImageAccepted(buf[..], buf.Length, recs, ext);
    var legacy;
    ghost var items;
    loaded, legacy, items := Restore(dst, buf, buf.Length);
    if loaded == 0 {
      PlainList(l);
      ListRecsInjective(items, l);
      CameBack(pool, lay, ext, dst);
    }
  }
}
