/** Lists of items as an image holds them, the list that a snapshot writes, and the pool that reading one fills. */
module OverlayListing {
  import opened Words
  import opened OverlayState
  import opened OverlayOps
  import opened OverlayImage

  /** An item that an image can hold. */
  predicate Storable(it: Item) { GoodItem(it) && (it.body.FileBody? ==> WellCut(it.body.blocks)) }

  predicate Listable(items: seq<Item>) { forall k :: 0 <= k < |items| ==> Storable(items[k]) }

  /** Record k of an item. */
  function ItemRec(it: Item, k: nat): Record
    requires Storable(it) && (it.body.FileBody? ==> k < |it.body.blocks|)
  {
    match it.body
    case DirBody => Record(KIND_DIR, it.path, [], 0)
    case FileBody(bs) =>
      Record(if k == 0 then KIND_FILE else KIND_BLOCK, if k == 0 then it.path else [], bs[k],
             if k == 0 then |Flat(bs)| else 0)
  }

  function RecCount(it: Item): nat { match it.body case DirBody => 1 case FileBody(bs) => |bs| }

  /** The records of an item, in order. */
  function ItemRecs(it: Item): (r: seq<Record>)
    requires Storable(it)
    ensures |r| == RecCount(it) > 0 && forall k :: 0 <= k < |r| ==> r[k] == ItemRec(it, k)
  {
    seq(RecCount(it), k requires 0 <= k < RecCount(it) => ItemRec(it, k))
  }

  /** The records of an item as the disk has them: kind 1 for a directory, 0 for the head of a file with its size and
      first block, 2 for every further block. */
  lemma ItemOnDisk(it: Item)
    requires Storable(it)
    ensures var recs := ItemRecs(it);
      match it.body
      case DirBody => recs == [Record(1, it.path, [], 0)]
      case FileBody(bs) =>
        && |recs| == |bs| > 0 && recs[0] == Record(0, it.path, bs[0], |Flat(bs)|)
        && forall k :: 0 < k < |bs| ==> recs[k] == Record(2, [], bs[k], 0)
  {
    assert it.body.DirBody? ==> ItemRecs(it)[0] == ItemRec(it, 0);
  }

  /** The records of a list, in order. */
  ghost function ListRecs(items: seq<Item>): seq<Record>
    requires Listable(items)
  {
    if items == [] then [] else ListRecs(items[..|items| - 1]) + ItemRecs(items[|items| - 1])
  }

  function SizeOf(it: Item): nat { EntryBytes(it.path, EntryOf(it.body)) }

  ghost function ListSize(items: seq<Item>): nat
  {
    if items == [] then 0 else ListSize(items[..|items| - 1]) + SizeOf(items[|items| - 1])
  }

  lemma NoRecs()
    ensures Listable([]) && ListRecs([]) == []
  {
  }

  lemma ListRecsSnoc(a: seq<Item>, it: Item)
    requires Listable(a) && Storable(it)
    ensures Listable(a + [it]) && ListRecs(a + [it]) == ListRecs(a) + ItemRecs(it) &&
      ListSize(a + [it]) == ListSize(a) + SizeOf(it)
  {
    assert (a + [it])[..|a|] == a;
  }

  // ---------------------------------------------------------------- full blocks on disk

  /** An item in full blocks: what a snapshot writes. */
  predicate Dense(it: Item) { it.body.FileBody? ==> Full(it.body.blocks) }

  /** In full blocks the records are those of the file's bytes. */
  lemma DenseRecs(it: Item)
    requires Storable(it) && Dense(it)
    ensures EntryOf(it.body).File? ==> |EntryOf(it.body).bytes| < BASE
    ensures ItemRecs(it) == EntryRecs(it.path, EntryOf(it.body))
  {
    hide Flat, WellCut, Full;
    match it.body {
      case DirBody =>
      case FileBody(bs) =>
        FullIsCut(bs);
        var d := Flat(bs);
        assert bs == Cut(d);
        var a, b := ItemRecs(it), FileRecs(it.path, d, Blocks(|d|));
        assert forall k :: 0 <= k < |a| ==> a[k] == b[k];
    }
  }

  lemma DenseBytes(it: Item)
    requires Storable(it) && Dense(it)
    ensures AllSized(ItemRecs(it)) && |RecsBytes(ItemRecs(it))| == SizeOf(it)
  {
    hide Flat, RecsBytes, Dense, WellCut;
    DenseRecs(it);
    EntryRecsBytes(it.path, EntryOf(it.body));
  }

  /** The records of a list in full blocks take exactly the bytes of the size formula. */
  lemma {:induction false} ListBytes(items: seq<Item>)
    requires Listable(items) && forall k :: 0 <= k < |items| ==> Dense(items[k])
    ensures AllSized(ListRecs(items)) && |RecsBytes(ListRecs(items))| == ListSize(items)
  {
    hide Dense, Storable, RecsBytes, SizeOf, ItemRecs, AllSized;
    if items != [] {
      var k := |items| - 1;
      ListBytes(items[..k]);
      DenseBytes(items[k]);
      RecsBytesAppend(ListRecs(items[..k]), ItemRecs(items[k]));
    } else {
      RecsBytesNone(ListRecs(items));
    }
  }

  // ---------------------------------------------------------------- what a reader makes of a list

  /** The item is within a reader's limit. */
  predicate InLimit(it: Item, limit: nat) { it.body.FileBody? ==> |Flat(it.body.blocks)| <= limit }

  /** Bytes of the file that are still missing before block k. */
  function LeftAt(bs: seq<seq<U8>>, k: nat): int
    requires k <= |bs|
  {
    if k == 0 then 0 else |Flat(bs)| - |Flat(bs[..k])|
  }

  lemma BlockRead(it: Item, k: nat, limit: nat)
    requires Storable(it) && it.body.FileBody? && k < |it.body.blocks| && InLimit(it, limit)
    ensures var r, bs := ItemRec(it, k), it.body.blocks;
      && Sized(r) && 0 <= LeftAt(bs, k) && Admitted(r, LeftAt(bs, k), limit)
      && LeftAfter(r, LeftAt(bs, k)) == LeftAt(bs, k + 1) >= 0
  {
    hide Flat;
    var bs := it.body.blocks;
    BlockAt(bs, k);
    FlatSnoc(bs, k);
    CutCount(bs);
    FlatNone(bs);
    if k == 0 { assert bs[..0] == []; }
  }

  /** The blocks of a file from block k on are read before anything that is read. */
  lemma {:induction false} FileRead(it: Item, k: nat, rest: seq<Record>, limit: nat)
    requires Storable(it) && it.body.FileBody? && k <= |it.body.blocks| && InLimit(it, limit) &&
      Readable(rest, 0, limit)
    ensures 0 <= LeftAt(it.body.blocks, k) && Readable(ItemRecs(it)[k..] + rest, LeftAt(it.body.blocks, k), limit)
    decreases |it.body.blocks| - k
  {
    hide Flat, Storable, ItemRec, Admitted, LeftAfter, Sized, LeftAt, InLimit;
    var bs, all := it.body.blocks, ItemRecs(it);
    if k == |bs| {
      assert all[k..] + rest == rest;
      LeftNone(bs);
    } else {
      FileRead(it, k + 1, rest, limit);
      BlockRead(it, k, limit);
      var recs := all[k..] + rest;
      assert recs[0] == ItemRec(it, k) && recs[1..] == all[k + 1..] + rest;
    }
  }

  lemma LeftNone(bs: seq<seq<U8>>)
    ensures LeftAt(bs, |bs|) == 0
  {
    assert bs[..|bs|] == bs;
  }

  /** A reader takes an item, in front of anything it takes, exactly when the item is within its limit. */
  lemma ItemRead(it: Item, rest: seq<Record>, limit: nat)
    requires Storable(it) && Readable(rest, 0, limit)
    ensures Readable(ItemRecs(it) + rest, 0, limit) <==> InLimit(it, limit)
  {
    hide Flat;
    var recs := ItemRecs(it) + rest;
    assert recs[0] == ItemRec(it, 0);
    match it.body {
      case DirBody => assert recs[1..] == rest;
      case FileBody(bs) =>
        if InLimit(it, limit) {
          FileRead(it, 0, rest, limit);
          assert ItemRecs(it)[0..] == ItemRecs(it);
        }
    }
  }

  /** A reader takes a list exactly when every file is within its limit. */
  lemma {:induction false} ListRead(items: seq<Item>, rest: seq<Record>, limit: nat)
    requires Listable(items) && Readable(rest, 0, limit)
    ensures Readable(ListRecs(items) + rest, 0, limit) <==> forall k :: 0 <= k < |items| ==> InLimit(items[k], limit)
  {
    hide Readable, ItemRecs, Storable, InLimit;
    if items == [] {
      assert ListRecs(items) + rest == rest;
    } else {
      var k := |items| - 1;
      var last := ItemRecs(items[k]);
      ItemRead(items[k], rest, limit);
      assert ListRecs(items) + rest == ListRecs(items[..k]) + (last + rest);
      if InLimit(items[k], limit) {
        ListRead(items[..k], last + rest, limit);
      } else {
        RecsStart(items[k]);
        if Readable(ListRecs(items) + rest, 0, limit) { SplitRead(ListRecs(items[..k]), last + rest, 0, limit); }
      }
    }
  }

  lemma RecsStart(it: Item)
    requires Storable(it)
    ensures ItemRecs(it) != [] && ItemRecs(it)[0].kind != KIND_BLOCK
    ensures forall k :: 0 < k < |ItemRecs(it)| ==> ItemRecs(it)[k].kind == KIND_BLOCK
  {
    assert ItemRecs(it)[0] == ItemRec(it, 0);
  }

  /** A sequence that a reader takes can be cut before any head. */
  lemma {:induction false} SplitRead(a: seq<Record>, b: seq<Record>, left: nat, limit: nat)
    requires Readable(a + b, left, limit) && b != [] && b[0].kind != KIND_BLOCK
    ensures Readable(a, left, limit) && Readable(b, 0, limit)
    decreases |a|
  {
    if a == [] {
      assert a + b == b;
    } else {
      assert (a + b)[0] == a[0] && (a + b)[1..] == a[1..] + b;
      SplitRead(a[1..], b, LeftAfter(a[0], left), limit);
    }
  }

  // ---------------------------------------------------------------- grouping records into items

  /** A record without the size field of a further block, which no reader looks at. */
  function Plain(r: Record): Record { if r.kind == KIND_BLOCK then r.(size := 0) else r }

  function AllPlain(recs: seq<Record>): (r: seq<Record>)
    ensures |r| == |recs| && forall k :: 0 <= k < |recs| ==> r[k] == Plain(recs[k])
  {
    seq(|recs|, k requires 0 <= k < |recs| => Plain(recs[k]))
  }

  function Datas(recs: seq<Record>): (r: seq<seq<U8>>)
    ensures |r| == |recs| && forall k :: 0 <= k < |recs| ==> r[k] == recs[k].data
  {
    seq(|recs|, k requires 0 <= k < |recs| => recs[k].data)
  }

  lemma {:induction false} FlatCons(x: seq<U8>, bs: seq<seq<U8>>)
    ensures Flat([x] + bs) == x + Flat(bs)
  {
    hide Flat;
    if bs == [] {
      FlatLast([], x);
      assert [x] + bs == [] + [x];
    } else {
      var init, last := bs[..|bs| - 1], bs[|bs| - 1];
      FlatCons(x, init);
      FlatLast(init, last);
      FlatLast([x] + init, last);
      assert bs == init + [last] && [x] + bs == ([x] + init) + [last];
    }
  }

  lemma FlatLast(bs: seq<seq<U8>>, x: seq<U8>)
    ensures Flat(bs + [x]) == Flat(bs) + x && Flat([]) == []
  {
    assert (bs + [x])[..|bs|] == bs;
  }

  /** Further blocks that a reader takes hold exactly the bytes that were missing, none of them empty. */
  lemma {:induction false} BlocksRun(recs: seq<Record>, left: nat, limit: nat)
    requires Readable(recs, left, limit) && forall k :: 0 <= k < |recs| ==> recs[k].kind == KIND_BLOCK
    ensures |Flat(Datas(recs))| == left
    ensures forall k :: 0 <= k < |recs| ==> recs[k].path == [] && 0 < |recs[k].data| <= DATA_MAX
    decreases |recs|
  {
    hide Flat;
    if recs == [] {
      FlatNone(Datas(recs));
      assert Datas(recs)[..0] == Datas(recs);
    } else {
      BlocksRun(recs[1..], LeftAfter(recs[0], left), limit);
      FlatCons(recs[0].data, Datas(recs[1..]));
      assert Datas(recs) == [recs[0].data] + Datas(recs[1..]);
      assert forall k :: 0 < k < |recs| ==> recs[k] == recs[1..][k - 1];
    }
  }

  /** A head and its further blocks are the records of one item. */
  lemma RunIsItem(recs: seq<Record>, limit: nat) returns (it: Item)
    requires recs != [] && Readable(recs, 0, limit) && recs[0].kind != KIND_BLOCK && limit <= FILE_MAX_EXT_BYTES
    requires forall k :: 0 < k < |recs| ==> recs[k].kind == KIND_BLOCK
    ensures Storable(it) && ItemRecs(it) == AllPlain(recs)
  {
    hide Flat, NoNul;
    var r, tail := recs[0], recs[1..];
    var left := LeftAfter(r, 0);
    assert forall k :: 0 <= k < |tail| ==> tail[k] == recs[k + 1];
    BlocksRun(tail, left, limit);
    if r.kind == KIND_DIR {
      it := Item(r.path, DirBody);
      NoRun(tail, limit);
      assert ItemRecs(it)[0] == ItemRec(it, 0);
    } else {
      it := FileOfRun(recs, limit);
    }
  }

  lemma NoRun(recs: seq<Record>, limit: nat)
    requires Readable(recs, 0, limit) && forall k :: 0 <= k < |recs| ==> recs[k].kind == KIND_BLOCK
    ensures recs == []
  {
  }

  lemma FileOfRun(recs: seq<Record>, limit: nat) returns (it: Item)
    requires recs != [] && Sized(recs[0]) && Admitted(recs[0], 0, limit) && recs[0].kind == KIND_FILE &&
      limit <= FILE_MAX_EXT_BYTES
    requires |Flat(Datas(recs[1..]))| == recs[0].size - |recs[0].data|
    requires forall k :: 0 < k < |recs| ==>
      recs[k].kind == KIND_BLOCK && recs[k].path == [] && 0 < |recs[k].data| <= DATA_MAX
    ensures Storable(it) && ItemRecs(it) == AllPlain(recs)
  {
    hide Flat, NoNul;
    var r, tail := recs[0], recs[1..];
    var bs := Datas(recs);
    it := Item(r.path, FileBody(bs));
    assert bs == [r.data] + Datas(tail);
    FlatCons(r.data, Datas(tail));
    if |tail| > 0 { SomeBytes(Datas(tail)); }
    assert WellCut(bs) && GoodItem(it);
    var a, b := ItemRecs(it), AllPlain(recs);
    forall k | 0 <= k < |recs| ensures a[k] == b[k] {
      assert a[k] == ItemRec(it, k);
    }
  }

  lemma SomeBytes(bs: seq<seq<U8>>)
    requires bs != [] && |bs[0]| > 0
    ensures |Flat(bs)| > 0
  {
    hide Flat;
    BlockAt(bs, 0);
  }

  /** Everything a reader takes is the records of a list of items. */
  lemma {:induction false} Grouped(recs: seq<Record>, limit: nat) returns (items: seq<Item>)
    requires Readable(recs, 0, limit) && limit <= FILE_MAX_EXT_BYTES
    ensures Listable(items) && ListRecs(items) == AllPlain(recs)
    decreases |recs|
  {
    hide Readable, Storable, ItemRecs, Admitted, AllPlain, ListRecs, Listable;
    if recs == [] {
      items := [];
      NoRecs();
    } else {
      var j := LastHead(recs, limit);
      PlainSplit(recs, j);
      SplitRead(recs[..j], recs[j..], 0, limit);
      var front := Grouped(recs[..j], limit);
      var it := RunIsItem(recs[j..], limit);
      items := front + [it];
      ListRecsSnoc(front, it);
    }
  }

  lemma PlainSplit(recs: seq<Record>, j: nat)
    requires j <= |recs|
    ensures recs == recs[..j] + recs[j..] && AllPlain(recs) == AllPlain(recs[..j]) + AllPlain(recs[j..])
  {
  }

  /** The last head of a sequence that a reader takes. */
  lemma LastHead(recs: seq<Record>, limit: nat) returns (j: nat)
    requires recs != [] && Readable(recs, 0, limit)
    ensures j < |recs| && recs[j].kind != KIND_BLOCK && forall k :: j < k < |recs| ==> recs[k].kind == KIND_BLOCK
  {
    assert Admitted(recs[0], 0, limit);
    j := |recs| - 1;
    while recs[j].kind == KIND_BLOCK
      invariant 0 <= j < |recs| && forall k :: j < k < |recs| ==> recs[k].kind == KIND_BLOCK
      decreases j
    {
      j := j - 1;
    }
  }

  predicate IsLastHead(recs: seq<Record>, j: nat)
  {
    j < |recs| && recs[j].kind != KIND_BLOCK && forall k :: j < k < |recs| ==> recs[k].kind == KIND_BLOCK
  }

  lemma SomeRecs(items: seq<Item>)
    requires Listable(items)
    ensures items == [] <==> ListRecs(items) == []
  {
    if items != [] { RecsStart(items[|items| - 1]); }
  }

  /** Two lists with the same records are the same list. */
  lemma {:induction false} ListRecsInjective(a: seq<Item>, b: seq<Item>)
    requires Listable(a) && Listable(b) && ListRecs(a) == ListRecs(b)
    ensures a == b
    decreases |a|
  {
    hide Storable, ItemRecs;
    SomeRecs(a);
    SomeRecs(b);
    if a != [] && b != [] {
      var x, y := a[|a| - 1], b[|b| - 1];
      var p, q := ListRecs(a[..|a| - 1]), ListRecs(b[..|b| - 1]);
      RecsStart(x);
      RecsStart(y);
      var recs := ListRecs(a);
      assert recs == p + ItemRecs(x) == q + ItemRecs(y);
      assert IsLastHead(recs, |p|) && IsLastHead(recs, |q|);
      assert p == recs[..|p|] && q == recs[..|q|] && ItemRecs(x) == recs[|p|..] && ItemRecs(y) == recs[|q|..];
      ListRecsInjective(a[..|a| - 1], b[..|b| - 1]);
      ItemRecsInjective(x, y);
      assert a == a[..|a| - 1] + [x] && b == b[..|b| - 1] + [y];
    }
  }

  lemma ItemRecsInjective(x: Item, y: Item)
    requires Storable(x) && Storable(y) && ItemRecs(x) == ItemRecs(y)
    ensures x == y
  {
    hide Flat, WellCut, GoodItem;
    assert ItemRecs(x)[0] == ItemRec(x, 0) && ItemRecs(y)[0] == ItemRec(y, 0);
    if x.body.FileBody? && y.body.FileBody? {
      var a, b := x.body.blocks, y.body.blocks;
      assert |a| == |b|;
      forall k | 0 <= k < |a| ensures a[k] == b[k] {
        assert ItemRecs(x)[k] == ItemRec(x, k) && ItemRecs(y)[k] == ItemRec(y, k);
      }
      assert a == b;
    }
  }
}
