/** The pool read as a list in slot order, and the pool that reading a list of records fills (fs/overlay.c:789-829). */
module OverlayLoading {
  import opened OverlayState
  import opened OverlayOps
  import opened OverlayImage
  import opened OverlayListing

  // ---------------------------------------------------------------- items in slot order

  /** The items whose heads are in the first n slots, in slot order. */
  ghost function InOrder(items: Items, n: nat): seq<Item>
  {
    if n == 0 then [] else InOrder(items, n - 1) + if n - 1 in items then [items[n - 1]] else []
  }

  /** The store that a list stands for: of several items with one path, the first counts. */
  ghost function FirstMap(list: seq<Item>): Store
  {
    if list == [] then map[]
    else
      var st, it := FirstMap(list[..|list| - 1]), list[|list| - 1];
      if it.path in st then st else st[it.path := EntryOf(it.body)]
  }

  predicate NoRepeats(list: seq<Item>) { forall j, k :: 0 <= j < k < |list| ==> list[j].path != list[k].path }

  ghost function UpTo(items: Items, n: nat): Items { map h | h in items && h < n :: items[h] }

  ghost predicate Has(items: Items, n: nat, it: Item) { exists h :: h in items && h < n && items[h] == it }

  /** Each item of the list stands in some slot, and each slot's item in the list. */
  lemma {:induction false} InOrderHas(items: Items, n: nat, it: Item)
    ensures it in InOrder(items, n) <==> Has(items, n, it)
  {
    if n > 0 {
      InOrderHas(items, n - 1, it);
      if n - 1 in items && items[n - 1] == it { assert Has(items, n, it); }
      if h :| h in items && h < n && items[h] == it {
        assert h == n - 1 || Has(items, n - 1, it);
      }
    }
  }

  /** Lookups in the pool see what the list stands for. */
  lemma {:induction false} InOrderStore(items: Items, n: nat)
    ensures StoreOf(UpTo(items, n)) == FirstMap(InOrder(items, n))
  {
    hide StoreOf, EntryOf;
    var b := UpTo(items, n);
    if n == 0 {
      assert b == map[];
      NothingStored(b);
    } else {
      var a := UpTo(items, n - 1);
      InOrderStore(items, n - 1);
      if n - 1 in items {
        var it := items[n - 1];
        assert b == a[n - 1 := it];
        assert InOrder(items, n)[..|InOrder(items, n)| - 1] == InOrder(items, n - 1);
        AddedLast(a, n - 1, it);
      } else {
        assert b == a && InOrder(items, n) == InOrder(items, n - 1);
      }
    }
  }

  lemma NothingStored(items: Items)
    requires items == map[]
    ensures StoreOf(items) == map[]
  {
  }

  /** An item behind all others is seen exactly if its path is new. */
  lemma AddedLast(items: Items, h: nat, it: Item)
    requires forall k :: k in items ==> k < h
    ensures var st := StoreOf(items); StoreOf(items[h := it]) == if it.path in st then st
      else st[it.path := EntryOf(it.body)]
  {
    hide StoreOf, EntryOf;
    AddedItem(items, h, it);
    var st, items' := StoreOf(items), items[h := it];
    if it.path in st {
      var f := Behind(items, it.path);
      var st' := StoreOf(items');
      forall p ensures p in st <==> p in st'
        ensures p in st ==> st[p] == st'[p]
      {
        if p == it.path {
          forall k: nat | At(items', p, k) ensures f <= k { assert k != h ==> At(items, p, k); }
          assert At(items', p, f);
          FirstIs(items', p, f);
        } else {
          assert forall k :: At(items, p, k) <==> At(items', p, k);
          SameFirst(items, items', p);
        }
      }
      assert st == st';
    }
  }

  /** Paths are unique in the pool exactly when the list has no repeats. */
  lemma {:induction false} InOrderUnique(items: Items, n: nat)
    ensures Unique(UpTo(items, n)) <==> NoRepeats(InOrder(items, n))
  {
    var b, l := UpTo(items, n), InOrder(items, n);
    if n > 0 {
      var a, m := UpTo(items, n - 1), InOrder(items, n - 1);
      InOrderUnique(items, n - 1);
      if n - 1 in items {
        assert b == a[n - 1 := items[n - 1]] && l == m + [items[n - 1]];
        if Unique(a) { NewInOrder(items, n - 1); }
          else { StillRepeats(a, b); assert !NoRepeats(l) by { RepeatsStay(m, l); } }
      } else {
        assert b == a && l == m;
      }
    }
  }

  lemma StillRepeats(a: Items, b: Items)
    requires !Unique(a) && forall h :: h in a ==> h in b && b[h] == a[h]
    ensures !Unique(b)
  {
    var h, k :| h in a && k in a && a[h].path == a[k].path && h != k;
    assert b[h].path == b[k].path;
  }

  lemma RepeatsStay(m: seq<Item>, l: seq<Item>)
    requires !NoRepeats(m) && m <= l
    ensures !NoRepeats(l)
  {
    var j, k :| 0 <= j < k < |m| && m[j].path == m[k].path;
    assert l[j] == m[j] && l[k] == m[k];
  }

  lemma NewInOrder(items: Items, n: nat)
    requires n in items && Unique(UpTo(items, n)) && NoRepeats(InOrder(items, n))
    ensures Unique(UpTo(items, n + 1)) <==> NoRepeats(InOrder(items, n + 1))
  {
    hide InOrder;
    var a, m, it := UpTo(items, n), InOrder(items, n), items[n];
    var b, l := UpTo(items, n + 1), InOrder(items, n + 1);
    InOrderStep(items, n);
    assert b == a[n := it];
    if h :| h in a && a[h].path == it.path {
      assert Has(items, n, a[h]);
      InOrderHas(items, n, a[h]);
      var k :| 0 <= k < |m| && m[k] == a[h];
      assert b[h].path == b[n].path && h != n;
      assert l[k].path == l[|m|].path;
    } else {
      forall k | 0 <= k < |m| ensures m[k].path != it.path {
        InOrderHas(items, n, m[k]);
        var h :| h in items && h < n && items[h] == m[k];
        assert h in a;
      }
    }
  }

  lemma InOrderStep(items: Items, n: nat)
    ensures InOrder(items, n + 1) == InOrder(items, n) + if n in items then [items[n]] else []
  {
  }

  /** Two pools with the same items in order: the same store, unique or not, within the same limits. */
  lemma SameInOrder(a: Items, b: Items, n: nat)
    requires InOrder(a, n) == InOrder(b, n) && (forall h :: h in a ==> h < n) && (forall h :: h in b ==> h < n)
    ensures StoreOf(a) == StoreOf(b) && (Unique(a) <==> Unique(b)) && (AllFull(a) <==> AllFull(b))
    ensures forall limit :: Within(a, limit) <==> Within(b, limit)
  {
    hide StoreOf, Unique, Full, Flat;
    assert UpTo(a, n) == a && UpTo(b, n) == b;
    InOrderStore(a, n);
    InOrderStore(b, n);
    InOrderUnique(a, n);
    InOrderUnique(b, n);
    SameBodies(a, b, n);
    SameBodies(b, a, n);
  }

  lemma SameBodies(a: Items, b: Items, n: nat)
    requires InOrder(a, n) == InOrder(b, n) && (forall h :: h in a ==> h < n) && (forall h :: h in b ==> h < n)
    ensures AllFull(b) ==> AllFull(a)
    ensures forall limit :: Within(b, limit) ==> Within(a, limit)
  {
    hide Full, Flat, InOrder;
    forall h | h in a ensures exists k :: k in b && b[k] == a[h] {
      assert Has(a, n, a[h]);
      InOrderHas(a, n, a[h]);
      InOrderHas(b, n, a[h]);
    }
  }

  // ---------------------------------------------------------------- the pool that a reader fills

  /** Node k after record k has been read (the link is set when the next record turns out to be a further block). */
  predicate LoadedAt(n: Node, recs: seq<Record>, k: nat)
    requires k < |recs|
  {
    var r := recs[k];
    && n.used && n.isDir == (r.kind == KIND_DIR) && n.isCont == (r.kind == KIND_BLOCK) && n.path == r.path
    && n.next == (if k + 1 < |recs| && recs[k + 1].kind == KIND_BLOCK then k + 1 else -1)
    && n.size == (if r.kind == KIND_FILE then r.size else |r.data|)
    && |r.data| <= DATA_MAX && n.data[..|r.data|] == r.data
  }

  /** The pool holds exactly these records, one per slot from slot 0. */
  ghost predicate Loaded(pool: seq<Node>, recs: seq<Record>)
  {
    && |recs| <= |pool| == MAX_NODES
    && (forall k :: 0 <= k < |recs| ==> LoadedAt(pool[k], recs, k))
    && (forall k :: |recs| <= k < |pool| ==> !pool[k].used)
  }

  /** The size field of a further block does not matter. */
  lemma LoadedPlain(pool: seq<Node>, recs: seq<Record>)
    requires Loaded(pool, recs)
    ensures Loaded(pool, AllPlain(recs))
  {
    var p := AllPlain(recs);
    forall k | 0 <= k < |recs| ensures LoadedAt(pool[k], p, k) {
      assert LoadedAt(pool[k], recs, k) && p[k] == Plain(recs[k]);
      assert k + 1 < |recs| ==> p[k + 1] == Plain(recs[k + 1]);
    }
  }

  function Range(o: nat, len: nat): (c: seq<nat>)
    ensures |c| == len && (forall k :: 0 <= k < len ==> c[k] == o + k) && Distinct(c)
  {
    seq(len, k requires 0 <= k => o + k)
  }

  lemma RangeMembers(o: nat, len: nat)
    ensures forall i :: i in Range(o, len) <==> o <= i < o + len
  {
    var c := Range(o, len);
    forall i | o <= i < o + len ensures i in c { assert c[i - o] == i; }
  }

  /** Where the items of a list end up: one run of slots each. */
  ghost function LayoutOf(items: seq<Item>): Layout
    requires Listable(items)
  {
    if items == [] then NOTHING
    else
      var k := |items| - 1;
      Replaced(LayoutOf(items[..k]), {}, Range(|ListRecs(items[..k])|, RecCount(items[k])), items[k])
  }

  /** The first o slots of a pool, the rest unused. */
  ghost function Prefix(pool: seq<Node>, o: nat): seq<Node>
    requires o <= |pool|
  {
    pool[..o] + seq(|pool| - o, i => EMPTY_NODE)
  }

  lemma LoadedPrefix(pool: seq<Node>, a: seq<Record>, b: seq<Record>)
    requires Loaded(pool, a + b) && b != [] && b[0].kind != KIND_BLOCK
    ensures |a| <= |pool| && Loaded(Prefix(pool, |a|), a)
  {
    var pre := Prefix(pool, |a|);
    forall k | 0 <= k < |a| ensures LoadedAt(pre[k], a, k) {
      assert LoadedAt(pool[k], a + b, k);
      assert (a + b)[k] == a[k];
      assert k + 1 < |a| ==> (a + b)[k + 1] == a[k + 1];
      assert k + 1 == |a| ==> (a + b)[k + 1] == b[0];
    }
  }

  lemma LoadedDirChain(pool: seq<Node>, a: seq<Record>, it: Item)
    requires Storable(it) && it.body.DirBody? && Loaded(pool, a + ItemRecs(it))
    ensures ChainOk(pool, Range(|a|, 1), it)
  {
    var recs := a + ItemRecs(it);
    assert LoadedAt(pool[|a|], recs, |a|) && recs[|a|] == ItemRecs(it)[0] == ItemRec(it, 0);
    assert LinkOk(pool[Range(|a|, 1)[0]], Range(|a|, 1), 0, it.path);
  }

  lemma LoadedFileChain(pool: seq<Node>, a: seq<Record>, it: Item)
    requires Storable(it) && it.body.FileBody? && Loaded(pool, a + ItemRecs(it))
    ensures ChainOk(pool, Range(|a|, |it.body.blocks|), it)
  {
    hide Flat;
    var e := ItemRecs(it);
    var recs, c := a + e, Range(|a|, |it.body.blocks|);
    forall k | 0 <= k < |c| ensures LinkOk(pool[c[k]], c, k, it.path) && BlockOk(pool[c[k]], k, it.body.blocks) {
      assert LoadedAt(pool[|a| + k], recs, |a| + k);
      assert recs[|a| + k] == e[k] == ItemRec(it, k);
      assert k + 1 < |c| ==> recs[|a| + k + 1] == e[k + 1] == ItemRec(it, k + 1);
    }
  }

  lemma LoadedChain(pool: seq<Node>, a: seq<Record>, it: Item)
    requires Storable(it) && Loaded(pool, a + ItemRecs(it))
    ensures ChainOk(pool, Range(|a|, RecCount(it)), it)
  {
    match it.body {
      case DirBody => LoadedDirChain(pool, a, it);
      case FileBody(bs) => LoadedFileChain(pool, a, it);
    }
  }

  lemma LoadedKept(pool: seq<Node>, a: seq<Record>, b: seq<Record>, lay: Layout)
    requires Loaded(pool, a + b) && Rep(Prefix(pool, |a|), lay)
    ensures OthersKept(Prefix(pool, |a|), pool, lay, {}, Range(|a|, |b|)) && Available(lay, {}, Range(|a|, |b|))
  {
    hide Chained, Owned;
    var pre, c := Prefix(pool, |a|), Range(|a|, |b|);
    RangeMembers(|a|, |b|);
    forall i | 0 <= i < |a| ensures pre[i].used {
      assert LoadedAt(pool[i], a + b, i);
    }
  }

  /** A pool filled from a list holds the items of the list, in its order. */
  lemma {:induction false} LoadedRep(pool: seq<Node>, items: seq<Item>)
    requires Listable(items) && Loaded(pool, ListRecs(items))
    ensures Rep(pool, LayoutOf(items))
    decreases |items|
  {
    hide Rep, ChainOk, ItemRecs, Prefix, Range, Replaced, Loaded, OthersKept, Available, Storable;
    if items == [] {
      LoadedNothing(pool, ListRecs(items));
    } else {
      var k := |items| - 1;
      var it := items[k];
      var a, b := ListRecs(items[..k]), ItemRecs(it);
      RecsStart(it);
      LoadedChain(pool, a, it);
      LoadedPrefix(pool, a, b);
      var pre, lay, c := Prefix(pool, |a|), LayoutOf(items[..k]), Range(|a|, |b|);
      LoadedRep(pre, items[..k]);
      LoadedKept(pool, a, b, lay);
      ReplacedRep(pre, pool, lay, {}, c, it);
    }
  }

  /** The items of such a pool in slot order are the list. */
  lemma {:induction false} LayoutInOrder(items: seq<Item>)
    requires Listable(items)
    ensures InOrder(LayoutOf(items).items, |ListRecs(items)|) == items
    ensures forall h :: h in LayoutOf(items).items ==> h < |ListRecs(items)|
  {
    hide InOrder, ItemRecs, Storable, Replaced, Range;
    if items == [] {
      InOrderNone(LayoutOf(items).items);
    } else {
      var k := |items| - 1;
      var lay, o, n := LayoutOf(items[..k]), |ListRecs(items[..k])|, RecCount(items[k]);
      LayoutInOrder(items[..k]);
      RecsStart(items[k]);
      ReplacedItems(lay, Range(o, n), items[k]);
      InOrderOneMore(lay.items, o, items[k], o + n);
      assert items == items[..k] + [items[k]];
    }
  }

  lemma ReplacedItems(lay: Layout, c: seq<nat>, it: Item)
    requires Distinct(c) && c != []
    ensures Replaced(lay, {}, c, it).items == lay.items[c[0] := it]
  {
    assert lay.items - {} == lay.items;
  }

  lemma InOrderNone(items: Items)
    ensures InOrder(items, 0) == []
  {
  }

  /** Slots behind all heads add nothing. */
  lemma {:induction false} InOrderLater(items: Items, n: nat, m: nat)
    requires n <= m && forall h :: h in items ==> h < n
    ensures InOrder(items, m) == InOrder(items, n)
  {
    if n < m { InOrderLater(items, n, m - 1); }
  }

  lemma {:induction false} InOrderSame(a: Items, b: Items, n: nat)
    requires forall h :: h < n ==> (h in a <==> h in b) && (h in a ==> a[h] == b[h])
    ensures InOrder(a, n) == InOrder(b, n)
  {
    if n > 0 { InOrderSame(a, b, n - 1); }
  }

  lemma InOrderOneMore(items: Items, h: nat, it: Item, m: nat)
    requires h < m && forall k :: k in items ==> k < h
    ensures InOrder(items[h := it], m) == InOrder(items, h) + [it]
  {
    InOrderSame(items, items[h := it], h);
    InOrderLater(items[h := it], h + 1, m);
  }

  lemma LoadedNothing(pool: seq<Node>, recs: seq<Record>)
    requires Loaded(pool, recs) && recs == []
    ensures Rep(pool, NOTHING)
  {
  }

  lemma {:induction false} LayoutGood(items: seq<Item>)
    requires Listable(items)
    ensures GoodItems(LayoutOf(items).items)
  {
    hide GoodItem;
    if items != [] {
      LayoutGood(items[..|items| - 1]);
      assert Storable(items[|items| - 1]);
    }
  }
}
