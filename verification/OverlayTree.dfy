/** Renaming subtrees of the overlay store (fs/overlay.c:435-500). */
module OverlayTree {
  import opened Words
  import opened OverlayPaths
  import opened OverlayState
  import opened OverlayOps

  /** Where a path goes when the subtree at old_ moves to new_. */
  function MoveKey(p: Path, old_: Path, new_: Path): Path { if Under(p, old_) then Moved(p, old_, new_) else p }

  /** Nothing is stored at or below d. */
  ghost predicate Vacant(st: Store, d: Path) { forall p :: p in st ==> !Under(p, d) }

  /** No moved path is taken by an entry that stays where it is. */
  ghost predicate Clear(st: Store, old_: Path, new_: Path)
  {
    forall p :: p in st && Under(p, old_) && Moved(p, old_, new_) in st ==> Under(Moved(p, old_, new_), old_)
  }

  /** Some entry that moves to q. */
  ghost function Origin(st: Store, old_: Path, new_: Path, q: Path): (p: Path)
    requires exists p :: p in st && MoveKey(p, old_, new_) == q
    ensures p in st && MoveKey(p, old_, new_) == q
  {
    var p :| p in st && MoveKey(p, old_, new_) == q;
    p
  }

  /** The store with every path under old_ moved under new_. */
  ghost function MoveStore(st: Store, old_: Path, new_: Path): Store
  {
    map q | q in (set p | p in st :: MoveKey(p, old_, new_)) :: st[Origin(st, old_, new_, q)]
  }

  lemma MovedBelow(p: Path, old_: Path, new_: Path)
    requires Under(p, old_)
    ensures Under(Moved(p, old_, new_), new_)
  {
    var q := Moved(p, old_, new_);
    assert q[..|new_|] == new_ && q[|new_|..] == p[|old_|..];
  }

  /** Two paths of one subtree never move to the same place. */
  lemma MovedInjective(p: Path, q: Path, old_: Path, new_: Path)
    requires Under(p, old_) && Under(q, old_) && Moved(p, old_, new_) == Moved(q, old_, new_)
    ensures p == q
  {
    assert Moved(p, old_, new_)[|new_|..] == p[|old_|..] && Moved(q, old_, new_)[|new_|..] == q[|old_|..];
    assert p == old_ + p[|old_|..] && q == old_ + q[|old_|..];
  }

  /** With the way clear no two entries meet. */
  lemma MoveInjective(st: Store, p: Path, q: Path, old_: Path, new_: Path)
    requires Clear(st, old_, new_) && p in st && q in st && MoveKey(p, old_, new_) == MoveKey(q, old_, new_)
    ensures p == q
  {
    if Under(p, old_) && Under(q, old_) { MovedInjective(p, q, old_, new_); }
  }

  lemma MovedTo(st: Store, p: Path, old_: Path, new_: Path)
    requires Clear(st, old_, new_) && p in st
    ensures MoveKey(p, old_, new_) in MoveStore(st, old_, new_)
    ensures MoveStore(st, old_, new_)[MoveKey(p, old_, new_)] == st[p]
  {
    var q := MoveKey(p, old_, new_);
    assert q in (set x | x in st :: MoveKey(x, old_, new_));
    MoveInjective(st, p, Origin(st, old_, new_, q), old_, new_);
  }

  lemma MovedFrom(st: Store, q: Path, old_: Path, new_: Path) returns (p: Path)
    requires q in MoveStore(st, old_, new_)
    ensures p in st && MoveKey(p, old_, new_) == q && MoveStore(st, old_, new_)[q] == st[p]
  {
    p := Origin(st, old_, new_, q);
  }

  lemma VacantIsClear(st: Store, old_: Path, new_: Path)
    requires Vacant(st, new_)
    ensures Clear(st, old_, new_)
  {
    forall p | p in st && Under(p, old_) ensures Moved(p, old_, new_) !in st { MovedBelow(p, old_, new_); }
  }

  // ---------------------------------------------------------------- on items

  ghost function MoveItems(items: Items, old_: Path, new_: Path): Items
  {
    map h | h in items :: Item(MoveKey(items[h].path, old_, new_), items[h].body)
  }

  /** Unique paths stay unique exactly when the way is clear, and then the store is the moved one. */
  lemma MovedUnique(items: Items, old_: Path, new_: Path)
    requires Unique(items)
    ensures var st, items' := StoreOf(items), MoveItems(items, old_, new_);
      && (Unique(items') <==> Clear(st, old_, new_))
      && (Clear(st, old_, new_) ==> StoreOf(items') == MoveStore(st, old_, new_))
  {
    hide StoreOf, MoveStore, MoveKey;
    var st, items' := StoreOf(items), MoveItems(items, old_, new_);
    if Clear(st, old_, new_) {
      forall h, k | h in items' && k in items' && items'[h].path == items'[k].path ensures h == k {
        Seen(items, h);
        Seen(items, k);
        MoveInjective(st, items[h].path, items[k].path, old_, new_);
      }
      MovedStore(items, old_, new_);
    } else {
      NotClear(items, old_, new_);
    }
  }

  lemma NotClear(items: Items, old_: Path, new_: Path)
    requires Unique(items) && !Clear(StoreOf(items), old_, new_)
    ensures !Unique(MoveItems(items, old_, new_))
  {
    hide StoreOf;
    var st, items' := StoreOf(items), MoveItems(items, old_, new_);
    var p :| p in st && Under(p, old_) && Moved(p, old_, new_) in st && !Under(Moved(p, old_, new_), old_);
    var h := Behind(items, p);
    var k := Behind(items, Moved(p, old_, new_));
    assert h != k && items'[h].path == items'[k].path;
  }

  lemma MovedStore(items: Items, old_: Path, new_: Path)
    requires Unique(items) && Clear(StoreOf(items), old_, new_) && Unique(MoveItems(items, old_, new_))
    ensures StoreOf(MoveItems(items, old_, new_)) == MoveStore(StoreOf(items), old_, new_)
  {
    hide StoreOf, MoveStore, MoveKey, Clear, Unique;
    var st, items' := StoreOf(items), MoveItems(items, old_, new_);
    var a, b := StoreOf(items'), MoveStore(st, old_, new_);
    forall q | q in a ensures q in b && b[q] == a[q] {
      var h := Behind(items', q);
      Seen(items, h);
      MovedTo(st, items[h].path, old_, new_);
    }
    forall q | q in b ensures q in a {
      var p := MovedFrom(st, q, old_, new_);
      var h := Behind(items, p);
      Seen(items', h);
    }
    assert a.Keys == b.Keys;
  }

  function MoveNode(n: Node, old_: Path, new_: Path): Node
  {
    if n.used && Under(n.path, old_) then n.(path := Moved(n.path, old_, new_)) else n
  }

  ghost function MoveLayout(lay: Layout, old_: Path, new_: Path): Layout
  {
    lay.(items := MoveItems(lay.items, old_, new_))
  }

  /** The pool with every stored path moved. */
  ghost predicate MovedPool(pool: seq<Node>, pool': seq<Node>, old_: Path, new_: Path)
  {
    |pool'| == |pool| && forall i :: 0 <= i < |pool| ==> pool'[i] == MoveNode(pool[i], old_, new_)
  }

  lemma MovedChain(pool: seq<Node>, pool': seq<Node>, c: seq<nat>, it: Item, old_: Path, new_: Path)
    requires ChainOk(pool, c, it) && MovedPool(pool, pool', old_, new_) && old_ != []
    ensures ChainOk(pool', c, Item(MoveKey(it.path, old_, new_), it.body))
  {
    hide Flat, WellCut;
    forall k | 0 <= k < |c| ensures LinkOk(pool'[c[k]], c, k, MoveKey(it.path, old_, new_)) {
      assert LinkOk(pool[c[k]], c, k, it.path);
      assert pool'[c[k]] == MoveNode(pool[c[k]], old_, new_);
    }
    match it.body {
      case DirBody =>
      case FileBody(bs) =>
        forall k | 0 <= k < |c| ensures BlockOk(pool'[c[k]], k, bs) {
          assert BlockOk(pool[c[k]], k, bs);
        }
    }
  }

  /** Rewriting every path under old_ gives a pool that holds the moved items, whatever they are. */
  lemma MovedRep(pool: seq<Node>, pool': seq<Node>, lay: Layout, old_: Path, new_: Path)
    requires Rep(pool, lay) && MovedPool(pool, pool', old_, new_) && old_ != []
    ensures Rep(pool', MoveLayout(lay, old_, new_))
  {
    hide ChainOk, MoveKey;
    var lay' := MoveLayout(lay, old_, new_);
    assert lay'.chains == lay.chains && lay'.owner == lay.owner && lay'.items.Keys == lay.items.Keys;
    forall h | h in lay.items ensures ChainOk(pool', lay.chains[h], lay'.items[h]) {
      MovedChain(pool, pool', lay.chains[h], lay.items[h], old_, new_);
    }
    forall h | h in lay'.chains ensures OwnsChain(lay', h) { assert OwnsChain(lay, h); }
    forall i | i in lay'.owner ensures OwnedAt(lay', i) { assert OwnedAt(lay, i); }
    forall i | 0 <= i < |pool'| ensures pool'[i].used == pool[i].used {
      assert pool'[i] == MoveNode(pool[i], old_, new_);
    }
  }

  // ---------------------------------------------------------------- what moving and copying do to the tree

  /** Below old_, every entry lies in a directory of the store itself, and the new name is not "." (whose
      children no lookup finds). */
  ghost predicate Portable(st: Store, old_: Path, new_: Path)
  {
    forall p :: p in st && StrictlyUnder(p, old_) ==> PortableAt(st, p, new_)
  }

  ghost predicate PortableAt(st: Store, p: Path, new_: Path) { new_ != [DOT] && Up(p) in st && st[Up(p)].Dir? }

  /** The checks common to rename and copy, on canonical paths. */
  ghost predicate CanMove(st: Store, ird: Initrd, old_: Path, new_: Path)
  {
    && Tree(st, ird) && Canon(old_) && Canon(new_) && old_ in st
    && new_ !in st && !ird.IsFile(new_) && !ird.IsDir(new_) && DirAt(st, ird, Up(new_)) && !Under(new_, old_)
    && forall p :: p in st && Under(p, old_) ==> |new_| + |p| - |old_| <= PATH_MAX - 1
  }

  /** A name that is free in the store and in the ramdisk has nothing below it either. */
  lemma FreeIsVacant(st: Store, ird: Initrd, new_: Path)
    requires Tree(st, ird) && Canon(new_) && new_ !in st && !ird.IsDir(new_)
    ensures Vacant(st, new_)
  {
    forall p | p in st ensures !Under(p, new_) {
      if Under(p, new_) { AncestorIsDir(st, ird, p, new_); }
    }
  }

  /** The new place's parent is not moved away, and nothing at the new place meets the old one. */
  lemma NewParentStays(st: Store, ird: Initrd, old_: Path, new_: Path)
    requires CanMove(st, ird, old_, new_)
    ensures !Under(Up(new_), old_)
  {
    UpSpec(new_);
    UpStrict(new_);
    if Up(new_) != [] && Under(Up(new_), old_) { UnderTransitive(new_, Up(new_), old_); }
  }

  /** A moved entry keeps the tree's rules exactly when it is portable. */
  lemma MovedEntry(st: Store, st': Store, ird: Initrd, p: Path, old_: Path, new_: Path)
    requires CanMove(st, ird, old_, new_) && p in st && StrictlyUnder(p, old_)
    requires forall q :: Under(q, new_) ==> (q in st' <==> q in MoveStore(st, old_, new_))
    requires forall q :: Under(q, new_) && q in st' ==> st'[q] == MoveStore(st, old_, new_)[q]
    ensures var q := Moved(p, old_, new_);
      (Canon(q) && DirAt(st', ird, Up(q)) && (st[p].File? ==> !ird.IsDir(q))) <==> PortableAt(st, p, new_)
  {
    hide MoveStore;
    var q := Moved(p, old_, new_);
    FreeIsVacant(st, ird, new_);
    VacantIsClear(st, old_, new_);
    MovedCanon(p, old_, new_);
    if new_ != [DOT] {
      MovedUp(p, old_, new_);
      UpSpec(q);
      UpSpec(p);
      UpUnder(p, old_);
      var u, v := Up(p), Up(q);
      MovedBelow(u, old_, new_);
      if ird.IsDir(q) { InitrdClosed(ird, q, new_); }
      if v != new_ && ird.IsDir(v) { InitrdClosed(ird, v, new_); }
      if u in st {
        MovedTo(st, u, old_, new_);
      } else if v in st' {
        var w := MovedFrom(st, v, old_, new_);
        if Under(w, old_) { MovedInjective(w, u, old_, new_); }
      }
    }
  }

  /** Renaming keeps the tree exactly when the subtree is portable. */
  lemma MovedTree(st: Store, ird: Initrd, old_: Path, new_: Path)
    requires CanMove(st, ird, old_, new_)
    ensures Tree(MoveStore(st, old_, new_), ird) <==> Portable(st, old_, new_)
  {
    hide MoveStore;
    var st' := MoveStore(st, old_, new_);
    FreeIsVacant(st, ird, new_);
    VacantIsClear(st, old_, new_);
    forall p | p in st && StrictlyUnder(p, old_)
      ensures Moved(p, old_, new_) in st' && st'[Moved(p, old_, new_)] == st[p]
      ensures (var q := Moved(p, old_, new_); Canon(q) && DirAt(st', ird, Up(q)) && (st[p].File? ==> !ird.IsDir(q)))
              <==> PortableAt(st, p, new_)
    {
      MovedTo(st, p, old_, new_);
      MovedEntry(st, st', ird, p, old_, new_);
    }
    if Portable(st, old_, new_) {
      forall q | q in st' ensures Canon(q) && DirAt(st', ird, Up(q)) && (st'[q].File? ==> !ird.IsDir(q)) {
        var p := MovedFrom(st, q, old_, new_);
        if !StrictlyUnder(p, old_) { UnmovedEntry(st, ird, p, old_, new_); }
      }
    }
  }

  /** A ramdisk with "d/e/x" and a store with a directory "d" and a file "d/e/f": all checks pass for renaming "d" to
      "n", and the file ends up in "n/e", which does not exist. */
  lemma MoveLosesParent(x: seq<U8>, data: seq<U8>)
    ensures var ird := Initrd(map[[100, 47, 101, 47, 120] := x]);
            var st := map[[100] := Dir, [100, 47, 101, 47, 102] := File(data)];
            CanMove(st, ird, [100], [110]) && !Tree(MoveStore(st, [100], [110]), ird)
  {
    PlainPath([100]);
    PlainPath([110]);
    PlainPath([100, 47, 101]);
    PlainPath([100, 47, 101, 47, 102]);
    PlainName([100]);
    PlainName([110]);
    InnerName([100, 47, 101], [102]);
    LostParent([100], [110], [100, 47, 101], [100, 47, 101, 47, 102], [100, 47, 101, 47, 120], x, data);
  }

  /** A file f that lies in e below d, where e exists only in the ramdisk, is left without a directory by moving d to n.
      */
  lemma LostParent(d: Path, n: Path, e: Path, f: Path, r: Path, x: seq<U8>, data: seq<U8>)
    requires Canon(d) && Canon(n) && Canon(e) && Canon(f) && Normalize(d) == d && Normalize(n) == n && Normalize(e) == e
    requires Up(d) == [] && Up(n) == [] && Up(f) == e && e != d && Normalize(f) == f
    requires StrictlyUnder(f, d) && StrictlyUnder(r, e) && !Under(r, n)
    requires !Under(f, n) && r != f && !Under(r, f) && !Under(n, d) && !Under(d, n)
    requires |n| == |d|
    ensures CanMove(map[d := Dir, f := File(data)], Initrd(map[r := x]), d, n)
    ensures !Tree(MoveStore(map[d := Dir, f := File(data)], d, n), Initrd(map[r := x]))
  {
    hide Up, Canon, Normalize;
    var st, ird := map[d := Dir, f := File(data)], Initrd(map[r := x]);
    assert r in ird.names;
    assert ird.IsDir(e);
    CanonFits(f);
    MovedTree(st, ird, d, n);
    assert f in st && !PortableAt(st, f, n);
  }

  lemma CanonFits(f: Path)
    requires Canon(f)
    ensures 0 < |f| < PATH_MAX
  {
  }

  lemma PlainName(p: Path)
    requires forall i :: 0 <= i < |p| ==> p[i] != SLASH
    ensures Up(p) == []
  {
    LastSlashSpec(p);
  }

  lemma InnerName(d: Path, p: Path)
    requires d != [] && d[|d| - 1] != SLASH && forall i :: 0 <= i < |p| ==> p[i] != SLASH
    ensures Up(d + [SLASH] + p) == d
  {
    var s := d + [SLASH] + p;
    LastSlashSpec(s);
    assert s[|d|] == SLASH && s[..|d|] == d;
    StripTrailingSpec(d);
  }

  lemma PlainPath(p: Path)
    requires 0 < |p| < PATH_MAX && p[0] != SLASH && p[|p| - 1] != SLASH && NoNul(p) && !DotSlash(p)
    ensures Normalize(p) == p && Canon(p)
  {
    NormalizeCanon(p);
  }

  /** The root of the subtree and everything outside it keep the rules. */
  lemma UnmovedEntry(st: Store, ird: Initrd, p: Path, old_: Path, new_: Path)
    requires CanMove(st, ird, old_, new_) && p in st && !StrictlyUnder(p, old_)
    ensures var q, st' := MoveKey(p, old_, new_), MoveStore(st, old_, new_);
      Canon(q) && DirAt(st', ird, Up(q)) && (st[p].File? ==> !ird.IsDir(q))
  {
    hide MoveStore;
    FreeIsVacant(st, ird, new_);
    VacantIsClear(st, old_, new_);
    NewParentStays(st, ird, old_, new_);
    var q := MoveKey(p, old_, new_);
    var u := Up(q);
    if p == old_ {
      assert q == new_;
    } else {
      assert q == p;
      UpSpec(p);
      UpStrict(p);
      if u != [] && Under(u, old_) { UnderTransitive(p, u, old_); }
    }
    assert DirAt(st, ird, u) && !Under(u, old_);
    if u in st { MovedTo(st, u, old_, new_); }
  }

  /** What a rename or copy must not do to a store in order: leave an entry without its directory, or below a name that
      no lookup finds. */
  ghost predicate MoveKeeps(st: Store, old_: Path, new_: Path)
  {
    forall p :: p in st && Under(p, old_) ==> !DotSlash(new_) && (p == old_ || PortableAt(st, p, new_))
  }

  /** Any name with nothing below the old one leaves the store alone. */
  lemma NothingMoves(st: Store, old_: Path, new_: Path)
    requires forall p :: p in st ==> !Under(p, old_)
    ensures MoveStore(st, old_, new_) == st
  {
    hide MoveStore;
    var st' := MoveStore(st, old_, new_);
    forall p | p in st ensures p in st' && st'[p] == st[p] { MovedTo(st, p, old_, new_); }
    forall q | q in st' ensures q in st { var p := MovedFrom(st, q, old_, new_); }
    assert st'.Keys == st.Keys;
  }

  /** A store in order stays so under a rename that passes the checks exactly when the move keeps it. */
  lemma RenamedTree(st: Store, ird: Initrd, old_: Path, new_: Path)
    requires Tree(st, ird) && Trimmed(old_) && Trimmed(new_) && old_ != [] && new_ != [] && old_ != new_
    requires NoNul(old_) && NoNul(new_) && MoveRefusal(st, ird, old_, new_) == OV_OK
    ensures Vacant(st, new_) && (Tree(MoveStore(st, old_, new_), ird) <==> MoveKeeps(st, old_, new_))
  {
    hide MoveStore, MoveRefusal, Normalize;
    MoveIsClean(st, ird, old_, new_);
    VacantIsClear(st, old_, new_);
    if p :| p in st && Under(p, old_) {
      assert !DotSlash(old_) by { assert |old_| >= 2 ==> p[0] == old_[0] && p[1] == old_[1]; }
      if DotSlash(new_) {
        MovedTo(st, p, old_, new_);
        assert DotSlash(Moved(p, old_, new_));
      } else {
        MovedTree(st, ird, old_, new_);
        assert Portable(st, old_, new_) <==> MoveKeeps(st, old_, new_);
      }
    } else {
      NothingMoves(st, old_, new_);
    }
  }

  // ---------------------------------------------------------------- rename

  /** Extra image bytes of one renamed entry. */
  function Growth(old_: Path, new_: Path): Node -> nat
  {
    (n: Node) => if n.used && !n.isCont && Under(n.path, old_) && |new_| > |old_| then |new_| - |old_| else 0
  }

  /** Some path below old_ would not fit under new_. */
  ghost predicate TooLong(st: Store, old_: Path, new_: Path)
  {
    exists p :: p in st && Under(p, old_) && |new_| + |p| - |old_| >= PATH_MAX
  }

  /** The answers of rename and copy that do not depend on space. */
  ghost function MoveRefusal(st: Store, ird: Initrd, old_: Path, new_: Path): int
  {
    if !Found(st, old_) then (if ird.IsFile(old_) || ird.IsDir(old_) then ERR_PROTECTED else ERR_NOTFOUND)
    else if Found(st, new_) || ird.IsFile(new_) || ird.IsDir(new_) then ERR_EXISTS
    else if !ParentDir(st, ird, new_) then ERR_NOTDIR
    else if StrictlyUnder(new_, old_) || TooLong(st, old_, new_) then ERR_INVAL
    else OV_OK
  }

  lemma RefusalSign(st: Store, ird: Initrd, old_: Path, new_: Path)
    ensures MoveRefusal(st, ird, old_, new_) <= OV_OK
  {
  }

  /** The checks that rename and copy share, up to the scan of the subtree. */
  method CheckMove(o: Overlay, oldp: Path, newp: Path) returns (rc: int)
    requires o.Sound()
    ensures rc == var st := o.Store();
      if Normalize(oldp) !in st then (if o.ird.IsFile(oldp) || o.ird.IsDir(oldp) then ERR_PROTECTED else ERR_NOTFOUND)
      else if Normalize(newp) in st || o.ird.IsFile(newp) || o.ird.IsDir(newp) then ERR_EXISTS
      else if !ParentDir(st, o.ird, newp) then ERR_NOTDIR
      else if oldp + [47] <= newp then ERR_INVAL else OV_OK
    ensures rc != OV_OK ==> rc == MoveRefusal(o.Store(), o.ird, oldp, newp)
    ensures rc == OV_OK ==>
      MoveRefusal(o.Store(), o.ird, oldp, newp) == if TooLong(o.Store(), oldp, newp) then ERR_INVAL else OV_OK
  {
    hide Sum, Rep, Normalize, TooLong, StoreOf, GoodItems;
    var found := Find(o, oldp);
    if found < 0 {
      if o.ird.IsFile(oldp) || o.ird.IsDir(oldp) { return ERR_PROTECTED; }
      return ERR_NOTFOUND;
    }
    var taken := Find(o, newp);
    if taken >= 0 { return ERR_EXISTS; }
    if o.ird.IsFile(newp) || o.ird.IsDir(newp) { return ERR_EXISTS; }
    var inDir := ParentIsDir(o, newp);
    if !inDir { return ERR_NOTDIR; }
    if Under(newp, oldp) && |newp| > |oldp| && newp[|oldp|] == SLASH { return ERR_INVAL; }
    return OV_OK;
  }

  /** What the shared checks establish about the layout of a possible move. */
  lemma MoveIsClean(st: Store, ird: Initrd, old_: Path, new_: Path)
    requires Tree(st, ird) && Trimmed(old_) && Trimmed(new_) && old_ != [] && new_ != [] && old_ != new_
    requires NoNul(old_) && NoNul(new_) && MoveRefusal(st, ird, old_, new_) == OV_OK
    ensures Vacant(st, new_)
    ensures Canon(old_) && Canon(new_) ==> CanMove(st, ird, old_, new_)
  {
    if DotSlash(new_) {
      forall p | p in st ensures !Under(p, new_) {
      }
    } else {
      NormalizeCanon(new_);
      CanonLookups(st, ird, new_);
      FreeIsVacant(st, ird, new_);
      if Canon(old_) { NormalizeCanon(old_); }
    }
  }

  /** `overlay_rename`: on success exactly the paths under the old name move, in the whole pool. A refusal changes
      nothing. */
  method Rename(o: Overlay, oldpath: Path, newpath: Path) returns (rc: int)
    requires o.Sound() && NoNul(oldpath) && NoNul(newpath)
    modifies o`lay, o.pool
    ensures rc == var oldp, newp := Normalize(oldpath), Normalize(newpath);
      var refusal := MoveRefusal(old(o.Store()), o.ird, oldp, newp);
      if oldp == [] || newp == [] then ERR_INVAL
      else if oldp == newp then OV_OK
      else if refusal != OV_OK then refusal
      else if o.Hdr() + old(Sum(o.pool[..], HeadBytes) + Sum(o.pool[..], Growth(oldp, newp))) > o.Capacity()
      then ERR_NOSPACE else OV_OK
    ensures o.Sound() && rc <= OV_OK
    ensures rc != OV_OK || Normalize(oldpath) == Normalize(newpath) ==>
      o.lay == old(o.lay) && o.pool[..] == old(o.pool[..])
    ensures rc == OV_OK && Normalize(oldpath) != Normalize(newpath) ==> o.Fitting()
    ensures Sum(o.pool[..], FreeBit) == old(Sum(o.pool[..], FreeBit))
    ensures Sum(o.pool[..], HeadBytes)
         <= old(Sum(o.pool[..], HeadBytes)) + old(Sum(o.pool[..], Growth(Normalize(oldpath), Normalize(newpath))))
    ensures rc == OV_OK ==> o.lay.items == MoveItems(old(o.lay.items), Normalize(oldpath), Normalize(newpath))
    ensures rc == OV_OK ==> o.lay.items.Keys == old(o.lay.items).Keys && forall h :: h in o.lay.items ==>
      var was, now, oldp := old(o.lay.items)[h], o.lay.items[h], Normalize(oldpath);
      && now.body == was.body
      && now.path == if was.path == oldp || oldp + [47] <= was.path then Normalize(newpath) + was.path[|oldp|..]
         else was.path
    ensures rc == OV_OK && |Normalize(oldpath)| <= |Normalize(newpath)| ==>
      Sum(o.pool[..], HeadBytes)
      == old(Sum(o.pool[..], HeadBytes)) + old(Sum(o.pool[..], Growth(Normalize(oldpath), Normalize(newpath))))
    ensures |Normalize(newpath)| <= |Normalize(oldpath)| ==>
      old(Sum(o.pool[..], Growth(Normalize(oldpath), Normalize(newpath)))) == 0
    ensures rc == OV_OK && old(Unique(o.lay.items)) ==>
      (Unique(o.lay.items) <==> Clear(old(o.Store()), Normalize(oldpath), Normalize(newpath)))
    ensures rc == OV_OK && old(Unique(o.lay.items)) && Unique(o.lay.items) ==>
      o.Store() == MoveStore(old(o.Store()), Normalize(oldpath), Normalize(newpath))
    ensures rc == OV_OK && old(o.Valid()) ==>
      (o.Valid() <==>
        || Normalize(oldpath) == Normalize(newpath)
        || MoveKeeps(old(o.Store()), Normalize(oldpath), Normalize(newpath)))
  {
    hide Sum, Rep, Normalize, MoveRefusal, TooLong, Growth, HeadBytes, MoveStore, MoveItems, MoveKeeps, StoreOf,
         GoodItems, Unique, Proper, Clear;
    var oldp, newp := Normalize(oldpath), Normalize(newpath);
    NormalizeTrims(oldpath);
    NormalizeTrims(newpath);
    NoGrowth(o.pool[..], oldp, newp);
    if oldp == [] || newp == [] { return ERR_INVAL; }
    ghost var items := o.lay.items;
    if oldp == newp {
      MovedNowhere(items, oldp);
      MovedItemsAre(items, oldp, newp);
      if Unique(items) { MovedUnique(items, oldp, newp); }
      return OV_OK;
    }
    rc := CheckMove(o, oldp, newp);
    RefusalSign(o.Store(), o.ird, oldp, newp);
    if rc != OV_OK { return rc; }
    var grow := ScanGrowth(o, oldp, newp);
    if grow < 0 { return ERR_INVAL; }
    var bytes := SnapshotBytes(o);
    if bytes + grow > o.Capacity() { return ERR_NOSPACE; }
    RewritePaths(o, oldp, newp);
    MovedItemsAre(items, oldp, newp);
    if Unique(items) { MovedUnique(items, oldp, newp); }
    RenamedProper(items, o.ird, o.FileMax(), oldp, newp);
    return OV_OK;
  }

  lemma NoGrowth(pool: seq<Node>, oldp: Path, newp: Path)
    ensures |newp| <= |oldp| ==> Sum(pool, Growth(oldp, newp)) == 0
  {
    hide Sum;
    if |newp| <= |oldp| { SumZero(pool, Growth(oldp, newp)); }
  }

  lemma MovedItemsAre(items: Items, oldp: Path, newp: Path)
    ensures var moved := MoveItems(items, oldp, newp);
      moved.Keys == items.Keys && forall h :: h in moved ==>
        var p := items[h].path;
        && moved[h].body == items[h].body
        && moved[h].path == if p == oldp || oldp + [47] <= p then newp + p[|oldp|..] else p
  {
    forall h | h in items
      ensures Under(items[h].path, oldp) <==> items[h].path == oldp || oldp + [47] <= items[h].path
    {
      BelowIs(items[h].path, oldp);
    }
  }

  lemma BelowIs(p: Path, d: Path)
    ensures Under(p, d) <==> p == d || d + [47] <= p
  {
    assert |p| > |d| && d <= p ==> p[..|d| + 1] == d + [p[|d|]];
  }

  lemma MovedNowhere(items: Items, p: Path)
    ensures MoveItems(items, p, p) == items
  {
    forall h | h in items ensures MoveKey(items[h].path, p, p) == items[h].path {
      if Under(items[h].path, p) { assert items[h].path == p + items[h].path[|p|..]; }
    }
  }

  lemma RenamedProper(items: Items, ird: Initrd, limit: nat, old_: Path, new_: Path)
    requires Trimmed(old_) && Trimmed(new_) && old_ != [] && new_ != [] && old_ != new_
    requires NoNul(old_) && NoNul(new_) && MoveRefusal(StoreOf(items), ird, old_, new_) == OV_OK
    ensures Proper(items, ird, limit) ==>
      (Proper(MoveItems(items, old_, new_), ird, limit) <==> MoveKeeps(StoreOf(items), old_, new_))
  {
    hide MoveStore, MoveRefusal, Normalize, StoreOf, Unique, Full, Flat, Tree, MoveKeeps;
    if Proper(items, ird, limit) {
      MovedUnique(items, old_, new_);
      RenamedTree(StoreOf(items), ird, old_, new_);
      VacantIsClear(StoreOf(items), old_, new_);
    }
  }

  /** The first scan: the growth, or -1 as soon as one path would not fit. */
  method ScanGrowth(o: Overlay, oldp: Path, newp: Path) returns (grow: int)
    requires o.Sound() && oldp != []
    ensures grow < 0 <==> TooLong(o.Store(), oldp, newp)
    ensures grow < 0 <==> exists p :: p in o.Store() && Under(p, oldp) && |newp| + |p| - |oldp| >= 80
    ensures grow >= 0 ==> grow == Sum(o.pool[..], Growth(oldp, newp))
  {
    hide Sum, Rep, HeadBytes, EntryBytes, StoreOf, GoodItems;
    ghost var pl := o.pool[..];
    grow := 0;
    SumEmpty(pl, Growth(oldp, newp));
    for i := 0 to MAX_NODES
      invariant grow >= 0 && grow == Sum(pl[..i], Growth(oldp, newp))
      invariant forall j :: 0 <= j < i && pl[j].used && !pl[j].isCont && Under(pl[j].path, oldp) ==>
        |newp| + |pl[j].path| - |oldp| < PATH_MAX
    {
      SumSnoc(pl, i, Growth(oldp, newp));
      var n := o.pool[i];
      if n.used && !n.isCont && Under(n.path, oldp) {
        var rest := |n.path| - |oldp|;
        if |newp| + rest >= PATH_MAX {
          HeadIsItem(pl, o.lay, i);
          Seen(o.lay.items, i);
          return -1;
        }
        if |newp| > |oldp| { grow := grow + |newp| - |oldp|; }
      }
    }
    assert pl[..MAX_NODES] == pl;
    forall p | p in o.Store() && Under(p, oldp) ensures |newp| + |p| - |oldp| < PATH_MAX {
      var h := Behind(o.lay.items, p);
      HeadOf(pl, o.lay, h);
    }
  }

  /** The second scan: every path under the old name is rewritten in place. */
  method RewritePaths(o: Overlay, oldp: Path, newp: Path)
    requires o.Sound() && oldp != [] && newp != [] && NoNul(newp) && |newp| < PATH_MAX &&
      !TooLong(o.Store(), oldp, newp)
    requires o.Hdr() + Sum(o.pool[..], HeadBytes) + Sum(o.pool[..], Growth(oldp, newp)) <= o.Capacity()
    modifies o`lay, o.pool
    ensures o.Sound() && o.Fitting() && o.lay.items == MoveItems(old(o.lay.items), oldp, newp)
    ensures Sum(o.pool[..], FreeBit) == old(Sum(o.pool[..], FreeBit))
    ensures Sum(o.pool[..], HeadBytes) <= old(Sum(o.pool[..], HeadBytes)) + old(Sum(o.pool[..], Growth(oldp, newp)))
    ensures |oldp| <= |newp| ==>
      Sum(o.pool[..], HeadBytes) == old(Sum(o.pool[..], HeadBytes)) + old(Sum(o.pool[..], Growth(oldp, newp)))
  {
    hide Sum, Rep, HeadBytes, Growth, MoveItems, GoodItems, StoreOf, TooLong;
    ghost var was, lay := o.pool[..], o.lay;
    SumEmpty(was, Growth(oldp, newp));
    for i := 0 to MAX_NODES
      invariant forall j :: 0 <= j < MAX_NODES ==> o.pool[j] == if j < i then MoveNode(was[j], oldp, newp) else was[j]
      invariant Sum(o.pool[..], HeadBytes) <= Sum(was, HeadBytes) + Sum(was[..i], Growth(oldp, newp))
      invariant |oldp| <= |newp| ==>
        Sum(o.pool[..], HeadBytes) == Sum(was, HeadBytes) + Sum(was[..i], Growth(oldp, newp))
      invariant Sum(o.pool[..], FreeBit) == Sum(was, FreeBit)
    {
      SumSnoc(was, i, Growth(oldp, newp));
      SumUpdate(o.pool[..], i, MoveNode(o.pool[i], oldp, newp), FreeBit);
      GrowthBounds(was, lay, i, oldp, newp);
      SumUpdate(o.pool[..], i, MoveNode(o.pool[i], oldp, newp), HeadBytes);
      ghost var before := o.pool[..];
      if o.pool[i].used && Under(o.pool[i].path, oldp) {
        o.pool[i] := o.pool[i].(path := Moved(o.pool[i].path, oldp, newp));
      }
      assert o.pool[..] == before[i := MoveNode(was[i], oldp, newp)];
    }
    assert was[..MAX_NODES] == was;
    assert MovedPool(was, o.pool[..], oldp, newp);
    MovedRep(was, o.pool[..], lay, oldp, newp);
    MovedGood(lay.items, oldp, newp);
    o.lay := MoveLayout(lay, oldp, newp);
  }

  lemma MovedGood(items: Items, old_: Path, new_: Path)
    requires GoodItems(items) && new_ != [] && NoNul(new_) && |new_| < PATH_MAX && !TooLong(StoreOf(items), old_, new_)
    ensures GoodItems(MoveItems(items, old_, new_))
  {
    hide StoreOf, Flat;
    forall h | h in items ensures GoodItem(MoveItems(items, old_, new_)[h]) {
      Seen(items, h);
      var p := items[h].path;
      if Under(p, old_) { ConcatNoNul(new_, p[|old_|..]); }
    }
  }

  lemma GrowthBounds(was: seq<Node>, lay: Layout, i: nat, oldp: Path, newp: Path)
    requires Rep(was, lay) && i < |was| && oldp != []
    ensures HeadBytes(MoveNode(was[i], oldp, newp)) <= HeadBytes(was[i]) + Growth(oldp, newp)(was[i])
    ensures |oldp| <= |newp| ==>
      HeadBytes(MoveNode(was[i], oldp, newp)) == HeadBytes(was[i]) + Growth(oldp, newp)(was[i])
  {
    if was[i].used && Under(was[i].path, oldp) { UsedPath(was, lay, i); }
  }
}
