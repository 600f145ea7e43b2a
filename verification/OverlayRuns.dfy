/** Runs of overlay operations: what every run keeps, and runs that show where the store loses its order. */
module OverlayRuns {
  import opened Words
  import opened OverlayPaths
  import opened OverlayState
  import opened OverlayOps
  import opened OverlayTree
  import opened OverlayCopy
  import Snap = OverlaySnapshot

  /** A call that may change the store. */
  datatype Op =
    | OpMkdir(path: Path)
    | OpWrite(path: Path, data: seq<U8>)
    | OpAppend(path: Path, data: seq<U8>)
    | OpUnlink(path: Path)
    | OpRename(path: Path, to: Path)
    | OpCopy(path: Path, to: Path)
    | OpSetExt(lba: U32)
    | OpRestore(image: seq<U8>)

  /** Paths are C strings, and sizes do not wrap. */
  predicate Callable(op: Op)
  {
    match op
    case OpMkdir(p) => NoNul(p)
    case OpWrite(p, d) => NoNul(p) && |d| < BASE
    case OpAppend(p, d) => NoNul(p) && |d| + FILE_MAX_EXT_BYTES < BASE
    case OpUnlink(p) => NoNul(p)
    case OpRename(p, q) => NoNul(p) && NoNul(q)
    case OpCopy(p, q) => NoNul(p) && NoNul(q)
    case OpSetExt(_) => true
    case OpRestore(_) => true
  }

  /** What a state holds: the items, the slots in use, the bytes of the items in the image, and the extension area. */
  datatype Brief = Brief(items: Items, used: seq<bool>, bytes: nat, ext: U32)

  ghost function BriefOf(o: Overlay): Brief
    reads o, o.pool
  {
    Brief(o.lay.items, UsedBits(o.pool[..]), Sum(o.pool[..], HeadBytes), o.extLba)
  }

  /** The items fit in the disk image. */
  predicate Fitted(b: Brief) { HdrOf(b.ext) + b.bytes <= CapOf(b.ext) }

  /** A store in order that fits on disk. */
  ghost predicate Orderly(b: Brief, ird: Initrd) { Fitted(b) && Proper(b.items, ird, LimitOf(b.ext)) }

  lemma OrderlyIsValid(o: Overlay)
    requires o.Sound()
    ensures o.Valid() <==> Orderly(BriefOf(o), o.ird)
    ensures o.Fitting() <==> Fitted(BriefOf(o))
  {
    hide Sum, Rep, Proper, GoodItems;
  }

  /** The calls that leave a store in order as it should be, if they do anything. */
  ghost predicate Harmless(b: Brief, op: Op)
  {
    match op
    case OpMkdir(p) => !DotSlash(Normalize(p))
    case OpWrite(p, _) => !DotSlash(Normalize(p))
    case OpAppend(p, _) => !DotSlash(Normalize(p))
    case OpUnlink(_) => true
    case OpRename(p, q) => Normalize(p) == Normalize(q) || MoveKeeps(StoreOf(b.items), Normalize(p), Normalize(q))
    case OpCopy(p, q) => MoveKeeps(StoreOf(b.items), Normalize(p), Normalize(q))
    case OpSetExt(lba) => FitsLayout(b.bytes, b.items, lba)
    case OpRestore(_) => false
  }

  /** The calls that keep the items within the disk image, whatever state they meet. */
  ghost predicate Roomy(b: Brief, op: Op)
  {
    match op
    case OpCopy(p, q) =>
      Undisturbed(b.items, Normalize(p), Normalize(q)) && AllReadBack(b.items, Normalize(p), LimitOf(b.ext))
    case OpSetExt(lba) => HdrOf(lba) + b.bytes <= CapOf(lba)
    case OpRestore(_) => false
    case _ => true
  }

  /** Why a call is refused, whatever room there is; OV_OK if it is not. */
  ghost function Refusal(b: Brief, op: Op, ird: Initrd): int
  {
    var st, want := StoreOf(b.items), if op.OpSetExt? || op.OpRestore? then [] else Normalize(op.path);
    match op
    case OpMkdir(_) =>
      if want == [] || Found(st, want) || ird.IsFile(want) then ERR_EXISTS
      else if !ParentDir(st, ird, want) then ERR_NOTDIR else OV_OK
    case OpWrite(_, d) =>
      if want == [] then ERR_INVAL
      else if |d| > LimitOf(b.ext) then ERR_NOSPACE
      else if (Found(st, want) && st[Normalize(want)].Dir?) || ird.IsDir(want) then ERR_ISDIR
      else if !Found(st, want) && !ParentDir(st, ird, want) then ERR_NOTDIR else OV_OK
    case OpAppend(_, d) =>
      if want == [] then ERR_INVAL
      else if (Found(st, want) && st[Normalize(want)].Dir?) || ird.IsDir(want) then ERR_ISDIR
      else if !Found(st, want) && !ird.IsFile(want) && !ParentDir(st, ird, want) then ERR_NOTDIR else OV_OK
    case OpUnlink(_) =>
      if want == [] then ERR_INVAL
      else if !Found(st, want) then (if ird.IsFile(want) || ird.IsDir(want) then ERR_PROTECTED else ERR_NOTFOUND)
      else if st[Normalize(want)].Dir? && exists q :: q in st && StrictlyUnder(q, Normalize(want)) then ERR_NOTEMPTY
      else OV_OK
    case OpRename(_, to) =>
      if want == [] || Normalize(to) == [] then ERR_INVAL
      else if want == Normalize(to) then OV_OK else MoveRefusal(st, ird, want, Normalize(to))
    case OpCopy(_, to) =>
      if want == [] || Normalize(to) == [] then ERR_INVAL
      else if want == Normalize(to) then ERR_EXISTS else MoveRefusal(st, ird, want, Normalize(to))
    case OpSetExt(lba) => if lba != 0 && lba < EXT_MIN_LBA then -1 else OV_OK
    case OpRestore(_) => OV_OK
  }

  /** What an accepted call does to the items; a new one stands at `at`. */
  ghost predicate Done(b: Brief, op: Op, at: nat, b': Brief, ird: Initrd)
  {
    match op
    case OpMkdir(p) => at !in b.items && b'.items == b.items[at := Item(Normalize(p), DirBody)] && b'.ext == b.ext
    case OpWrite(p, d) => b'.items == StoredItems(b.items, Normalize(p), d, at) && b'.ext == b.ext
    case OpAppend(p, d) =>
      var base := AppendBase(StoreOf(b.items), ird, Normalize(p), LimitOf(b.ext));
      b'.items == StoredItems(b.items, Normalize(p), base + d, at) && b'.ext == b.ext
    case OpUnlink(p) => b'.items == b.items - Gone(b.items, Normalize(p)) && b'.ext == b.ext
    case OpRename(p, q) => b'.items == MoveItems(b.items, Normalize(p), Normalize(q)) && b'.ext == b.ext
    case OpCopy(p, q) =>
      var g := WholeCopy(b.items, b.used, Normalize(p), Normalize(q), LimitOf(b.ext));
      g.ok && b'.items == g.items && b'.used == g.used && b'.ext == b.ext
    case OpSetExt(lba) => b' == b.(ext := lba)
    case OpRestore(_) => true
  }

  /** A copy that has given up on the way leaves what it has copied till then. */
  ghost predicate HalfDone(b: Brief, op: Op, b': Brief)
  {
    && op.OpCopy? && b'.ext == b.ext
    && WholeCopy(b.items, b.used, Normalize(op.path), Normalize(op.to), LimitOf(b.ext))
       == Stage(b'.items, b'.used, false)
  }

  /** A call that must be refused is, with its own code and nothing changed; any other is carried out or, if it takes
      room, may find too little. */
  ghost predicate Answered(b: Brief, op: Op, rc: int, at: nat, b': Brief, ird: Initrd)
  {
    && (Refusal(b, op, ird) != OV_OK ==> rc == Refusal(b, op, ird) && b' == b)
    && (Refusal(b, op, ird) == OV_OK && rc < 0 && !op.OpRestore? ==>
        rc == ERR_NOSPACE && !op.OpUnlink? && !op.OpSetExt? && (b' == b || HalfDone(b, op, b')))
    && (rc >= 0 ==> Done(b, op, at, b', ird))
  }

  /** What one call with result rc does to the items, to the order of a store and to its fit. */
  ghost predicate Lawful(b: Brief, op: Op, rc: int, b': Brief, ird: Initrd)
  {
    && (exists at :: Answered(b, op, rc, at, b', ird))
    && (rc < 0 && !op.OpCopy? ==> b' == b)
    && (Orderly(b, ird) && !op.OpRestore? ==> (Orderly(b', ird) <==> rc < 0 || Harmless(b, op)))
    && (Fitted(b) && (rc < 0 || Roomy(b, op)) && !op.OpCopy? ==> Fitted(b'))
    && (Fitted(b) && Roomy(b, op) ==> Fitted(b'))
  }

  /** A call that stores something. */
  method StepStore(o: Overlay, op: Op) returns (rc: int)
    requires o.Sound() && Callable(op) && (op.OpMkdir? || op.OpWrite? || op.OpAppend?)
    modifies o`lay, o.pool, o.tmp
    ensures o.Sound() && Lawful(old(BriefOf(o)), op, rc, BriefOf(o), o.ird)
  {
    hide Sum, Rep, GoodItems, Proper, StoreOf, Unique, Normalize, MoveKeeps, FitsLayout, Undisturbed, AllReadBack,
         Orderly, MoveRefusal, WholeCopy, UsedBits, Grown, MoveItems, StoredItems, Gone, AppendBase, StrictlyUnder,
         ParentDir;
    ghost var at, base;
    OrderlyIsValid(o);
    match op {
      case OpMkdir(p) => rc, at := Mkdir(o, p);
      case OpWrite(p, d) => rc, at := Write(o, p, d);
      case OpAppend(p, d) =>
        BaseIs(o.Store(), o.ird, Normalize(p), o.FileMax());
        rc, at, base := Append(o, p, d);
    }
    OrderlyIsValid(o);
    assert Answered(old(BriefOf(o)), op, rc, at, BriefOf(o), o.ird);
  }

  /** A call on a path that is there. */
  method StepTree(o: Overlay, op: Op) returns (rc: int)
    requires o.Sound() && Callable(op) && (op.OpUnlink? || op.OpRename?)
    modifies o`lay, o.pool
    ensures o.Sound() && Lawful(old(BriefOf(o)), op, rc, BriefOf(o), o.ird)
  {
    hide Sum, Rep, GoodItems, Proper, StoreOf, Unique, Normalize, MoveKeeps, FitsLayout, Orderly, MoveRefusal,
         MoveItems, StrictlyUnder, Found, ParentDir;
    OrderlyIsValid(o);
    if op.OpUnlink? { rc := Unlink(o, op.path); } else { rc := Rename(o, op.path, op.to); }
    OrderlyIsValid(o);
    assert Answered(old(BriefOf(o)), op, rc, 0, BriefOf(o), o.ird);
  }

  method StepCopy(o: Overlay, op: Op) returns (rc: int)
    requires o.Sound() && Callable(op) && op.OpCopy?
    modifies o`lay, o.pool, o.tmp
    ensures o.Sound() && Lawful(old(BriefOf(o)), op, rc, BriefOf(o), o.ird)
  {
    hide Sum, Rep, GoodItems, Proper, StoreOf, Unique, Normalize, MoveKeeps, FitsLayout, Undisturbed, AllReadBack,
         Orderly, MoveRefusal, WholeCopy, UsedBits, Grown, StrictlyUnder, Found, ParentDir, StagePass, Tally, CopyReads,
         Imaged, DirsCopied, Sources, AllBytes, NoneTaken, CopyStore;
    ghost var img;
    OrderlyIsValid(o);
    rc, img := CopyTree(o, op.path, op.to);
    OrderlyIsValid(o);
    assert Answered(old(BriefOf(o)), op, rc, 0, BriefOf(o), o.ird);
  }

  /** One call. */
  method Step(o: Overlay, op: Op) returns (rc: int)
    requires o.Sound() && Callable(op)
    modifies o`lay, o`extLba, o.pool, o.tmp
    ensures o.Sound() && Lawful(old(BriefOf(o)), op, rc, BriefOf(o), o.ird)
  {
    hide Sum, Rep, GoodItems, Proper, StoreOf, FitsLayout, Orderly;
    if op.OpSetExt? || op.OpRestore? {
      OrderlyIsValid(o);
      if op.OpSetExt? { rc := SetExt(o, op.lba); } else { rc := Load(o, op.image); }
      OrderlyIsValid(o);
      assert Answered(old(BriefOf(o)), op, rc, 0, BriefOf(o), o.ird);
    } else if op.OpMkdir? || op.OpWrite? || op.OpAppend? {
      rc := StepStore(o, op);
    } else if op.OpCopy? {
      rc := StepCopy(o, op);
    } else {
      rc := StepTree(o, op);
    }
  }

  method Load(o: Overlay, image: seq<U8>) returns (rc: int)
    requires o.Sound()
    modifies o`lay, o`extLba, o.pool
    ensures o.Sound() && (rc < 0 ==> o.lay == old(o.lay) && o.pool[..] == old(o.pool[..]) && o.extLba == old(o.extLba))
  {
    var buf := new U8[|image|](i requires 0 <= i < |image| => image[i]);
    var legacy;
    ghost var items;
    rc, legacy, items := Snap.Restore(o, buf, |image|);
  }

  /** A run of calls as seen from outside. */
  ghost predicate History(trace: seq<Brief>, ops: seq<Op>, codes: seq<int>, ird: Initrd)
  {
    && |trace| == |ops| + 1 && |codes| == |ops|
    && forall k :: 0 <= k < |ops| ==> Lawful(trace[k], ops[k], codes[k], trace[k + 1], ird)
  }

  lemma NoHistory(b: Brief, ird: Initrd)
    ensures History([b], [], [], ird)
  {
  }

  lemma HistoryGoesOn(trace: seq<Brief>, ops: seq<Op>, codes: seq<int>, ird: Initrd, op: Op, rc: int, b: Brief)
    requires History(trace, ops, codes, ird) && Lawful(trace[|ops|], op, rc, b, ird)
    ensures History(trace + [b], ops + [op], codes + [rc], ird)
  {
    hide Lawful;
    var t, os, cs := trace + [b], ops + [op], codes + [rc];
    forall k | 0 <= k < |os| ensures Lawful(t[k], os[k], cs[k], t[k + 1], ird) {
      if k < |ops| { assert Lawful(trace[k], ops[k], codes[k], trace[k + 1], ird); }
    }
  }

  /** Any sequence of calls, on any arguments and any images, from any sound state: after each of them the pool holds
      its items, each in its own chain, with no node leaked or shared, and they are the items the call should leave. */
  method Run(o: Overlay, ops: seq<Op>) returns (codes: seq<int>, ghost trace: seq<Brief>)
    requires o.Sound() && forall k :: 0 <= k < |ops| ==> Callable(ops[k])
    modifies o`lay, o`extLba, o.pool, o.tmp
    ensures o.Sound() && History(trace, ops, codes, o.ird) && |trace| == |ops| + 1
    ensures trace[0] == old(BriefOf(o)) && trace[|ops|] == BriefOf(o)
  {
    hide Lawful, BriefOf, History;
    codes, trace := [], [BriefOf(o)];
    NoHistory(trace[0], o.ird);
    assert ops[..0] == [];
    for i := 0 to |ops|
      invariant o.Sound() && History(trace, ops[..i], codes, o.ird)
      invariant |trace| == i + 1 && trace[0] == old(BriefOf(o)) && trace[i] == BriefOf(o)
    {
      var rc := Step(o, ops[i]);
      HistoryGoesOn(trace, ops[..i], codes, o.ird, ops[i], rc, BriefOf(o));
      codes, trace := codes + [rc], trace + [BriefOf(o)];
      assert ops[..i + 1] == ops[..i] + [ops[i]];
    }
    assert ops[..|ops|] == ops;
  }

  /** A store in order stays in order through a run, and fits on disk, if every call that did anything was harmless
      where it was made. */
  lemma {:induction false} StaysOrderly(trace: seq<Brief>, ops: seq<Op>, codes: seq<int>, ird: Initrd, n: nat)
    requires History(trace, ops, codes, ird) && n <= |ops| && Orderly(trace[0], ird)
    requires forall k :: 0 <= k < n ==>
      if ops[k].OpRestore? then codes[k] < 0 else codes[k] < 0 || Harmless(trace[k], ops[k])
    ensures Orderly(trace[n], ird)
  {
    hide Orderly, Harmless, Answered;
    if n > 0 {
      StaysOrderly(trace, ops, codes, ird, n - 1);
      assert Lawful(trace[n - 1], ops[n - 1], codes[n - 1], trace[n], ird);
    }
  }

  /** Conversely, where order is lost a harmful call was made or an image loaded. */
  lemma {:induction false} LostOrder(trace: seq<Brief>, ops: seq<Op>, codes: seq<int>, ird: Initrd, n: nat)
    returns (k: nat)
    requires History(trace, ops, codes, ird) && n <= |ops| && Orderly(trace[0], ird) && !Orderly(trace[n], ird)
    ensures k < n && codes[k] >= 0 && Orderly(trace[k], ird) && !Harmless(trace[k], ops[k]) &&
      !Orderly(trace[k + 1], ird)
  {
    hide Orderly, Harmless, Answered;
    assert Lawful(trace[n - 1], ops[n - 1], codes[n - 1], trace[n], ird);
    if Orderly(trace[n - 1], ird) {
      k := n - 1;
      if ops[k].OpRestore? { NeverHarmless(trace[k], ops[k]); }
    } else {
      k := LostOrder(trace, ops, codes, ird, n - 1);
    }
  }

  lemma NeverHarmless(b: Brief, op: Op)
    ensures op.OpRestore? ==> !Harmless(b, op)
  {
  }

  /** What fits on disk goes on fitting, with unique paths or without, in a tree or not, through every run of mkdir,
      write, append, unlink, rename and of copies that read their files back. */
  lemma {:induction false} StaysFitted(trace: seq<Brief>, ops: seq<Op>, codes: seq<int>, ird: Initrd, n: nat)
    requires History(trace, ops, codes, ird) && n <= |ops| && Fitted(trace[0])
    requires forall k :: 0 <= k < n ==> Roomy(trace[k], ops[k])
    ensures Fitted(trace[n])
  {
    hide Orderly, Harmless, Roomy, Fitted, Answered;
    if n > 0 {
      StaysFitted(trace, ops, codes, ird, n - 1);
      assert Lawful(trace[n - 1], ops[n - 1], codes[n - 1], trace[n], ird);
    }
  }
}
