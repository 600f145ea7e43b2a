/** Paths of the overlay store: normalisation, parents and subtrees (fs/overlay.c:78-109, 435-440). */
module OverlayPaths {
  import opened Words

  const SLASH: U8 := 47
  const DOT: U8 := 46
  const PATH_MAX: nat := 80

  type Path = seq<U8>

  function StripLeading(s: Path): Path
  {
    if s != [] && s[0] == SLASH then StripLeading(s[1..]) else s
  }

  function StripTrailing(s: Path): Path
  {
    if s != [] && s[|s| - 1] == SLASH then StripTrailing(s[..|s| - 1]) else s
  }

  predicate DotSlash(s: Path) { |s| >= 2 && s[0] == DOT && s[1] == SLASH }

  function Truncate(s: Path): Path { if |s| > PATH_MAX - 1 then s[..PATH_MAX - 1] else s }

  /** `ov_normalize`: one leading "./", then leading slashes, a cut at 79 bytes, then trailing slashes. */
  function Normalize(s: Path): Path
  {
    StripTrailing(Truncate(StripLeading(if DotSlash(s) then s[2..] else s)))
  }

  function LastSlash(s: Path): (r: int)
    ensures -1 <= r < |s|
  {
    if s == [] then -1 else if s[|s| - 1] == SLASH then |s| - 1 else LastSlash(s[..|s| - 1])
  }

  /** `ov_parent`: everything before the last slash. */
  function Parent(s: Path): Path
  {
    if LastSlash(s) < 0 then [] else s[..LastSlash(s)]
  }

  /** `ov_under`: p is prefix itself or lies below it. */
  predicate Under(p: Path, prefix: Path) { prefix <= p && (|p| == |prefix| || p[|prefix|] == SLASH) }

  /** No slash at either end, short enough to be stored. */
  predicate Trimmed(s: Path) { |s| <= PATH_MAX - 1 && (s == [] || (s[0] != SLASH && s[|s| - 1] != SLASH)) }

  /** The paths on which normalisation does nothing. */
  predicate Canon(s: Path) { s != [] && Trimmed(s) && !DotSlash(s) && NoNul(s) }

  /** The directory a path lives in, as the store looks it up; empty at the root. */
  function Up(s: Path): Path { StripTrailing(Parent(s)) }

  // ---------------------------------------------------------------- normalisation

  lemma {:induction false} StripLeadingSpec(s: Path)
    ensures |StripLeading(s)| <= |s| && StripLeading(s) == s[|s| - |StripLeading(s)|..]
    ensures StripLeading(s) == [] || StripLeading(s)[0] != SLASH
    ensures forall i :: 0 <= i < |s| - |StripLeading(s)| ==> s[i] == SLASH
  {
    if s != [] && s[0] == SLASH {
      StripLeadingSpec(s[1..]);
      StripMore(s, StripLeading(s[1..]));
    }
  }

  lemma StripMore(s: Path, t: Path)
    requires s != [] && s[0] == SLASH && |t| < |s| && t == s[1..][|s| - 1 - |t|..]
    requires forall i :: 0 <= i < |s| - 1 - |t| ==> s[1..][i] == SLASH
    ensures t == s[|s| - |t|..] && forall i :: 0 <= i < |s| - |t| ==> s[i] == SLASH
  {
    forall i | 0 < i < |s| - |t| ensures s[i] == SLASH { assert s[1..][i - 1] == s[i]; }
  }

  lemma {:induction false} StripTrailingSpec(s: Path)
    ensures StripTrailing(s) <= s
    ensures StripTrailing(s) == [] || StripTrailing(s)[|StripTrailing(s)| - 1] != SLASH
    ensures forall i :: |StripTrailing(s)| <= i < |s| ==> s[i] == SLASH
  {
    if s != [] && s[|s| - 1] == SLASH { StripTrailingSpec(s[..|s| - 1]); }
  }

  /** A normalised path is empty or trimmed; it is never longer than 79 bytes. */
  lemma NormalizeTrims(s: Path)
    ensures Trimmed(Normalize(s)) && (NoNul(s) ==> NoNul(Normalize(s)))
  {
    var a := if DotSlash(s) then s[2..] else s;
    StripLeadingSpec(a);
    StripTrailingSpec(Truncate(StripLeading(a)));
  }

  /** What a normal form r is, byte by byte: a path is an optional "./", slashes, r, and, as far as the 79 bytes that
      are kept, slashes again; r neither begins nor ends with one. A path of fewer than 80 bytes is all of this. */
  lemma NormalForm(s: Path, r: Path) returns (dot: nat, a: nat)
    requires r == Normalize(s)
    ensures dot == if |s| >= 2 && s[0] == 46 && s[1] == 47 then 2 else 0
    ensures dot <= a && a + |r| <= |s| && s[a..a + |r|] == r && |r| < 80
    ensures forall i :: dot <= i < a ==> s[i] == 47
    ensures a == |s| || s[a] != 47
    ensures forall i :: a + |r| <= i < |s| && i < a + 79 ==> s[i] == 47
    ensures r == [] || r[|r| - 1] != 47
  {
    hide Normalize, StripLeading, StripTrailing, Truncate, DotSlash;
    dot := DotLength(s);
    var b := s[dot..];
    var t := StripLeading(b);
    NormalizeIs(s, dot);
    StripLeadingSpec(b);
    StripTrailingSpec(Truncate(t));
    a := |s| - |t|;
    SkippedSlashes(s, dot, t);
    KeptPart(s, a, t, r);
  }

  lemma DotLength(s: Path) returns (dot: nat)
    ensures dot == if |s| >= 2 && s[0] == 46 && s[1] == 47 then 2 else 0
    ensures dot <= |s| && dot == if DotSlash(s) then 2 else 0
  {
    dot := if DotSlash(s) then 2 else 0;
  }

  lemma NormalizeIs(s: Path, dot: nat)
    requires dot == (if DotSlash(s) then 2 else 0) && dot <= |s|
    ensures Normalize(s) == StripTrailing(Truncate(StripLeading(s[dot..])))
  {
    hide StripLeading, StripTrailing, Truncate;
    assert s[0..] == s;
  }

  lemma SkippedSlashes(s: Path, dot: nat, t: Path)
    requires dot <= |s| && |t| <= |s| - dot && t == s[dot..][|s| - dot - |t|..] && (t == [] || t[0] != 47)
    requires forall i :: 0 <= i < |s| - dot - |t| ==> s[dot..][i] == 47
    ensures var a := |s| - |t|; t == s[a..] && (forall i :: dot <= i < a ==> s[i] == 47) && (a == |s| || s[a] != 47)
  {
    forall i | dot <= i < |s| - |t| ensures s[i] == 47 { assert s[dot..][i - dot] == s[i]; }
  }

  lemma KeptPart(s: Path, a: nat, t: Path, r: Path)
    requires a <= |s| && t == s[a..] && r <= Truncate(t)
    requires forall i :: |r| <= i < |Truncate(t)| ==> Truncate(t)[i] == 47
    ensures a + |r| <= |s| && s[a..a + |r|] == r && |r| < 80
    ensures forall i :: a + |r| <= i < |s| && i < a + 79 ==> s[i] == 47
  {
    forall i | a + |r| <= i < |s| && i < a + 79 ensures s[i] == 47 { assert Truncate(t)[i - a] == t[i - a] == s[i]; }
  }

  /** There is no other path like that. */
  lemma NormalFormUnique(s: Path, dot: nat, a: nat, r: Path)
    requires dot == if |s| >= 2 && s[0] == 46 && s[1] == 47 then 2 else 0
    requires dot <= a && a + |r| <= |s| && s[a..a + |r|] == r && |r| < 80
    requires forall i :: dot <= i < a ==> s[i] == 47
    requires a == |s| || s[a] != 47
    requires forall i :: a + |r| <= i < |s| && i < a + 79 ==> s[i] == 47
    requires r == [] || r[|r| - 1] != 47
    ensures r == Normalize(s)
  {
    hide Normalize;
    var q := Normalize(s);
    var dot', b := NormalForm(s, q);
    assert a == b;
    assert s[a..][..|q|] == q && s[a..][..|r|] == r;
    SameLength(s[a..], q, r);
    SameLength(s[a..], r, q);
  }

  lemma SameLength(s: Path, q: Path, r: Path)
    requires q <= s && r <= s && |q| < 80 && (q == [] || q[|q| - 1] != 47)
    requires forall i :: |r| <= i < |s| && i < 79 ==> s[i] == 47
    ensures |q| <= |r|
  {
  }

  /** A leading slash does not matter, and a leading "./" is one. */
  lemma LeadingSlash(s: Path)
    ensures !(|s| >= 2 && s[0] == 46 && s[1] == 47) ==> Normalize([47] + s) == Normalize(s)
    ensures Normalize([46, 47] + s) == Normalize([47] + s)
  {
    assert ([47] + s)[1..] == s && ([46, 47] + s)[2..] == s;
    assert StripLeading([47] + s) == StripLeading(s);
  }

  lemma NormalizeCanon(s: Path)
    requires Trimmed(s) && !DotSlash(s)
    ensures Normalize(s) == s
  {
  }

  /** Normalisation leaves exactly the trimmed paths alone that do not begin with "./". */
  lemma NormalizeFixed(s: Path)
    ensures Normalize(s) == s <==> Trimmed(s) && !DotSlash(s)
    ensures s != [] && NoNul(s) ==> (Normalize(s) == s <==> Canon(s))
  {
    NormalizeTrims(s);
    if DotSlash(s) {
      StripLeadingSpec(s[2..]);
      StripTrailingSpec(Truncate(StripLeading(s[2..])));
    } else if Trimmed(s) {
      NormalizeCanon(s);
    }
  }

  /** Normalising twice changes a path exactly when its first normal form still begins with "./". */
  lemma NormalizeStable(s: Path)
    ensures Normalize(Normalize(s)) == Normalize(s) <==> !DotSlash(Normalize(s))
  {
    var t := Normalize(s);
    NormalizeTrims(s);
    if DotSlash(t) {
      StripLeadingSpec(t[2..]);
      StripTrailingSpec(Truncate(StripLeading(t[2..])));
    } else {
      NormalizeCanon(t);
    }
  }

  // ---------------------------------------------------------------- parents

  lemma {:induction false} LastSlashSpec(s: Path)
    ensures LastSlash(s) >= 0 ==> s[LastSlash(s)] == SLASH
    ensures forall i :: LastSlash(s) < i < |s| ==> s[i] != SLASH
  {
    if s != [] && s[|s| - 1] != SLASH { LastSlashSpec(s[..|s| - 1]); }
  }

  /** The parent of a canonical path is a shorter canonical prefix followed by a slash, or the root. */
  lemma UpSpec(s: Path)
    requires Canon(s)
    ensures Normalize(Parent(s)) == Up(s)
    ensures Up(s) == [] <==> LastSlash(s) < 0
    ensures Up(s) != [] ==> Canon(Up(s)) && |Up(s)| < |s| && Up(s) <= s && s[|Up(s)|] == SLASH
    ensures LastSlash(s) < 0 <==> forall i :: 0 <= i < |s| ==> s[i] != 47
    ensures Up(s) != [] ==>
      && (forall i :: |Up(s)| <= i <= LastSlash(s) ==> s[i] == 47)
      && (forall i :: LastSlash(s) < i < |s| ==> s[i] != 47)
  {
    LastSlashSpec(s);
    var p := Parent(s);
    StripTrailingSpec(p);
    if LastSlash(s) >= 0 {
      assert LastSlash(s) > 0 && p[0] == s[0];
      assert Up(s) != [];
      assert |p| >= 2 ==> p[1] == s[1];
      assert StripLeading(p) == p && Truncate(p) == p;
      assert |Up(s)| >= 2 ==> Up(s)[1] == s[1];
    }
  }

  /** Below a canonical directory, the parent is still inside it. */
  lemma UpUnder(s: Path, d: Path)
    requires Canon(s) && Canon(d) && Under(s, d) && s != d
    ensures Up(s) != [] && Under(Up(s), d)
  {
    LastSlashSpec(s);
    UpSpec(s);
    var p := Parent(s);
    StripTrailingSpec(p);
    assert s[|d|] == SLASH;
    assert LastSlash(s) >= |d| && p[|d| - 1] == d[|d| - 1] != SLASH;
    assert |Up(s)| >= |d|;
    assert d <= Up(s);
  }

  /** Below means above by way of parents: a path lies under a directory exactly when it is that directory or its parent
      lies under it. */
  lemma UnderByParents(s: Path, d: Path)
    requires Canon(s) && Canon(d)
    ensures Under(s, d) <==> s == d || (Up(s) != [] && Under(Up(s), d))
  {
    UpSpec(s);
    if Under(s, d) && s != d { UpUnder(s, d); }
  }

  // ---------------------------------------------------------------- moving subtrees

  /** A path below `old` with its prefix replaced by `new_`. */
  function Moved(p: Path, old_: Path, new_: Path): Path
    requires old_ <= p
  {
    new_ + p[|old_|..]
  }

  lemma {:induction false} LastSlashAppend(a: Path, x: Path)
    requires LastSlash(x) >= 0
    ensures LastSlash(a + x) == |a| + LastSlash(x)
  {
    if x[|x| - 1] != SLASH {
      LastSlashAppend(a, x[..|x| - 1]);
      assert (a + x)[..|a + x| - 1] == a + x[..|x| - 1];
    }
  }

  lemma {:induction false} StripAppend(a: Path, x: Path)
    requires a != [] && a[|a| - 1] != SLASH
    ensures StripTrailing(a + x) == a + StripTrailing(x)
  {
    if x == [] {
      assert a + x == a;
    } else if x[|x| - 1] == SLASH {
      StripAppend(a, x[..|x| - 1]);
      assert (a + x)[..|a + x| - 1] == a + x[..|x| - 1];
    }
  }

  /** The parent of prefix + rest, when rest starts with a slash. */
  lemma UpAppend(a: Path, rest: Path)
    requires a != [] && a[|a| - 1] != SLASH && rest != [] && rest[0] == SLASH
    ensures LastSlash(rest) >= 0 && Up(a + rest) == a + StripTrailing(rest[..LastSlash(rest)])
  {
    LastSlashSpec(rest);
    LastSlashAppend(a, rest);
    var k := LastSlash(rest);
    assert (a + rest)[..|a| + k] == a + rest[..k];
    StripAppend(a, rest[..k]);
  }

  /** Strictly below the root of a moved subtree, parents move along. */
  lemma MovedUp(p: Path, old_: Path, new_: Path)
    requires Canon(p) && Canon(old_) && Canon(new_) && Under(p, old_) && p != old_
    ensures old_ <= Up(p) && Up(Moved(p, old_, new_)) == Moved(Up(p), old_, new_)
  {
    UpUnder(p, old_);
    var rest := p[|old_|..];
    assert p == old_ + rest;
    UpAppend(old_, rest);
    UpAppend(new_, rest);
  }

  lemma ConcatNoNul(a: Path, b: Path)
    requires NoNul(a) && NoNul(b)
    ensures NoNul(a + b)
  {
  }

  /** A moved path that still fits lies below the new prefix and determines where it came from; it is canonical
      unless the new prefix is "." and something lies below it, for then it begins with "./" and no lookup finds it. */
  lemma MovedCanon(p: Path, old_: Path, new_: Path)
    requires Canon(p) && Canon(old_) && Canon(new_) && Under(p, old_)
    requires |new_| + |p| - |old_| <= PATH_MAX - 1
    ensures Under(Moved(p, old_, new_), new_) && Moved(Moved(p, old_, new_), new_, old_) == p
    ensures Canon(Moved(p, old_, new_)) <==> new_ != [DOT] || p == old_
    ensures Normalize(Moved(p, old_, new_)) == Moved(p, old_, new_) <==> new_ != [DOT] || p == old_
  {
    hide Normalize;
    var q := Moved(p, old_, new_);
    assert |p| > |old_| ==> q[|q| - 1] == p[|p| - 1];
    assert |p| > |old_| ==> q[|new_|] == p[|old_|] == SLASH;
    assert |new_| >= 2 ==> q[1] == new_[1];
    assert |new_| == 1 ==> new_ == [new_[0]];
    assert p == old_ ==> q == new_;
    assert q[|new_|..] == p[|old_|..] && p == old_ + p[|old_|..];
    ConcatNoNul(new_, p[|old_|..]);
    NormalizeFixed(q);
  }
}
