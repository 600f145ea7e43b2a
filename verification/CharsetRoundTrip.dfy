/** From display bytes back to UTF-8 (include/os_charset.h), and the round trip. */
module CharsetRoundTrip {
  import opened Words
  import opened Utf8
  import opened Charset

  // ---------------------------------------------------------------- display bytes to UTF-8

  /** The code point that a display byte is written as: '?' when the page leaves it undefined. */
  function ByteCp(t: Pages, page: nat, b: U8): (cp: nat)
    requires PagesOk(t) && page <= 4
    ensures cp < 0x1_0000 && Scalar(cp) && (cp == 0 ==> b == 0)
  {
    if page == 0 || b < 0x80
      then (if 0x80 <= b <= 0x9F then (if CP1252_HIGH[b - 0x80] != 0 then CP1252_HIGH[b - 0x80] else QMARK) else b)
    else if DisplayCp(t, page, b) == 0 then QMARK else DisplayCp(t, page, b)
  }

  /** A byte means the code point it shows; a byte that shows nothing means a question mark. */
  lemma ByteMeans(t: Pages, page: nat, b: U8)
    requires PagesOk(t) && page <= 4
    ensures ByteCp(t, page, b) == if DisplayCp(t, page, b) == 0 && b != 0 then 63 else DisplayCp(t, page, b)
  {
    hide PagesOk;
  }

  /** The UTF-8 form of a display string that begins in this page. */
  ghost function Back(t: Pages, s: seq<U8>, page: nat): seq<U8>
    requires PagesOk(t) && page <= 4
    decreases |s|
  {
    if s == [] || s[0] == 0 then []
    else if PageOfSel(s[0]) >= 0 then Back(t, s[1..], PageOfSel(s[0]))
    else Encode(ByteCp(t, page, s[0])) + Back(t, s[1..], page)
  }

  /** The page in force behind s. */
  ghost function PageAfter(s: seq<U8>, page: nat): (p: nat)
    requires page <= 4
    ensures p <= 4
  {
    if s == [] then page else
      var before := PageAfter(s[..|s| - 1], page);
      if PageOfSel(s[|s| - 1]) >= 0 then PageOfSel(s[|s| - 1]) else before
  }

  /** `os_display_to_utf8_page`: a whole character or nothing. */
  method ByteToUtf8(t: Pages, page: nat, b: U8, out: array<U8>, o: nat, cap: nat) returns (m: nat)
    requires PagesOk(t) && page <= 4 && o + cap <= out.Length
    modifies out
    ensures var u := Encode(ByteCp(t, page, b)); m == (if |u| <= cap then |u| else 0) && (m > 0 ==> out[o..o + m] == u)
    ensures out[..o] == old(out[..o])
  {
    hide PagesOk, ByteCp;
    var cp: nat := ByteCp(t, page, b);
    if cp < 0x80 {
      if cap < 1 { return 0; }
      out[o] := cp;
      return 1;
    }
    if cp < 0x800 {
      if cap < 2 { return 0; }
      out[o] := 0xC0 + cp / 64;
      out[o + 1] := 0x80 + cp % 64;
      return 2;
    }
    if cap < 3 { return 0; }
    out[o] := 0xE0 + cp / 64 / 64;
    out[o + 1] := 0x80 + cp / 64 % 64;
    out[o + 2] := 0x80 + cp % 64;
    return 3;
  }

  lemma {:induction false} BackSplit(t: Pages, a: seq<U8>, b: seq<U8>, page: nat)
    requires PagesOk(t) && page <= 4 && NoNul(a)
    ensures Back(t, a + b, page) == Back(t, a, page) + Back(t, b, PageAfter(a, page))
    decreases |a|
  {
    hide PagesOk, ByteCp, Encode, PageOfSel, PageAfter;
    if a == [] {
      assert a + b == b;
      PageAfterNone(page);
    } else {
      assert (a + b)[1..] == a[1..] + b;
      var p := if PageOfSel(a[0]) >= 0 then PageOfSel(a[0]) else page;
      SelRange(a[0]);
      BackSplit(t, a[1..], b, p);
      PageAfterFront(a, page);
    }
  }

  lemma SelRange(c: U8)
    ensures -1 <= PageOfSel(c) <= 4
  {
  }

  lemma PageAfterNone(page: nat)
    requires page <= 4
    ensures PageAfter([], page) == page
  {
  }

  lemma {:induction false} PageAfterFront(a: seq<U8>, page: nat)
    requires page <= 4 && a != []
    ensures PageAfter(a, page) == PageAfter(a[1..], if PageOfSel(a[0]) >= 0 then PageOfSel(a[0]) else page)
    decreases |a|
  {
    hide PageOfSel;
    SelRange(a[0]);
    if |a| > 1 {
      var k := |a| - 1;
      PageAfterFront(a[..k], page);
      assert a[..k][1..] == a[1..][..k - 1];
    } else {
      assert a[..0] == [] && a[1..] == [];
    }
  }

  /** `os_display_str_to_utf8`: as much as fits, cut behind a whole character of the input's first `used` bytes. */
  method StrToUtf8(t: Pages, s: seq<U8>, out: array<U8>, cap: int) returns (o: int, used: nat)
    requires PagesOk(t) && cap <= out.Length
    modifies out
    ensures used <= |s| && (cap <= 0 ==> o == 0 && out[..] == old(out[..]))
    ensures cap > 0 ==> 0 <= o < cap && out[o] == 0 && out[..o] == Back(t, s[..used], 0) && out[..o] <= Back(t, s, 0)
    ensures |Back(t, s, 0)| < cap ==> out[..o] == Back(t, s, 0)
  {
    hide PagesOk, ByteCp, Encode, Back, PageAfter;
    used := 0;
    if cap <= 0 { return 0, 0; }
    o := 0;
    var page := 0;
    BackNone(t);
    assert s[..0] == [];
    while used < |s| && s[used] != 0
      invariant used <= |s| && 0 <= o < cap && page <= 4 && NoNul(s[..used])
      invariant page == PageAfter(s[..used], 0) && out[..o] == Back(t, s[..used], 0)
    {
      var b := s[used];
      BackStep(t, s, used);
      var k := PageOfSel(b);
      if k >= 0 {
        page := k;
      } else {
        ghost var was := out[..o];
        var m := ByteToUtf8(t, page, b, out, o, cap - 1 - o);
        if m == 0 {
          BackCut(t, s, used, page, cap);
          break;
        }
        assert out[..o + m] == was + out[o..o + m];
        o := o + m;
      }
      used := used + 1;
    }
    BackRest(t, s, used);
    ghost var done := out[..o];
    out[o] := 0;
    assert out[..o] == done;
  }

  lemma BackNone(t: Pages)
    requires PagesOk(t)
    ensures Back(t, [], 0) == [] && PageAfter([], 0) == 0
  {
  }

  lemma BackStep(t: Pages, s: seq<U8>, i: nat)
    requires PagesOk(t) && i < |s| && s[i] != 0 && NoNul(s[..i])
    ensures var p := PageAfter(s[..i], 0);
            && NoNul(s[..i + 1])
            && PageAfter(s[..i + 1], 0) == (if PageOfSel(s[i]) >= 0 then PageOfSel(s[i]) else p)
            && Back(t, s[..i + 1], 0) == Back(t, s[..i], 0) + if PageOfSel(s[i]) >= 0 then []
              else Encode(ByteCp(t, p, s[i]))
  {
    hide PagesOk, ByteCp, Encode, PageOfSel;
    assert s[..i + 1] == s[..i] + [s[i]] && s[..i + 1][..i] == s[..i];
    BackSplit(t, s[..i], [s[i]], 0);
    var p := PageAfter(s[..i], 0);
    SelRange(s[i]);
    assert [s[i]][1..] == [];
    if PageOfSel(s[i]) < 0 {
      assert Back(t, [s[i]], p) == Encode(ByteCp(t, p, s[i])) + [];
      assert Encode(ByteCp(t, p, s[i])) + [] == Encode(ByteCp(t, p, s[i]));
    }
  }

  lemma BackRest(t: Pages, s: seq<U8>, i: nat)
    requires PagesOk(t) && i <= |s| && NoNul(s[..i])
    ensures Back(t, s[..i], 0) <= Back(t, s, 0)
    ensures i == |s| || s[i] == 0 ==> Back(t, s[..i], 0) == Back(t, s, 0)
  {
    hide PagesOk, ByteCp, Encode, PageOfSel, PageAfter;
    assert s == s[..i] + s[i..];
    BackSplit(t, s[..i], s[i..], 0);
  }

  /** When the next character does not fit, the whole does not either. */
  lemma BackCut(t: Pages, s: seq<U8>, i: nat, page: nat, cap: int)
    requires PagesOk(t) && i < |s| && s[i] != 0 && NoNul(s[..i]) && page == PageAfter(s[..i], 0) && PageOfSel(s[i]) < 0
    requires |Back(t, s[..i], 0)| + |Encode(ByteCp(t, page, s[i]))| > cap - 1
    ensures |Back(t, s, 0)| >= cap
  {
    hide PagesOk, ByteCp, Encode, PageOfSel, PageAfter, Back;
    BackStep(t, s, i);
    BackRest(t, s, i + 1);
  }

  // ---------------------------------------------------------------- round trip

  predicate Text(cps: seq<nat>) { forall i :: 0 <= i < |cps| ==> Scalar(cps[i]) && cps[i] != 0 }

  function Utf8Text(cps: seq<nat>): seq<U8>
    requires Text(cps)
  {
    if cps == [] then [] else Encode(cps[0]) + Utf8Text(cps[1..])
  }

  /** The display form of code points: ASCII as it is, without control characters; others with their selectors. */
  ghost function Displayed(t: Pages, cps: seq<nat>, page: nat): seq<U8>
    requires PagesOk(t) && page <= 4
  {
    if cps == [] then []
    else if cps[0] < 0x80
      then (if cps[0] < 0x20 && cps[0] != 9 && cps[0] != 10 then [] else [cps[0]]) + Displayed(t, cps[1..], page)
    else Put(t, cps[0], page).0 + Displayed(t, cps[1..], Put(t, cps[0], page).1)
  }

  /** Some page has it, or it is a tab, a newline or DEL, which pass unchanged. */
  predicate Representable(t: Pages, cp: nat) { cp == 9 || cp == 10 || cp == 0x7F || InPage0(cp) || InRev(t, cp) }

  lemma PieceOf(t: Pages, cp: nat, rest: seq<U8>, page: nat)
    requires PagesOk(t) && page <= 4 && Scalar(cp) && cp != 0
    ensures var s := Encode(cp) + rest;
            Piece(t, s, 0, page) ==
              if cp >= 0x80 then Step(Put(t, cp, page).0, |Encode(cp)|, 0, Put(t, cp, page).1)
              else Step(if cp < 0x20 && cp != 9 && cp != 10 then [] else [cp], 1, 0, page)
  {
    hide PagesOk, Put, Raw, LeadLength, Continues;
    var s := Encode(cp) + rest;
    if cp >= 0x80 {
      assert s[0..0 + |Encode(cp)|] == Encode(cp);
      assert Multi(s, 0, cp);
      NextMulti(s, 0);
    } else {
      assert s[0] == cp;
    }
  }

  /** Converting UTF-8 text, by either converter, gives the display form of its code points. */
  lemma {:induction false} ShownOfUtf8(t: Pages, cps: seq<nat>, page: nat)
    requires PagesOk(t) && page <= 4 && Text(cps)
    ensures Shown(t, Utf8Text(cps), 0, page) == Displayed(t, cps, page)
    ensures |Displayed(t, cps, page)| <= |Utf8Text(cps)|
    decreases |cps|
  {
    hide PagesOk, Put, Piece, Encode;
    if cps != [] {
      var cp, rest := cps[0], Utf8Text(cps[1..]);
      var s := Encode(cp) + rest;
      PieceOf(t, cp, rest, page);
      EncodeStarts(cp);
      assert s[|Encode(cp)|..] == rest;
      ShownOfUtf8(t, cps[1..], Piece(t, s, 0, page).outPage);
    }
  }

  lemma EncodeStarts(cp: nat)
    requires Scalar(cp) && cp != 0
    ensures NoNul(Encode(cp)) && (cp >= 0x80 ==> |Encode(cp)| >= 2) && (cp < 0x80 ==> |Encode(cp)| == 1)
  {
  }

  /** UTF-8 text always has room, so converting it in place gives the same. */
  lemma {:induction false} RoomyUtf8(t: Pages, cps: seq<nat>, slack: nat, page: nat)
    requires PagesOk(t) && page <= 4 && Text(cps)
    ensures NoNul(Utf8Text(cps)) && Roomy(t, Utf8Text(cps), slack, 0, page)
    decreases |cps|
  {
    hide PagesOk, Put, Piece, Encode;
    if cps != [] {
      var cp, rest := cps[0], Utf8Text(cps[1..]);
      var s := Encode(cp) + rest;
      PieceOf(t, cp, rest, page);
      EncodeStarts(cp);
      assert s[|Encode(cp)|..] == rest;
      var p := Piece(t, s, 0, page);
      RoomyUtf8(t, cps[1..], slack + p.used - |p.out|, p.outPage);
    }
  }

  /** The place of a representable code point beyond ASCII: a byte that stands for it in its page. */
  lemma PlaceInverts(t: Pages, cp: nat)
    requires PagesOk(t) && Representable(t, cp)
    ensures Scalar(cp) && cp != 0
    ensures cp >= 0x80 ==>
      var (p, b) := Place(t, cp);
      0 <= p <= 4 && b >= 0x80 && PageOfSel(b) < 0 && ByteCp(t, p, b) == cp
  {
    hide HighSlot, Exact;
    ExactInverts(t, cp);
    ExactRange(cp);
    if cp >= 0x80 && !InPage0(cp) {
      var i :| 0 <= i < |t.rev| && RevCp(t.rev[i]) == cp && Place(t, cp) == (RevPage(t.rev[i]), RevByte(t.rev[i]));
      assert EntryOk(t, t.rev[i]);
    }
  }

  lemma ExactRange(cp: nat)
    ensures cp >= 0x80 && Exact(cp) != 0 ==> Scalar(cp)
  {
    hide HighSlot;
    if cp >= 0x80 && HighSlot(cp, 0) < 32 { HighDefined(HighSlot(cp, 0)); }
  }

  lemma PutBack(t: Pages, cp: nat, page: nat, rest: seq<U8>)
    requires PagesOk(t) && page <= 4 && Representable(t, cp) && cp >= 0x80
    ensures Scalar(cp) && Back(t, Put(t, cp, page).0 + rest, page) == Encode(cp) + Back(t, rest, Put(t, cp, page).1)
  {
    hide PagesOk, Place, Close, ByteCp, PageOfSel, Encode;
    PlaceInverts(t, cp);
    var (p, b) := Place(t, cp);
    var (bytes, next) := Put(t, cp, page);
    if p != page {
      SelPage(p);
      var s := [Sel(p), b] + rest;
      assert s[1..] == [b] + rest && ([b] + rest)[1..] == rest;
    } else {
      assert ([b] + rest)[1..] == rest;
    }
  }

  lemma SelPage(p: nat)
    requires p <= 4
    ensures PageOfSel(Sel(p)) == p && Sel(p) != 0
  {
  }

  /** Back from the display form of representable code points comes their UTF-8 text. */
  lemma {:induction false} BackOfDisplayed(t: Pages, cps: seq<nat>, page: nat)
    requires PagesOk(t) && page <= 4 && forall i :: 0 <= i < |cps| ==> Representable(t, cps[i])
    ensures Text(cps) && Back(t, Displayed(t, cps, page), page) == Utf8Text(cps)
    decreases |cps|
  {
    hide PagesOk, Put, ByteCp, Encode, Representable;
    if cps != [] {
      var cp := cps[0];
      PlaceInverts(t, cp);
      if cp < 0x80 {
        BackOfDisplayed(t, cps[1..], page);
        var rest := Displayed(t, cps[1..], page);
        AsciiBack(t, cp, page);
        assert ([cp] + rest)[1..] == rest;
      } else {
        var next := Put(t, cp, page).1;
        BackOfDisplayed(t, cps[1..], next);
        PutBack(t, cp, page, Displayed(t, cps[1..], next));
      }
    }
  }

  lemma AsciiBack(t: Pages, cp: nat, page: nat)
    requires PagesOk(t) && page <= 4 && Representable(t, cp) && cp < 0x80
    ensures ByteCp(t, page, cp) == cp && Encode(cp) == [cp] && PageOfSel(cp) < 0 && (cp >= 0x20 || cp == 9 || cp == 10)
  {
    hide PagesOk;
    InRevHigh(t, cp);
  }

  lemma InRevHigh(t: Pages, cp: nat)
    requires PagesOk(t)
    ensures InRev(t, cp) ==> cp >= 0x100
  {
    if InRev(t, cp) {
      var i :| 0 <= i < |t.rev| && RevCp(t.rev[i]) == cp;
      assert EntryOk(t, t.rev[i]);
    }
  }

  /** UTF-8 to display bytes and back is the identity on representable text, and the display form is not longer. */
  lemma RoundTrip(t: Pages, cps: seq<nat>)
    requires PagesOk(t) && forall i :: 0 <= i < |cps| ==> Representable(t, cps[i])
    ensures Text(cps)
    ensures var u := Utf8Text(cps);
            var d := Shown(t, u, 0, 0);
            Back(t, d, 0) == u && |d| <= |u| && InPlaced(t, u, 0, 0, 0) == d
  {
    hide PagesOk, Representable, Shown, Back, Displayed, InPlaced, Roomy, Utf8Text;
    BackOfDisplayed(t, cps, 0);
    ShownOfUtf8(t, cps, 0);
    RoomyUtf8(t, cps, 0, 0);
    InPlaceAgrees(t, Utf8Text(cps), 0, 0, 0);
  }

  /** The same through the two converters and their buffers: room for the text and a terminator is enough. */
  method ThereAndBack(t: Pages, ghost cps: seq<nat>, text: seq<U8>, mid: array<U8>, out: array<U8>) returns (n: int)
    requires PagesOk(t) && (forall i :: 0 <= i < |cps| ==> Representable(t, cps[i]))
    requires Text(cps) && text == Utf8Text(cps) && mid != out && |text| < mid.Length && |text| < out.Length
    modifies mid, out
    ensures n == |text| && out[..n] == text && out[n] == 0
  {
    hide PagesOk, Representable, Shown, Back, InPlaced, Utf8Text;
    RoundTrip(t, cps);
    var o := TextToDisplay(t, text, mid, mid.Length);
    var used;
    n, used := StrToUtf8(t, mid[..o], out, out.Length);
  }
}
