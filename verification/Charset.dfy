/** The display character set (include/os_charset.h): Windows-1252 and four more pages reached through selector bytes.
    The page tables are parameters; PagesOk says what of them the code relies on. */
module Charset {
  import opened Words
  import opened Utf8
  import opened Buffers

  const QMARK: U8 := 63

  // ---------------------------------------------------------------- tables

  const CP1252_HIGH: seq<nat> := [
    0x20AC, 0, 0x201A, 0x0192, 0x201E, 0x2026, 0x2020, 0x2021, 0x02C6, 0x2030, 0x0160, 0x2039, 0x0152, 0, 0x017D, 0,
    0, 0x2018, 0x2019, 0x201C, 0x201D, 0x2022, 0x2013, 0x2014, 0x02DC, 0x2122, 0x0161, 0x203A, 0x0153, 0, 0x017E,
    0x0178]

  const LATIN_EXT_A: string :=
    "AaAaAaCcCcCcCcDdDdEeEeEeEeEeGgGgGgGgHhHhIiIiIiIiIiIiJjKkkLlLlLlLlLlNnNnNnn" +
    "NnOoOoOoOoRrRrRrSsSsSsSsTtTtTtUuUuUuUuUuUuWwYyYZzZzZzs"

  /** rev: words of code point, page and byte, sorted; cp: code points of the bytes from 0x80 on, per page from 1 on. */
  datatype Pages = Pages(rev: seq<U32>, cp: seq<seq<nat>>)

  function RevCp(w: U32): nat { w / 0x1_0000 }
  function RevPage(w: U32): nat { w / 256 % 256 }
  function RevByte(w: U32): U8 { w % 256 }

  /** The page of a selector byte, -1 for any other. */
  function PageOfSel(c: U8): (p: int)
    ensures -1 <= p <= 4 && (p >= 0 ==> c == Sel(p))
  {
    if c == 0x81 then 0 else if c == 0x8D then 1 else if c == 0x8F then 2 else if c == 0x90 then 3 else if c == 0x9D
      then 4 else -1
  }

  function Sel(p: int): (c: U8)
    requires 0 <= p <= 4
    ensures c >= 0x80
  {
    match p case 0 => 0x81 case 1 => 0x8D case 2 => 0x8F case 3 => 0x90 case _ => 0x9D
  }

  predicate EntryOk(t: Pages, w: U32)
    requires |t.cp| == 4 && forall p :: 0 <= p < 4 ==> |t.cp[p]| == 128
  {
    && 0x100 <= RevCp(w) && Scalar(RevCp(w)) && 1 <= RevPage(w) <= 4 && RevByte(w) >= 0x80 && PageOfSel(RevByte(w)) < 0
    && t.cp[RevPage(w) - 1][RevByte(w) - 0x80] == RevCp(w)
  }

  /** Sorted by code point, and each entry inverts the table of its page. */
  predicate PagesOk(t: Pages)
  {
    && |t.cp| == 4 && (forall p :: 0 <= p < 4 ==> |t.cp[p]| == 128)
    && (forall p, k :: 0 <= p < 4 && 0 <= k < 128 ==> t.cp[p][k] < 0x1_0000 && Scalar(t.cp[p][k]))
    && (forall i, j :: 0 <= i < j < |t.rev| ==> RevCp(t.rev[i]) < RevCp(t.rev[j]))
    && forall i :: 0 <= i < |t.rev| ==> EntryOk(t, t.rev[i])
  }

  // ---------------------------------------------------------------- code points and bytes

  /** The first slot of the table from i on that holds cp. */
  function HighSlot(cp: nat, i: nat): (k: nat)
    requires i <= 32
    ensures k <= 32 && (k < 32 ==> CP1252_HIGH[k] == cp && cp != 0)
    decreases 32 - i
  {
    if i == 32 then 32 else if CP1252_HIGH[i] != 0 && CP1252_HIGH[i] == cp then i else HighSlot(cp, i + 1)
  }

  /** `os_cp1252_exact`: 0 when Windows-1252 does not have it. */
  function Exact(cp: nat): U8
  {
    if cp < 0x80 || 0xA0 <= cp <= 0xFF then cp else if HighSlot(cp, 0) < 32 then 0x80 + HighSlot(cp, 0) else 0
  }

  predicate InPage0(cp: nat) { cp >= 0x20 && cp != 0x7F && (Exact(cp) != 0 || cp < 0x80) }

  predicate InRev(t: Pages, cp: nat) { exists i :: 0 <= i < |t.rev| && RevCp(t.rev[i]) == cp }

  /** `os_display_cp`: 0 for a selector or an undefined byte. */
  function DisplayCp(t: Pages, page: nat, c: U8): (cp: nat)
    requires PagesOk(t) && page <= 4
    ensures cp < 0x1_0000 && Scalar(cp)
  {
    if PageOfSel(c) >= 0 then 0
    else if c < 0x80 then c
    else if page == 0 then (if c >= 0xA0 then c else CP1252_HIGH[c - 0x80])
    else t.cp[page - 1][c - 0x80]
  }

  /** `os_cp_page`: the page and byte of a code point, found by halving the sorted table; -1 when no page has it. */
  method CpPage(t: Pages, cp: nat) returns (page: int, byte: U8)
    requires PagesOk(t)
    ensures (page, byte) == Place(t, cp)
    ensures page == -1 <==> !InPage0(cp) && !InRev(t, cp)
    ensures page == 0 <==> InPage0(cp)
    ensures page != -1 ==>
      0 <= page <= 4 && PageOfSel(byte) < 0 && DisplayCp(t, page, byte) == cp && (byte < 0x80 <==> cp < 0x80)
  {
    hide Exact, HighSlot;
    var b := Exact(cp);
    ExactInverts(t, cp);
    if cp >= 0x20 && cp != 0x7F && (b != 0 || cp < 0x80) { return 0, b; }
    var lo, hi := 0, |t.rev| - 1;
    while lo <= hi
      invariant 0 <= lo && hi < |t.rev|
      invariant forall i :: 0 <= i < |t.rev| && !(lo <= i <= hi) ==> RevCp(t.rev[i]) != cp
    {
      var mid := (lo + hi) / 2;
      var c := RevCp(t.rev[mid]);
      if c == cp {
        assert EntryOk(t, t.rev[mid]);
        PlaceIs(t, cp, mid);
        return RevPage(t.rev[mid]), RevByte(t.rev[mid]);
      }
      if c < cp { lo := mid + 1; } else { hi := mid - 1; }
    }
    return -1, 0;
  }

  /** The sorted table has one entry at most for a code point. */
  lemma PlaceIs(t: Pages, cp: nat, k: nat)
    requires PagesOk(t) && !InPage0(cp) && k < |t.rev| && RevCp(t.rev[k]) == cp
    ensures Place(t, cp) == (RevPage(t.rev[k]), RevByte(t.rev[k]))
  {
    var i :| 0 <= i < |t.rev| && RevCp(t.rev[i]) == cp && Place(t, cp) == (RevPage(t.rev[i]), RevByte(t.rev[i]));
  }

  lemma HighDefined(k: nat)
    requires k < 32 && CP1252_HIGH[k] != 0
    ensures PageOfSel(0x80 + k) < 0 && 0x100 <= CP1252_HIGH[k] < 0x3000
  {
  }

  /** The byte that Windows-1252 has for a code point means that code point in page 0. */
  lemma ExactInverts(t: Pages, cp: nat)
    requires PagesOk(t)
    ensures cp < 0x80 ==> Exact(cp) == cp
    ensures Exact(cp) != 0 || cp == 0 ==>
      PageOfSel(Exact(cp)) < 0 && DisplayCp(t, 0, Exact(cp)) == cp && (Exact(cp) < 0x80 <==> cp < 0x80)
  {
    hide PagesOk, HighSlot;
    if !(cp < 0x80 || 0xA0 <= cp <= 0xFF) && HighSlot(cp, 0) < 32 { HighDefined(HighSlot(cp, 0)); }
  }

  /** A word of the table holds its code point above the page and the byte. */
  lemma WordParts(cp: nat, page: nat, b: U8)
    requires cp < 0x1_0000 && page < 256
    ensures var w := cp * 0x1_0000 + page * 256 + b; RevCp(w) == cp && RevPage(w) == page && RevByte(w) == b
  {
    var v := cp * 256 + page;
    var w := v * 256 + b;
    assert w / 256 == v && v / 256 == cp && w / 0x1_0000 == cp;
  }

  /** The selectors, which show nothing on any page. */
  lemma Selectors(t: Pages, page: nat)
    requires PagesOk(t) && page <= 4
    ensures Sel(0) == 0x81 && Sel(1) == 0x8D && Sel(2) == 0x8F && Sel(3) == 0x90 && Sel(4) == 0x9D
    ensures DisplayCp(t, page, 0x81) == DisplayCp(t, page, 0x8D) == DisplayCp(t, page, 0x8F) == 0
    ensures DisplayCp(t, page, 0x90) == DisplayCp(t, page, 0x9D) == 0
  {
    hide PagesOk;
  }

  /** Every code point of the table has a byte. */
  lemma HighExact(k: nat)
    requires k < |CP1252_HIGH| == 32 && CP1252_HIGH[k] != 0
    ensures Exact(CP1252_HIGH[k]) != 0
  {
    hide CP1252_HIGH;
    HighFound(k, 0);
  }

  lemma {:induction false} HighFound(k: nat, i: nat)
    requires i <= k < |CP1252_HIGH| == 32 && CP1252_HIGH[k] != 0
    ensures HighSlot(CP1252_HIGH[k], i) < 32
    decreases k - i
  {
    hide CP1252_HIGH;
    if i < k { HighFound(k, i + 1); }
  }

  /** Where Windows-1252 has the code point, the close form is that. */
  lemma CloseIsExact(cp: nat)
    requires cp >= 0x20 && !(0x7F <= cp < 0xA0) && Exact(cp) != 0
    ensures Close(cp) == Exact(cp)
  {
    hide HighSlot;
  }

  predicate Dashes(cp: nat) { cp in {0x2010, 0x2011, 0x2012, 0x2015, 0x2212} }

  predicate Blanks(cp: nat) { 0x2000 <= cp <= 0x200A || cp in {0x202F, 0x205F, 0x3000} }

  predicate ZeroWidth(cp: nat) { 0x200B <= cp <= 0x200F || cp in {0xFEFF, 0xAD} }

  /** The base letters are all ASCII. */
  function BaseLetter(i: nat): U8
    requires i < 128
  {
    assert |LATIN_EXT_A| == 128;
    LATIN_EXT_A[i] as int % 128
  }

  /** `os_cp1252_from_cp`: the exact byte, else a close ASCII form or '?'; 0 when the code point is dropped. */
  function Close(cp: nat): U8
  {
    if cp < 0x20 then (if cp == 9 || cp == 10 then cp else 0)
    else if cp == 0x7F || 0x80 <= cp < 0xA0 then 0
    else if Exact(cp) != 0 then Exact(cp)
    else if 0x100 <= cp <= 0x17F then BaseLetter(cp - 0x100)
    else if Dashes(cp) then 45
    else if cp == 0x2032 || cp == 0x02BC then 39
    else if cp == 0x2033 then 34
    else if Blanks(cp) then 32
    else if ZeroWidth(cp) then 0
    else if cp == 0x2192 || cp == 0x2265 then 62
    else if cp == 0x2190 || cp == 0x2264 then 60
    else QMARK
  }

  /** The page and byte of a code point, as a function. */
  ghost function Place(t: Pages, cp: nat): (r: (int, U8))
    requires PagesOk(t)
    ensures -1 <= r.0 <= 4
  {
    if InPage0(cp) then (0, Exact(cp))
    else if InRev(t, cp) then
      var i :| 0 <= i < |t.rev| && RevCp(t.rev[i]) == cp;
      assert EntryOk(t, t.rev[i]);
      (RevPage(t.rev[i]), RevByte(t.rev[i]))
    else (-1, 0)
  }

  /** The display bytes of a code point when `page` is in force, and the page in force afterwards. */
  ghost function Put(t: Pages, cp: nat, page: nat): (r: (seq<U8>, nat))
    requires PagesOk(t) && page <= 4
    ensures |r.0| <= 2 && r.1 <= 4
  {
    var (p, b) := if cp < 0x20 then (-1, 0) else Place(t, cp);
    var b' := if p < 0 then Close(cp) else b;
    var p' := if p >= 0 then p else if b' >= 0x80 then 0 else page;
    if p < 0 && b' == 0 then ([], page)
    else if b' >= 0x80 && p' != page then ([Sel(p'), b'], p')
    else ([b'], page)
  }

  /** A code point that no page shows: above the control codes and outside the ranges that are spelt otherwise it shows
      as exactly one question mark. */
  lemma Unknown(t: Pages, cp: nat, page: nat)
    requires PagesOk(t) && page <= 4 && cp >= 0x180
    requires forall p: nat, c: U8 :: p <= 4 ==> DisplayCp(t, p, c) != cp
    requires cp !in {0x2010, 0x2011, 0x2012, 0x2015, 0x2212, 0x2032, 0x02BC, 0x2033, 0x202F, 0x205F, 0x3000, 0xFEFF}
    requires cp !in {0x2192, 0x2265, 0x2190, 0x2264} && !(0x2000 <= cp <= 0x200F)
    ensures Put(t, cp, page) == ([63], page)
  {
    hide HighSlot;
    NoPlace(t, cp);
  }

  /** And these are the others: control codes but tab and newline are dropped, as is what has no width; dashes, primes,
      blanks and arrows show as their ASCII likeness, and accented letters as the letter. */
  lemma Likeness(t: Pages, cp: nat, page: nat)
    requires PagesOk(t) && page <= 4
    requires cp >= 0x20 ==> forall p: nat, c: U8 :: p <= 4 ==> DisplayCp(t, p, c) != cp
    ensures cp == 9 || cp == 10 ==> Put(t, cp, page) == ([cp], page)
    ensures (cp < 0x20 && cp != 9 && cp != 10) || 0x7F <= cp < 0xA0 ==> Put(t, cp, page) == ([], page)
    ensures 0x200B <= cp <= 0x200F || cp == 0xFEFF ==> Put(t, cp, page) == ([], page)
    ensures cp in {0x2010, 0x2011, 0x2012, 0x2015, 0x2212} ==> Put(t, cp, page) == ([45], page)
    ensures cp == 0x2032 || cp == 0x02BC ==> Put(t, cp, page) == ([39], page)
    ensures cp == 0x2033 ==> Put(t, cp, page) == ([34], page)
    ensures 0x2000 <= cp <= 0x200A || cp in {0x202F, 0x205F, 0x3000} ==> Put(t, cp, page) == ([32], page)
    ensures cp == 0x2192 || cp == 0x2265 ==> Put(t, cp, page) == ([62], page)
    ensures cp == 0x2190 || cp == 0x2264 ==> Put(t, cp, page) == ([60], page)
    ensures |LATIN_EXT_A| == 128
    ensures 0x100 <= cp <= 0x17F ==>
      var letter := LATIN_EXT_A[cp - 0x100] as int % 128;
      Put(t, cp, page) == (if letter == 0 then [] else [letter], page)
  {
    hide HighSlot;
    if cp >= 0x20 { NoPlace(t, cp); }
  }

  /** What no page shows has no place. */
  lemma NoPlace(t: Pages, cp: nat)
    requires PagesOk(t) && cp >= 0x20 && forall p: nat, c: U8 :: p <= 4 ==> DisplayCp(t, p, c) != cp
    ensures Place(t, cp) == (-1, 0) && Exact(cp) == 0 && cp >= 0x7F && (cp >= 0xA0 ==> cp > 0xFF)
  {
    hide HighSlot, PagesOk;
    if cp < 0x100 && (cp < 0x80 || cp >= 0xA0) { assert DisplayCp(t, 0, cp) != cp; }
    if Exact(cp) != 0 { ExactInverts(t, cp); }
    if InRev(t, cp) {
      var i :| 0 <= i < |t.rev| && RevCp(t.rev[i]) == cp;
      EntryShows(t, i);
    }
  }

  lemma EntryShows(t: Pages, i: nat)
    requires PagesOk(t) && i < |t.rev|
    ensures RevPage(t.rev[i]) <= 4 && DisplayCp(t, RevPage(t.rev[i]), RevByte(t.rev[i])) == RevCp(t.rev[i])
  {
    assert EntryOk(t, t.rev[i]);
  }

  /** `os_display_put`: the bytes of a code point, written at o if at most cap of them are needed. */
  method DisplayPut(t: Pages, cp: nat, page: nat, out: array<U8>, o: nat, cap: nat) returns (rc: int, page': nat)
    requires PagesOk(t) && page <= 4 && o + cap <= out.Length
    modifies out
    ensures var (bytes, next) := Put(t, cp, page);
            if |bytes| <= cap then rc == |bytes| && page' == next && out[o..o + rc] == bytes
              else rc == -1 && page' == page
    ensures forall k :: 0 <= k < out.Length && !(o <= k < o + rc) ==> out[k] == old(out[k])
  {
    hide PagesOk, Close, Place, Sel;
    page' := page;
    var b: U8, p, n := 0, -1, 0;
    if cp >= 0x20 { p, b := CpPage(t, cp); }
    if p < 0 {
      b := Close(cp);
      if b == 0 {
        assert out[o..o] == [];
        return 0, page;
      }
      p := if b >= 0x80 then 0 else page;
    }
    if b >= 0x80 && p != page { n := 1; }
    if n + 1 > cap { return -1, page; }
    if n == 1 {
      out[o] := Sel(p);
      page' := p;
    }
    out[o + n] := b;
    return n + 1, page';
  }

  // ---------------------------------------------------------------- text to display bytes

  /** What one step of the converters takes and gives: bytes out, bytes consumed, and both pages afterwards. */
  datatype Step = Step(out: seq<U8>, used: nat, inPage: nat, outPage: nat)

  /** One step on text s, with the page that s itself has selected and the page in force in the output. */
  ghost function Piece(t: Pages, s: seq<U8>, ip: nat, op: nat): (r: Step)
    requires PagesOk(t) && s != [] && ip <= 4 && op <= 4
    ensures 1 <= r.used <= |s| && |r.out| <= 2 && r.inPage <= 4 && r.outPage <= 4
    ensures |r.out| > r.used ==> Switches(s[0], ip, op) && r == Step([Sel(ip), s[0]], 1, ip, ip)
  {
    var c := s[0];
    if c >= 0x80 && ip == 0 && Next(s, 0).1 > 1 then
      var (bytes, next) := Put(t, Next(s, 0).0, op);
      Step(bytes, Next(s, 0).1, ip, next)
    else if PageOfSel(c) >= 0 then Step(if op != PageOfSel(c) then [c] else [], 1, PageOfSel(c), PageOfSel(c))
    else if c < 0x20 && c != 9 && c != 10 then Step([], 1, ip, op)
    else if Switches(c, ip, op) then Step([Sel(ip), c], 1, ip, ip)
    else Step([c], 1, ip, op)
  }

  /** A byte that does not begin a UTF-8 sequence: text below 0x80 shows as it is, control codes but tab and newline are
      dropped, a selector changes both pages and shows only if the output is elsewhere, and any other byte shows on the
      page of the input, behind its selector if the output is elsewhere. */
  lemma SingleByte(t: Pages, s: seq<U8>, ip: nat, op: nat)
    requires PagesOk(t) && s != [] && ip <= 4 && op <= 4 && (ip != 0 || forall cp: nat :: !Multi(s, 0, cp))
    ensures var c, sels := s[0], [0x81, 0x8D, 0x8F, 0x90, 0x9D];
      && (0x20 <= c < 0x80 || c == 9 || c == 10 ==> Piece(t, s, ip, op) == Step([c], 1, ip, op))
      && (c < 0x20 && c != 9 && c != 10 ==> Piece(t, s, ip, op) == Step([], 1, ip, op))
      && (forall p :: 0 <= p < 5 && c == sels[p] ==> Piece(t, s, ip, op) == Step(if op == p then [] else [c], 1, p, p))
      && (c >= 0x80 && c !in sels ==>
            Piece(t, s, ip, op) == Step(if op == ip then [c] else [sels[ip], c], 1, ip, ip))
  {
    hide PagesOk, Put, Next, Encode;
    NextMulti(s, 0);
  }

  predicate Switches(c: U8, ip: nat, op: nat) { c >= 0x80 && op != ip }

  /** The display form of a text. */
  ghost function Shown(t: Pages, s: seq<U8>, ip: nat, op: nat): seq<U8>
    requires PagesOk(t) && ip <= 4 && op <= 4
    decreases |s|
  {
    if s == [] || s[0] == 0 then []
    else var p := Piece(t, s, ip, op); p.out + Shown(t, s[p.used..], p.inPage, p.outPage)
  }

  lemma NextOfSuffix(s: seq<U8>, i: nat)
    requires i < |s|
    ensures Next(s[i..], 0) == Next(s, i)
  {
    hide Encode, Next;
    NextIs(s, i);
    NextIs(s[i..], 0);
    SamePasses(s, i);
  }

  lemma SamePasses(s: seq<U8>, i: nat)
    requires i < |s|
    ensures Passes(s[i..], 0) == Passes(s, i) &&
      (Passes(s, i) ==> Raw(s[i..], 0, LeadLength(s[i])) == Raw(s, i, LeadLength(s[i])))
  {
    hide LeadBits, LeadLength, Shifted, Raw;
    var u, n := s[i..], LeadLength(s[i]);
    LeadKinds(s[i]);
    RawIs(s, i);
    RawIs(u, 0);
    if i + n <= |s| {
      forall j | i + 1 <= j < i + n ensures s[j] == u[j - i] { }
      assert Continues(u, 0, n) <==> Continues(s, i, n) by {
        if Continues(u, 0, n) { forall j | i + 1 <= j < i + n ensures s[j] / 64 == 2 { assert u[j - i] / 64 == 2; } }
      }
    }
  }

  /** One step of `os_text_to_display`, or nothing when its output does not fit in `room` bytes. */
  method ConvertStep(t: Pages, text: seq<U8>, i: nat, out: array<U8>, o: nat, room: nat, ip: nat, op: nat)
    returns (ok: bool, i': nat, o': nat, ip': nat, op': nat)
    requires PagesOk(t) && i < |text| && 1 <= room && o + room <= out.Length && ip <= 4 && op <= 4
    modifies out
    ensures out[..o] == old(out[..o])
    ensures var p := Piece(t, text[i..], ip, op);
            if |p.out| <= room then ok && i' == i + p.used && o' == o + |p.out| && out[o..o'] == p.out &&
              ip' == p.inPage && op' == p.outPage
            else !ok && i' == i && o' == o && ip' == ip && op' == op
  {
    hide PagesOk, Put, Next, Sel;
    ok, i', o', ip', op' := true, i, o, ip, op;
    var c := text[i];
    NextOfSuffix(text, i);
    if c >= 0x80 && ip == 0 {
      var cp, k := Utf8Next(text, i);
      if k - i > 1 {
        var r;
        r, op' := DisplayPut(t, cp, op, out, o, room);
        if r < 0 { return false, i, o, ip, op; }
        return true, k, o + r, ip, op';
      }
    }
    i' := i + 1;
    var sp := PageOfSel(c);
    if sp >= 0 {
      ip' := sp;
      if op != sp {
        out[o] := c;
        o', op' := o + 1, sp;
      }
      return;
    }
    if c < 0x20 && c != 10 && c != 9 { return; }
    if c >= 0x80 && op != ip {
      if 2 > room { return false, i, o, ip, op; }
      out[o] := Sel(ip);
      o', op' := o + 1, ip;
    }
    out[o'] := c;
    o' := o' + 1;
  }

  lemma ShownStep(t: Pages, s: seq<U8>, i: nat, ip: nat, op: nat)
    requires PagesOk(t) && i < |s| && s[i] != 0 && ip <= 4 && op <= 4
    ensures var p := Piece(t, s[i..], ip, op);
            i + p.used <= |s| && Shown(t, s[i..], ip, op) == p.out + Shown(t, s[i + p.used..], p.inPage, p.outPage)
  {
    hide PagesOk, Piece;
    var p := Piece(t, s[i..], ip, op);
    assert s[i..][p.used..] == s[i + p.used..];
  }

  lemma ShownEnds(t: Pages, s: seq<U8>, ip: nat, op: nat)
    requires PagesOk(t) && ip <= 4 && op <= 4
    ensures s == [] || s[0] == 0 ==> Shown(t, s, ip, op) == []
  {
  }

  /** Bytes so far, then a step's, then the rest. */
  lemma Joined(all: seq<U8>, was: seq<U8>, piece: seq<U8>, rest: seq<U8>, now: seq<U8>)
    requires all == was + (piece + rest)
    ensures now == was + piece ==> all == now + rest
    ensures was <= all && |all| >= |was| + |piece|
  {
  }

  /** `os_text_to_display`: as much of the display form as fits, whole steps only, terminated. */
  method TextToDisplay(t: Pages, text: seq<U8>, out: array<U8>, cap: int) returns (o: int)
    requires PagesOk(t) && cap <= out.Length
    modifies out
    ensures cap <= 0 ==> o == 0 && out[..] == old(out[..])
    ensures cap > 0 ==> 0 <= o < cap && out[o] == 0 && out[..o] <= Shown(t, text, 0, 0)
    ensures |Shown(t, text, 0, 0)| < cap ==> out[..o] == Shown(t, text, 0, 0)
  {
    hide PagesOk, Shown, Piece;
    if cap <= 0 { return 0; }
    ghost var all := Shown(t, text, 0, 0);
    var i, ip, op := 0, 0, 0;
    o := 0;
    assert text[0..] == text;
    while i < |text| && text[i] != 0 && o < cap - 1
      invariant 0 <= i <= |text| && 0 <= o < cap && ip <= 4 && op <= 4
      invariant all == out[..o] + Shown(t, text[i..], ip, op)
      decreases |text| - i
    {
      ghost var p, was := Piece(t, text[i..], ip, op), out[..o];
      ShownStep(t, text, i, ip, op);
      ghost var rest := Shown(t, text[i + p.used..], p.inPage, p.outPage);
      var ok;
      ok, i, o, ip, op := ConvertStep(t, text, i, out, o, cap - 1 - o, ip, op);
      Joined(all, was, p.out, rest, out[..o]);
      if !ok { break; }
      assert out[..o] == was + p.out;
    }
    ghost var done := out[..o];
    ShownEnds(t, text[i..], ip, op);
    out[o] := 0;
    assert out[..o] == done;
  }

  // ---------------------------------------------------------------- in place

  /** The form that the in-place converter gives to text s when it has saved `slack` bytes before it: a raw byte that
      would need a selector there is no room for becomes '?'. */
  ghost function InPlaced(t: Pages, s: seq<U8>, slack: nat, ip: nat, op: nat): seq<U8>
    requires PagesOk(t) && ip <= 4 && op <= 4
    decreases |s|
  {
    if s == [] then []
    else
      var p := Piece(t, s, ip, op);
      if |p.out| > p.used + slack then [QMARK] + InPlaced(t, s[1..], slack, ip, op)
      else p.out + InPlaced(t, s[p.used..], slack + p.used - |p.out|, p.inPage, p.outPage)
  }

  /** Wherever a selector must be added, an earlier step has saved a byte. */
  ghost predicate Roomy(t: Pages, s: seq<U8>, slack: nat, ip: nat, op: nat)
    requires PagesOk(t) && ip <= 4 && op <= 4
    decreases |s|
  {
    s == [] ||
    var p := Piece(t, s, ip, op);
    |p.out| <= p.used + slack && Roomy(t, s[p.used..], slack + p.used - |p.out|, p.inPage, p.outPage)
  }

  /** In place and into a second buffer give the same exactly when there is room for every selector. */
  lemma {:induction false} InPlaceAgrees(t: Pages, s: seq<U8>, slack: nat, ip: nat, op: nat)
    requires PagesOk(t) && ip <= 4 && op <= 4 && NoNul(s)
    ensures InPlaced(t, s, slack, ip, op) == Shown(t, s, ip, op) <==> Roomy(t, s, slack, ip, op)
    decreases |s|
  {
    hide PagesOk, Piece;
    if s != [] {
      var p := Piece(t, s, ip, op);
      if |p.out| > p.used + slack {
        SelIsNotQmark(ip);
        assert InPlaced(t, s, slack, ip, op)[0] != Shown(t, s, ip, op)[0];
      } else {
        var a := InPlaced(t, s[p.used..], slack + p.used - |p.out|, p.inPage, p.outPage);
        var b := Shown(t, s[p.used..], p.inPage, p.outPage);
        InPlaceAgrees(t, s[p.used..], slack + p.used - |p.out|, p.inPage, p.outPage);
        SamePrefix(p.out, a, b);
      }
    }
  }

  lemma SelIsNotQmark(p: nat)
    requires p <= 4
    ensures Sel(p) != QMARK
  {
  }

  lemma SamePrefix(p: seq<U8>, a: seq<U8>, b: seq<U8>)
    ensures p + a == p + b <==> a == b
  {
    if p + a == p + b { assert a == (p + a)[|p|..] && b == (p + b)[|p|..]; }
  }

  /** A step in place takes `used` bytes of s and writes `out`: the next piece, or a question mark for one byte when a
      selector does not fit in the slack. */
  ghost predicate Stepped(t: Pages, s: seq<U8>, slack: nat, ip: nat, op: nat, out: seq<U8>, used: nat, ip': nat,
                          op': nat)
    requires PagesOk(t) && s != [] && ip <= 4 && op <= 4
  {
    var p := Piece(t, s, ip, op);
    if |p.out| > p.used + slack then used == 1 && out == [QMARK] && ip' == ip && op' == op
    else used == p.used && out == p.out && ip' == p.inPage && op' == p.outPage
  }

  /** One step of the in-place converter: it writes below the end of what it has read. */
  method InPlaceStep(t: Pages, a: array<U8>, n: nat, r: nat, w: nat, ip: nat, op: nat)
    returns (r': nat, w': nat, ip': nat, op': nat)
    requires PagesOk(t) && w <= r < n <= a.Length && ip <= 4 && op <= 4
    modifies a
    ensures w <= w' <= r' <= n && a[..w] == old(a[..w]) && a[r'..n] == old(a[r'..n])
    ensures r < r' && Stepped(t, old(a[r..n]), r - w, ip, op, a[w..w'], r' - r, ip', op')
  {
    hide PagesOk, Put, Next, Sel, Piece;
    var s := a[..n];
    var c := a[r];
    NextOfSuffix(s, r);
    assert s[r..] == a[r..n];
    if c >= 0x80 && ip == 0 {
      var cp, k := Utf8Next(s, r);
      if k - r > 1 {
        PieceOfMany(t, s[r..], op);
        var tmp := new U8[2];
        var m;
        m, op' := DisplayPut(t, cp, op, tmp, 0, 2);
        ghost var was := a[..];
        CopyBytes(tmp, 0, a, w, m);
        CopiedParts(was, a[..], w, tmp[0..m], k, n);
        return k, w + m, ip, op';
      }
    }
    r', w', ip', op' := InPlaceRaw(t, a, n, r, w, ip, op);
  }

  /** A well-formed sequence of several bytes on page 0 is shown as its code point. */
  lemma PieceOfMany(t: Pages, s: seq<U8>, op: nat)
    requires PagesOk(t) && s != [] && op <= 4 && s[0] >= 0x80 && Next(s, 0).1 > 1
    ensures var (bytes, next) := Put(t, Next(s, 0).0, op);
      Piece(t, s, 0, op) == Step(bytes, Next(s, 0).1, 0, next) && |bytes| <= 2 && Next(s, 0).1 <= |s|
  {
    hide PagesOk, Put, Next;
  }

  lemma CopiedParts(was: seq<U8>, now: seq<U8>, w: nat, bytes: seq<U8>, k: nat, n: nat)
    requires w + |bytes| <= k <= n <= |was| && now == was[..w] + bytes + was[w + |bytes|..]
    ensures |now| == |was| && now[..w] == was[..w] && now[w..w + |bytes|] == bytes && now[k..n] == was[k..n]
  {
  }

  /** The step on a byte that starts no well-formed sequence, or is not to be decoded. */
  method InPlaceRaw(t: Pages, a: array<U8>, n: nat, r: nat, w: nat, ip: nat, op: nat)
    returns (r': nat, w': nat, ip': nat, op': nat)
    requires PagesOk(t) && w <= r < n <= a.Length && ip <= 4 && op <= 4
    requires !(a[r] >= 0x80 && ip == 0 && Next(a[r..n], 0).1 > 1)
    modifies a
    ensures w <= w' <= r' <= n && a[..w] == old(a[..w]) && a[r'..n] == old(a[r'..n])
    ensures r < r' && Stepped(t, old(a[r..n]), r - w, ip, op, a[w..w'], r' - r, ip', op')
  {
    hide PagesOk, Put, Next, Sel;
    var c := a[r];
    r', w', ip', op' := r + 1, w, ip, op;
    var sp := PageOfSel(c);
    if sp >= 0 {
      ip' := sp;
      if op != sp {
        a[w] := c;
        w', op' := w + 1, sp;
      }
      return;
    }
    if c < 0x20 && c != 10 && c != 9 { return; }
    if c >= 0x80 && op != ip {
      if w + 2 > r' {
        a[w] := QMARK;
        w' := w + 1;
        return;
      }
      a[w] := Sel(ip);
      w', op' := w + 1, ip;
    }
    a[w'] := c;
    w' := w' + 1;
  }

  lemma InPlacedStep(t: Pages, s: seq<U8>, i: nat, slack: nat, ip: nat, op: nat, out: seq<U8>, j: nat, ip': nat,
                     op': nat)
    requires PagesOk(t) && i < j && i < |s| && ip <= 4 && op <= 4
    requires Stepped(t, s[i..], slack, ip, op, out, j - i, ip', op')
    ensures j <= |s| && ip' <= 4 && op' <= 4 && slack + j - i >= |out|
    ensures InPlaced(t, s[i..], slack, ip, op) == out + InPlaced(t, s[j..], slack + j - i - |out|, ip', op')
  {
    hide PagesOk, Piece;
    assert s[i..][j - i..] == s[j..];
  }

  /** Where the text in a buffer ends. */
  method TextEnd(a: array<U8>, cap: nat) returns (n: nat)
    requires cap <= a.Length
    ensures n <= cap && NoNul(a[..n]) && (n == cap || a[n] == 0)
  {
    n := 0;
    while n < cap && a[n] != 0
      invariant n <= cap && NoNul(a[..n])
    {
      n := n + 1;
    }
  }

  /** `os_text_to_display_inplace`: the write index never passes the read index, so the result is a function of the text
      that was there, and is not longer. */
  method InPlace(t: Pages, a: array<U8>, cap: nat) returns (w: nat, n: nat)
    requires PagesOk(t) && cap <= a.Length
    modifies a
    ensures n <= cap && NoNul(old(a[..n])) && (n == cap || old(a[n]) == 0)
    ensures w <= n && a[..w] == InPlaced(t, old(a[..n]), 0, 0, 0) && (w < cap ==> a[w] == 0)
  {
    hide PagesOk, Stepped, InPlaced;
    n := TextEnd(a, cap);
    ghost var text := a[..n];
    ghost var all := InPlaced(t, text, 0, 0, 0);
    var r, ip, op := 0, 0, 0;
    w := 0;
    assert text[0..] == text;
    while r < n
      invariant w <= r <= n && ip <= 4 && op <= 4 && a[r..n] == text[r..]
      invariant all == a[..w] + InPlaced(t, text[r..], r - w, ip, op)
      decreases n - r
    {
      ghost var b, was, w0, r0, ip0, op0 := a[..], a[..w], w, r, ip, op;
      r, w, ip, op := InPlaceStep(t, a, n, r, w, ip, op);
      StillUnread(b, text, r0, r);
      InPlacedStep(t, text, r0, r0 - w0, ip0, op0, a[w0..w], r, ip, op);
      Extends(a[..], was, w0, w);
      Joined(all, was, a[w0..w], InPlaced(t, text[r..], r - w, ip, op), a[..w]);
    }
    InPlacedEnd(t, text[r..], r - w, ip, op);
    ghost var done := a[..w];
    if w < cap { a[w] := 0; }
    assert a[..w] == done;
  }

  lemma Extends(a: seq<U8>, was: seq<U8>, w0: nat, w: nat)
    requires w0 <= w <= |a| && a[..w0] == was
    ensures a[..w] == was + a[w0..w]
  {
  }

  lemma StillUnread(b: seq<U8>, text: seq<U8>, r0: nat, r: nat)
    requires r0 <= r <= |text| <= |b| && b[r0..|text|] == text[r0..]
    ensures b[r..|text|] == text[r..]
  {
    assert b[r..|text|] == b[r0..|text|][r - r0..] && text[r..] == text[r0..][r - r0..];
  }

  lemma InPlacedEnd(t: Pages, s: seq<U8>, slack: nat, ip: nat, op: nat)
    requires PagesOk(t) && ip <= 4 && op <= 4
    ensures s == [] ==> InPlaced(t, s, slack, ip, op) == []
  {
  }
}
