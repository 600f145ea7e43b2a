/** The line editor (kernel/line_edit.c) and the terminal it drives through put, left and reprompt. The terminal is one
    strip of cells with a cursor; a new line starts at the strip's end. */
module LineEdit {
  import opened Words

  const LINE_MAX: nat := 256
  const HISTORY: nat := 16
  const SPACE: U8 := 32
  const NEWLINE: U8 := 10
  const RETURN: U8 := 13
  const BACKSPACE: U8 := 8
  const TAB: U8 := 9
  const KEY_LEFT: U8 := 28
  const KEY_RIGHT: U8 := 29
  const KEY_UP: U8 := 30
  const KEY_DOWN: U8 := 31
  const KEY_HOME: U8 := 18
  const KEY_END: U8 := 19
  const KEY_DEL: U8 := 20

  /** The control keys that the editor knows. */
  const CONTROLS: set<U8> := {8, 9, 10, 13, 18, 19, 20, 28, 29, 30, 31}

  type Text = seq<U8>

  /** No control characters, so each character takes one cell. */
  predicate Plain(s: Text) { forall i :: 0 <= i < |s| ==> s[i] >= SPACE }

  // ---------------------------------------------------------------- the terminal

  /** s painted over the cells from pos on. */
  function Painted(cells: Text, pos: nat, s: Text): (r: Text)
    requires pos <= |cells|
    ensures |r| >= |cells| && pos + |s| <= |r|
  {
    cells[..pos] + s + if pos + |s| <= |cells| then cells[pos + |s|..] else []
  }

  class Terminal {
    var cells: Text
    var pos: nat
    const prompt: Text

    constructor (prompt: Text)
      ensures cells == [] && pos == 0 && this.prompt == prompt
    {
      cells, pos, this.prompt := [], 0, prompt;
    }

    method Put(c: U8)
      requires pos <= |cells|
      modifies this
      ensures pos <= |cells|
      ensures c >= SPACE ==> cells == Painted(old(cells), old(pos), [c]) && pos == old(pos) + 1
      ensures c == NEWLINE ==> cells == old(cells) + [c] && pos == |cells|
    {
      if c == NEWLINE {
        cells := cells + [c];
        pos := |cells|;
      } else {
        cells := cells[..pos] + [c] + if pos + 1 <= |cells| then cells[pos + 1..] else [];
        pos := pos + 1;
      }
    }

    method Left()
      requires 0 < pos <= |cells|
      modifies `pos
      ensures pos == old(pos) - 1
    {
      pos := pos - 1;
    }

    method Reprompt()
      requires pos == |cells|
      modifies this
      ensures cells == old(cells) + prompt && pos == |cells|
    {
      cells := cells + prompt;
      pos := |cells|;
    }
  }

  /** From origin on the screen shows the line and then blanks, with the cursor on position cur of the line. */
  predicate Shows(cells: Text, pos: nat, origin: nat, line: Text, cur: nat)
  {
    && cur <= |line| && origin + |line| <= |cells| && pos == origin + cur
    && cells[origin..origin + |line|] == line
    && forall i :: origin + |line| <= i < |cells| ==> cells[i] == SPACE
  }

  /** Painting the changed tail of a line, and blanks over what stuck out, shows the new line. */
  lemma RepaintShows(cells: Text, origin: nat, was: Text, from: nat, line: Text, p: nat, extra: nat, cur: nat)
    requires cur <= |line| && Shows(cells, origin + from, origin, was, from)
    requires p <= from && p <= |line| && was[..p] == line[..p]
    requires |line| + extra >= |was|
    ensures var cells' := Painted(Painted(cells, origin + p, line[p..]), origin + |line|, Blanks(extra));
            cells'[..origin] == cells[..origin] && Shows(cells', origin + cur, origin, line, cur)
  {
    var mid := Painted(cells, origin + p, line[p..]);
    var cells' := Painted(mid, origin + |line|, Blanks(extra));
    forall i | 0 <= i < |line| ensures cells'[origin + i] == line[i] {
      if i < p { assert cells[origin..origin + |was|][i] == was[..p][i]; }
    }
    assert cells'[origin..origin + |line|] == line;
  }

  function Blanks(n: nat): (s: Text)
    ensures |s| == n
  {
    seq(n, _ => SPACE)
  }

  // ---------------------------------------------------------------- history

  /** The ring of the last lines entered. */
  class History {
    const ring: array<Text>
    var n: nat
    ghost var all: seq<Text>

    ghost predicate Valid()
      reads this, ring
    {
      && ring.Length == HISTORY && n == |all|
      && (forall k :: 0 <= k < |all| ==> Plain(all[k]) && 0 < |all[k]| < LINE_MAX)
      && forall k :: 0 <= k < |all| && |all| - HISTORY <= k ==> ring[k % HISTORY] == all[k]
    }

    constructor ()
      ensures Valid() && all == [] && fresh(ring)
    {
      ring := new Text[HISTORY](_ => []);
      n, all := 0, [];
    }

    function Count(): nat
      reads this`n
    {
      if n < HISTORY then n else HISTORY
    }

    /** `hist_get`: the line entered `back` lines ago, for as many as the ring holds. */
    method Get(back: int) returns (found: bool, s: Text)
      requires Valid()
      ensures found <==> 0 <= back < Count()
      ensures found <==> 0 <= back < |all| && back < 16
      ensures found ==> s == all[|all| - 1 - back]
    {
      if back < 0 || back >= Count() { return false, []; }
      return true, ring[(n - 1 - back) % HISTORY];
    }

    /** `hist_add`: empty lines and repetitions of the newest are not recorded. */
    method Add(s: Text)
      requires Valid() && Plain(s) && |s| < LINE_MAX
      modifies this, ring
      ensures Valid()
      ensures all == if s == [] || (old(all) != [] && old(all)[|old(all)| - 1] == s) then old(all) else old(all) + [s]
    {
      var found, last := Get(0);
      if s == [] { return; }
      if found && last == s { return; }
      ring[n % HISTORY] := s;
      all := all + [s];
      n := n + 1;
      forall k | 0 <= k < |all| - 1 && |all| - HISTORY <= k ensures ring[k % HISTORY] == all[k] {
        Apart(k, |all| - 1);
      }
    }
  }

  lemma Apart(j: nat, k: nat)
    requires j < k < j + HISTORY
    ensures j % HISTORY != k % HISTORY
  {
  }

  lemma PaintMore(cells: Text, pos: nat, s: Text, t: Text)
    requires pos <= |cells|
    ensures Painted(Painted(cells, pos, s), pos + |s|, t) == Painted(cells, pos, s + t)
  {
  }

  lemma PaintNothing(cells: Text, pos: nat)
    requires pos <= |cells|
    ensures Painted(cells, pos, []) == cells
  {
  }

  // ---------------------------------------------------------------- what keys do to a line

  function InsertAt(line: Text, p: nat, s: Text): Text
    requires p <= |line|
  {
    line[..p] + s + line[p..]
  }

  function DeleteAt(line: Text, p: nat): Text
    requires p < |line|
  {
    line[..p] + line[p + 1..]
  }

  /** What fits of s behind a line of this length. */
  function Fitting(s: Text, len: nat, size: int): (r: Text)
    ensures len + |r| < size || r == []
  {
    if len + |s| <= size - 1 then s else if size - 1 - len > 0 then s[..size - 1 - len] else []
  }

  /** Opens a gap of n at p, the terminator at len moving along. */
  method OpenGap(buf: array<U8>, p: nat, len: nat, n: nat)
    requires p <= len && len + n < buf.Length
    modifies buf
    ensures forall k :: p <= k <= len ==> buf[k + n] == old(buf[k])
    ensures forall k :: 0 <= k < p ==> buf[k] == old(buf[k])
  {
    var i: int := len;
    while i >= p
      invariant p - 1 <= i <= len
      invariant forall k :: i < k <= len ==> buf[k + n] == old(buf[k])
      invariant forall k :: 0 <= k < i + 1 + n ==> buf[k] == old(buf[k])
    {
      buf[i + n] := buf[i];
      i := i - 1;
    }
  }

  method FillGap(buf: array<U8>, p: nat, s: Text)
    requires p + |s| <= buf.Length
    modifies buf
    ensures buf[p..p + |s|] == s && forall k :: 0 <= k < p || p + |s| <= k < buf.Length ==> buf[k] == old(buf[k])
  {
    for i := 0 to |s|
      invariant buf[p..p + i] == s[..i] && forall k :: 0 <= k < p || p + |s| <= k < buf.Length ==> buf[k] == old(buf[k])
    {
      buf[p + i] := s[i];
    }
  }

  /** Puts s in at p. */
  method MakeRoom(buf: array<U8>, p: nat, len: nat, s: Text)
    requires p <= len && len + |s| < buf.Length
    modifies buf
    ensures buf[..len + |s|] == old(InsertAt(buf[..len], p, s))
  {
    hide InsertAt;
    ghost var line := buf[..len];
    OpenGap(buf, p, len, |s|);
    FillGap(buf, p, s);
    Gapped(line, p, s, buf[..]);
  }

  /** Removes the byte at p, the terminator at len moving along. */
  method CloseGap(buf: array<U8>, p: nat, len: nat)
    requires p < len < buf.Length
    modifies buf
    ensures buf[..len - 1] == old(DeleteAt(buf[..len], p)) && buf[len - 1] == old(buf[len])
  {
    for i := p to len
      invariant forall k :: p <= k < i ==> buf[k] == old(buf[k + 1])
      invariant forall k :: 0 <= k < p || i <= k < buf.Length ==> buf[k] == old(buf[k])
    {
      buf[i] := buf[i + 1];
    }
  }

  /** `le_strcpy` into a buffer of max bytes. */
  method CopyText(buf: array<U8>, s: Text, max: int)
    requires buf.Length > 0 && max <= buf.Length
    modifies buf
    ensures var t := Fitting(s, 0, max); |t| < buf.Length && buf[..|t|] == t && buf[|t|] == 0
  {
    var i := 0;
    while i < |s| && i < max - 1
      invariant 0 <= i <= |s| && (i == 0 || i < max) && buf[..i] == s[..i]
    {
      buf[i] := s[i];
      i := i + 1;
    }
    buf[i] := 0;
    assert Fitting(s, 0, max) == s[..i];
  }

  /** `le_strlen`. */
  method TextLength(buf: array<U8>, ghost t: Text) returns (n: nat)
    requires |t| < buf.Length && buf[..|t|] == t && buf[|t|] == 0 && Plain(t)
    ensures n == |t|
  {
    n := 0;
    assert forall k :: 0 <= k < |t| ==> buf[..|t|][k] != 0;
    while buf[n] != 0
      invariant n <= |t| && forall k :: 0 <= k < |t| ==> buf[k] != 0
      decreases |t| - n
    {
      n := n + 1;
    }
  }

  // ---------------------------------------------------------------- completion

  /** The words that begin with p, in order. */
  ghost function Candidates(words: seq<Text>, p: Text): seq<Text>
  {
    if words == [] then []
    else Candidates(words[..|words| - 1], p) + if p <= words[|words| - 1] then [words[|words| - 1]] else []
  }

  /** The first k characters are common to all. */
  ghost predicate Shared(cands: seq<Text>, k: nat)
  {
    cands != [] && forall i :: 0 <= i < |cands| ==> k <= |cands[i]| && k <= |cands[0]| && cands[i][..k] == cands[0][..k]
  }

  ghost predicate IsLongest(cands: seq<Text>, c: nat)
  {
    Shared(cands, c) && forall k: nat :: Shared(cands, k) ==> k <= c
  }

  /** The length of the longest common prefix. */
  ghost function Longest(cands: seq<Text>): (c: nat)
    requires cands != []
    ensures IsLongest(cands, c)
  {
    LongestExists(cands, |cands[0]|);
    var c :| IsLongest(cands, c);
    c
  }

  lemma {:induction false} LongestExists(cands: seq<Text>, bound: nat)
    requires cands != [] && forall k: nat :: Shared(cands, k) ==> k <= bound
    ensures exists c :: IsLongest(cands, c)
    decreases bound
  {
    assert Shared(cands, 0);
    if Shared(cands, bound) {
      assert IsLongest(cands, bound);
    } else {
      LongestExists(cands, bound - 1);
    }
  }

  /** One more word: what it shares with the first, up to what was shared before, is what all share now. */
  lemma LongestStep(cands: seq<Text>, w: Text, c: nat, k: nat)
    requires IsLongest(cands, c) && k <= c && k <= |w| && w[..k] == cands[0][..k]
    requires k == c || k == |w| || w[k] != cands[0][k]
    ensures IsLongest(cands + [w], k)
  {
    var more := cands + [w];
    forall i | 0 <= i < |more| ensures k <= |more[i]| && more[i][..k] == more[0][..k] {
      if i < |cands| { assert cands[i][..k] == cands[i][..c][..k]; }
    }
    forall j: nat | Shared(more, j) ensures j <= k {
      assert more[|cands|] == w && more[0] == cands[0];
      forall i | 0 <= i < |cands| ensures j <= |cands[i]| &&
        cands[i][..j] == cands[0][..j] { assert more[i] == cands[i]; }
      assert Shared(cands, j);
    }
  }

  /** What Tab makes of a line whose first word, up to the cursor, has these candidates: the common prefix is filled in,
      and a blank follows a completed word at the line's end. */
  ghost function Completed(line: Text, cur: nat, size: int, cands: seq<Text>): (r: (Text, nat))
    requires cands != [] && cur <= |line| && forall i :: 0 <= i < |cands| ==> line[..cur] <= cands[i]
    ensures r.1 <= |r.0|
  {
    var c := Longest(cands);
    var t := if c > cur then Fitting(cands[0][cur..c], |line|, size) else [];
    var one, at := InsertAt(line, cur, t), cur + |t|;
    if |cands| == 1 && at == |one| then (one + Fitting([SPACE], |one|, size), at + |Fitting([SPACE], |one|, size)|)
      else (one, at)
  }

  predicate FirstWord(line: Text, cur: nat)
    requires cur <= |line|
  {
    forall i :: 0 <= i < cur ==> line[i] != SPACE
  }

  /** Tab on the line and cursor: nothing but in the first word and with a candidate. */
  ghost function Tabbed(words: seq<Text>, line: Text, cur: nat, size: int): (r: (Text, nat))
    requires cur <= |line|
    ensures r.1 <= |r.0|
  {
    CandidatesBegin(words, line[..cur]);
    var cands := Candidates(words, line[..cur]);
    if !FirstWord(line, cur) || cands == [] then (line, cur) else Completed(line, cur, size, cands)
  }

  /** The candidates are the words that begin with p, each as often as it is there. */
  lemma {:induction false} CandidatesAre(words: seq<Text>, p: Text)
    ensures forall i :: 0 <= i < |words| && p <= words[i] ==> words[i] in Candidates(words, p)
    ensures forall w :: w in Candidates(words, p) ==> w in words && p <= w
  {
    if words != [] {
      var init := words[..|words| - 1];
      CandidatesAre(init, p);
      forall i | 0 <= i < |words| && p <= words[i] ensures words[i] in Candidates(words, p) {
        if i < |init| { assert init[i] == words[i]; }
      }
    }
  }

  lemma {:induction false} CandidatesFew(words: seq<Text>, p: Text)
    ensures |Candidates(words, p)| <= 1 <==>
      forall i, j :: 0 <= i < j < |words| ==> !(p <= words[i] && p <= words[j])
  {
    if words != [] {
      var k := |words| - 1;
      var init := words[..k];
      CandidatesFew(init, p);
      CandidatesAre(init, p);
      if Candidates(init, p) != [] && p <= words[k] {
        var w := Candidates(init, p)[0];
        assert w in init && p <= w;
        var i :| 0 <= i < |init| && init[i] == w;
        assert p <= words[i] && p <= words[k];
      } else {
        forall i, j | 0 <= i < j < |words| && p <= words[i] && p <= words[j] ensures |Candidates(words, p)| > 1 {
          if j < k {
            assert init[i] == words[i] && init[j] == words[j];
          } else {
            assert init[i] in Candidates(init, p);
          }
        }
        if |Candidates(words, p)| > 1 && |Candidates(init, p)| > 1 {
          var i, j :| 0 <= i < j < |init| && p <= init[i] && p <= init[j];
          assert p <= words[i] && p <= words[j];
        }
      }
    }
  }

  /** What Tab does, on the words themselves: nothing behind a blank or where no word begins with what is typed.
      Otherwise e is filled in, as far as it fits: all those words go on with e and with no character beyond it in
      common. A blank follows the only such word at the end of the line. */
  lemma TabLaw(words: seq<Text>, line: Text, cur: nat, size: int) returns (e: Text)
    requires cur <= |line|
    ensures var p, r := line[..cur], Tabbed(words, line, cur, size);
      if (exists i :: 0 <= i < cur && line[i] == 32) || (forall i :: 0 <= i < |words| ==> !(p <= words[i]))
      then r == (line, cur)
      else
        var room := if size - 1 > |line| then size - 1 - |line| else 0;
        var t := if |e| <= room then e else e[..room];
        var only := forall i, j :: 0 <= i < j < |words| ==> !(p <= words[i] && p <= words[j]);
        var blank := only && cur == |line| && |t| < room;
        && (forall i :: 0 <= i < |words| && p <= words[i] ==> p + e <= words[i])
        && (forall x: U8 :: exists i :: 0 <= i < |words| && p <= words[i] && !(p + e + [x] <= words[i]))
        && r == (line[..cur] + t + line[cur..] + (if blank then [32] else []), cur + |t| + if blank then 1 else 0)
  {
    hide Candidates, IsLongest, Longest, Completed;
    var p := line[..cur];
    var cands := Candidates(words, p);
    CandidatesBegin(words, p);
    CandidatesFew(words, p);
    NoCandidates(words, p);
    e := [];
    if FirstWord(line, cur) && cands != [] {
      e := CommonPart(words, line, cur);
      CompletedIs(line, cur, size, cands, e);
    }
  }

  lemma NoCandidates(words: seq<Text>, p: Text)
    ensures Candidates(words, p) == [] <==> forall i :: 0 <= i < |words| ==> !(p <= words[i])
  {
    hide Candidates;
    CandidatesAre(words, p);
    if Candidates(words, p) != [] { assert Candidates(words, p)[0] in words && p <= Candidates(words, p)[0]; }
  }

  lemma CommonPart(words: seq<Text>, line: Text, cur: nat) returns (e: Text)
    requires cur <= |line| && Candidates(words, line[..cur]) != []
    ensures var p, cands := line[..cur], Candidates(words, line[..cur]);
      && (forall i :: 0 <= i < |cands| ==> p <= cands[i])
      && cur <= Longest(cands) <= |cands[0]| && e == cands[0][cur..Longest(cands)]
      && (forall i :: 0 <= i < |words| && p <= words[i] ==> p + e <= words[i])
      && (forall x: U8 :: exists i :: 0 <= i < |words| && p <= words[i] && !(p + e + [x] <= words[i]))
  {
    hide Candidates, IsLongest, Longest;
    var p := line[..cur];
    var cands := Candidates(words, p);
    CandidatesBegin(words, p);
    CandidatesAre(words, p);
    var c := Longest(cands);
    TypedIsShared(cands, p, c);
    e := cands[0][cur..c];
    LongestEnds(words, p, cands, c, e);
  }

  lemma CompletedIs(line: Text, cur: nat, size: int, cands: seq<Text>, e: Text)
    requires cands != [] && cur <= |line| && forall i :: 0 <= i < |cands| ==> line[..cur] <= cands[i]
    requires cur <= Longest(cands) <= |cands[0]| && e == cands[0][cur..Longest(cands)]
    ensures var room := if size - 1 > |line| then size - 1 - |line| else 0;
      var t := if |e| <= room then e else e[..room];
      var blank := |cands| <= 1 && cur == |line| && |t| < room;
      Completed(line, cur, size, cands) ==
      (line[..cur] + t + line[cur..] + (if blank then [32] else []), cur + |t| + if blank then 1 else 0)
  {
    hide IsLongest, Longest;
    var room := if size - 1 > |line| then size - 1 - |line| else 0;
    var t := if |e| <= room then e else e[..room];
    var one := InsertAt(line, cur, t);
    assert Fitting(e, |line|, size) == t;
    assert one + [] == one && Fitting([SPACE], |one|, size) == if |t| < room then [32] else [];
  }

  lemma TypedIsShared(cands: seq<Text>, p: Text, c: nat)
    requires IsLongest(cands, c) && forall i :: 0 <= i < |cands| ==> p <= cands[i]
    ensures |p| <= c <= |cands[0]|
  {
    assert Shared(cands, |p|);
  }

  lemma LongestEnds(words: seq<Text>, p: Text, cands: seq<Text>, c: nat, e: Text)
    requires cands != [] && IsLongest(cands, c) && |p| <= c <= |cands[0]| && e == cands[0][|p|..c]
    requires forall i :: 0 <= i < |words| && p <= words[i] ==> words[i] in cands
    requires forall w :: w in cands ==> w in words && p <= w
    ensures exists i :: 0 <= i < |words| && p <= words[i]
    ensures forall i :: 0 <= i < |words| && p <= words[i] ==> p + e <= words[i]
    ensures forall x: U8 :: exists i :: 0 <= i < |words| && p <= words[i] && !(p + e + [x] <= words[i])
  {
    assert cands[0] in words && p <= cands[0];
    assert p + e == cands[0][..c];
    forall w | w in cands ensures p + e <= w {
      var i :| 0 <= i < |cands| && cands[i] == w;
      assert cands[i][..c] == cands[0][..c];
    }
    forall x: U8 ensures exists i :: 0 <= i < |words| && p <= words[i] && !(p + e + [x] <= words[i]) {
      if forall w :: w in cands ==> p + e + [x] <= w {
        forall i | 0 <= i < |cands| ensures c + 1 <= |cands[i]| && cands[i][..c + 1] == cands[0][..c + 1] {
          assert cands[i] in cands && cands[0] in cands;
          assert cands[i][..c + 1] == p + e + [x];
          assert cands[0][..c + 1] == p + e + [x];
        }
        assert Shared(cands, c + 1);
        assert false;
      }
      var w :| w in cands && !(p + e + [x] <= w);
      var i :| 0 <= i < |words| && words[i] == w;
    }
  }

  /** Several candidates that share nothing more than what is typed: the case in which a second Tab lists them. */
  ghost predicate Ambiguous(words: seq<Text>, line: Text, cur: nat)
    requires cur <= |line|
  {
    var cands := Candidates(words, line[..cur]);
    FirstWord(line, cur) && |cands| > 1 && Longest(cands) == cur
  }

  /** On the words themselves: no blank stands before the cursor, two words begin with what is typed, and no character
      goes on in all that do. */
  lemma AmbiguousLaw(words: seq<Text>, line: Text, cur: nat)
    requires cur <= |line|
    ensures var p := line[..cur];
      Ambiguous(words, line, cur) <==>
      && (forall i :: 0 <= i < cur ==> line[i] != 32)
      && (exists i, j :: 0 <= i < j < |words| && p <= words[i] && p <= words[j])
      && (forall x: U8 :: exists i :: 0 <= i < |words| && p <= words[i] && !(p + [x] <= words[i]))
  {
    hide Candidates, IsLongest, Longest;
    var p := line[..cur];
    var cands := Candidates(words, p);
    CandidatesBegin(words, p);
    CandidatesAre(words, p);
    CandidatesFew(words, p);
    if |cands| > 1 {
      var c := Longest(cands);
      TypedIsShared(cands, p, c);
      var e := cands[0][cur..c];
      LongestEnds(words, p, cands, c, e);
      if c == cur {
        assert e == [] && p + e == p;
      } else {
        forall i | 0 <= i < |words| && p <= words[i] ensures p + [e[0]] <= words[i] {
          assert p + e <= words[i] && p + [e[0]] <= p + e;
        }
      }
    }
  }

  /** Whether a Tab counts as the first of two: it does on an ambiguous word, and past the first word nothing changes.
      */
  ghost predicate TabKept(words: seq<Text>, line: Text, cur: nat, was: bool)
    requires cur <= |line|
  {
    if !FirstWord(line, cur) then was else Ambiguous(words, line, cur) && !was
  }

  /** The list of candidates as printed, two blanks after each and a new line where the next would pass column 78; and
      the column behind it. */
  ghost function Listed(words: seq<Text>, p: Text): (Text, nat)
  {
    if words == [] then ([], 0)
    else
      var (t, col) := Listed(words[..|words| - 1], p);
      var w := words[|words| - 1];
      if !(p <= w) then (t, col)
      else if col > 0 && col + |w| + 2 > 78 then (t + [NEWLINE] + w + [SPACE, SPACE], |w| + 2)
      else (t + w + [SPACE, SPACE], col + |w| + 2)
  }

  function Unbroken(t: Text): Text
  {
    if t == [] then [] else Unbroken(t[..|t| - 1]) + if t[|t| - 1] == 10 then [] else [t[|t| - 1]]
  }

  function Spread(ws: seq<Text>): Text
  {
    if ws == [] then [] else Spread(ws[..|ws| - 1]) + ws[|ws| - 1] + [32, 32]
  }

  lemma {:induction false} UnbrokenParts(t: Text, u: Text)
    requires forall i :: 0 <= i < |u| ==> u[i] != 10
    ensures Unbroken(t + u) == Unbroken(t) + u && Unbroken(t + [10]) == Unbroken(t)
  {
    assert (t + [10])[..|t|] == t;
    if u == [] {
      assert t + u == t;
    } else {
      var k := |u| - 1;
      UnbrokenParts(t, u[..k]);
      assert (t + u)[..|t + u| - 1] == t + u[..k] && u == u[..k] + [u[k]];
    }
  }

  /** The list as printed is every candidate in order with two blanks behind it, apart from the line breaks. */
  lemma {:induction false} ListedLaw(words: seq<Text>, p: Text)
    requires forall i :: 0 <= i < |words| ==> Plain(words[i])
    ensures Unbroken(Listed(words, p).0) == Spread(Candidates(words, p))
  {
    hide Unbroken, Spread, Plain;
    if words == [] {
      NothingListed();
    } else {
      var k := |words| - 1;
      var w, cands := words[k], Candidates(words[..k], p);
      ListedLaw(words[..k], p);
      if p <= w {
        WordAdded(Listed(words[..k], p).0, w);
        SpreadMore(cands, w);
        assert Candidates(words, p) == cands + [w];
      } else {
        assert Candidates(words, p) == cands + [] == cands;
      }
    }
  }

  /** The column is what stands on the last line, which has at most 78 columns or a single word. */
  lemma {:induction false} ListedColumn(words: seq<Text>, p: Text)
    requires forall i :: 0 <= i < |words| ==> Plain(words[i])
    ensures var (t, col) := Listed(words, p);
      && col <= |t| && (col == |t| || t[|t| - col - 1] == 10) && (forall i :: |t| - col <= i < |t| ==> t[i] != 10)
      && (col <= 78 || exists i :: 0 <= i < |words| && p <= words[i] && col == |words[i]| + 2)
  {
    if words != [] {
      var k := |words| - 1;
      var (t, col) := Listed(words[..k], p);
      ListedColumn(words[..k], p);
      if p <= words[k] {
        ColumnAdded(t, col, words[k]);
      } else if col > 78 {
        var i :| 0 <= i < k && p <= words[..k][i] && col == |words[..k][i]| + 2;
        assert p <= words[i] && col == |words[i]| + 2;
      }
    }
  }

  lemma ColumnAdded(t: Text, col: nat, w: Text)
    requires Plain(w) && col <= |t| && (col == |t| || t[|t| - col - 1] == 10)
    requires forall i :: |t| - col <= i < |t| ==> t[i] != 10
    ensures var u := t + w + [SPACE, SPACE];
      && |u| == |t| + |w| + 2 && (col == |t| || u[|t| - col - 1] == 10)
      && (forall i :: |t| - col <= i < |u| ==> u[i] != 10)
    ensures var u := t + [NEWLINE] + w + [SPACE, SPACE];
      |u| == |t| + |w| + 3 && u[|t|] == 10 && (forall i :: |t| < i < |u| ==> u[i] != 10)
  {
  }

  lemma NothingListed()
    ensures Unbroken([]) == [] && Spread([]) == []
  {
  }

  lemma WordAdded(t: Text, w: Text)
    requires Plain(w)
    ensures Unbroken(t + w + [SPACE, SPACE]) == Unbroken(t) + w + [32, 32]
    ensures Unbroken(t + [NEWLINE] + w + [SPACE, SPACE]) == Unbroken(t) + w + [32, 32]
  {
    hide Unbroken;
    var u := w + [32, 32];
    UnbrokenParts(t, u);
    UnbrokenParts(t + [10], u);
    assert t + w + [SPACE, SPACE] == t + u && t + [NEWLINE] + w + [SPACE, SPACE] == t + [10] + u;
    assert Unbroken(t) + u == Unbroken(t) + w + [32, 32];
  }

  lemma SpreadMore(ws: seq<Text>, w: Text)
    ensures Spread(ws + [w]) == Spread(ws) + w + [32, 32]
  {
    assert (ws + [w])[..|ws|] == ws;
  }

  /** What a double Tab adds to the screen: the list on lines of its own, the prompt and the line. */
  ghost function Relisted(words: seq<Text>, line: Text, cur: nat, prompt: Text): Text
    requires cur <= |line|
  {
    [NEWLINE] + Listed(words, line[..cur]).0 + [NEWLINE] + prompt + line
  }

  lemma TabIs(words: seq<Text>, line: Text, cur: nat, was: bool)
    requires cur <= |line|
    ensures TabKept(words, line, cur, was) ==
      if exists i :: 0 <= i < cur && line[i] == 32 then was else !was && Ambiguous(words, line, cur)
  {
    hide Ambiguous;
  }

  lemma RelistedText(words: seq<Text>, line: Text, cur: nat, prompt: Text, cells: Text)
    requires cur <= |line|
    ensures cells + Relisted(words, line, cur, prompt) ==
      cells + [10] + Listed(words, line[..cur]).0 + [10] + prompt + line
  {
    hide Listed;
  }

  /** What a key makes of the line and the cursor, on its own: all keys but the history keys and Enter. */
  ghost function Typed(words: seq<Text>, line: Text, cur: nat, size: int, c: U8): (r: (Text, nat))
    requires cur <= |line|
    ensures r.1 <= |r.0|
  {
    if c == BACKSPACE then (if cur > 0 then (DeleteAt(line, cur - 1), cur - 1) else (line, cur))
    else if c == KEY_DEL then (if cur < |line| then (DeleteAt(line, cur), cur) else (line, cur))
    else if c == KEY_LEFT then (line, if cur > 0 then cur - 1 else 0)
    else if c == KEY_RIGHT then (line, if cur < |line| then cur + 1 else cur)
    else if c == KEY_HOME then (line, 0)
    else if c == KEY_END then (line, |line|)
    else if c == TAB then Tabbed(words, line, cur, size)
    else if 32 <= c <= 126 then (InsertAt(line, cur, Fitting([c], |line|, size)), cur + |Fitting([c], |line|, size)|)
    else (line, cur)
  }

  /** The editor as its user sees it; histPos is -1 on the live line. */
  datatype View = View(line: Text, cur: nat, histPos: int, saved: Text)

  function Recent(all: seq<Text>): nat { if |all| < HISTORY then |all| else HISTORY }

  /** The cursor is in the line, and the line browsed is one of the recent ones. */
  predicate Sensible(v: View, all: seq<Text>) { v.cur <= |v.line| && -1 <= v.histPos < Recent(all) }

  /** What any key short of Enter does, with `all` the lines entered so far. */
  ghost function Pressed(v: View, words: seq<Text>, all: seq<Text>, size: int, c: U8): (r: View)
    requires Sensible(v, all)
    ensures Sensible(r, all)
  {
    if c == KEY_UP then
      if v.histPos + 1 >= Recent(all) then v
      else var h := Fitting(all[|all| - 2 - v.histPos], 0, size);
           View(h, |h|, v.histPos + 1, if v.histPos < 0 then v.line else v.saved)
    else if c == KEY_DOWN then
      if v.histPos < 0 then v
      else var h := if v.histPos == 0 then v.saved else Fitting(all[|all| - v.histPos], 0, size);
           View(h, |h|, v.histPos - 1, v.saved)
    else var t := Typed(words, v.line, v.cur, size, c); v.(line := t.0, cur := t.1)
  }

  /** What a sequence of keys short of Enter does. */
  ghost function AllPressed(v: View, words: seq<Text>, all: seq<Text>, size: int, keys: seq<U8>): (r: View)
    requires Sensible(v, all)
    ensures Sensible(r, all)
  {
    if keys == [] then v
      else Pressed(AllPressed(v, words, all, size, keys[..|keys| - 1]), words, all, size, keys[|keys| - 1])
  }

  /** What each key does to the line and the cursor, character by character. */
  lemma PressedLine(v: View, words: seq<Text>, all: seq<Text>, size: int, c: U8)
    requires Sensible(v, all)
    ensures var t, l := Pressed(v, words, all, size, c), v.line;
      && (c == BACKSPACE && v.cur > 0 ==> t.line == l[..v.cur - 1] + l[v.cur..] && t.cur == v.cur - 1)
      && (c == KEY_DEL && v.cur < |l| ==> t.line == l[..v.cur] + l[v.cur + 1..] && t.cur == v.cur)
      && (32 <= c <= 126 && |l| + 1 < size ==> t.line == l[..v.cur] + [c] + l[v.cur..] && t.cur == v.cur + 1)
      && (c == KEY_LEFT ==> t.line == l && t.cur == if v.cur == 0 then 0 else v.cur - 1)
      && (c == KEY_RIGHT ==> t.line == l && t.cur == if v.cur == |l| then |l| else v.cur + 1)
      && (c == KEY_HOME ==> t.line == l && t.cur == 0) && (c == KEY_END ==> t.line == l && t.cur == |l|)
      && (c == BACKSPACE && v.cur == 0 ==> t.line == l && t.cur == v.cur)
      && (c == KEY_DEL && v.cur == |l| ==> t.line == l && t.cur == v.cur)
      && (32 <= c <= 126 && |l| + 1 >= size ==> t.line == l && t.cur == v.cur)
      && (!(32 <= c <= 126) && c !in CONTROLS ==> t.line == l && t.cur == v.cur)
      && (c != KEY_UP && c != KEY_DOWN ==> t.histPos == v.histPos && t.saved == v.saved)
  {
    hide Tabbed;
    if 32 <= c <= 126 {
      assert v.line == v.line[..v.cur] + v.line[v.cur..];
      assert v.line[..v.cur] + [] == v.line[..v.cur];
    }
  }

  /** What Up and Down do: one line further back or forward, as far as it fits, and the live line kept aside. */
  lemma PressedHistory(v: View, words: seq<Text>, all: seq<Text>, size: int, c: U8)
    requires Sensible(v, all)
    ensures var t := Pressed(v, words, all, size, c);
      && (c == KEY_UP && (v.histPos + 1 == |all| || v.histPos + 1 == 16) ==> t == v)
      && (c == KEY_UP && v.histPos + 1 < |all| && v.histPos + 1 < 16 ==>
            && t.line <= all[|all| - 2 - v.histPos]
            && (|t.line| == |all[|all| - 2 - v.histPos]| || |t.line| + 1 >= size) && (|t.line| < size || t.line == [])
            && t == View(t.line, |t.line|, v.histPos + 1, if v.histPos == -1 then v.line else v.saved))
      && (c == KEY_DOWN && v.histPos == -1 ==> t == v)
      && (c == KEY_DOWN && v.histPos == 0 ==> t == View(v.saved, |v.saved|, -1, v.saved))
      && (c == KEY_DOWN && v.histPos > 0 ==>
            && t.line <= all[|all| - v.histPos]
            && (|t.line| == |all[|all| - v.histPos]| || |t.line| + 1 >= size) && (|t.line| < size || t.line == [])
            && t == View(t.line, |t.line|, v.histPos - 1, v.saved))
  {
    hide Typed;
  }

  class Editor {
    const buf: array<U8>
    var len: nat
    var cur: nat
    const size: int
    var histPos: int
    var saved: Text
    var lastTab: bool
    var noHist: bool
    const words: seq<Text>
    const hasPrompt: bool
    const io: Terminal
    const hist: History
    ghost var origin: nat

    /** The buffer holds a terminated line that fits, with the cursor in it. */
    ghost predicate Fields()
      reads this, buf, hist, hist.ring
    {
      && buf.Length == LINE_MAX && size <= LINE_MAX && cur <= len && (len == 0 || len < size)
      && buf[len] == 0 && Plain(buf[..len]) && Plain(saved) && (saved == [] || |saved| < size)
      && (forall i :: 0 <= i < |words| ==> Plain(words[i]))
      && hist.Valid() && -1 <= histPos < hist.Count()
    }

    ghost predicate Screen()
      reads this, buf, io
      requires len <= buf.Length
    {
      Shows(io.cells, io.pos, origin, buf[..len], cur)
    }

    ghost predicate Valid()
      reads this, buf, io, hist, hist.ring
    {
      Fields() && Screen()
    }

    ghost function Seen(): View
      reads this, buf
      requires len <= buf.Length
    {
      View(buf[..len], cur, histPos, saved)
    }

    ghost function Line(): Text
      reads this, buf
      requires len <= buf.Length
    {
      buf[..len]
    }

    /** `line_edit_begin`. */
    constructor (size: int, words: seq<Text>, hasPrompt: bool, io: Terminal, hist: History, noHist: bool)
      requires hist.Valid() && io.pos == |io.cells| && forall i :: 0 <= i < |words| ==> Plain(words[i])
      ensures Valid() && Line() == [] && cur == 0 && histPos == -1 && fresh(buf) && this.io == io && this.hist == hist
      ensures origin == io.pos && this.words == words && this.size == if size > LINE_MAX then LINE_MAX else size
    {
      buf := new U8[LINE_MAX](_ => 0);
      len, cur, histPos, saved, lastTab := 0, 0, -1, [], false;
      this.size := if size > LINE_MAX then LINE_MAX else size;
      this.words, this.hasPrompt, this.io, this.hist, this.noHist := words, hasPrompt, io, hist, noHist;
      origin := io.pos;
    }

    /** `mv_left`. */
    method MoveLeft(n: int)
      requires n <= io.pos <= |io.cells|
      modifies io`pos
      ensures io.pos == old(io.pos) - (if n > 0 then n else 0)
    {
      var k := n;
      while k > 0
        invariant k <= n && (if n >= 0 then k >= 0 else k == n)
        invariant io.pos == old(io.pos) - (n - k) && k <= io.pos <= |io.cells|
      {
        k := k - 1;
        io.Left();
      }
    }

    /** Puts the characters from i up to j. */
    method PutRange(i: nat, j: nat)
      requires i <= j <= buf.Length && Plain(buf[i..j]) && io.pos <= |io.cells|
      modifies io
      ensures io.cells == Painted(old(io.cells), old(io.pos), buf[i..j]) && io.pos == old(io.pos) + (j - i)
    {
      hide Painted;
      PaintNothing(io.cells, io.pos);
      for k := i to j
        invariant io.pos == old(io.pos) + (k - i) <= |io.cells|
        invariant io.cells == Painted(old(io.cells), old(io.pos), buf[i..k])
      {
        assert buf[i..j][k - i] == buf[k];
        io.Put(buf[k]);
        PaintMore(old(io.cells), old(io.pos), buf[i..k], [buf[k]]);
        assert buf[i..k] + [buf[k]] == buf[i..k + 1];
      }
    }

    method PutBlanks(n: nat)
      requires io.pos <= |io.cells|
      modifies io
      ensures io.cells == Painted(old(io.cells), old(io.pos), Blanks(n)) && io.pos == old(io.pos) + n
    {
      hide Painted;
      PaintNothing(io.cells, io.pos);
      for k := 0 to n
        invariant io.pos == old(io.pos) + k <= |io.cells|
        invariant io.cells == Painted(old(io.cells), old(io.pos), Blanks(k))
      {
        io.Put(SPACE);
        PaintMore(old(io.cells), old(io.pos), Blanks(k), [SPACE]);
        assert Blanks(k) + [SPACE] == Blanks(k + 1);
      }
    }

    /** `redraw`: the screen showed `was` with the cursor at `from`; afterwards it shows the line. */
    method Redraw(from: nat, p: nat, extra: nat, ghost was: Text)
      requires cur <= len <= buf.Length && Plain(buf[..len]) && p <= from && p <= len
      requires Shows(io.cells, io.pos, origin, was, from) && was[..p] == buf[..p] && len + extra >= |was|
      modifies io
      ensures Screen() && io.cells[..origin] == old(io.cells[..origin])
    {
      hide Painted, Plain;
      ghost var cells := io.cells;
      RepaintShows(cells, origin, was, from, buf[..len], p, extra, cur);
      PlainTail(buf[..len], p);
      assert buf[..len][p..] == buf[p..len];
      MoveLeft(from - p);
      PutRange(p, len);
      PutBlanks(extra);
      MoveLeft(len + extra - cur);
    }

    /** The buffer part of `insert`. */
    method InsertBytes(s: Text)
      requires Fields() && Plain(s) && |s| > 0 && len + |s| < size
      modifies buf, `len, `cur
      ensures Fields() && Line() == InsertAt(old(Line()), old(cur), s) && cur == old(cur) + |s|
    {
      hide Plain, InsertAt;
      ghost var line := buf[..len];
      MakeRoom(buf, cur, len, s);
      InsertParts(line, cur, s);
      InsertLength(line, cur, s);
      len := len + |s|;
      buf[len] := 0;
      assert buf[..len] == InsertAt(line, cur, s);
      cur := cur + |s|;
    }

    /** `replace_all`, also `line_edit_set`: the line is s, as far as it fits, with the cursor at its end. */
    method ReplaceAll(s: Text)
      requires Valid() && Plain(s)
      modifies buf, `len, `cur, io
      ensures Valid() && io.cells[..origin] == old(io.cells[..origin])
      ensures Line() == Fitting(s, 0, size) && cur == len
    {
      hide Plain, Painted;
      ghost var line, t := buf[..len], Fitting(s, 0, size);
      var was, from := len, cur;
      FittingPlain(s, 0, size);
      CopyText(buf, s, size);
      len := TextLength(buf, t);
      cur := len;
      Redraw(from, 0, if was > len then was - len else 0, line);
    }

    /** `insert`: as much of s as fits goes in at the cursor, which ends up behind it. */
    method Insert(s: Text)
      requires Valid() && Plain(s)
      modifies buf, `len, `cur, io
      ensures Valid() && io.cells[..origin] == old(io.cells[..origin])
      ensures var t := Fitting(s, old(len), size); Line() == InsertAt(old(Line()), old(cur), t) && cur == old(cur) + |t|
    {
      hide Plain, Painted, InsertAt;
      ghost var line, from := buf[..len], cur;
      var n: int := |s|;
      if len + n > size - 1 { n := size - 1 - len; }
      InsertNothing(line, cur);
      if n <= 0 { return; }
      PlainHead(s, n);
      InsertParts(line, cur, s[..n]);
      assert s[..|s|] == s;
      var from' := cur;
      InsertBytes(s[..n]);
      InsertLength(line, from, s[..n]);
      ShowTail(from', line);
    }

    /** Shows a line that has grown from the terminal's position on. */
    method ShowTail(from: nat, ghost line: Text)
      requires Fields() && from <= cur && Shows(io.cells, io.pos, origin, line, from)
      requires |line| <= len && from <= |line| && line[..from] == Line()[..from]
      modifies io
      ensures Screen() && io.cells[..origin] == old(io.cells[..origin])
    {
      hide Plain, Painted, Shows;
      ShowsFits(io.cells, io.pos, origin, line, from);
      RepaintShows(io.cells, origin, line, from, buf[..len], from, 0, cur);
      PlainTail(buf[..len], from);
      assert buf[..len][from..] == buf[from..len];
      PutRange(from, len);
      PaintNothing(io.cells, io.pos);
      assert Blanks(0) == [];
      MoveLeft(len - cur);
    }

    /** Whether word w begins with what stands before the cursor. */
    method Begins(w: Text) returns (r: bool)
      requires cur <= len <= buf.Length
      ensures r <==> buf[..cur] <= w
    {
      var k := 0;
      while k < cur && k < |w| && w[k] == buf[k]
        invariant 0 <= k <= cur && k <= |w| && w[..k] == buf[..k]
      {
        k := k + 1;
      }
      r := k == cur;
      if !r && k < |w| { assert buf[..cur][k] == buf[k]; }
    }

    /** The candidates for the word before the cursor: how many, the first of them, and how much they share. */
    method FindCandidates() returns (n: nat, first: nat, common: nat)
      requires cur <= len <= buf.Length
      ensures n == |Candidates(words, buf[..cur])|
      ensures n > 0 ==>
        first < |words| && words[first] == Candidates(words, buf[..cur])[0] &&
        IsLongest(Candidates(words, buf[..cur]), common)
    {
      hide IsLongest, Candidates;
      n, first, common := 0, 0, 0;
      ghost var p := buf[..cur];
      CandidatesNone(p);
      assert words[..0] == [];
      for i := 0 to |words|
        invariant n == |Candidates(words[..i], p)|
        invariant n > 0 ==>
          first < |words| && words[first] == Candidates(words[..i], p)[0] &&
          IsLongest(Candidates(words[..i], p), common)
      {
        var w := words[i];
        ghost var before := Candidates(words[..i], p);
        CandidatesStep(words, i, p);
        var begins := Begins(w);
        if begins {
          if n == 0 {
            first, common := i, |w|;
            LongestOfOne(w);
            assert before + [w] == [w];
          } else {
            var f, c := words[first], 0;
            LongestFits(before, common);
            while c < common && c < |w| && f[c] == w[c]
              invariant 0 <= c <= common && c <= |w| && f[..c] == w[..c]
            {
              c := c + 1;
            }
            LongestStep(before, w, common, c);
            common := c;
          }
          n := n + 1;
        }
      }
      assert words[..|words|] == words;
    }

    method PrintCandidates()
      requires cur <= len <= buf.Length && io.pos <= |io.cells| && forall i :: 0 <= i < |words| ==> Plain(words[i])
      modifies io
      ensures io.cells == old(io.cells) + [NEWLINE] + Listed(words, buf[..cur]).0 && io.pos == |io.cells|
    {
      hide Painted, Listed;
      ghost var p := buf[..cur];
      var col := 0;
      io.Put(NEWLINE);
      ListedNone(p);
      assert words[..0] == [];
      for i := 0 to |words|
        invariant io.cells == old(io.cells) + [NEWLINE] + Listed(words[..i], p).0 && io.pos == |io.cells|
        invariant col == Listed(words[..i], p).1
      {
        var w := words[i];
        ListedStep(words, i, p);
        var begins := Begins(w);
        if begins {
          if col > 0 && col + |w| + 2 > 78 {
            io.Put(NEWLINE);
            col := 0;
          }
          PutText(io, w);
          PutText(io, [SPACE, SPACE]);
          col := col + |w| + 2;
        }
      }
      assert words[..|words|] == words;
    }

    function Prompt(): Text
      reads io
    {
      if hasPrompt then io.prompt else []
    }

    /** Prints the candidates below the line, then the prompt and the line once more. */
    method ListCandidates()
      requires Valid()
      modifies io, `origin
      ensures Valid() && io.cells == old(io.cells) + Relisted(words, Line(), cur, Prompt()) &&
        origin == |io.cells| - len
    {
      hide Plain, Shows, Listed;
      ShowsFits(io.cells, io.pos, origin, buf[..len], cur);
      ghost var start := io.cells;
      PrintCandidates();
      io.Put(NEWLINE);
      if hasPrompt { io.Reprompt(); }
      ghost var cells := io.cells;
      ShowLine();
      assert buf[..len][..cur] == buf[..cur];
      RelistedIs(start, Listed(words, buf[..cur]).0, Prompt(), buf[..len], cells);
    }

    /** Shows the line from where the terminal has got to. */
    method ShowLine()
      requires Fields() && io.pos == |io.cells|
      modifies io, `origin
      ensures Screen() && io.cells == old(io.cells) + Line() && origin == |old(io.cells)|
    {
      hide Plain, Painted, Shows;
      origin := io.pos;
      ShowsFresh(io.cells, buf[..len], cur);
      assert buf[..len] == buf[0..len];
      PutRange(0, len);
      MoveLeft(len - cur);
    }

    method InFirstWord() returns (r: bool)
      requires cur <= len <= buf.Length
      ensures r == FirstWord(Line(), cur)
    {
      for i := 0 to cur
        invariant forall k :: 0 <= k < i ==> buf[k] != SPACE
      {
        if buf[i] == SPACE { return false; }
      }
      return true;
    }

    /** Types the rest of what the candidates share and, behind a single one at the line's end, a blank. */
    method FillIn(n: nat, first: nat, common: nat)
      requires Valid() && n > 0 && first < |words| && common <= |words[first]| && (common > cur || n == 1)
      modifies buf, `len, `cur, io
      ensures Valid() && io.cells[..origin] == old(io.cells[..origin])
      ensures var t := if common > old(cur) then Fitting(words[first][old(cur)..common], old(len), size) else [];
              var one, at := InsertAt(old(Line()), old(cur), t), old(cur) + |t|;
              var sp := if n == 1 && at == |one| then Fitting([SPACE], |one|, size) else [];
              Line() == one + sp && cur == at + |sp|
    {
      hide Plain, Painted, Shows, InsertAt, Fitting;
      InsertNothing(buf[..len], cur);
      if common > cur {
        PlainHead(words[first], common);
        PlainTail(words[first][..common], cur);
        assert words[first][cur..common] == words[first][..common][cur..];
        Insert(words[first][cur..common]);
      }
      assert Line() + [] == Line();
      if n == 1 && cur == len { InsertSpace(); }
    }

    /** Completes a first word that has candidates, when they share more than is typed or there is only one. */
    method Extend(n: nat, first: nat, common: nat)
      requires Valid() && FirstWord(Line(), cur) && n == |Candidates(words, Line()[..cur])| > 0 &&
        (common > cur || n == 1)
      requires first < |words| && words[first] == Candidates(words, Line()[..cur])[0]
      requires IsLongest(Candidates(words, Line()[..cur]), common)
      modifies buf, `len, `cur, io
      ensures Valid() && old(io.cells[..origin]) <= io.cells
      ensures (Line(), cur) == Tabbed(words, old(Line()), old(cur), size)
    {
      hide Plain, Painted, Shows, InsertAt, Fitting, IsLongest, Candidates, Tabbed, FirstWord;
      ghost var line, at := buf[..len], cur;
      ShowsFits(io.cells, io.pos, origin, line, cur);
      TabbedIs(words, line, at, size, common);
      FillIn(n, first, common);
      ShowsFits(io.cells, io.pos, origin, buf[..len], cur);
    }

    /** `complete`. */
    method Complete()
      requires Valid()
      modifies buf, `len, `cur, `lastTab, `origin, io
      ensures Valid() && old(io.cells[..origin]) <= io.cells
      ensures (Line(), cur) == Tabbed(words, old(Line()), old(cur), size)
      ensures lastTab == TabKept(words, old(Line()), old(cur), old(lastTab))
      ensures if old(lastTab) && Ambiguous(words, old(Line()), old(cur))
              then io.cells == old(io.cells) + Relisted(words, old(Line()), old(cur), Prompt())
                else origin == old(origin)
    {
      hide Plain, Painted, Shows, InsertAt, Fitting, IsLongest, Candidates, Tabbed, Ambiguous, FirstWord, Longest,
           Relisted, Prompt;
      ghost var line := buf[..len];
      ShowsFits(io.cells, io.pos, origin, line, cur);
      var firstWord := InFirstWord();
      TabbedNot(words, line, cur, size);
      if !firstWord { return; }
      var n, first, common := FindCandidates();
      ghost var cands := Candidates(words, line[..cur]);
      assert line[..cur] == buf[..cur];
      if n == 0 { lastTab := false; return; }
      AmbiguousIs(words, line, cur, common);
      var plen := cur;
      if common > plen || n == 1 {
        Extend(n, first, common);
        lastTab := false;
        return;
      }
      TabbedStays(words, line, plen, size, common);
      if !lastTab { lastTab := true; return; }
      ListCandidates();
      lastTab := false;
    }

    method InsertSpace()
      requires Valid() && cur == len
      modifies buf, `len, `cur, io
      ensures Valid() && io.cells[..origin] == old(io.cells[..origin])
      ensures Line() == old(Line()) + Fitting([SPACE], old(len), size)
      ensures cur == old(cur) + |Fitting([SPACE], old(len), size)|
    {
      ghost var line := buf[..len];
      Insert([SPACE]);
      assert InsertAt(line, |line|, Fitting([SPACE], |line|, size)) == line + Fitting([SPACE], |line|, size);
    }

    /** `delete_at`: one character less; nothing happens outside the line. */
    method Delete(p: int)
      requires Valid() && p <= cur
      modifies buf, `len, `cur, io
      ensures Valid() && io.cells[..origin] == old(io.cells[..origin])
      ensures Line() == if 0 <= p < old(len) then DeleteAt(old(Line()), p) else old(Line())
      ensures cur == if 0 <= p < old(cur) then old(cur) - 1 else old(cur)
    {
      hide Plain, Painted;
      if p < 0 || p >= len { return; }
      ghost var line := buf[..len];
      var from := cur;
      CloseGap(buf, p, len);
      DeleteParts(line, p);
      len := len - 1;
      if cur > p { cur := cur - 1; }
      Redraw(from, p, 1, line);
    }

    /** Moves the cursor right to position j by putting what stands there. */
    method MoveRight(j: nat)
      requires Valid() && cur <= j <= len
      modifies io
      ensures Shows(io.cells, io.pos, origin, Line(), j) && io.cells == old(io.cells)
    {
      hide Painted;
      ghost var line := buf[..len];
      PaintSame(io.cells, origin, line, cur, j);
      PlainPart(line, cur, j);
      assert line[cur..j] == buf[cur..j];
      PutRange(cur, j);
    }

    /** The Up key: one line further back, the live line kept aside the first time. */
    method Up()
      requires Valid()
      modifies buf, `len, `cur, `histPos, `saved, io
      ensures Valid() && io.cells[..origin] == old(io.cells[..origin])
      ensures Seen() == Pressed(old(Seen()), words, hist.all, size, KEY_UP)
    {
      hide Plain, Shows, Fitting;
      var found, h := hist.Get(histPos + 1);
      if !found { return; }
      if histPos < 0 { saved := buf[..len]; }
      histPos := histPos + 1;
      ReplaceAll(h);
    }

    /** The Down key: one line forward, in the end back to the live line. */
    method Down()
      requires Valid()
      modifies buf, `len, `cur, `histPos, io
      ensures Valid() && io.cells[..origin] == old(io.cells[..origin])
      ensures Seen() == Pressed(old(Seen()), words, hist.all, size, KEY_DOWN)
    {
      hide Plain, Shows;
      if histPos < 0 { return; }
      histPos := histPos - 1;
      if histPos < 0 {
        ReplaceAll(saved);
      } else {
        var found, h := hist.Get(histPos);
        ReplaceAll(h);
      }
    }

    /** The Enter key: the screen shows the whole line with the cursor behind it, and the line joins the history. */
    method Enter()
      requires Valid()
      modifies io, buf, hist, hist.ring
      ensures Fields() && Line() == old(Line()) && Shows(io.cells, io.pos, origin, Line(), len) &&
        io.cells == old(io.cells)
      ensures hist.all == if noHist || Line() == [] ||
        (old(hist.all) != [] && old(hist.all)[|old(hist.all)| - 1] == Line())
                          then old(hist.all) else old(hist.all) + [Line()]
    {
      hide Plain, Shows;
      ghost var line := buf[..len];
      MoveRight(len);
      buf[len] := 0;
      assert buf[..len] == line;
      if !noHist { hist.Add(buf[..len]); }
    }

    /** The keys that only move the cursor. */
    method CursorKey(c: U8)
      requires Valid() && (c == KEY_LEFT || c == KEY_RIGHT || c == KEY_HOME || c == KEY_END)
      modifies `cur, io
      ensures Valid() && io.cells == old(io.cells) && (Line(), cur) == Typed(words, old(Line()), old(cur), size, c)
    {
      hide Plain, Shows, Fitting, InsertAt, DeleteAt, Tabbed;
      ShowsFits(io.cells, io.pos, origin, buf[..len], cur);
      if c == KEY_LEFT {
        if cur > 0 {
          ShowsLeft(io.cells, origin, buf[..len], cur, cur - 1);
          cur := cur - 1;
          io.Left();
        }
      } else if c == KEY_RIGHT {
        if cur < len {
          MoveRight(cur + 1);
          cur := cur + 1;
        }
      } else if c == KEY_HOME {
        ShowsLeft(io.cells, origin, buf[..len], cur, 0);
        MoveLeft(cur);
        cur := 0;
      } else {
        MoveRight(len);
        cur := len;
      }
    }

    /** Every key but Up, Down and Enter. */
    method EditKey(c: U8)
      requires Valid() && c != KEY_UP && c != KEY_DOWN && c != RETURN && c != NEWLINE
      modifies buf, `len, `cur, `lastTab, `origin, io
      ensures Valid() && (Line(), cur) == Typed(words, old(Line()), old(cur), size, c) &&
        old(io.cells[..origin]) <= io.cells
      ensures lastTab == if c == TAB then TabKept(words, old(Line()), old(cur), old(lastTab)) else old(lastTab)
      ensures if c == TAB && old(lastTab) && Ambiguous(words, old(Line()), old(cur))
              then io.cells == old(io.cells) + Relisted(words, old(Line()), old(cur), Prompt())
                else origin == old(origin)
    {
      hide Plain, Shows, Fitting, InsertAt, DeleteAt, Tabbed, Ambiguous, Relisted, TabKept;
      ShowsFits(io.cells, io.pos, origin, buf[..len], cur);
      if c == KEY_LEFT || c == KEY_RIGHT || c == KEY_HOME || c == KEY_END {
        CursorKey(c);
      } else if c == BACKSPACE {
        if cur > 0 { Delete(cur - 1); }
      } else if c == KEY_DEL {
        Delete(cur);
      } else if c == TAB {
        Complete();
      } else if 32 <= c <= 126 {
        OnePlain(c);
        Insert([c]);
      }
      ShowsFits(io.cells, io.pos, origin, buf[..len], cur);
    }

    /** `line_edit_key`: whatever the key, the screen goes on showing the line. */
    method Key(c: U8) returns (rc: int)
      requires Valid()
      modifies this, buf, io, hist, hist.ring
      ensures rc == if c == RETURN || c == NEWLINE then 1 else 0
      ensures old(io.cells[..origin]) <= io.cells
      ensures rc == 0 ==> Valid() && hist.all == old(hist.all)
      ensures rc == 0 ==> Seen() == Pressed(old(Seen()), words, hist.all, size, c)
      ensures c == BACKSPACE && old(cur) > 0 ==>
        Line() == old(Line())[..old(cur) - 1] + old(Line())[old(cur)..] && cur == old(cur) - 1
      ensures c == KEY_DEL && old(cur) < old(len) ==>
        Line() == old(Line())[..old(cur)] + old(Line())[old(cur) + 1..] && cur == old(cur)
      ensures 32 <= c <= 126 && old(len) + 1 < size ==>
        Line() == old(Line())[..old(cur)] + [c] + old(Line())[old(cur)..] && cur == old(cur) + 1
      ensures c == KEY_LEFT ==> Line() == old(Line()) && cur == if old(cur) == 0 then 0 else old(cur) - 1
      ensures c == KEY_RIGHT ==> Line() == old(Line()) && cur == if old(cur) == len then len else old(cur) + 1
      ensures c == KEY_HOME ==> Line() == old(Line()) && cur == 0
      ensures c == KEY_END ==> Line() == old(Line()) && cur == len
      ensures c == BACKSPACE && old(cur) == 0 ==> Line() == old(Line()) && cur == old(cur)
      ensures c == KEY_DEL && old(cur) == old(len) ==> Line() == old(Line()) && cur == old(cur)
      ensures 32 <= c <= 126 && old(len) + 1 >= size ==> Line() == old(Line()) && cur == old(cur)
      ensures !(32 <= c <= 126) && c !in CONTROLS ==> Line() == old(Line()) && cur == old(cur)
      ensures if c == TAB && old(lastTab) && Ambiguous(words, old(Line()), old(cur))
              then io.cells == old(io.cells) + [10] + Listed(words, old(Line())[..old(cur)]).0 + [10] +
                               (if hasPrompt then io.prompt else []) + old(Line())
                else origin == old(origin)
      ensures rc == 0 && c != TAB ==> !lastTab
      ensures c == TAB ==>
        lastTab == if exists i :: 0 <= i < old(cur) && old(Line())[i] == 32 then old(lastTab)
          else !old(lastTab) && Ambiguous(words, old(Line()), old(cur))
      ensures rc == 1 ==> Fields() && Line() == old(Line()) && Shows(io.cells, io.pos, origin, Line(), len)
      ensures rc == 1 ==>
        hist.all == if noHist || Line() == [] || (old(hist.all) != [] && old(hist.all)[|old(hist.all)| - 1] == Line())
                                      then old(hist.all) else old(hist.all) + [Line()]
    {
      hide Plain, Shows, Ambiguous, Pressed, Listed;
      ghost var was := Seen();
      rc := Press(c);
      if rc == 0 { PressedLine(was, words, hist.all, size, c); }
    }

    /** The key on the abstract editor, and on the screen. */
    method Press(c: U8) returns (rc: int)
      requires Valid()
      modifies this, buf, io, hist, hist.ring
      ensures rc == if c == RETURN || c == NEWLINE then 1 else 0
      ensures old(io.cells[..origin]) <= io.cells
      ensures rc == 0 ==> Valid() && hist.all == old(hist.all)
      ensures rc == 0 ==> Seen() == Pressed(old(Seen()), words, hist.all, size, c)
      ensures if c == TAB && old(lastTab) && Ambiguous(words, old(Line()), old(cur))
              then io.cells == old(io.cells) + [10] + Listed(words, old(Line())[..old(cur)]).0 + [10] +
                               (if hasPrompt then io.prompt else []) + old(Line())
                else origin == old(origin)
      ensures rc == 0 && c != TAB ==> !lastTab
      ensures c == TAB ==>
        lastTab == if exists i :: 0 <= i < old(cur) && old(Line())[i] == 32 then old(lastTab)
          else !old(lastTab) && Ambiguous(words, old(Line()), old(cur))
      ensures rc == 1 ==> Fields() && Line() == old(Line()) && Shows(io.cells, io.pos, origin, Line(), len)
      ensures rc == 1 ==>
        hist.all == if noHist || Line() == [] || (old(hist.all) != [] && old(hist.all)[|old(hist.all)| - 1] == Line())
                                      then old(hist.all) else old(hist.all) + [Line()]
    {
      hide Plain, Shows, Fitting, Typed, Ambiguous, Relisted, TabKept, Listed;
      ShowsFits(io.cells, io.pos, origin, buf[..len], cur);
      TabIs(words, Line(), cur, lastTab);
      RelistedText(words, Line(), cur, Prompt(), io.cells);
      if c != TAB { lastTab := false; }
      if c == RETURN || c == NEWLINE {
        Enter();
        return 1;
      }
      if c == KEY_UP {
        Up();
      } else if c == KEY_DOWN {
        Down();
      } else {
        EditKey(c);
      }
      ShowsFits(io.cells, io.pos, origin, buf[..len], cur);
      return 0;
    }
  }

  method PutText(io: Terminal, s: Text)
    requires io.pos == |io.cells| && Plain(s)
    modifies io
    ensures io.cells == old(io.cells) + s && io.pos == |io.cells|
  {
    for k := 0 to |s|
      invariant io.cells == old(io.cells) + s[..k] && io.pos == |io.cells|
    {
      io.Put(s[k]);
    }
  }

  lemma ShowsFits(cells: Text, pos: nat, origin: nat, line: Text, cur: nat)
    requires Shows(cells, pos, origin, line, cur)
    ensures origin <= pos <= |cells| && pos == origin + cur
  {
  }

  /** A line painted at the end of everything shows itself. */
  lemma ShowsFresh(cells: Text, line: Text, cur: nat)
    requires cur <= |line|
    ensures Shows(Painted(cells, |cells|, line), |cells| + cur, |cells|, line, cur) &&
      cells + line == Painted(cells, |cells|, line)
  {
  }

  lemma LongestUnique(cands: seq<Text>, c: nat)
    requires IsLongest(cands, c)
    ensures cands != [] && Longest(cands) == c
  {
  }

  /** What candidates for p share is at least p. */
  lemma CommonFits(cands: seq<Text>, p: Text, c: nat)
    requires IsLongest(cands, c) && forall i :: 0 <= i < |cands| ==> p <= cands[i]
    ensures c >= |p|
  {
    forall i | 0 <= i < |cands| ensures |p| <= |cands[i]| && cands[i][..|p|] == cands[0][..|p|] {
      assert cands[i][..|p|] == p && cands[0][..|p|] == p;
    }
    assert Shared(cands, |p|);
  }

  lemma TabbedNot(words: seq<Text>, line: Text, cur: nat, size: int)
    requires cur <= |line|
    ensures !FirstWord(line, cur) || Candidates(words, line[..cur]) == [] ==>
              Tabbed(words, line, cur, size) == (line, cur) && !Ambiguous(words, line, cur)
  {
  }

  lemma AmbiguousIs(words: seq<Text>, line: Text, cur: nat, c: nat)
    requires cur <= |line| && (Candidates(words, line[..cur]) != [] ==> IsLongest(Candidates(words, line[..cur]), c))
    ensures var cands := Candidates(words, line[..cur]);
            (cands != [] ==> c <= |cands[0]|) &&
              (Ambiguous(words, line, cur) <==> FirstWord(line, cur) && |cands| > 1 && c == cur)
  {
    hide Candidates, IsLongest, FirstWord;
    if Candidates(words, line[..cur]) != [] {
      LongestUnique(Candidates(words, line[..cur]), c);
      LongestFits(Candidates(words, line[..cur]), c);
    }
  }

  lemma TabbedStays(words: seq<Text>, line: Text, cur: nat, size: int, c: nat)
    requires cur <= |line| && FirstWord(line, cur) && IsLongest(Candidates(words, line[..cur]), c) && c <= cur
    requires |Candidates(words, line[..cur])| > 1
    ensures Tabbed(words, line, cur, size) == (line, cur) && c == cur
  {
    hide Fitting, InsertAt, Candidates, IsLongest, Tabbed;
    CandidatesBegin(words, line[..cur]);
    CommonFits(Candidates(words, line[..cur]), line[..cur], c);
    TabbedIs(words, line, cur, size, c);
    InsertNothing(line, cur);
    assert line + [] == line;
  }

  lemma TabbedIs(words: seq<Text>, line: Text, cur: nat, size: int, c: nat)
    requires cur <= |line| && FirstWord(line, cur) && IsLongest(Candidates(words, line[..cur]), c)
    ensures var cands := Candidates(words, line[..cur]);
            cands != [] && c <= |cands[0]| &&
            var t := if c > cur then Fitting(cands[0][cur..c], |line|, size) else [];
            var one, at := InsertAt(line, cur, t), cur + |t|;
            var sp := if |cands| == 1 && at == |one| then Fitting([SPACE], |one|, size) else [];
            Tabbed(words, line, cur, size) == (one + sp, at + |sp|)
  {
    hide Fitting, InsertAt, Candidates, IsLongest;
    var cands := Candidates(words, line[..cur]);
    CandidatesBegin(words, line[..cur]);
    LongestUnique(cands, c);
    LongestFits(cands, c);
    var t := if c > cur then Fitting(cands[0][cur..c], |line|, size) else [];
    assert InsertAt(line, cur, t) + [] == InsertAt(line, cur, t);
  }

  /** Putting again what is shown changes nothing on the screen. */
  lemma PaintSame(cells: Text, origin: nat, line: Text, cur: nat, j: nat)
    requires Shows(cells, origin + cur, origin, line, cur) && cur <= j <= |line|
    ensures Painted(cells, origin + cur, line[cur..j]) == cells && Shows(cells, origin + j, origin, line, j)
  {
    forall i | cur <= i < j ensures cells[origin + i] ==
      line[i] { assert cells[origin..origin + |line|][i] == line[i]; }
  }

  lemma ShowsLeft(cells: Text, origin: nat, line: Text, cur: nat, to: nat)
    requires Shows(cells, origin + cur, origin, line, cur) && to <= cur
    ensures Shows(cells, origin + to, origin, line, to) && origin + cur <= |cells|
  {
  }

  lemma PlainPart(s: Text, i: nat, j: nat)
    requires i <= j <= |s| && Plain(s)
    ensures Plain(s[i..j])
  {
  }

  lemma OnePlain(c: U8)
    requires c >= SPACE
    ensures Plain([c])
  {
  }

  lemma ListedNone(p: Text)
    ensures Listed([], p) == ([], 0)
  {
  }

  lemma ListedStep(words: seq<Text>, i: nat, p: Text)
    requires i < |words|
    ensures var (t, col) := Listed(words[..i], p);
            var w := words[i];
            Listed(words[..i + 1], p) ==
              if !(p <= w) then (t, col)
              else if col > 0 && col + |w| + 2 > 78 then (t + [NEWLINE] + w + [SPACE, SPACE], |w| + 2)
              else (t + w + [SPACE, SPACE], col + |w| + 2)
  {
    assert words[..i + 1][..i] == words[..i];
  }

  lemma RelistedIs(start: Text, listed: Text, prompt: Text, line: Text, cells: Text)
    requires cells == start + [NEWLINE] + listed + [NEWLINE] + prompt
    ensures cells + line == start + ([NEWLINE] + listed + [NEWLINE] + prompt + line)
  {
  }

  lemma CandidatesNone(p: Text)
    ensures Candidates([], p) == []
  {
  }

  lemma CandidatesStep(words: seq<Text>, i: nat, p: Text)
    requires i < |words|
    ensures var before := Candidates(words[..i], p);
            Candidates(words[..i + 1], p) == if p <= words[i] then before + [words[i]] else before
  {
    assert words[..i + 1][..i] == words[..i];
  }

  /** Any run of keys: line, cursor and history position are what the keys make of them one after the other. Short of
      Enter the screen shows that line; at Enter it shows the whole line, cursor behind it. */
  method Feed(e: Editor, keys: seq<U8>) returns (used: nat, done: bool)
    requires e.Valid()
    modifies e, e.buf, e.io, e.hist, e.hist.ring
    ensures used <= |keys| && forall i :: 0 <= i < used - 1 ==> keys[i] != RETURN && keys[i] != NEWLINE
    ensures done <==> used > 0 && (keys[used - 1] == RETURN || keys[used - 1] == NEWLINE)
    ensures !done ==> used == |keys| && e.Valid() && e.hist.all == old(e.hist.all)
    ensures !done ==> e.Seen() == AllPressed(old(e.Seen()), e.words, old(e.hist.all), e.size, keys)
    ensures done ==> e.Fields() && Shows(e.io.cells, e.io.pos, e.origin, e.Line(), e.len)
    ensures done ==> e.Line() == AllPressed(old(e.Seen()), e.words, old(e.hist.all), e.size, keys[..used - 1]).line
  {
    hide Shows, Typed, Fitting, Plain, Pressed;
    ghost var v, all := e.Seen(), e.hist.all;
    used, done := 0, false;
    PressedNone(v, e.words, all, e.size, keys);
    while used < |keys|
      invariant used <= |keys| && !done && e.Valid() && e.hist.all == all
      invariant forall i :: 0 <= i < used ==> keys[i] != RETURN && keys[i] != NEWLINE
      invariant e.Seen() == AllPressed(v, e.words, all, e.size, keys[..used])
    {
      PressedOneMore(v, e.words, all, e.size, keys, used);
      var rc := e.Key(keys[used]);
      used := used + 1;
      if rc == 1 { return used, true; }
    }
    assert keys[..used] == keys;
  }

  lemma PressedNone(v: View, words: seq<Text>, all: seq<Text>, size: int, keys: seq<U8>)
    requires Sensible(v, all)
    ensures AllPressed(v, words, all, size, keys[..0]) == v
  {
  }

  lemma PressedOneMore(v: View, words: seq<Text>, all: seq<Text>, size: int, keys: seq<U8>, i: nat)
    requires Sensible(v, all) && i < |keys|
    ensures AllPressed(v, words, all, size, keys[..i + 1]) ==
            Pressed(AllPressed(v, words, all, size, keys[..i]), words, all, size, keys[i])
  {
    assert keys[..i + 1][..i] == keys[..i];
  }

  /** A character that fits, typed and erased again, leaves the line and the cursor as they were. */
  method TypeAndErase(e: Editor, c: U8)
    requires e.Valid() && 32 <= c <= 126 && e.len + 1 < e.size
    modifies e, e.buf, e.io, e.hist, e.hist.ring
    ensures e.Valid() && e.Line() == old(e.Line()) && e.cur == old(e.cur)
  {
    hide Shows, Pressed, Plain;
    ghost var line, cur := e.Line(), e.cur;
    var rc := e.Key(c);
    ghost var typed := e.Line();
    assert typed[..cur] == line[..cur] && typed[cur + 1..] == line[cur..];
    rc := e.Key(BACKSPACE);
  }

  /** Left and then Del is Backspace: on two editors that stand alike, both leave the same line and cursor. */
  method LeftAndDelete(e: Editor, f: Editor)
    requires e.Valid() && f.Valid() && e.Line() == f.Line() && 0 < e.cur == f.cur
    requires {e, e.buf, e.io, e.hist, e.hist.ring} !! {f, f.buf, f.io, f.hist, f.hist.ring}
    modifies e, e.buf, e.io, e.hist, e.hist.ring, f, f.buf, f.io, f.hist, f.hist.ring
    ensures e.Valid() && f.Valid() && e.Line() == f.Line() && e.cur == f.cur == old(e.cur) - 1
  {
    hide Shows, Pressed, Plain;
    var rc := e.Key(KEY_LEFT);
    rc := e.Key(KEY_DEL);
    rc := f.Key(BACKSPACE);
  }

  /** Browsing k lines back and as many forward brings back the line as it was. */
  method BrowseAndReturn(e: Editor, k: nat)
    requires e.Valid() && e.histPos == -1 && 0 < k <= e.hist.Count()
    modifies e, e.buf, e.io, e.hist, e.hist.ring
    ensures e.Valid() && e.Line() == old(e.Line()) && e.cur == e.len && e.histPos == -1 && e.hist.all == old(e.hist.all)
  {
    hide Shows, Typed, Fitting, Plain;
    for i := 0 to k
      invariant e.Valid() && e.histPos == i - 1 && e.hist.all == old(e.hist.all)
      invariant if i == 0 then e.Line() == old(e.Line()) else e.saved == old(e.Line())
    {
      var rc := e.Key(KEY_UP);
    }
    for i := 0 to k
      invariant e.Valid() && e.histPos == k - 1 - i && e.hist.all == old(e.hist.all)
      invariant e.saved == old(e.Line()) && (i == k ==> e.Line() == old(e.Line()) && e.cur == e.len)
    {
      var rc := e.Key(KEY_DOWN);
    }
  }

  lemma LongestOfOne(w: Text)
    ensures IsLongest([w], |w|)
  {
    forall k: nat | Shared([w], k) ensures k <= |w| { assert k <= |[w][0]|; }
  }

  lemma LongestFits(cands: seq<Text>, c: nat)
    requires IsLongest(cands, c)
    ensures cands != [] && c <= |cands[0]|
  {
  }

  lemma {:induction false} CandidatesBegin(words: seq<Text>, p: Text)
    ensures forall i :: 0 <= i < |Candidates(words, p)| ==> p <= Candidates(words, p)[i]
  {
    if words != [] { CandidatesBegin(words[..|words| - 1], p); }
  }

  lemma FittingPlain(s: Text, len: nat, size: int)
    requires Plain(s)
    ensures Plain(Fitting(s, len, size))
  {
  }

  lemma InsertParts(line: Text, p: nat, s: Text)
    requires p <= |line| && Plain(line) && Plain(s)
    ensures Plain(InsertAt(line, p, s)) && InsertAt(line, p, s)[..p] == line[..p]
  {
  }

  lemma DeleteParts(line: Text, p: nat)
    requires p < |line| && Plain(line)
    ensures Plain(DeleteAt(line, p)) && DeleteAt(line, p)[..p] == line[..p]
  {
  }

  lemma InsertLength(line: Text, p: nat, s: Text)
    requires p <= |line|
    ensures |InsertAt(line, p, s)| == |line| + |s|
  {
  }

  lemma InsertNothing(line: Text, p: nat)
    requires p <= |line|
    ensures InsertAt(line, p, []) == line
  {
  }

  lemma Gapped(line: Text, p: nat, s: Text, b: Text)
    requires p <= |line| && |line| + |s| < |b| && b[p..p + |s|] == s
    requires forall k :: p <= k < |line| ==> b[k + |s|] == line[k]
    requires forall k :: 0 <= k < p ==> b[k] == line[k]
    ensures b[..|line| + |s|] == InsertAt(line, p, s)
  {
  }

  lemma PlainHead(s: Text, p: nat)
    requires p <= |s| && Plain(s)
    ensures Plain(s[..p])
  {
  }

  lemma PlainTail(s: Text, p: nat)
    requires p <= |s| && Plain(s)
    ensures Plain(s[p..])
  {
  }
}
