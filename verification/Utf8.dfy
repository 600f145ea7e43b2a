/** The strict UTF-8 decoder (include/os_charset.h), against the encoding of section 3 of RFC 3629. */
module Utf8 {
  import opened Words

  const BAD: nat := 0xFFFD

  predicate Scalar(cp: nat) { cp <= 0x10FFFF && !(0xD800 <= cp <= 0xDFFF) }

  /** The UTF-8 form of a scalar value. */
  function Encode(cp: nat): (s: seq<U8>)
    requires Scalar(cp)
    ensures 1 <= |s| <= 4 && (|s| == 1 <==> cp < 0x80)
  {
    if cp < 0x80 then [cp]
    else if cp < 0x800 then [0xC0 + cp / 64, 0x80 + cp % 64]
    else if cp < 0x1_0000 then [0xE0 + cp / 64 / 64, 0x80 + cp / 64 % 64, 0x80 + cp % 64]
    else [0xF0 + cp / 64 / 64 / 64, 0x80 + cp / 64 / 64 % 64, 0x80 + cp / 64 % 64, 0x80 + cp % 64]
  }

  predicate At(s: seq<U8>, i: nat, t: seq<U8>) { i + |t| <= |s| && s[i..i + |t|] == t }

  /** cp stands at i as a sequence of more than one byte. */
  predicate Multi(s: seq<U8>, i: nat, cp: nat) { Scalar(cp) && cp >= 0x80 && At(s, i, Encode(cp)) }

  /** The length that a lead byte announces, 0 if it is none. */
  function LeadLength(c: U8): nat
  {
    if c / 32 == 6 then 2 else if c / 16 == 14 then 3 else if c / 8 == 30 then 4 else 0
  }

  function LeadBits(c: U8): nat
  {
    match LeadLength(c) case 2 => c % 32 case 3 => c % 16 case _ => c % 8
  }

  /** Six more bits. */
  function Shifted(v: nat, c: U8): nat { v * 64 + c % 64 }

  lemma ShiftedDigits(v: nat, c: U8)
    ensures Shifted(v, c) / 64 == v && Shifted(v, c) % 64 == c % 64
  {
  }

  /** The value of n bytes at i of which the first is a lead byte of that length. */
  function Raw(s: seq<U8>, i: nat, n: nat): nat
    requires 1 <= n && i + n <= |s|
  {
    if n == 1 then LeadBits(s[i]) else Shifted(Raw(s, i, n - 1), s[i + n - 1])
  }

  predicate Continues(s: seq<U8>, i: nat, n: nat)
    requires i + n <= |s|
  {
    forall j :: i + 1 <= j < i + n ==> s[j] / 64 == 2
  }

  function Smallest(n: nat): nat { if n == 2 then 0x80 else if n == 3 then 0x800 else 0x1_0000 }

  /** The decoder's conditions: announced length in range, continuation bytes, no overlong form, a scalar value. */
  predicate Passes(s: seq<U8>, i: nat)
    requires i < |s|
  {
    var n := LeadLength(s[i]);
    n > 0 && i + n <= |s| && Continues(s, i, n) && Raw(s, i, n) >= Smallest(n) && Scalar(Raw(s, i, n))
  }

  lemma RawIs(s: seq<U8>, i: nat)
    ensures i + 2 <= |s| ==> Raw(s, i, 2) == Shifted(LeadBits(s[i]), s[i + 1])
    ensures i + 3 <= |s| ==> Raw(s, i, 3) == Shifted(Shifted(LeadBits(s[i]), s[i + 1]), s[i + 2])
    ensures i + 4 <= |s| ==> Raw(s, i, 4) == Shifted(Shifted(Shifted(LeadBits(s[i]), s[i + 1]), s[i + 2]), s[i + 3])
  {
    hide Shifted, LeadBits;
    if i + 2 <= |s| { assert Raw(s, i, 2) == Shifted(Raw(s, i, 1), s[i + 1]); }
    if i + 3 <= |s| { assert Raw(s, i, 3) == Shifted(Raw(s, i, 2), s[i + 2]); }
  }

  /** Lead byte a and trail bytes that hold the digits of v. */
  predicate Holds(v: nat, n: nat, a: U8, b: U8, c: U8, d: U8)
  {
    match n
    case 2 => v == Shifted(LeadBits(a), b)
    case 3 => v == Shifted(Shifted(LeadBits(a), b), c)
    case _ => v == Shifted(Shifted(Shifted(LeadBits(a), b), c), d)
  }

  /** The digits of the value in the bytes, and back. */
  lemma Digits(v: nat, n: nat, a: U8, b: U8, c: U8, d: U8)
    requires 2 <= n <= 4 && LeadLength(a) == n && Holds(v, n, a, b, c, d)
    ensures n == 2 ==> v / 64 == LeadBits(a) && v % 64 == b % 64
    ensures n == 3 ==> v / 64 / 64 == LeadBits(a) && v / 64 % 64 == b % 64 && v % 64 == c % 64
    ensures n == 4 ==>
      v / 64 / 64 / 64 == LeadBits(a) && v / 64 / 64 % 64 == b % 64 && v / 64 % 64 == c % 64 && v % 64 == d % 64
  {
    hide Shifted, LeadBits, LeadLength;
    var x := Shifted(LeadBits(a), b);
    ShiftedDigits(LeadBits(a), b);
    ShiftedDigits(x, c);
    ShiftedDigits(Shifted(x, c), d);
  }

  lemma Trail(b: U8)
    ensures b / 64 == 2 ==> b == 0x80 + b % 64
  {
  }

  lemma Lead(a: U8)
    ensures LeadLength(a) == 2 ==> a == 0xC0 + LeadBits(a) && LeadBits(a) < 32
    ensures LeadLength(a) == 3 ==> a == 0xE0 + LeadBits(a) && LeadBits(a) < 16
    ensures LeadLength(a) == 4 ==> a == 0xF0 + LeadBits(a) && LeadBits(a) < 8
  {
  }

  lemma LeadBack(x: nat)
    ensures x < 32 ==> LeadLength(0xC0 + x) == 2 && LeadBits(0xC0 + x) == x
    ensures x < 16 ==> LeadLength(0xE0 + x) == 3 && LeadBits(0xE0 + x) == x
    ensures x < 8 ==> LeadLength(0xF0 + x) == 4 && LeadBits(0xF0 + x) == x
  {
  }

  lemma TrailBack(x: nat)
    requires x < 64
    ensures (0x80 + x) / 64 == 2 && (0x80 + x) % 64 == x
  {
  }

  lemma ShiftedBack(v: nat)
    ensures Shifted(v / 64, 0x80 + v % 64) == v
  {
    TrailBack(v % 64);
  }

  lemma Form2(cp: nat, a: U8, b: U8)
    requires LeadLength(a) == 2 && b / 64 == 2 && cp == Shifted(LeadBits(a), b) && cp >= 0x80 && Scalar(cp)
    ensures Encode(cp) == [a, b]
  {
    hide Shifted, LeadBits, LeadLength;
    Digits(cp, 2, a, b, 0, 0);
    Lead(a);
    Trail(b);
  }

  lemma Form3(cp: nat, a: U8, b: U8, c: U8)
    requires LeadLength(a) == 3 && b / 64 == 2 && c / 64 == 2
    requires cp == Shifted(Shifted(LeadBits(a), b), c) && cp >= 0x800 && Scalar(cp)
    ensures Encode(cp) == [a, b, c]
  {
    hide Shifted, LeadBits, LeadLength;
    Digits(cp, 3, a, b, c, 0);
    Lead(a);
    Trail(b);
    Trail(c);
  }

  lemma Form4(cp: nat, a: U8, b: U8, c: U8, d: U8)
    requires LeadLength(a) == 4 && b / 64 == 2 && c / 64 == 2 && d / 64 == 2
    requires cp == Shifted(Shifted(Shifted(LeadBits(a), b), c), d) && cp >= 0x1_0000 && Scalar(cp)
    ensures Encode(cp) == [a, b, c, d]
  {
    hide Shifted, LeadBits, LeadLength;
    Digits(cp, 4, a, b, c, d);
    Lead(a);
    Trail(b);
    Trail(c);
    Trail(d);
  }

  /** What meets the conditions is the encoding of the value read. */
  lemma PassesIsEncoded(s: seq<U8>, i: nat)
    requires i < |s| && Passes(s, i)
    ensures Multi(s, i, Raw(s, i, LeadLength(s[i]))) && |Encode(Raw(s, i, LeadLength(s[i])))| == LeadLength(s[i])
  {
    hide Raw, Shifted, LeadBits, LeadLength, Encode;
    var n := LeadLength(s[i]);
    var cp := Raw(s, i, n);
    LeadKinds(s[i]);
    RawIs(s, i);
    if n == 2 {
      Form2(cp, s[i], s[i + 1]);
      assert s[i..i + 2] == [s[i], s[i + 1]];
    } else if n == 3 {
      Form3(cp, s[i], s[i + 1], s[i + 2]);
      assert s[i..i + 3] == [s[i], s[i + 1], s[i + 2]];
    } else {
      Form4(cp, s[i], s[i + 1], s[i + 2], s[i + 3]);
      assert s[i..i + 4] == [s[i], s[i + 1], s[i + 2], s[i + 3]];
    }
  }

  lemma LeadKinds(c: U8)
    ensures LeadLength(c) == 0 || 2 <= LeadLength(c) <= 4
    ensures LeadLength(c) > 0 ==> c >= 0x80
  {
  }

  lemma EncodedBytes(s: seq<U8>, i: nat, cp: nat)
    requires Multi(s, i, cp)
    ensures forall j :: 0 <= j < |Encode(cp)| ==> s[i + j] == Encode(cp)[j]
  {
    forall j | 0 <= j < |Encode(cp)| ensures s[i + j] ==
      Encode(cp)[j] { assert s[i..i + |Encode(cp)|][j] == Encode(cp)[j]; }
  }

  lemma Encoded2(s: seq<U8>, i: nat, cp: nat)
    requires Multi(s, i, cp) && cp < 0x800
    ensures i + 2 <= |s| && LeadLength(s[i]) == 2 && Continues(s, i, 2) && Raw(s, i, 2) == cp
  {
    hide Raw, Shifted, LeadBits, LeadLength;
    EncodedBytes(s, i, cp);
    RawIs(s, i);
    assert s[i] == s[i + 0] == 0xC0 + cp / 64;
    LeadBack(cp / 64);
    TrailBack(cp % 64);
    ShiftedBack(cp);
  }

  lemma Encoded3(s: seq<U8>, i: nat, cp: nat)
    requires Multi(s, i, cp) && 0x800 <= cp < 0x1_0000
    ensures i + 3 <= |s| && LeadLength(s[i]) == 3 && Continues(s, i, 3) && Raw(s, i, 3) == cp
  {
    hide Raw, Shifted, LeadBits, LeadLength;
    EncodedBytes(s, i, cp);
    RawIs(s, i);
    var x := cp / 64;
    assert s[i] == s[i + 0] == 0xE0 + x / 64 && s[i + 1] == 0x80 + x % 64 && s[i + 2] == 0x80 + cp % 64;
    LeadBack(x / 64);
    TrailBack(cp % 64);
    TrailBack(x % 64);
    ShiftedBack(cp);
    ShiftedBack(x);
  }

  lemma Encoded4(s: seq<U8>, i: nat, cp: nat)
    requires Multi(s, i, cp) && 0x1_0000 <= cp
    ensures i + 4 <= |s| && LeadLength(s[i]) == 4 && Continues(s, i, 4) && Raw(s, i, 4) == cp
  {
    hide Raw, Shifted, LeadBits, LeadLength;
    EncodedBytes(s, i, cp);
    RawIs(s, i);
    var x := cp / 64;
    var y := x / 64;
    assert s[i] == s[i + 0] == 0xF0 + y / 64 && s[i + 1] == 0x80 + y % 64;
    assert s[i + 2] == 0x80 + x % 64 && s[i + 3] == 0x80 + cp % 64;
    LeadBack(y / 64);
    TrailBack(cp % 64);
    TrailBack(x % 64);
    TrailBack(y % 64);
    ShiftedBack(cp);
    ShiftedBack(x);
    ShiftedBack(y);
  }

  /** Every encoding of more than one byte meets them, with its own value. */
  lemma EncodedPasses(s: seq<U8>, i: nat, cp: nat)
    requires Multi(s, i, cp)
    ensures i < |s| && Passes(s, i) && LeadLength(s[i]) == |Encode(cp)| && Raw(s, i, LeadLength(s[i])) == cp
  {
    hide Raw, Shifted, LeadBits, LeadLength, Continues;
    if cp < 0x800 { Encoded2(s, i, cp); }
    else if cp < 0x1_0000 { Encoded3(s, i, cp); }
    else { Encoded4(s, i, cp); }
  }

  // ---------------------------------------------------------------- the decoder

  /** The reference decoder: an ASCII byte is itself, an encoded scalar value is that value, anything else is one bad
      byte. */
  ghost function Next(s: seq<U8>, i: nat): (r: (nat, nat))
    requires i < |s|
    ensures 1 <= r.1 <= 4 && i + r.1 <= |s|
  {
    if s[i] < 0x80 then (s[i], 1)
    else if exists cp: nat :: Multi(s, i, cp) then var cp: nat :| Multi(s, i, cp); (cp, |Encode(cp)|)
    else (BAD, 1)
  }

  /** No place holds the encodings of two values. */
  lemma MultiUnique(s: seq<U8>, i: nat, a: nat, b: nat)
    requires Multi(s, i, a) && Multi(s, i, b)
    ensures a == b
  {
    EncodedPasses(s, i, a);
    EncodedPasses(s, i, b);
  }

  lemma NextIs(s: seq<U8>, i: nat)
    requires i < |s|
    ensures Next(s, i) == if s[i] < 0x80 then (s[i], 1)
                          else if Passes(s, i) then (Raw(s, i, LeadLength(s[i])), LeadLength(s[i])) else (BAD, 1)
  {
    hide Raw, LeadLength, Encode, At, Continues;
    if s[i] >= 0x80 {
      if Passes(s, i) {
        PassesIsEncoded(s, i);
        var cp := Raw(s, i, LeadLength(s[i]));
        var c: nat :| Multi(s, i, c) && Next(s, i) == (c, |Encode(c)|);
        MultiUnique(s, i, c, cp);
      } else {
        forall cp: nat ensures !Multi(s, i, cp) { if Multi(s, i, cp) { EncodedPasses(s, i, cp); } }
      }
    }
  }

  /** The decoder takes more than one byte exactly where some encoding of more than one byte stands. */
  lemma NextMulti(s: seq<U8>, i: nat)
    requires i < |s|
    ensures Next(s, i).1 > 1 <==> exists c: nat :: Multi(s, i, c)
    ensures Next(s, i).1 > 1 ==> Multi(s, i, Next(s, i).0) && Next(s, i).1 == |Encode(Next(s, i).0)|
    ensures forall c: nat :: Multi(s, i, c) ==> Next(s, i) == (c, |Encode(c)|)
  {
    hide Raw, LeadLength, Encode, At, Continues, Next;
    NextIs(s, i);
    forall c: nat | Multi(s, i, c) ensures Passes(s, i) && s[i] >= 0x80 && Next(s, i) == (c, |Encode(c)|) {
      EncodedPasses(s, i, c);
      LeadKinds(s[i]);
    }
    if s[i] >= 0x80 && Passes(s, i) { PassesIsEncoded(s, i); }
  }

  lemma RawStep(s: seq<U8>, i: nat, n: nat)
    requires 1 <= n && i + n <= |s|
    ensures n == 1 ==> Raw(s, i, 1) == LeadBits(s[i])
    ensures i + n < |s| ==> Raw(s, i, n + 1) == Shifted(Raw(s, i, n), s[i + n])
  {
  }

  /** `os_utf8_next`: more than one byte is consumed exactly on a well-formed sequence; there is always progress. */
  method Utf8Next(s: seq<U8>, i: nat) returns (cp: nat, i': nat)
    ensures i >= |s| ==> cp == 0 && i' == i
    ensures i < |s| ==> (cp, i' - i) == Next(s, i) && i < i' <= |s|
    ensures i < |s| ==> (i' > i + 1 <==> exists c: nat :: Multi(s, i, c))
    ensures i' > i + 1 ==> Multi(s, i, cp) && i' == i + |Encode(cp)|
    ensures i < |s| && s[i] < 0x80 ==> cp == s[i] && i' == i + 1
    ensures i < |s| && s[i] >= 0x80 && i' == i + 1 ==> cp == 0xFFFD
  {
    hide Raw, LeadLength, LeadBits, Encode, At;
    if i >= |s| { return 0, i; }
    NextIs(s, i);
    NextMulti(s, i);
    LeadKinds(s[i]);
    var c := s[i];
    var len := LeadLength(c);
    if c < 0x80 { return c, i + 1; }
    if len == 0 { return BAD, i + 1; }
    if i + len > |s| { return BAD, i + 1; }
    cp := LeadBits(c);
    RawStep(s, i, 1);
    for j := 1 to len
      invariant Continues(s, i, j) && cp == Raw(s, i, j)
    {
      if s[i + j] / 64 != 2 { return BAD, i + 1; }
      RawStep(s, i, j);
      cp := Shifted(cp, s[i + j]);
    }
    if cp < Smallest(len) || cp > 0x10FFFF || 0xD800 <= cp <= 0xDFFF { return BAD, i + 1; }
    return cp, i + len;
  }
}
