/** The constants of P-256 and the DER form of its signatures (kernel/ecdsa_p256.c; section 2.2.3 of RFC 3279, section
    8.3.2 of ITU-T X.690). */
module P256 {
  import opened Words
  import opened Congruence
  import opened Limbs
  import opened BigIntCore
  import opened BigBytes
  import opened MaskedProduct
  import opened P256Field
  import opened P256Curve

  const PRIME_LIMBS: seq<U32> := [0xffff_ffff, 0xffff_ffff, 0xffff_ffff, 0, 0, 0, 1, 0xffff_ffff]
  const ORDER_LIMBS: seq<U32> :=
    [0xfc63_2551, 0xf3b9_cac2, 0xa717_9e84, 0xbce6_faad, 0xffff_ffff, 0xffff_ffff, 0, 0xffff_ffff]
  const B_LIMBS: seq<U32> :=
    [0x27d2_604b, 0x3bce_3c3e, 0xcc53_b0f6, 0x651d_06b0, 0x7698_86bc, 0xb3eb_bd55, 0xaa3a_93e7, 0x5ac6_35d8]
  const GX_LIMBS: seq<U32> :=
    [0xd898_c296, 0xf4a1_3945, 0x2deb_33a0, 0x7703_7d81, 0x63a4_40f2, 0xf8bc_e6e5, 0xe12c_4247, 0x6b17_d1f2]
  const GY_LIMBS: seq<U32> :=
    [0x37bf_51f5, 0xcbb6_4068, 0x6b31_5ece, 0x2bce_3357, 0x7c0f_9e16, 0x8ee7_eb4a, 0xfe1a_7f9b, 0x4fe3_42e2]

  const PRIME: nat := 0xffffffff00000001000000000000000000000000ffffffffffffffffffffffff
  const ORDER: nat := 0xffffffff00000000ffffffffffffffffbce6faada7179e84f3b9cac2fc632551
  const B: nat := 0x5ac635d8aa3a93e7b3ebbd55769886bc651d06b0cc53b0f63bce3c3e27d2604b
  const GX: nat := 0x6b17d1f2e12c4247f8bce6e563a440f277037d812deb33a0f4a13945d898c296
  const GY: nat := 0x4fe342e2fe1a7f9b8ee7eb4a7c0f9e162bce33576b315ececbb6406837bf51f5

  /** Eight limbs read out. */
  lemma EightLimbs(s: seq<U32>)
    requires |s| == 8
    ensures Val(s) == s[0]
      + BASE * (s[1] + BASE * (s[2] + BASE * (s[3] + BASE * (s[4] + BASE * (s[5] + BASE * (s[6] + BASE * s[7]))))))
  {
    hide Val, Weight;
    FourLimbs(s, 0);
    FourLimbs(s, 4);
    assert s[0..] == s;
    ValZero(s[8..]);
  }

  lemma FourLimbs(s: seq<U32>, i: nat)
    requires i + 4 <= |s|
    ensures Val(s[i..]) == s[i] + BASE * (s[i + 1] + BASE * (s[i + 2] + BASE * (s[i + 3] + BASE * Val(s[i + 4..]))))
  {
    hide Val, Weight;
    ValCons(s, i);
    ValCons(s, i + 1);
    ValCons(s, i + 2);
    ValCons(s, i + 3);
  }

  /** The limb tables spell the standard's numbers, and the prime is 2^256 - 2^224 + 2^192 + 2^96 - 1. */
  lemma Constants()
    ensures Val(PRIME_LIMBS) == PRIME && Val(ORDER_LIMBS) == ORDER
    ensures Val(B_LIMBS) == B && Val(GX_LIMBS) == GX && Val(GY_LIMBS) == GY
  {
    hide Val;
    EightLimbs(PRIME_LIMBS);
    EightLimbs(ORDER_LIMBS);
    EightLimbs(B_LIMBS);
    EightLimbs(GX_LIMBS);
    EightLimbs(GY_LIMBS);
  }

  lemma Width()
    ensures Pow2(256) == 0x1_0000000000000000000000000000000000000000000000000000000000000000
  {
    hide Pow2;
    Pow2At32();
    Pow2Sum(32, 32);
    Pow2Sum(64, 64);
    Pow2Sum(128, 128);
  }

  /** The product of `kernel/ecdsa_p256.c:151`: whatever the hash, it is right for every inverse below the order if and
      only if the hash is at most the order. */
  lemma HashFactor(hash: nat)
    requires hash < Pow2(256)
    ensures (forall w :: 0 <= w < ORDER ==> CtProduct(hash, w, ORDER, 256) == (hash * w) % ORDER) <==> hash <= ORDER
  {
    hide Pow2, CtProduct;
    Width();
    ProductExact(hash, ORDER, 256);
  }

  /** The hash of all ones and the inverse 2: the carry of the doubled hash is lost. */
  lemma HashOfOnes()
    ensures Pow2(256) - 1 > ORDER && CtProduct(Pow2(256) - 1, 2, ORDER, 256) % ORDER != ((Pow2(256) - 1) * 2) % ORDER
  {
    hide Pow2, CtProduct;
    Width();
    TwoIsPow();
    OneIsPow();
    CtFailsAt(Pow2(256) - 1 - ORDER, 1, ORDER, 256);
  }

  lemma OneIsPow()
    ensures Pow2(0) == 1
  {
  }

  /** The base point is on the curve. */
  lemma BaseOnCurve()
    ensures OnCurve(Curve(PRIME, B), Point(GX, GY, 1))
  {
  }

  // ---------------------------------------------------------------- DER integers

  /** How many bytes v takes. */
  function Len(v: nat): (n: nat)
    ensures n >= 1
  {
    if v < 256 then 1 else 1 + Len(v / 256)
  }

  /** The contents of the DER INTEGER v: as few bytes as possible, with a zero in front if the top bit would be set. */
  function Content(v: nat): seq<U8>
  {
    var s := ToBytes(v, Len(v));
    if s[0] >= 0x80 then [0] + s else s
  }

  function Size(v: nat): nat { 2 + |Content(v)| }

  function DerInt(v: nat): (s: seq<U8>)
    requires |Content(v)| < 0x80
    ensures |s| == Size(v)
  {
    [2, |Content(v)|] + Content(v)
  }

  /** The octets that section 8.3.2 of X.690 allows for a number that is not negative. */
  predicate Canonical(s: seq<U8>) { s != [] && s[0] < 0x80 && (|s| > 1 && s[0] == 0 ==> s[1] >= 0x80) }

  lemma {:induction false} LenBounds(v: nat)
    ensures v < Pow256(Len(v)) && (Len(v) > 1 ==> v >= Pow256(Len(v) - 1))
  {
    hide Pow256;
    Pow256Step(0);
    if v >= 256 {
      LenBounds(v / 256);
      Pow256Step(Len(v) - 1);
      Pow256Step(Len(v) - 2);
    }
  }

  lemma {:induction false} Pow256Mono(a: nat, b: nat)
    requires a <= b
    ensures Pow256(a) <= Pow256(b)
    decreases b
  {
    if a < b {
      Pow256Step(b - 1);
      Pow256Mono(a, b - 1);
    }
  }

  lemma LenUnique(v: nat, n: nat)
    requires n >= 1 && v < Pow256(n) && (n > 1 ==> v >= Pow256(n - 1))
    ensures Len(v) == n
  {
    hide Pow256, Len;
    LenBounds(v);
    if Len(v) < n { Pow256Mono(Len(v), n - 1); }
    if Len(v) > n { Pow256Mono(n, Len(v) - 1); }
  }

  /** A leading byte weighs the most. */
  lemma {:induction false} BeLead(s: seq<U8>)
    requires s != []
    ensures Be(s) == s[0] * Pow256(|s| - 1) + Be(s[1..])
    decreases |s|
  {
    hide Pow256;
    Pow256Step(0);
    if |s| > 1 {
      var k := |s| - 1;
      BeLead(s[..k]);
      assert s[..k][1..] == s[1..][..k - 1];
      Pow256Step(k - 1);
      MulSwap(s[0], 256, Pow256(k - 1));
    } else {
      assert s[..0] == [] && s[1..] == [];
    }
  }

  /** Bytes without a leading zero are the bytes of their number. */
  lemma MinimalBytes(s: seq<U8>)
    requires s != [] && (|s| > 1 ==> s[0] != 0)
    ensures Len(Be(s)) == |s| && ToBytes(Be(s), Len(Be(s))) == s
  {
    hide Pow256, Len, ToBytes, Be;
    BeBound(s);
    BeLead(s);
    if |s| > 1 { MulLe(1, s[0], Pow256(|s| - 1)); }
    LenUnique(Be(s), |s|);
    BytesOfBe(s);
  }

  /** The contents that the standard allows are exactly those that the printer writes. */
  lemma CanonicalIsContent(s: seq<U8>)
    ensures Canonical(s) <==> s != [] && s == Content(Be(s))
  {
    hide Pow256, Len, ToBytes, Be;
    if Canonical(s) {
      if |s| > 1 && s[0] == 0 {
        BeLead(s);
        MinimalBytes(s[1..]);
        assert s == [0] + s[1..];
      } else {
        MinimalBytes(s);
      }
    }
    if s != [] && s == Content(Be(s)) { ContentCanonical(Be(s)); }
  }

  lemma ContentCanonical(v: nat)
    ensures Content(v) != [] && Canonical(Content(v)) && Be(Content(v)) == v &&
      (v < Pow256(32) <==> |Content(v)| <= 32 || (|Content(v)| == 33 && Content(v)[0] == 0))
  {
    hide Pow256, Len, ToBytes, Be;
    var n := Len(v);
    var s := ToBytes(v, n);
    LenBounds(v);
    BeOfBytes(v, n);
    FirstByte(v, n);
    if s[0] >= 0x80 {
      BeLead([0] + s);
      assert ([0] + s)[1..] == s;
    }
    if n <= 32 { Pow256Mono(n, 32); } else { Pow256Mono(32, n - 1); }
  }

  /** The first of the fewest bytes is not zero, but for zero itself. */
  lemma FirstByte(v: nat, n: nat)
    requires n >= 1 && v < Pow256(n) && (n > 1 ==> v >= Pow256(n - 1))
    ensures n > 1 ==> ToBytes(v, n)[0] != 0
  {
    hide Pow256, ToBytes, Be;
    if n > 1 {
      var s := ToBytes(v, n);
      BeOfBytes(v, n);
      BeLead(s);
      BeBound(s[1..]);
    }
  }

  /** The DER INTEGER v, of up to 256 bits, stands at the front of s. */
  predicate Leads(s: seq<U8>, v: nat) { v < Pow256(32) && |Content(v)| < 0x80 && DerInt(v) <= s }

  /** At most one does. */
  lemma LeadsUnique(s: seq<U8>, v: nat, w: nat)
    requires Leads(s, v) && Leads(s, w)
    ensures v == w
  {
    hide Content, Be, Pow256, Canonical;
    LeadsParts(s, v);
    LeadsParts(s, w);
    ContentCanonical(v);
    ContentCanonical(w);
  }

  lemma LeadsParts(s: seq<U8>, v: nat)
    requires Leads(s, v)
    ensures |s| >= 2 && s[0] == 2 && s[1] == |Content(v)| && s[1] + 2 <= |s| && s[2..s[1] + 2] == Content(v)
  {
    hide Content, Pow256;
    var d := DerInt(v);
    assert d == s[..|d|];
    assert s[0] == d[0] && s[1] == d[1];
    assert s[2..s[1] + 2] == d[2..];
  }

  /** What the tag and length checks leave: contents, acceptable exactly when canonical and of up to 256 bits. */
  lemma ContentsLead(s: seq<U8>)
    requires |s| >= 3 && s[0] == 2 && 1 <= s[1] < 0x80 && s[1] + 2 <= |s|
    ensures var c := s[2..s[1] + 2];
            var fits := |c| <= 32 || (|c| == 33 && c[0] == 0);
            && (Canonical(c) && fits ==> Leads(s, Be(c)) && Size(Be(c)) == |c| + 2)
            && (!(Canonical(c) && fits) ==> forall v :: !Leads(s, v))
  {
    hide Content, Be, Pow256, Canonical;
    var c := s[2..s[1] + 2];
    var fits := |c| <= 32 || (|c| == 33 && c[0] == 0);
    CanonicalIsContent(c);
    ContentCanonical(Be(c));
    if Canonical(c) && fits {
      assert DerInt(Be(c)) == s[..s[1] + 2];
    } else {
      forall v ensures !Leads(s, v) {
        if Leads(s, v) {
          LeadsParts(s, v);
          ContentCanonical(v);
        }
      }
    }
  }

  lemma NothingLeads(s: seq<U8>)
    requires |s| < 3 || s[0] != 2 || s[1] == 0 || s[1] >= 0x80 || s[1] + 2 > |s|
    ensures forall v :: !Leads(s, v)
  {
    hide Content, Pow256, Canonical;
    forall v ensures !Leads(s, v) {
      ContentCanonical(v);
      if Leads(s, v) { LeadsParts(s, v); }
    }
  }

  /** `p256_parse_integer`: reads a canonical INTEGER of up to 256 bits, and refuses exactly when none is there. */
  method ParseInteger(out: array<U32>, input: seq<U8>) returns (rc: int)
    requires Num(out)
    modifies out
    ensures rc < 0 <==> forall v :: !Leads(input, v)
    ensures rc < 0 ==>
      rc == if |input| < 3 || input[0] != 2 || input[1] == 0 || input[1] >= 0x80 || input[1] + 2 > |input| then -1
        else if input[2] >= 0x80 then -2
        else if input[1] > 1 && input[2] == 0 && input[3] < 0x80 then -3 else -4
    ensures rc >= 0 ==> Leads(input, Val(out[..])) && rc == Size(Val(out[..]))
  {
    hide Content, Be, Pow256, Canonical, Val, Leads;
    if |input| < 3 || input[0] != 2 || input[1] == 0 || input[1] >= 0x80 || input[1] + 2 > |input| {
      NothingLeads(input);
      return -1;
    }
    var value := input[2..input[1] + 2];
    ContentsLead(input);
    CanonicalIs(value);
    if value[0] >= 0x80 { return -2; }
    if |value| > 1 && value[0] == 0 && value[1] < 0x80 { return -3; }
    ghost var whole := value;
    BeLeadZero(value);
    if |value| == 33 && value[0] == 0 { value := value[1..]; }
    if |value| == 0 || |value| > 32 { return -4; }
    for i := 0 to LIMBS { out[i] := 0; }
    var target := new BigInt.View(out, LIMBS);
    var rc' := FromBe(target, value);
    if rc' != 0 { return -5; }
    WholeValue(target, Be(value), (|value| + 3) / 4);
    return input[1] + 2;
  }

  lemma CanonicalIs(s: seq<U8>)
    requires s != []
    ensures Canonical(s) <==> s[0] < 0x80 && (|s| > 1 && s[0] == 0 ==> s[1] >= 0x80)
  {
  }

  lemma BeLeadZero(s: seq<U8>)
    requires s != []
    ensures s[0] == 0 ==> Be(s[1..]) == Be(s)
  {
    BeLead(s);
  }

  lemma WholeValue(x: BigInt, v: nat, n: nat)
    requires x.Holds(v, n) && x.limbs.Length == LIMBS && forall k :: n <= k < LIMBS ==> x.limbs[k] == 0
    ensures Val(x.limbs[..]) == v
  {
    hide Val;
    ValTrim(x.limbs[..], n);
    assert x.limbs[..][..n] == x.limbs[..n];
  }

  // ---------------------------------------------------------------- DER signatures

  predicate InRange(v: nat) { 1 <= v < ORDER }

  lemma ShortContent(v: nat)
    requires v < Pow256(32)
    ensures |Content(v)| <= 33
  {
    hide Content, Pow256, Canonical, Be;
    ContentCanonical(v);
  }

  lemma OrderFits()
    ensures ORDER < Pow256(32)
  {
    hide Pow2;
    Pow2At32();
    Pow2Sum(32, 32);
    Pow2Sum(64, 64);
    Pow2Sum(128, 128);
  }

  /** The canonical encoding of a signature. */
  function DerSig(r: nat, s: nat): seq<U8>
    requires r < Pow256(32) && s < Pow256(32)
  {
    ShortContent(r);
    ShortContent(s);
    [0x30, |DerInt(r)| + |DerInt(s)|] + DerInt(r) + DerInt(s)
  }

  /** der is the canonical encoding of r and s, both between 1 and the order. */
  predicate Encodes(der: seq<U8>, r: nat, s: nat)
  {
    InRange(r) && InRange(s) && (OrderFits(); der == DerSig(r, s))
  }

  lemma EncodesParts(der: seq<U8>, r: nat, s: nat)
    requires Encodes(der, r, s)
    ensures |der| >= 8 && der[0] == 0x30 && der[1] < 0x80 && der[1] as int + 2 == |der|
    ensures Leads(der[2..], r) && Size(r) < |der| - 2 && Leads(der[2 + Size(r)..], s) && Size(r) + Size(s) + 2 == |der|
  {
    hide Content, Pow256;
    OrderFits();
    ShortContent(r);
    ShortContent(s);
    ContentCanonical(r);
    ContentCanonical(s);
    assert der[2..] == DerInt(r) + DerInt(s);
    assert der[2 + Size(r)..] == DerInt(s);
  }

  lemma PartsEncode(der: seq<U8>, r: nat, s: nat)
    requires |der| >= 2 && der[0] == 0x30 && der[1] as int + 2 == |der| && 1 <= r < ORDER && 1 <= s < ORDER
    requires Leads(der[2..], r) && 2 + Size(r) <= |der| && Leads(der[2 + Size(r)..], s) &&
      Size(r) + Size(s) + 2 == |der|
    ensures Encodes(der, r, s)
  {
    hide Content, Pow256;
    OrderFits();
    var n := 2 + Size(r);
    assert der[2..][..Size(r)] == DerInt(r) && der[n..] == DerInt(s);
    assert der == [der[0], der[1]] + der[2..n] + der[n..];
    assert der[2..n] == der[2..][..Size(r)];
  }

  /** Printing and parsing are inverse: a byte string encodes at most one pair. */
  lemma EncodesUnique(der: seq<U8>, r: nat, s: nat, r': nat, s': nat)
    requires Encodes(der, r, s) && Encodes(der, r', s')
    ensures r == r' && s == s'
  {
    hide Leads, Encodes, DerInt, Size, Pow256;
    EncodesParts(der, r, s);
    EncodesParts(der, r', s');
    LeadsUnique(der[2..], r, r');
    LeadsUnique(der[2 + Size(r)..], s, s');
  }

  /** Whatever r and s a string encodes, they are the ones at its two places. */
  lemma EncodesOnly(der: seq<U8>, r: nat, s: nat)
    requires |der| >= 2 && Leads(der[2..], r) && 2 + Size(r) <= |der| && Leads(der[2 + Size(r)..], s)
    ensures forall a, b :: Encodes(der, a, b) ==> a == r && b == s && Size(r) + Size(s) + 2 == |der|
  {
    hide Leads, Encodes, DerInt, Size, Pow256;
    forall a, b | Encodes(der, a, b) ensures a == r && b == s && Size(r) + Size(s) + 2 == |der| {
      EncodesParts(der, a, b);
      LeadsUnique(der[2..], a, r);
      LeadsUnique(der[2 + Size(r)..], b, s);
    }
  }

  /** `p256_parse_signature`: accepts exactly the canonical encodings of pairs between 1 and the order. */
  method ParseSignature(r: array<U32>, s: array<U32>, der: seq<U8>) returns (rc: int)
    requires Num(r) && Num(s) && r != s && |der| < 0x1_0000
    modifies r, s
    ensures rc == 0 <==> exists a, b :: Encodes(der, a, b)
    ensures rc == 0 ==> Encodes(der, Val(r[..]), Val(s[..]))
    ensures rc == 0 ==> 1 <= Val(r[..]) < ORDER && 1 <= Val(s[..]) < ORDER
  {
    hide Leads, Encodes, DerInt, Size, Val, Pow256;
    if |der| < 8 || der[0] != 0x30 || der[1] >= 0x80 { RefusedEarly(der); return -1; }
    var body: int := der[1];
    if body + 2 != |der| { RefusedEarly(der); return -2; }
    var consumed := ParseInteger(r, der[2..]);
    if consumed < 0 { RefusedFirst(der); return -3; }
    ghost var a := Val(r[..]);
    LeadsLength(der[2..], a);
    RefusedSecond(der, a, der[2 + consumed..]);
    if consumed + 2 >= |der| { return -4; }
    var second := ParseInteger(s, der[2 + consumed..]);
    if second < 0 { return -5; }
    ghost var b := Val(s[..]);
    EncodesOnly(der, a, b);
    if consumed + second != body { return -5; }
    EncodesRange(der, a, b);
    var order := new U32[LIMBS](i requires 0 <= i < LIMBS => ORDER_LIMBS[i]);
    assert order[..] == ORDER_LIMBS && order[..LIMBS] == order[..] && r[..LIMBS] == r[..] && s[..LIMBS] == s[..];
    Constants();
    var zeroR := IsZero(r);
    var zeroS := IsZero(s);
    var cmpR := RawCompare(r, order, LIMBS);
    var cmpS := RawCompare(s, order, LIMBS);
    if zeroR || zeroS || cmpR >= 0 || cmpS >= 0 { return -6; }
    PartsEncode(der, a, b);
    return 0;
  }

  lemma RefusedEarly(der: seq<U8>)
    requires |der| < 8 || der[0] != 0x30 || der[1] >= 0x80 || der[1] as int + 2 != |der|
    ensures forall a, b :: !Encodes(der, a, b)
  {
    hide Encodes, Leads, DerInt, Size, Pow256;
    forall a, b ensures !Encodes(der, a, b) { if Encodes(der, a, b) { EncodesParts(der, a, b); } }
  }

  lemma RefusedFirst(der: seq<U8>)
    requires |der| >= 2 && forall v :: !Leads(der[2..], v)
    ensures forall a, b :: !Encodes(der, a, b)
  {
    hide Encodes, Leads, DerInt, Size, Pow256;
    forall a, b ensures !Encodes(der, a, b) { if Encodes(der, a, b) { EncodesParts(der, a, b); } }
  }

  lemma RefusedSecond(der: seq<U8>, r: nat, rest: seq<U8>)
    requires |der| >= 2 && Leads(der[2..], r) && 2 + Size(r) <= |der| && rest == der[2 + Size(r)..]
    ensures rest == [] || (forall v :: !Leads(rest, v)) ==> forall a, b :: !Encodes(der, a, b)
  {
    hide Encodes, Leads, DerInt, Size, Pow256;
    forall a, b | Encodes(der, a, b) ensures rest != [] && Leads(rest, b) {
      EncodesParts(der, a, b);
      LeadsUnique(der[2..], a, r);
    }
  }

  lemma EncodesRange(der: seq<U8>, r: nat, s: nat)
    ensures Encodes(der, r, s) ==> 1 <= r < ORDER && 1 <= s < ORDER
  {
  }

  lemma LeadsLength(s: seq<U8>, v: nat)
    requires Leads(s, v)
    ensures |Content(v)| < 0x80 && Size(v) <= |s|
  {
  }
}
