/**
  The object-identifier encoder of BaseLib/AES/src/a_object.c: dotted text to the base-128 sub-identifiers of
  sections 8.19.2 and 8.19.4 of X.690, and the check that guards the decoder.
 */
module Oid {
  import opened Bytes
  import opened Wrappers

  // ---------------------------------------------------------------- text

  predicate IsSeparator(c: char) {
    c == '.' || c == ' '
  }

  predicate IsDigit(c: char) {
    '0' <= c <= '9'
  }

  predicate IsNumeral(s: string) {
    forall i | 0 <= i < |s| :: IsDigit(s[i])
  }

  function DigitValue(c: char): (d: nat)
    requires IsDigit(c)
    ensures d < 10
  {
    (c as int) - ('0' as int)
  }

  /** An empty numeral reads as zero. */
  function NumeralValue(s: string): (v: nat)
    requires IsNumeral(s)
  {
    if s == [] then 0 else NumeralValue(s[..|s| - 1]) * 10 + DigitValue(s[|s| - 1])
  }

  /** How far the first field of `s` reaches. */
  function FieldLen(s: string): (k: nat)
    ensures k <= |s|
    ensures forall i | 0 <= i < k :: !IsSeparator(s[i])
    ensures k < |s| ==> IsSeparator(s[k])
  {
    if s == [] || IsSeparator(s[0]) then 0 else 1 + FieldLen(s[1..])
  }

  /** What is behind the first field and its separator. */
  function AfterField(s: string): (t: string) {
    if FieldLen(s) < |s| then s[FieldLen(s) + 1..] else []
  }

  /** The fields between separators; a separator at the very end adds none. */
  function Fields(s: string): (fs: seq<string>)
    ensures s != [] <==> fs != []
    decreases |s|
  {
    if s == [] then [] else [s[..FieldLen(s)]] + Fields(AfterField(s))
  }

  ghost predicate AllNumerals(fs: seq<string>) {
    forall i | 0 <= i < |fs| :: IsNumeral(fs[i])
  }

  /** Section 8.19.4: the first two arcs share one sub-identifier. */
  function Subids(first: nat, fs: seq<string>): (ns: seq<nat>)
    requires forall i | 0 <= i < |fs| :: IsNumeral(fs[i])
  {
    seq(|fs|, i requires 0 <= i < |fs| => NumeralValue(fs[i]) + if i == 0 then 40 * first else 0)
  }

  /** The texts the encoder takes: a root arc 0-2, a separator, at least one more field, numerals only, and a
      second arc below 40 under the roots 0 and 1. */
  ghost predicate IsOidText(s: string) {
    && |s| >= 3 && '0' <= s[0] <= '2' && IsSeparator(s[1])
    && AllNumerals(Fields(s[2..]))
    && (s[0] != '2' ==> NumeralValue(Fields(s[2..])[0]) < 40)
  }

  ghost function TextSubids(s: string): (ns: seq<nat>)
    requires IsOidText(s)
  {
    Subids(DigitValue(s[0]), Fields(s[2..]))
  }

  // ---------------------------------------------------------------- sub-identifiers

  /** The base-128 digits of `a`, most significant first, each flagged as continued. */
  function Continued(a: nat): (bs: seq<Byte>) {
    if a == 0 then [] else Continued(a / 128) + [a % 128 + 128]
  }

  function Subid(n: nat): (bs: seq<Byte>) {
    Continued(n / 128) + [n % 128]
  }

  function Encode(ns: seq<nat>): (bs: seq<Byte>) {
    if ns == [] then [] else Subid(ns[0]) + Encode(ns[1..])
  }

  lemma {:induction false} EncodeSnoc(ns: seq<nat>, n: nat)
    ensures Encode(ns + [n]) == Encode(ns) + Subid(n)
  {
    if ns == [] {
      assert ns + [n] == [n];
    } else {
      assert (ns + [n])[1..] == ns[1..] + [n];
      EncodeSnoc(ns[1..], n);
    }
  }

  lemma EncodeCons(n: nat, ns: seq<nat>)
    ensures Encode([n] + ns) == Subid(n) + Encode(ns)
  {
    assert ([n] + ns)[1..] == ns;
  }

  lemma {:induction false} EncodePositive(ns: seq<nat>)
    ensures Encode(ns) == [] <==> ns == []
  {
    if ns != [] {
      assert |Subid(ns[0])| > 0;
    }
  }

  /** Section 8.19.2 read forwards: seven bits an octet, the top bit set on all octets of a sub-identifier but
      the last. `acc` is the part of the current sub-identifier already read. */
  function DecodeFrom(acc: nat, open: bool, bs: seq<Byte>): (r: Option<seq<nat>>)
    decreases |bs|
  {
    if bs == [] then
      if open then None else Some([])
    else if bs[0] >= 128 then
      DecodeFrom(acc * 128 + (bs[0] as int - 128), true, bs[1..])
    else
      match DecodeFrom(0, false, bs[1..])
      case None => None
      case Some(ns) => Some([acc * 128 + bs[0] as int] + ns)
  }

  function Decode(bs: seq<Byte>): (r: Option<seq<nat>>) {
    DecodeFrom(0, false, bs)
  }

  /** What `c2i_ASN1_OBJECT` tests: no sub-identifier starts with 0x80. */
  ghost predicate NoLeading80(bs: seq<Byte>) {
    forall i | 0 <= i < |bs| :: bs[i] == 0x80 ==> i > 0 && bs[i - 1] >= 128
  }

  lemma {:induction false} DecodeContinued(a: nat, t: seq<Byte>)
    ensures a > 0 ==> DecodeFrom(0, false, Continued(a) + t) == DecodeFrom(a, true, t)
  {
    if a > 0 {
      var b := a % 128 + 128;
      assert Continued(a) + t == Continued(a / 128) + ([b] + t);
      DecodeContinued(a / 128, [b] + t);
      assert ([b] + t)[1..] == t;
      if a / 128 == 0 {
        assert Continued(0) + ([b] + t) == [b] + t;
      }
    }
  }

  lemma DecodeSubid(n: nat, t: seq<Byte>)
    ensures Decode(Subid(n) + t) == match Decode(t) case None => None case Some(ns) => Some([n] + ns)
  {
    var b := n % 128;
    assert Subid(n) + t == Continued(n / 128) + ([b] + t);
    assert ([b] + t)[1..] == t;
    DecodeContinued(n / 128, [b] + t);
    if n / 128 == 0 {
      assert Continued(0) + ([b] + t) == [b] + t;
    }
  }

  /** Decoding undoes encoding. */
  lemma {:induction false} DecodeEncode(ns: seq<nat>)
    ensures Decode(Encode(ns)) == Some(ns)
  {
    if ns != [] {
      DecodeSubid(ns[0], Encode(ns[1..]));
      DecodeEncode(ns[1..]);
      assert [ns[0]] + ns[1..] == ns;
    }
  }

  lemma LastDigit(n: nat, acc: nat, d: nat)
    requires n == acc * 128 + d && d < 128
    ensures n / 128 == acc && n % 128 == d
  {
  }

  lemma ContinuedStep(a: nat, acc: nat, b: Byte)
    requires b >= 128 && a == acc * 128 + (b as int - 128) && a > 0
    ensures Continued(a) == Continued(acc) + [b]
  {
    LastDigit(a, acc, b - 128);
  }

  lemma SubidStep(n: nat, acc: nat, b: Byte)
    requires b < 128 && n == acc * 128 + b as int
    ensures Subid(n) == Continued(acc) + [b]
  {
    LastDigit(n, acc, b);
  }

  /** `NoLeading80` of a suffix, where `open` tells whether the octet before it continues. */
  ghost predicate CleanFrom(open: bool, bs: seq<Byte>) {
    && (bs != [] && !open ==> bs[0] != 0x80)
    && forall i | 0 < i < |bs| :: bs[i] == 0x80 ==> bs[i - 1] >= 128
  }

  lemma CleanTail(open: bool, bs: seq<Byte>)
    requires CleanFrom(open, bs) && bs != []
    ensures CleanFrom(bs[0] >= 128, bs[1..])
  {
    var t := bs[1..];
    assert forall i | 0 <= i < |t| :: t[i] == bs[i + 1];
  }

  /** A clean octet string that decodes is the encoding of what it decodes to. */
  lemma {:induction false} CleanIsCanonical(acc: nat, open: bool, bs: seq<Byte>)
    requires open <==> acc > 0
    requires DecodeFrom(acc, open, bs).Some?
    requires CleanFrom(open, bs)
    ensures Continued(acc) + bs == Encode(DecodeFrom(acc, open, bs).value)
    decreases |bs|
  {
    if bs != [] {
      var b, t := bs[0], bs[1..];
      CleanTail(open, bs);
      assert Continued(acc) + bs == Continued(acc) + [b] + t;
      if b >= 128 {
        var a := acc * 128 + (b as int - 128);
        ContinuedStep(a, acc, b);
        CleanIsCanonical(a, true, t);
      } else {
        var n := acc * 128 + b as int;
        SubidStep(n, acc, b);
        CleanIsCanonical(0, false, t);
        assert Continued(0) + t == t;
        EncodeCons(n, DecodeFrom(0, false, t).value);
      }
    }
  }

  lemma {:induction false} ContinuedIsClean(a: nat)
    ensures forall i | 0 <= i < |Continued(a)| :: Continued(a)[i] >= 128
    ensures a > 0 ==> |Continued(a)| > 0 && Continued(a)[0] != 0x80
  {
    if a > 0 {
      ContinuedIsClean(a / 128);
    }
  }

  lemma {:induction false} EncodeIsClean(ns: seq<nat>)
    ensures NoLeading80(Encode(ns))
  {
    if ns != [] {
      EncodeIsClean(ns[1..]);
      ContinuedIsClean(ns[0] / 128);
      var s, t := Subid(ns[0]), Encode(ns[1..]);
      forall i | 0 <= i < |s + t| && (s + t)[i] == 0x80
        ensures i > 0 && (s + t)[i - 1] >= 128
      {
        if i >= |s| {
          assert t[i - |s|] == 0x80;
        }
      }
    }
  }

  /** The check accepts a decodable octet string exactly when it is minimal: the encoding of its own value. */
  lemma CheckIsMinimality(bs: seq<Byte>)
    requires Decode(bs).Some?
    ensures NoLeading80(bs) <==> bs == Encode(Decode(bs).value)
  {
    if NoLeading80(bs) {
      assert CleanFrom(false, bs);
      CleanIsCanonical(0, false, bs);
      assert Continued(0) + bs == bs;
    }
    EncodeIsClean(Decode(bs).value);
  }

  /** Root arc and second arc are recovered from the shared sub-identifier, so the encoding determines the arcs. */
  lemma ArcsRecovered(s: string)
    requires IsOidText(s)
    ensures var fs := Fields(s[2..]);
            && Decode(Encode(TextSubids(s))) == Some(TextSubids(s))
            && NoLeading80(Encode(TextSubids(s)))
            && |TextSubids(s)| == |fs| > 0
            && var n := TextSubids(s)[0];
               var root := if n < 80 then n / 40 else 2;
               && root == DigitValue(s[0])
               && n - 40 * root == NumeralValue(fs[0])
               && forall i | 1 <= i < |fs| :: TextSubids(s)[i] == NumeralValue(fs[i])
  {
    DecodeEncode(TextSubids(s));
    EncodeIsClean(TextSubids(s));
  }

  // ---------------------------------------------------------------- digits in memory

  /** The base-128 digits in the order the code produces them, least significant first. */
  function Digits(n: nat): (ds: seq<Byte>)
    ensures |ds| > 0
    ensures forall i | 0 <= i < |ds| :: ds[i] < 128
  {
    if n < 128 then [n] else [n % 128] + Digits(n / 128)
  }

  /** Reversed and flagged, the digits are the sub-identifier. */
  lemma {:induction false} ContinuedAt(a: nat, j: nat)
    requires a > 0 && j < |Digits(a)|
    ensures |Continued(a)| == |Digits(a)|
    ensures Continued(a)[j] == Digits(a)[|Digits(a)| - 1 - j] + 128
  {
    if a < 128 {
      assert Continued(a / 128) == [];
    } else {
      var k := |Digits(a)| - 1;
      ContinuedAt(a / 128, if j < k then j else 0);
    }
  }

  lemma SubidAt(n: nat, j: nat)
    requires j < |Digits(n)|
    ensures |Subid(n)| == |Digits(n)|
    ensures Subid(n)[j] == Digits(n)[|Digits(n)| - 1 - j] + if j < |Digits(n)| - 1 then 128 else 0
  {
    var k := |Digits(n)| - 1;
    if n >= 128 {
      ContinuedAt(n / 128, if j < k then j else 0);
    } else {
      assert Continued(n / 128) == [];
    }
  }

  function Pow128(k: nat): (p: nat) {
    if k == 0 then 1 else 128 * Pow128(k - 1)
  }

  lemma {:induction false} DigitCount(n: nat, k: nat)
    requires k > 0 && n < Pow128(k)
    ensures |Digits(n)| <= k
  {
    if n >= 128 {
      assert k > 1;
      DigitCount(n / 128, k - 1);
    }
  }

  /** `BN_num_bits`. */
  function NumBits(n: nat): (b: nat) {
    if n == 0 then 0 else 1 + NumBits(n / 2)
  }

  lemma SevenBits(n: nat)
    ensures n >= 64 ==> NumBits(n) == 7 + NumBits(n / 128)
    ensures 0 < n < 64 ==> 1 <= NumBits(n) <= 6
  {
    var n1 := n / 2;
    var n2 := n1 / 2;
    var n3 := n2 / 2;
    var n4 := n3 / 2;
    var n5 := n4 / 2;
    var n6 := n5 / 2;
    var n7 := n6 / 2;
    assert n7 == n / 128;
    assert n6 > 0 ==> NumBits(n6) == 1 + NumBits(n7);
    assert n5 > 0 ==> NumBits(n5) == 1 + NumBits(n6);
    assert n4 > 0 ==> NumBits(n4) == 1 + NumBits(n5);
    assert n3 > 0 ==> NumBits(n3) == 1 + NumBits(n4);
    assert n2 > 0 ==> NumBits(n2) == 1 + NumBits(n3);
    assert n1 > 0 ==> NumBits(n1) == 1 + NumBits(n2);
  }

  /** The bignum path reserves exactly as many digits as the value has. */
  lemma {:induction false} BitsGiveDigits(n: nat)
    requires n > 0
    ensures (NumBits(n) + 6) / 7 == |Digits(n)|
  {
    SevenBits(n);
    if n >= 128 {
      BitsGiveDigits(n / 128);
    }
  }

  // ---------------------------------------------------------------- the encoder

  /** ULONG_MAX of a platform whose `unsigned long` has 32 to 64 bits. */
  predicate IsUlongMax(m: nat) {
    0xFFFF_FFFF <= m <= 0xFFFF_FFFF_FFFF_FFFF
  }

  lemma {:induction false} FieldLenIs(s: string, k: nat)
    requires k <= |s| && (forall i | 0 <= i < k :: !IsSeparator(s[i]))
    requires k < |s| ==> IsSeparator(s[k])
    ensures FieldLen(s) == k
  {
    if k > 0 {
      FieldLenIs(s[1..], k - 1);
    }
  }

  lemma NumeralSnoc(s: string, c: char)
    requires IsNumeral(s) && IsDigit(c)
    ensures IsNumeral(s + [c])
    ensures NumeralValue(s + [c]) == NumeralValue(s) * 10 + DigitValue(c)
  {
    assert (s + [c])[..|s|] == s;
  }

  /** The value read so far: in the word `l` while `l * 10 + 9 + 80` still fits, afterwards in the bignum. */
  ghost predicate Holds(v: nat, useBn: bool, l: nat, bl: nat, ulongMax: nat) {
    if useBn then bl == v && 40 <= l <= v && 128 <= v else l == v && l + 81 <= ulongMax
  }

  /** The complete sub-identifier, in the word or the bignum. */
  ghost predicate HoldsSubid(v: nat, useBn: bool, l: nat, bl: nat) {
    if useBn then bl == v && v > 0 else l == v && v <= 0xFFFF_FFFF_FFFF_FFFF
  }

  /** One digit more. The guard rules out that the word wraps. */
  method AddDigit(l: nat, bl: nat, useBn: bool, d: nat, ulongMax: nat, ghost v: nat)
    returns (l': nat, bl': nat, useBn': bool)
    requires IsUlongMax(ulongMax) && d < 10 && Holds(v, useBn, l, bl, ulongMax)
    ensures Holds(v * 10 + d, useBn', l', bl', ulongMax)
  {
    l', bl', useBn' := l, bl, useBn;
    if !useBn && l >= (ulongMax - 80) / 10 {
      useBn', bl' := true, l;
    }
    if useBn' {
      bl' := bl' * 10 + d;
    } else {
      WordFits(l, d, ulongMax);
      l' := (l * 10 + d) % (ulongMax + 1);
    }
  }

  lemma WordFits(l: nat, d: nat, ulongMax: nat)
    requires ulongMax >= 80 && d < 10 && l < (ulongMax - 80) / 10
    ensures l * 10 + d + 81 <= ulongMax
    ensures (l * 10 + d) % (ulongMax + 1) == l * 10 + d
  {
    NoWrap(l * 10 + d, ulongMax);
  }

  lemma NoWrap(x: nat, ulongMax: nat)
    requires x <= ulongMax
    ensures x % (ulongMax + 1) == x
  {
  }

  lemma {:induction false} FieldLenBeyond(t: string, q: nat)
    requires q < |t| && forall i | 0 <= i <= q :: !IsSeparator(t[i])
    ensures FieldLen(t) > q
  {
    if q > 0 {
      FieldLenBeyond(t[1..], q - 1);
    }
  }

  /** The first `q` characters are digits of the first field. */
  ghost predicate DigitsSoFar(t: string, q: nat) {
    q <= |t| && IsNumeral(t[..q]) && forall i | 0 <= i < q :: !IsSeparator(t[i])
  }

  lemma OneDigitMore(t: string, q: nat)
    requires DigitsSoFar(t, q) && q < |t| && IsDigit(t[q])
    ensures DigitsSoFar(t, q + 1)
    ensures NumeralValue(t[..q + 1]) == NumeralValue(t[..q]) * 10 + DigitValue(t[q])
  {
    NumeralSnoc(t[..q], t[q]);
    assert t[..q] + [t[q]] == t[..q + 1];
  }

  /** A character that is neither digit nor separator spoils its field. */
  lemma NotANumeral(t: string, q: nat)
    requires DigitsSoFar(t, q) && q < |t| && !IsDigit(t[q]) && !IsSeparator(t[q])
    ensures !IsNumeral(t[..FieldLen(t)])
  {
    FieldLenBeyond(t, q);
    assert t[..FieldLen(t)][q] == t[q];
  }

  /** The inner loop: reads the field at `p` and the separator behind it. */
  method ReadField(s: string, p: nat, ulongMax: nat)
    returns (ok: bool, p': nat, useBn: bool, l: nat, bl: nat)
    requires IsUlongMax(ulongMax) && p < |s|
    ensures ok <==> IsNumeral(s[p..][..FieldLen(s[p..])])
    ensures ok ==> p < p' <= |s| && s[p'..] == AfterField(s[p..])
    ensures ok ==> Holds(NumeralValue(s[p..][..FieldLen(s[p..])]), useBn, l, bl, ulongMax)
  {
    l, bl, useBn := 0, 0, false;
    var q: nat := 0;
    ghost var t := s[p..];
    while p + q < |s|
      invariant DigitsSoFar(t, q)
      invariant Holds(NumeralValue(t[..q]), useBn, l, bl, ulongMax)
    {
      var c := s[p + q];
      assert c == t[q];
      if IsSeparator(c) {
        FieldLenIs(t, q);
        return true, p + q + 1, useBn, l, bl;
      }
      if !IsDigit(c) {
        NotANumeral(t, q);
        return false, p, useBn, l, bl;
      }
      OneDigitMore(t, q);
      l, bl, useBn := AddDigit(l, bl, useBn, DigitValue(c), ulongMax, NumeralValue(t[..q]));
      q := q + 1;
    }
    FieldLenIs(t, q);
    return true, p + q, useBn, l, bl;
  }

  /** One digit moves from the number to the buffer. */
  lemma DigitMoved(done: seq<Byte>, m: nat, all: seq<Byte>)
    requires done + Digits(m) == all
    ensures m < 128 ==> |Digits(m)| == 1 && done + [m % 128] == all
    ensures m >= 128 ==> |Digits(m)| == 1 + |Digits(m / 128)| && done + [m % 128] + Digits(m / 128) == all
  {
    if m >= 128 {
      assert done + ([m % 128] + Digits(m / 128)) == done + [m % 128] + Digits(m / 128);
    }
  }

  method PutDigit(tmp: array<Byte>, i: nat, m: nat)
    requires i < tmp.Length
    modifies tmp
    ensures tmp[..i + 1] == old(tmp[..i]) + [m % 128]
  {
    tmp[i] := m % 128;
  }

  /** The word is cut into groups of seven bits, the lowest first, until nothing is left. */
  method WordDigits(tmp: array<Byte>, l: nat) returns (i: nat)
    requires |Digits(l)| <= tmp.Length
    modifies tmp
    ensures i <= tmp.Length && tmp[..i] == Digits(l)
  {
    i := 0;
    var m := l;
    while true
      invariant i + |Digits(m)| <= tmp.Length
      invariant tmp[..i] + Digits(m) == Digits(l)
      decreases m
    {
      DigitMoved(tmp[..i], m, Digits(l));
      PutDigit(tmp, i, m);
      i := i + 1;
      m := m / 128;
      if m == 0 {
        return;
      }
    }
  }

  /** The bignum is divided by 128 as often as its bit length says, and the remainders are kept. */
  method BignumDigits(tmp: array<Byte>, bl: nat, blsize: nat) returns (i: nat)
    requires bl > 0 && blsize == (NumBits(bl) + 6) / 7 <= tmp.Length
    modifies tmp
    ensures i <= tmp.Length && tmp[..i] == Digits(bl)
  {
    BitsGiveDigits(bl);
    i := 0;
    ghost var all := Digits(bl);
    var m, n := bl, blsize;
    while n > 0
      invariant i + n == blsize
      invariant n > 0 ==> |Digits(m)| == n && tmp[..i] + Digits(m) == all
      invariant n == 0 ==> tmp[..i] == all
    {
      DigitMoved(tmp[..i], m, all);
      PutDigit(tmp, i, m);
      i := i + 1;
      m, n := m / 128, n - 1;
    }
  }

  /** The digits of the value, in a buffer that is replaced when the bignum needs a longer one. */
  method FillDigits(tmp: array<Byte>, useBn: bool, l: nat, bl: nat, ghost v: nat)
    returns (tmp': array<Byte>, i: nat)
    requires tmp.Length >= 24
    requires HoldsSubid(v, useBn, l, bl)
    modifies tmp
    ensures tmp' == tmp || fresh(tmp')
    ensures tmp'.Length >= 24 && i <= tmp'.Length && tmp'[..i] == Digits(v)
  {
    tmp' := tmp;
    if useBn {
      var blsize := (NumBits(bl) + 6) / 7;
      if blsize > tmp.Length {
        tmp' := new Byte[blsize + 32](_ => 0);
      }
      i := BignumDigits(tmp', bl, blsize);
    } else {
      assert Pow128(10) == 0x40_0000_0000_0000_0000;
      DigitCount(l, 10);
      i := WordDigits(tmp', l);
    }
  }

  /** The digits go out from the last to the first, all but the first one flagged as continued. */
  method EmitDigits(out: array<Byte>, len: nat, tmp: array<Byte>, i: nat, ghost v: nat) returns (len': nat)
    requires out != tmp && i <= tmp.Length && tmp[..i] == Digits(v) && len + i <= out.Length
    modifies out
    ensures len' == len + |Subid(v)| <= out.Length
    ensures out[..len'] == old(out[..len]) + Subid(v)
  {
    ghost var was, w := out[..len], Subid(v);
    SubidAt(v, 0);
    len' := len;
    var k: nat := i - 1;
    while k > 0
      invariant len' == len + (i - 1 - k) && k < i
      invariant tmp[..i] == Digits(v)
      invariant out[..len'] == was + w[..i - 1 - k]
    {
      SubidAt(v, i - 1 - k);
      assert tmp[k] == tmp[..i][k];
      len' := PutOctet(out, len', tmp[k] + 128, was, w, i - 1 - k);
      k := k - 1;
    }
    SubidAt(v, i - 1);
    assert tmp[0] == tmp[..i][0];
    len' := PutOctet(out, len', tmp[0], was, w, i - 1);
    assert w[..i] == w;
  }

  /** One octet more, which is the next one of `w`. */
  method PutOctet(out: array<Byte>, len: nat, b: Byte, ghost was: seq<Byte>, ghost w: seq<Byte>, ghost j: nat)
    returns (len': nat)
    requires len < out.Length && j < |w| && b == w[j] && out[..len] == was + w[..j]
    modifies out
    ensures len' == len + 1 && out[..len'] == was + w[..j + 1]
  {
    out[len] := b;
    len' := len + 1;
    assert out[..len'] == out[..len] + [b];
    assert w[..j + 1] == w[..j] + [b];
    assert was + w[..j] + [b] == was + (w[..j] + [b]);
  }

  /** The part of an arc that follows its reading: its digits, and their octets unless `out` is null. */
  method PutSubid(out: array?<Byte>, olen: nat, len: nat, tmp: array<Byte>, useBn: bool, l: nat, bl: nat, ghost v: nat)
    returns (ok: bool, len': nat, tmp': array<Byte>)
    requires tmp.Length >= 24 && tmp != out
    requires HoldsSubid(v, useBn, l, bl)
    requires out != null ==> len <= olen <= out.Length
    modifies out, tmp
    ensures tmp' == tmp || fresh(tmp')
    ensures tmp'.Length >= 24
    ensures ok <==> out == null || len + |Subid(v)| <= olen
    ensures ok ==> len' == len + |Subid(v)|
    ensures ok && out != null ==> out[..len'] == old(out[..len]) + Subid(v)
  {
    var i;
    tmp', i := FillDigits(tmp, useBn, l, bl, v);
    SubidAt(v, 0);
    len' := len;
    if out != null {
      if len + i > olen {
        return false, len', tmp';
      }
      len' := EmitDigits(out, len, tmp', i, v);
    } else {
      len' := len + i;
    }
    ok := true;
  }

  /** The text the caller means: `num` characters, or the whole string for -1. */
  function Text(buf: string, num: int): (s: string)
    requires num <= |buf|
    ensures num == -1 ==> s == buf
    ensures num >= 0 ==> |s| == num && s <= buf
  {
    if num == -1 then buf else if num < 0 then [] else buf[..num]
  }

  /** The fields in `done` have been read, the rest starts at `p`, and `len` octets were produced. */
  ghost predicate Progress(s: string, done: seq<string>, p: nat, len: nat) {
    && 2 <= p <= |s| && '0' <= s[0] <= '2' && IsSeparator(s[1])
    && Fields(s[2..]) == done + Fields(s[p..])
    && AllNumerals(done)
    && (done != [] && s[0] != '2' ==> NumeralValue(done[0]) < 40)
    && len == |Encode(Subids(DigitValue(s[0]), done))|
  }

  /** The sub-identifier that the field at `p` contributes. */
  ghost function NextSubid(s: string, done: seq<string>, p: nat, len: nat): (v: nat)
    requires Progress(s, done, p, len) && IsNumeral(s[p..][..FieldLen(s[p..])])
  {
    NumeralValue(s[p..][..FieldLen(s[p..])]) + if done == [] then 40 * DigitValue(s[0]) else 0
  }

  /** A field that is no numeral, or a second arc that is too large, spoils the text. */
  lemma Rejected(s: string, done: seq<string>, p: nat, len: nat)
    requires Progress(s, done, p, len) && p < |s|
    ensures var f := s[p..][..FieldLen(s[p..])];
            !IsNumeral(f) || (done == [] && s[0] != '2' && NumeralValue(f) >= 40) ==> !IsOidText(s)
  {
    var fs := Fields(s[2..]);
    assert fs[|done|] == s[p..][..FieldLen(s[p..])];
  }

  /** The sub-identifier `v` of the field `f` at `p`, which ends before `p'`. */
  ghost predicate IsNext(s: string, done: seq<string>, p: nat, p': nat, len: nat, f: string, v: nat) {
    && p < p' && Progress(s, done + [f], p', len + |Subid(v)|)
    && AllNumerals(done)
    && Encode(Subids(DigitValue(s[0]), done + [f])) == Encode(Subids(DigitValue(s[0]), done)) + Subid(v)
  }

  lemma FieldRead(t: string, done: seq<string>, all: seq<string>)
    requires t != [] && all == done + Fields(t)
    ensures all == done + [t[..FieldLen(t)]] + Fields(AfterField(t))
  {
    var f, rest := t[..FieldLen(t)], Fields(AfterField(t));
    assert Fields(t) == [f] + rest;
    assert done + ([f] + rest) == done + [f] + rest;
  }

  lemma FieldEncoded(first: nat, done: seq<string>, f: string, v: nat)
    requires AllNumerals(done) && IsNumeral(f)
    requires v == NumeralValue(f) + if done == [] then 40 * first else 0
    ensures AllNumerals(done + [f])
    ensures Encode(Subids(first, done + [f])) == Encode(Subids(first, done)) + Subid(v)
  {
    SubidsSnoc(first, done, f, v);
    EncodeSnoc(Subids(first, done), v);
  }

  lemma Advanced(s: string, done: seq<string>, p: nat, len: nat, p': nat, f: string, v: nat)
    requires Progress(s, done, p, len) && p < p' <= |s| && s[p'..] == AfterField(s[p..])
    requires f == s[p..][..FieldLen(s[p..])] && IsNumeral(f) && v == NextSubid(s, done, p, len)
    requires done == [] && s[0] != '2' ==> NumeralValue(f) < 40
    ensures IsNext(s, done, p, p', len, f, v)
  {
    assert Fields(s[2..]) == done + [f] + Fields(s[p'..]) by {
      FieldRead(s[p..], done, Fields(s[2..]));
    }
    FieldEncoded(DigitValue(s[0]), done, f, v);
    assert (done + [f])[0] == if done == [] then f else done[0];
  }

  lemma Finished(s: string, done: seq<string>, len: nat)
    requires Progress(s, done, |s|, len) && (done == [] <==> |s| == 2)
    ensures IsOidText(s) <==> |s| > 2
    ensures IsOidText(s) ==> TextSubids(s) == Subids(DigitValue(s[0]), done)
    ensures len == 0 <==> |s| == 2
  {
    assert s[|s|..] == [];
    assert done + [] == done;
    EncodePositive(Subids(DigitValue(s[0]), done));
  }

  /** `a2d_ASN1_OBJECT`: 0 for a text that is no object identifier or does not fit, otherwise the length of the
      encoding of its sub-identifiers, written to `out` unless that is null. */
  method A2dObject(out: array?<Byte>, olen: nat, buf: string, num: int, ulongMax: nat) returns (len: nat)
    requires IsUlongMax(ulongMax) && num <= |buf|
    requires out != null ==> olen <= out.Length
    modifies out
    ensures var s := Text(buf, num);
            if !IsOidText(s) || (out != null && |Encode(TextSubids(s))| > olen) then len == 0
            else len == |Encode(TextSubids(s))| > 0 && (out != null ==> out[..len] == Encode(TextSubids(s)))
  {
    if num == 0 {
      return 0;
    }
    var s := Text(buf, num);
    if s == [] || !('0' <= s[0] <= '2') {
      return 0;
    }
    if |s| <= 2 || !IsSeparator(s[1]) {
      return 0;
    }
    len := EncodeFields(out, olen, s, ulongMax);
  }

  /** The second arc shares its sub-identifier with the root arc, and is below 40 unless the root arc is 2. */
  method AddRoot(second: bool, useBn: bool, l: nat, bl: nat, first: nat, ulongMax: nat, ghost v: nat)
    returns (ok: bool, l': nat, bl': nat)
    requires IsUlongMax(ulongMax) && first <= 2 && Holds(v, useBn, l, bl, ulongMax)
    ensures ok <==> !(second && first < 2 && v >= 40)
    ensures ok ==> HoldsSubid(v + if second then 40 * first else 0, useBn, l', bl')
  {
    ok, l', bl' := true, l, bl;
    if second {
      if first < 2 && l >= 40 {
        return false, l', bl';
      }
      if useBn {
        bl' := bl + first * 40;
      } else {
        NoWrap(l + first * 40, ulongMax);
        l' := (l + first * 40) % (ulongMax + 1);
      }
    }
  }

  /** Reads the field at `p` and adds the root arc to the first one. */
  method ReadSubid(s: string, ulongMax: nat, p: nat, second: bool)
    returns (ok: bool, p': nat, useBn: bool, l: nat, bl: nat)
    requires IsUlongMax(ulongMax) && p < |s| && '0' <= s[0] <= '2'
    ensures var f := s[p..][..FieldLen(s[p..])];
            && (ok <==> IsNumeral(f) && !(second && s[0] != '2' && NumeralValue(f) >= 40))
            && (ok ==> p < p' <= |s| && s[p'..] == AfterField(s[p..]))
            && (ok ==> HoldsSubid(NumeralValue(f) + if second then 40 * DigitValue(s[0]) else 0, useBn, l, bl))
  {
    ghost var f := s[p..][..FieldLen(s[p..])];
    ok, p', useBn, l, bl := ReadField(s, p, ulongMax);
    if ok {
      ok, l, bl := AddRoot(second, useBn, l, bl, DigitValue(s[0]), ulongMax, NumeralValue(f));
    }
  }

  /** One turn of the outer loop. It fails if the text is bad or the buffer too short for it. */
  method EncodeField(out: array?<Byte>, olen: nat, s: string, ulongMax: nat, p: nat, len: nat, tmp: array<Byte>,
                     ghost done: seq<string>)
    returns (ok: bool, p': nat, len': nat, tmp': array<Byte>, ghost f: string)
    requires IsUlongMax(ulongMax) && Progress(s, done, p, len) && p < |s| && (done == [] <==> len == 0)
    requires tmp.Length >= 24 && tmp != out
    requires out != null ==> len <= olen <= out.Length && out[..len] == Encode(Subids(DigitValue(s[0]), done))
    modifies out, tmp
    ensures tmp' == tmp || fresh(tmp')
    ensures tmp'.Length >= 24
    ensures !ok ==> !IsOidText(s) || (out != null && |Encode(TextSubids(s))| > olen)
    ensures ok ==> p < p' && Progress(s, done + [f], p', len')
    ensures ok && out != null ==> len' <= olen && out[..len'] == Encode(Subids(DigitValue(s[0]), done + [f]))
  {
    len', tmp', f := len, tmp, s[p..][..FieldLen(s[p..])];
    var useBn, l, bl;
    ok, p', useBn, l, bl := ReadSubid(s, ulongMax, p, len == 0);
    if !ok {
      Rejected(s, done, p, len);
      return;
    }
    ghost var v := NextSubid(s, done, p, len);
    Advanced(s, done, p, len, p', f, v);
    ok, len', tmp' := PutSubid(out, olen, len, tmp, useBn, l, bl, v);
    if !ok {
      TooLong(s, done + [f], p');
    }
  }

  /** The outer loop, behind a root arc and a separator. */
  method EncodeFields(out: array?<Byte>, olen: nat, s: string, ulongMax: nat) returns (len: nat)
    requires IsUlongMax(ulongMax) && |s| > 2 && '0' <= s[0] <= '2' && IsSeparator(s[1])
    requires out != null ==> olen <= out.Length
    modifies out
    ensures if !IsOidText(s) || (out != null && |Encode(TextSubids(s))| > olen) then len == 0
            else len == |Encode(TextSubids(s))| > 0 && (out != null ==> out[..len] == Encode(TextSubids(s)))
  {
    var tmp := new Byte[24](_ => 0);
    var p: nat := 2;
    len := 0;
    ghost var done: seq<string> := [];
    Started(s);
    while p < |s|
      invariant Progress(s, done, p, len) && (done == [] <==> p == 2)
      invariant tmp.Length >= 24 && fresh(tmp)
      invariant out != null ==> len <= olen && out[..len] == Encode(Subids(DigitValue(s[0]), done))
      decreases |s| - p
    {
      EncodePositive(Subids(DigitValue(s[0]), done));
      var ok;
      ghost var f;
      ok, p, len, tmp, f := EncodeField(out, olen, s, ulongMax, p, len, tmp, done);
      if !ok {
        return 0;
      }
      done := done + [f];
    }
    Finished(s, done, len);
  }

  lemma Started(s: string)
    requires |s| > 2 && '0' <= s[0] <= '2' && IsSeparator(s[1])
    ensures Progress(s, [], 2, 0)
  {
    assert [] + Fields(s[2..]) == Fields(s[2..]);
    assert Subids(DigitValue(s[0]), []) == [];
  }

  lemma SubidsSnoc(first: nat, done: seq<string>, f: string, v: nat)
    requires AllNumerals(done) && IsNumeral(f)
    requires v == NumeralValue(f) + if done == [] then 40 * first else 0
    ensures AllNumerals(done + [f])
    ensures Subids(first, done + [f]) == Subids(first, done) + [v]
  {
  }

  lemma {:induction false} EncodePrefix(ms: seq<nat>, ns: seq<nat>)
    requires ms <= ns
    ensures |Encode(ms)| <= |Encode(ns)|
  {
    if ms != [] {
      EncodePrefix(ms[1..], ns[1..]);
    }
  }

  /** Once a prefix of the fields is too long, so is the whole. */
  lemma TooLong(s: string, done: seq<string>, p: nat)
    requires 2 <= p <= |s| && Fields(s[2..]) == done + Fields(s[p..]) && AllNumerals(done) && IsDigit(s[0])
    ensures IsOidText(s) ==> |Encode(Subids(DigitValue(s[0]), done))| <= |Encode(TextSubids(s))|
  {
    if IsOidText(s) {
      SubidsPrefix(DigitValue(s[0]), done, Fields(s[2..]));
      EncodePrefix(Subids(DigitValue(s[0]), done), TextSubids(s));
    }
  }

  lemma SubidsPrefix(first: nat, done: seq<string>, fs: seq<string>)
    requires AllNumerals(done) && AllNumerals(fs) && done <= fs
    ensures Subids(first, done) <= Subids(first, fs)
  {
    var a, b := Subids(first, done), Subids(first, fs);
    assert forall i | 0 <= i < |a| :: a[i] == b[i];
  }

  /** The guard of `c2i_ASN1_OBJECT`. */
  method C2iCheck(p: seq<Byte>) returns (ok: bool)
    ensures ok <==> NoLeading80(p)
  {
    for i := 0 to |p|
      invariant forall j | 0 <= j < i :: p[j] == 0x80 ==> j > 0 && p[j - 1] >= 128
    {
      if p[i] == 0x80 && (i == 0 || p[i - 1] < 128) {
        return false;
      }
    }
    return true;
  }

  // ---------------------------------------------------------------- what the text means

  /** A number as it is written. */
  function Decimal(n: nat): (s: string) {
    if n < 10 then ["0123456789"[n]] else Decimal(n / 10) + ["0123456789"[n % 10]]
  }

  lemma DigitRead(d: nat)
    requires d < 10
    ensures IsDigit("0123456789"[d]) && DigitValue("0123456789"[d]) == d
  {
    assert d == 0 || d == 1 || d == 2 || d == 3 || d == 4 || d == 5 || d == 6 || d == 7 || d == 8 || d == 9;
  }

  /** A field is read as the decimal number it is. */
  lemma {:induction false} DecimalRead(n: nat)
    ensures Decimal(n) != [] && IsNumeral(Decimal(n)) && NumeralValue(Decimal(n)) == n
  {
    DigitRead(n % 10);
    if n >= 10 {
      DecimalRead(n / 10);
      NumeralSnoc(Decimal(n / 10), "0123456789"[n % 10]);
    } else {
      assert Decimal(n)[..0] == [];
      assert NumeralValue([]) == 0;
    }
  }

  /** Leading zeros change nothing, and an empty field is zero. */
  lemma {:induction false} LeadingZeros(zeros: string, s: string)
    requires (forall i | 0 <= i < |zeros| :: zeros[i] == '0') && IsNumeral(s)
    ensures IsNumeral(zeros + s) && NumeralValue(zeros + s) == NumeralValue(s) && NumeralValue([]) == 0
    decreases |s|, |zeros|
  {
    if s != [] {
      var n := |s| - 1;
      LeadingZeros(zeros, s[..n]);
      assert zeros + s == zeros + s[..n] + [s[n]] && s == s[..n] + [s[n]];
      NumeralSnoc(zeros + s[..n], s[n]);
    } else if zeros != [] {
      var n := |zeros| - 1;
      LeadingZeros(zeros[..n], s);
      assert zeros + s == zeros[..n] + s + ['0'];
      NumeralSnoc(zeros[..n] + s, '0');
      DigitRead(0);
    }
  }

  /** A separator where a field should start makes an empty one, which counts as an arc. */
  lemma EmptyField(sep: char, t: string)
    requires sep == '.' || sep == ' '
    ensures Fields([sep] + t) == [""] + Fields(t)
  {
    var s := [sep] + t;
    FieldLenIs(s, 0);
    assert s[..0] == "" && s[1..] == t;
  }

  /** Arcs, each behind a separator, and what closes the text. */
  function Dotted(arcs: seq<nat>, seps: string, end: string): (s: string)
    requires |arcs| == |seps|
  {
    if arcs == [] then end else [seps[0]] + Decimal(arcs[0]) + Dotted(arcs[1..], seps[1..], end)
  }

  ghost predicate DotsOrSpaces(seps: string) {
    forall i | 0 <= i < |seps| :: seps[i] == '.' || seps[i] == ' '
  }

  function Written(arcs: seq<nat>): (fs: seq<string>) {
    seq(|arcs|, i requires 0 <= i < |arcs| => Decimal(arcs[i]))
  }

  lemma FirstField(d: string, tail: string)
    requires d != [] && IsNumeral(d) && (tail != [] ==> tail[0] == '.' || tail[0] == ' ')
    ensures Fields(d + tail) == [d] + if tail == [] then [] else Fields(tail[1..])
  {
    var t := d + tail;
    FieldLenIs(t, |d|);
    assert t[..|d|] == d;
    assert AfterField(t) == if tail == [] then [] else tail[1..];
  }

  /** The fields of what follows a separator are the arcs. */
  lemma {:induction false} FieldsOfDotted(arcs: seq<nat>, seps: string, end: string)
    requires |arcs| == |seps| && arcs != [] && DotsOrSpaces(seps) && |end| <= 1 && DotsOrSpaces(end)
    ensures Fields(Dotted(arcs, seps, end)[1..]) == Written(arcs)
    decreases |arcs|
  {
    DottedShape(arcs, seps, end);
    WrittenCons(arcs);
    if |arcs| == 1 {
      LastField(arcs, seps, end);
    } else {
      FieldsOfDotted(arcs[1..], seps[1..], end);
      MoreFields(arcs, seps, end);
    }
  }

  lemma WrittenCons(arcs: seq<nat>)
    requires arcs != []
    ensures Written(arcs) == [Decimal(arcs[0])] + Written(arcs[1..])
  {
  }

  lemma LastField(arcs: seq<nat>, seps: string, end: string)
    requires |arcs| == |seps| == 1 && |end| <= 1 && DotsOrSpaces(end)
    ensures Fields(Decimal(arcs[0]) + Dotted(arcs[1..], seps[1..], end)) == [Decimal(arcs[0])]
  {
    DecimalRead(arcs[0]);
    FirstField(Decimal(arcs[0]), end);
    assert end != [] ==> end[1..] == [];
  }

  lemma MoreFields(arcs: seq<nat>, seps: string, end: string)
    requires |arcs| == |seps| > 1 && DotsOrSpaces(seps)
    ensures var tail := Dotted(arcs[1..], seps[1..], end);
            tail != [] && Fields(Decimal(arcs[0]) + tail) == [Decimal(arcs[0])] + Fields(tail[1..])
  {
    DecimalRead(arcs[0]);
    DottedShape(arcs[1..], seps[1..], end);
    FirstField(Decimal(arcs[0]), Dotted(arcs[1..], seps[1..], end));
  }

  lemma DottedShape(arcs: seq<nat>, seps: string, end: string)
    requires |arcs| == |seps| && arcs != []
    ensures var s := Dotted(arcs, seps, end);
            s != [] && s[0] == seps[0] && s[1..] == Decimal(arcs[0]) + Dotted(arcs[1..], seps[1..], end)
  {
  }

  lemma WrittenRead(arcs: seq<nat>)
    ensures AllNumerals(Written(arcs))
    ensures forall i | 0 <= i < |arcs| :: NumeralValue(Written(arcs)[i]) == arcs[i]
  {
    forall i | 0 <= i < |arcs|
      ensures IsNumeral(Written(arcs)[i]) && NumeralValue(Written(arcs)[i]) == arcs[i]
    {
      DecimalRead(arcs[i]);
    }
  }

  /** The dotted text of an object identifier, with dots or spaces in it and perhaps one at its end, is accepted, and
      its encoding decodes to 40 times the root arc plus the second arc, followed by the other arcs. */
  lemma DottedIsEncoded(root: nat, second: nat, rest: seq<nat>, seps: string, end: string)
    requires root <= 2 && (root < 2 ==> second < 40) && |seps| == 1 + |rest|
    requires DotsOrSpaces(seps) && |end| <= 1 && DotsOrSpaces(end)
    ensures var s := Decimal(root) + Dotted([second] + rest, seps, end);
            && IsOidText(s) && TextSubids(s) == [40 * root + second] + rest
            && Decode(Encode(TextSubids(s))) == Some([40 * root + second] + rest)
  {
    var arcs := [second] + rest;
    var tail := Dotted(arcs, seps, end);
    var s := Decimal(root) + tail;
    FieldsOfDotted(arcs, seps, end);
    WrittenRead(arcs);
    DecimalRead(second);
    RootRead(root, tail, s, seps[0]);
    assert Fields(s[2..]) == Written(arcs);
    SubidsOfWritten(root, second, rest);
    DecodeEncode(TextSubids(s));
  }

  lemma RootRead(root: nat, tail: string, s: string, sep: char)
    requires root <= 2 && s == Decimal(root) + tail && |tail| >= 2 && tail[0] == sep
    ensures |s| >= 3 && '0' <= s[0] <= '2' && DigitValue(s[0]) == root && s[1] == sep && s[2..] == tail[1..]
    ensures s[0] == '2' <==> root == 2
  {
    DigitRead(root);
    assert Decimal(root) == ["0123456789"[root]];
  }

  lemma SubidsOfWritten(root: nat, second: nat, rest: seq<nat>)
    requires AllNumerals(Written([second] + rest))
    ensures Subids(root, Written([second] + rest)) == [40 * root + second] + rest
  {
    WrittenRead([second] + rest);
  }

  lemma FieldsSplit(t: string)
    requires t != [] && AllNumerals(Fields(t))
    ensures IsNumeral(t[..FieldLen(t)]) && AllNumerals(Fields(AfterField(t)))
  {
    var fs := Fields(t);
    assert fs[0] == t[..FieldLen(t)] && fs[1..] == Fields(AfterField(t));
    assert forall i | 0 <= i < |fs[1..]| :: fs[1..][i] == fs[i + 1];
  }

  lemma {:induction false} FieldsCover(t: string, i: nat)
    requires AllNumerals(Fields(t)) && i < |t|
    ensures '0' <= t[i] <= '9' || t[i] == '.' || t[i] == ' '
    decreases |t|
  {
    FieldsSplit(t);
    if i <= FieldLen(t) {
      FieldCovers(t, FieldLen(t), i);
    } else {
      AfterFieldAt(t, i);
      FieldsCover(AfterField(t), i - FieldLen(t) - 1);
    }
  }

  lemma FieldCovers(t: string, n: nat, i: nat)
    requires i <= n <= |t| && i < |t| && IsNumeral(t[..n]) && (n < |t| ==> IsSeparator(t[n]))
    ensures '0' <= t[i] <= '9' || t[i] == '.' || t[i] == ' '
  {
    if i < n {
      assert t[..n][i] == t[i];
    }
  }

  lemma AfterFieldAt(t: string, i: nat)
    requires FieldLen(t) < i < |t|
    ensures |AfterField(t)| == |t| - FieldLen(t) - 1 && AfterField(t)[i - FieldLen(t) - 1] == t[i]
  {
    var n := FieldLen(t);
    var rest := t[n + 1..];
    assert AfterField(t) == rest;
    assert rest[i - n - 1] == t[i];
  }

  /** Nothing but digits, dots and spaces is accepted. */
  lemma OnlyDigitsAndSeparators(s: string, i: nat)
    requires IsOidText(s) && i < |s|
    ensures '0' <= s[i] <= '9' || s[i] == '.' || s[i] == ' '
  {
    if i >= 2 {
      var t := s[2..];
      assert t[i - 2] == s[i];
      FieldsCover(t, i - 2);
    }
  }

  /** The example of section 8.19.5 of X.690: the arcs 2, 100 and 3. */
  lemma StandardExample()
    ensures Encode([180, 3]) == [0x81, 0x34, 0x03]
  {
    assert Continued(0) == [] && Continued(1) == [0x81];
    assert Subid(180) == [0x81, 0x34] && Subid(3) == [0x03];
    EncodeCons(180, [3]);
    EncodeCons(3, []);
    assert [180] + [3] == [180, 3] && [3] + [] == [3];
  }
}
