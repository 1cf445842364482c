/** The text printk makes: integers in a base with flags, width and precision, and wide characters as UTF-8. */
module PrintkText {
  import opened Words

  const SPACE: byte := 32
  const ZERO: byte := 48
  const PLUS: byte := 43
  const MINUS: byte := 45

  function Times(c: byte, n: int): (s: seq<byte>)
    ensures |s| == (if n > 0 then n else 0) && forall i :: 0 <= i < |s| ==> s[i] == c
  {
    if n > 0 then seq(n, _ => c) else []
  }

  // ----- Digits

  function LastDigit(v: nat, base: nat): (d: nat)
    requires base > 0
    ensures d < base
  {
    v % base
  }

  function OtherDigits(v: nat, base: nat): (q: nat)
    requires base > 0
    ensures v > 0 && base >= 2 ==> q < v
  {
    v / base
  }

  function Digits(v: nat, base: nat): (ds: seq<nat>)
    requires base >= 2
    ensures forall i :: 0 <= i < |ds| ==> ds[i] < base
    ensures v > 0 ==> |ds| > 0 && ds[0] > 0
    decreases v
  {
    if v == 0 then [] else Digits(OtherDigits(v, base), base) + [LastDigit(v, base)]
  }

  /** The number a sequence of digits stands for, after a number `acc` already read. */
  function Value(ds: seq<nat>, base: nat, acc: nat): nat {
    if ds == [] then acc else Value(ds[1..], base, acc * base + ds[0])
  }

  lemma {:induction false} ValueLast(ds: seq<nat>, d: nat, base: nat, acc: nat)
    ensures Value(ds + [d], base, acc) == Value(ds, base, acc) * base + d
    decreases |ds|
  {
    if ds == [] {
      assert (ds + [d])[1..] == [];
    } else {
      assert (ds + [d])[1..] == ds[1..] + [d];
      ValueLast(ds[1..], d, base, acc * base + ds[0]);
    }
  }

  lemma {:induction false} DigitsValue(v: nat, base: nat)
    requires base >= 2
    ensures Value(Digits(v, base), base, 0) == v
    decreases v
  {
    hide Value, LastDigit, OtherDigits;
    EmptyValue(base);
    if v > 0 {
      var q, d := OtherDigits(v, base), LastDigit(v, base);
      DigitsValue(q, base);
      DivideBack(v, base);
      ValueLast(Digits(q, base), d, base, 0);
    }
  }

  lemma {:induction false} DivideBack(v: nat, base: nat)
    requires base > 0
    ensures v == OtherDigits(v, base) * base + LastDigit(v, base)
  {
  }

  lemma {:induction false} EmptyValue(base: nat)
    ensures Value([], base, 0) == 0
  {
  }

  function DigitChar(d: nat, upper: bool): byte
    requires d < 16
  {
    if d < 10 then 48 + d else (if upper then 55 else 87) + d
  }

  /** The digit a character stands for, in upper or lower case; 16 for any other character. */
  function CharDigit(c: byte): (d: nat)
    ensures d <= 16
  {
    if 48 <= c <= 57 then c - 48 else if 65 <= c <= 70 then c - 55 else if 97 <= c <= 102 then c - 87 else 16
  }

  function DigitChars(ds: seq<nat>, upper: bool): (s: seq<byte>)
    requires forall i :: 0 <= i < |ds| ==> ds[i] < 16
    ensures |s| == |ds| && forall i :: 0 <= i < |s| ==> CharDigit(s[i]) == ds[i] && s[i] == DigitChar(ds[i], upper)
  {
    seq(|ds|, i requires 0 <= i < |ds| => DigitChar(ds[i], upper))
  }

  /** The characters _ntoa produces. */
  function NumberText(v: nat, base: nat, upper: bool): (s: seq<byte>)
    requires 2 <= base <= 16
    ensures |s| > 0 && forall i :: 0 <= i < |s| ==> CharDigit(s[i]) < base
  {
    if v == 0 then [ZERO] else DigitChars(Digits(v, base), upper)
  }

  // ----- How many digits 64 bits can take

  function Pow8(n: nat): nat {
    if n == 0 then 1 else 8 * Pow8(n - 1)
  }

  lemma {:induction false} WordFits()
    ensures WORD <= Pow8(22)
  {
    assert Pow8(4) == 0x1000;
    assert Pow8(8) == 0x100_0000;
    assert Pow8(12) == 0x10_0000_0000;
    assert Pow8(16) == 0x1_0000_0000_0000;
    assert Pow8(20) == 0x1000_0000_0000_0000;
  }

  lemma {:induction false} DivideFits(v: nat, base: nat, n: nat)
    requires base >= 8 && n > 0 && v < Pow8(n)
    ensures v / base < Pow8(n - 1)
  {
    var q := v / base;
    assert v >= q * base >= q * 8;
  }

  // ----- Integers

  datatype Flags = Flags(left: bool, plus: bool, space: bool, prefix: bool, zero: bool, upper: bool)

  function Magnitude(x: int): nat { if x < 0 then -x else x }

  /** The digits shown: none for a zero with precision 0. */
  function Shown(v: nat, base: nat, upper: bool, precision: int): seq<byte>
    requires 2 <= base <= 16
  {
    if precision == 0 && v == 0 then [] else NumberText(v, base, upper)
  }

  function SignText(x: int, signed: bool, f: Flags): seq<byte> {
    if signed && x < 0 then [MINUS] else if f.plus && signed then [PLUS] else if f.space then [SPACE] else []
  }

  function PrefixText(v: nat, base: nat, f: Flags, precision: int, zeros: nat): seq<byte> {
    if !f.prefix then []
    else if base == 8 && zeros == 0 && (v != 0 || precision == 0) then [ZERO]
    else if base == 16 && v != 0 then [ZERO, if f.upper then 88 else 120]
    else []
  }

  function Positive(n: int): nat { if n > 0 then n else 0 }

  /** Everything but the padding. */
  function FieldLength(x: int, signed: bool, base: nat, f: Flags, precision: int): nat
    requires 2 <= base <= 16
  {
    var v := Magnitude(x);
    var n := |Shown(v, base, f.upper, precision)|;
    var zeros := Positive(precision - n);
    |SignText(x, signed, f)| + |PrefixText(v, base, f, precision, zeros)| + zeros + n
  }

  /** Zero padding replaces spaces on the left, unless a precision is given. */
  predicate ZeroPads(f: Flags, precision: int) { f.zero && !f.left && precision < 0 }

  /** The text of an integer conversion. */
  function IntegerText(x: int, signed: bool, base: nat, f: Flags, width: int, precision: int): seq<byte>
    requires 2 <= base <= 16
  {
    var v := Magnitude(x);
    var digits := Shown(v, base, f.upper, precision);
    var zeros := Positive(precision - |digits|);
    var pad := Positive(width - FieldLength(x, signed, base, f, precision));
    var zeroPad := if ZeroPads(f, precision) then pad else 0;
    var spaces := pad - zeroPad;
    (if f.left then [] else Times(SPACE, spaces)) + SignText(x, signed, f) + PrefixText(v, base, f, precision, zeros)
    + Times(ZERO, zeroPad + zeros) + digits + (if f.left then Times(SPACE, spaces) else [])
  }

  /** The text fills the field width exactly, or is as long as it needs to be. */
  lemma {:induction false} IntegerLength(x: int, signed: bool, base: nat, f: Flags, width: int, precision: int)
    requires 2 <= base <= 16
    ensures var field := FieldLength(x, signed, base, f, precision);
      |IntegerText(x, signed, base, f, width, precision)| == if width > field then width else field
  {
  }

  // ----- Reading an integer back

  function SkipSpaces(s: seq<byte>): seq<byte> {
    if s != [] && s[0] == SPACE then SkipSpaces(s[1..]) else s
  }

  function SkipPrefix(s: seq<byte>, base: nat): seq<byte> {
    if base == 16 && |s| >= 2 && s[0] == ZERO && (s[1] == 88 || s[1] == 120) then s[2..] else s
  }

  /** Digits as far as they go. */
  function ReadDigits(s: seq<byte>, base: nat, acc: nat): nat {
    if s == [] || CharDigit(s[0]) >= base then acc else ReadDigits(s[1..], base, acc * base + CharDigit(s[0]))
  }

  /** Padding, a sign, a prefix, digits: the number that is read. */
  function ReadInteger(s: seq<byte>, base: nat): int {
    var t := SkipSpaces(s);
    var neg := t != [] && t[0] == MINUS;
    var u := if t != [] && (t[0] == MINUS || t[0] == PLUS) then t[1..] else t;
    var v := ReadDigits(SkipPrefix(u, base), base, 0);
    if neg then -(v as int) else v
  }

  lemma {:induction false} SkipTimes(n: int, s: seq<byte>)
    ensures SkipSpaces(Times(SPACE, n) + s) == SkipSpaces(s)
    decreases n
  {
    if n > 0 {
      assert (Times(SPACE, n) + s)[1..] == Times(SPACE, n - 1) + s;
      SkipTimes(n - 1, s);
    } else {
      assert Times(SPACE, n) + s == s;
    }
  }

  /** The rest of the text after sign and prefix. */
  function Body(zeros: nat, digits: seq<byte>, trail: nat): seq<byte> {
    Times(ZERO, zeros) + digits + Times(SPACE, trail)
  }

  lemma {:induction false} ReadBody(zeros: nat, digits: seq<byte>, ds: seq<nat>, trail: nat, base: nat, acc: nat)
    requires 2 <= base <= 16 && |ds| == |digits| && forall i :: 0 <= i < |ds| ==> CharDigit(digits[i]) == ds[i] < base
    requires zeros == 0 || acc == 0
    ensures ReadDigits(Body(zeros, digits, trail), base, acc) == Value(ds, base, acc)
    decreases zeros + |digits|
  {
    hide Body, ReadDigits, Value, CharDigit, Times;
    BodySteps(zeros, digits, trail);
    ReadStep(Body(zeros, digits, trail), base, acc);
    if zeros > 0 {
      ReadBody(zeros - 1, digits, ds, trail, base, acc);
    } else {
      ValueStep(ds, base, acc);
      if digits != [] { ReadBody(0, digits[1..], ds[1..], trail, base, acc * base + ds[0]); }
    }
  }

  lemma {:induction false} ReadStep(s: seq<byte>, base: nat, acc: nat)
    requires 2 <= base <= 16
    ensures s == [] || s[0] == SPACE ==> ReadDigits(s, base, acc) == acc
    ensures s != [] && s[0] == ZERO && acc == 0 ==> ReadDigits(s, base, acc) == ReadDigits(s[1..], base, acc)
    ensures s != [] && CharDigit(s[0]) < base ==>
      ReadDigits(s, base, acc) == ReadDigits(s[1..], base, acc * base + CharDigit(s[0]))
  {
  }

  lemma {:induction false} ValueStep(ds: seq<nat>, base: nat, acc: nat)
    ensures Value(ds, base, acc) == if ds == [] then acc else Value(ds[1..], base, acc * base + ds[0])
  {
  }

  lemma {:induction false} BodySteps(zeros: nat, digits: seq<byte>, trail: nat)
    ensures var s := Body(zeros, digits, trail);
      && (zeros > 0 ==> s != [] && s[0] == ZERO && s[1..] == Body(zeros - 1, digits, trail))
      && (zeros == 0 && digits != [] ==> s != [] && s[0] == digits[0] && s[1..] == Body(0, digits[1..], trail))
      && (zeros == 0 && digits == [] && s != [] ==> s[0] == SPACE)
  {
  }

  /** The digits shown, as numbers. */
  lemma {:induction false} ShownDigits(v: nat, base: nat, upper: bool, precision: int) returns (ds: seq<nat>)
    requires 2 <= base <= 16
    ensures |ds| == |Shown(v, base, upper, precision)| && Value(ds, base, 0) == v
    ensures forall i :: 0 <= i < |ds| ==> CharDigit(Shown(v, base, upper, precision)[i]) == ds[i] < base
  {
    if precision == 0 && v == 0 {
      ds := [];
    } else if v == 0 {
      ds := [0];
      assert ds[1..] == [];
    } else {
      ds := Digits(v, base);
      DigitsValue(v, base);
    }
  }

  /** A body starts with a digit of the base or, when it has none, is all spaces. */
  lemma {:induction false} BodyStarts(zeros: nat, digits: seq<byte>, trail: nat, base: nat)
    requires 2 <= base <= 16 && forall i :: 0 <= i < |digits| ==> CharDigit(digits[i]) < base
    ensures var s := Body(zeros, digits, trail);
      && (zeros + |digits| > 0 ==> SkipSpaces(s) == s && s[0] != MINUS && s[0] != PLUS)
      && (zeros + |digits| == 0 ==> SkipSpaces(s) == [])
      && SkipPrefix(s, base) == s
  {
    var s := Body(zeros, digits, trail);
    assert forall i :: 0 <= i < |s| ==> s[i] == SPACE || CharDigit(s[i]) < base;
    if zeros + |digits| == 0 {
      assert s == Times(SPACE, trail) + [];
      SkipTimes(trail, []);
    }
  }

  /** Reading `sign`, `prefix` and a body. */
  lemma {:induction false} ReadParts(sign: seq<byte>, prefix: seq<byte>, zeros: nat, digits: seq<byte>, ds: seq<nat>,
                                     trail: nat, base: nat)
    requires 8 <= base <= 16 && |ds| == |digits| && forall i :: 0 <= i < |ds| ==> CharDigit(digits[i]) == ds[i] < base
    requires sign == [] || sign == [MINUS] || sign == [PLUS] || sign == [SPACE]
    requires prefix == [] || prefix == [ZERO] || (base == 16 && (prefix == [ZERO, 88] || prefix == [ZERO, 120]))
    ensures ReadInteger(sign + (prefix + Body(zeros, digits, trail)), base)
      == if sign == [MINUS] then -(Value(ds, base, 0) as int) else Value(ds, base, 0)
  {
    var t := prefix + Body(zeros, digits, trail);
    ReadPrefixed(prefix, zeros, digits, ds, trail, base);
    NothingRead(ds, base);
    hide Body, SkipSpaces, ReadDigits, Value, CharDigit, SkipPrefix;
    ReadSigned(sign, t, base, Value(ds, base, 0));
  }

  lemma {:induction false} NothingRead(ds: seq<nat>, base: nat)
    ensures |ds| == 0 ==> Value(ds, base, 0) == 0
  {
  }

  lemma {:induction false} NoSpaces(t: seq<byte>)
    ensures t != [] && t[0] != SPACE ==> SkipSpaces(t) == t
  {
  }

  lemma {:induction false} ReadPrefixed(prefix: seq<byte>, zeros: nat, digits: seq<byte>, ds: seq<nat>, trail: nat,
                                        base: nat)
    requires 8 <= base <= 16 && |ds| == |digits| && forall i :: 0 <= i < |ds| ==> CharDigit(digits[i]) == ds[i] < base
    requires prefix == [] || prefix == [ZERO] || (base == 16 && (prefix == [ZERO, 88] || prefix == [ZERO, 120]))
    ensures var t := prefix + Body(zeros, digits, trail);
      && ReadDigits(SkipPrefix(t, base), base, 0) == Value(ds, base, 0)
      && (SkipSpaces(t) == t || (SkipSpaces(t) == [] && |ds| == 0))
      && (t != [] && SkipSpaces(t) == t ==> t[0] != MINUS && t[0] != PLUS)
  {
    hide ReadDigits, Value, CharDigit, SkipSpaces;
    var body := Body(zeros, digits, trail);
    var t := prefix + body;
    NoSpaces(t);
    if prefix == [ZERO] {
      assert t == Body(zeros + 1, digits, trail);
      hide Body;
      ReadBody(zeros + 1, digits, ds, trail, base, 0);
      BodyStarts(zeros + 1, digits, trail, base);
    } else {
      hide Body;
      ReadBody(zeros, digits, ds, trail, base, 0);
      BodyStarts(zeros, digits, trail, base);
      assert if prefix == [] then t == body else t[2..] == body;
    }
  }

  /** What is read after the sign does not depend on it. */
  lemma {:induction false} ReadSigned(sign: seq<byte>, t: seq<byte>, base: nat, v: nat)
    requires sign == [] || sign == [MINUS] || sign == [PLUS] || sign == [SPACE]
    requires ReadDigits(SkipPrefix(t, base), base, 0) == v
    requires SkipSpaces(t) == t || (SkipSpaces(t) == [] && v == 0)
    requires t != [] && SkipSpaces(t) == t ==> t[0] != MINUS && t[0] != PLUS
    ensures ReadInteger(sign + t, base) == if sign == [MINUS] then -(v as int) else v
  {
    if sign == [] {
      assert sign + t == t;
    } else if sign == [SPACE] {
      assert (sign + t)[1..] == t;
    } else {
      assert (sign + t)[1..] == t;
    }
  }

  /** Every integer printed in base 8, 10 or 16, with any flags, width and precision, reads back as itself. */
  lemma {:induction false} IntegerRoundTrip(x: int, signed: bool, base: nat, f: Flags, width: int, precision: int)
    requires base == 8 || base == 10 || base == 16
    requires !signed ==> x >= 0
    ensures ReadInteger(IntegerText(x, signed, base, f, width, precision), base) == x
  {
    hide SkipSpaces, IntegerText, Body, Shown, SignText, PrefixText, Value, Times, SkipPrefix, ReadDigits, FieldLength,
         ZeroPads, CharDigit;
    var v := Magnitude(x);
    var digits := Shown(v, base, f.upper, precision);
    var ds := ShownDigits(v, base, f.upper, precision);
    var zeros := Positive(precision - |digits|);
    var sign, prefix := SignText(x, signed, f), PrefixText(v, base, f, precision, zeros);
    SignAndPrefix(x, signed, base, f, precision, zeros);
    var lead, more, trail := TextParts(x, signed, base, f, width, precision);
    var rest := sign + (prefix + Body(more, digits, trail));
    ReadParts(sign, prefix, more, digits, ds, trail, base);
    SkipTimes(lead, rest);
    assert ReadInteger(Times(SPACE, lead) + rest, base) == ReadInteger(rest, base);
  }

  lemma {:induction false} SignAndPrefix(x: int, signed: bool, base: nat, f: Flags, precision: int, zeros: nat)
    requires !signed ==> x >= 0
    ensures var sign := SignText(x, signed, f); sign == [] || sign == [MINUS] || sign == [PLUS] || sign == [SPACE]
    ensures SignText(x, signed, f) == [MINUS] <==> x < 0
    ensures var prefix := PrefixText(Magnitude(x), base, f, precision, zeros);
      prefix == [] || prefix == [ZERO] || (base == 16 && (prefix == [ZERO, 88] || prefix == [ZERO, 120]))
  {
  }

  /** The text cut into padding, sign, prefix, and a body of zeros, digits and padding. */
  lemma {:induction false} TextParts(x: int, signed: bool, base: nat, f: Flags, width: int, precision: int)
    returns (lead: nat, more: nat, trail: nat)
    requires 2 <= base <= 16
    ensures var v := Magnitude(x); var digits := Shown(v, base, f.upper, precision);
      var zeros := Positive(precision - |digits|);
      IntegerText(x, signed, base, f, width, precision) ==
        Times(SPACE, lead) +
          (SignText(x, signed, f) + (PrefixText(v, base, f, precision, zeros) + Body(more, digits, trail)))
    ensures var zeros := Positive(precision - |Shown(Magnitude(x), base, f.upper, precision)|);
      var pad := Positive(width - FieldLength(x, signed, base, f, precision));
      && (if f.left then lead == 0 else trail == 0)
      && (if ZeroPads(f, precision) then lead == trail == 0 && more == zeros + pad
          else lead + trail == pad && more == zeros)
  {
    hide Shown, SignText, PrefixText, FieldLength, ZeroPads, Times;
    var v := Magnitude(x);
    var digits := Shown(v, base, f.upper, precision);
    var zeros := Positive(precision - |digits|);
    var pad := Positive(width - FieldLength(x, signed, base, f, precision));
    var zeroPad := if ZeroPads(f, precision) then pad else 0;
    lead, trail := if f.left then 0 else pad - zeroPad, if f.left then pad - zeroPad else 0;
    more := zeroPad + zeros;
    var sign, prefix := SignText(x, signed, f), PrefixText(v, base, f, precision, zeros);
    assert Times(SPACE, 0) == [];
    Regroup(Times(SPACE, lead), sign, prefix, Times(ZERO, more), digits, Times(SPACE, trail));
  }

  lemma {:induction false} Regroup(a: seq<byte>, b: seq<byte>, c: seq<byte>, d: seq<byte>, e: seq<byte>, f: seq<byte>)
    ensures a + b + c + d + e + f == a + (b + (c + (d + e + f)))
  {
  }

  /** No letter of the other case. */
  predicate InCase(s: seq<byte>, upper: bool) {
    forall i :: 0 <= i < |s| ==> if upper then !(97 <= s[i] <= 102) else !(65 <= s[i] <= 70)
  }

  lemma {:induction false} NumberShape(v: nat, base: nat, upper: bool)
    requires 2 <= base <= 16
    ensures InCase(NumberText(v, base, upper), upper) && (v > 0 ==> NumberText(v, base, upper)[0] != ZERO)
    ensures v == 0 ==> NumberText(v, base, upper) == [48]
  {
  }

  /** Spaces, sign, prefix, zeros, digits and spaces. */
  datatype Parts = Parts(lead: nat, sign: seq<byte>, prefix: seq<byte>, zeros: nat, digits: seq<byte>, trail: nat)

  /**
   What flags, width and precision do to an integer. Spaces stand on one side only, and only to fill the width; zeros
   stand in for them when asked for; otherwise they make up the precision.
   */
  predicate Laid(text: seq<byte>, x: int, signed: bool, base: nat, f: Flags, width: int, precision: int, p: Parts)
    requires 2 <= base <= 16
  {
    var v := Magnitude(x);
    && text == Times(SPACE, p.lead) + p.sign + p.prefix + Times(ZERO, p.zeros) + p.digits + Times(SPACE, p.trail)
    && p.sign == (if signed && x < 0 then [45] else if signed && f.plus then [43] else if f.space then [32] else [])
    && p.prefix == (if f.prefix && base == 8 && |p.digits| >= precision && (v != 0 || precision == 0) then [48]
                    else if f.prefix && base == 16 && v != 0 then [48, if f.upper then 88 else 120] else [])
    && p.digits == (if v == 0 && precision == 0 then [] else NumberText(v, base, f.upper))
    && (p.lead + p.trail > 0 ==> |text| == width) && |text| >= width && (if f.left then p.lead == 0 else p.trail == 0)
    && (if f.zero && !f.left && precision < 0 then p.lead == p.trail == 0 && (p.zeros > 0 ==> |text| == width)
        else p.zeros == if precision > |p.digits| then precision - |p.digits| else 0)
  }

  lemma {:induction false} IntegerShape(x: int, signed: bool, base: nat, f: Flags, width: int, precision: int)
    returns (parts: Parts)
    requires 2 <= base <= 16
    ensures Laid(IntegerText(x, signed, base, f, width, precision), x, signed, base, f, width, precision, parts)
  {
    hide NumberText, Times, IntegerText, FieldLength, Body;
    var v := Magnitude(x);
    var digits := Shown(v, base, f.upper, precision);
    var more := Positive(precision - |digits|);
    var sign, prefix := SignText(x, signed, f), PrefixText(v, base, f, precision, more);
    var lead, zeros, trail := TextParts(x, signed, base, f, width, precision);
    IntegerLength(x, signed, base, f, width, precision);
    hide SignText, PrefixText, Shown;
    BodyIs(zeros, digits, trail);
    Regroup(Times(SPACE, lead), sign, prefix, Times(ZERO, zeros), digits, Times(SPACE, trail));
    SignPrefixAre(x, signed, base, f, precision, |digits|);
    ShownAre(v, base, f.upper, precision);
    parts := Parts(lead, sign, prefix, zeros, digits, trail);
  }

  lemma {:induction false} BodyIs(zeros: nat, digits: seq<byte>, trail: nat)
    ensures Body(zeros, digits, trail) == Times(ZERO, zeros) + digits + Times(SPACE, trail)
  {
  }

  lemma {:induction false} ShownAre(v: nat, base: nat, upper: bool, precision: int)
    requires 2 <= base <= 16
    ensures Shown(v, base, upper, precision) == if v == 0 && precision == 0 then [] else NumberText(v, base, upper)
  {
  }

  lemma {:induction false} SignPrefixAre(x: int, signed: bool, base: nat, f: Flags, precision: int, n: nat)
    ensures SignText(x, signed, f) ==
      if signed && x < 0 then [45] else if signed && f.plus then [43] else if f.space then [32] else []
    ensures var v := Magnitude(x);
      PrefixText(v, base, f, precision, Positive(precision - n)) ==
        if f.prefix && base == 8 && n >= precision && (v != 0 || precision == 0) then [48]
        else if f.prefix && base == 16 && v != 0 then [48, if f.upper then 88 else 120] else []
  {
  }

  // ----- Pointers

  function Pow16(n: nat): nat {
    if n == 0 then 1 else 16 * Pow16(n - 1)
  }

  lemma {:induction false} HexLength(v: nat, n: nat)
    requires v < Pow16(n)
    ensures |Digits(v, 16)| <= n
    decreases n
  {
    if v > 0 {
      assert v / 16 < Pow16(n - 1);
      HexLength(v / 16, n - 1);
    }
  }

  lemma {:induction false} WordIsHex()
    ensures Pow16(16) == WORD
  {
    assert Pow16(4) == 0x1_0000;
    assert Pow16(8) == 0x1_0000_0000;
    assert Pow16(12) == 0x1_0000_0000_0000;
  }

  // ----- Wide characters

  /** What _putwc emits. */
  function Utf8(wc: int): seq<byte> {
    if wc <= 0x7F then [wc % 256]
    else if wc <= 0x7FF then [0xC0 + wc / 0x40, 0x80 + wc % 0x40]
    else if wc <= 0xFFFF then [0xE0 + wc / 0x1000, 0x80 + wc / 0x40 % 0x40, 0x80 + wc % 0x40]
    else if wc <= 0x10_FFFF then
      [0xF0 + wc / 0x4_0000, 0x80 + wc / 0x1000 % 0x40, 0x80 + wc / 0x40 % 0x40, 0x80 + wc % 0x40]
    else []
  }

  datatype Decoded = Bad | Char(wc: nat, length: nat)

  predicate Continues(s: seq<byte>, n: nat) {
    |s| > n && forall i :: 1 <= i <= n ==> 0x80 <= s[i] < 0xC0
  }

  /** The bits of a byte above its mark. */
  function Bits(c: byte, mark: int): int { c - mark }

  /** One character by section 3 of RFC 3629: shortest form only, at most U+10FFFF; surrogates are let through. */
  function Decode(s: seq<byte>): Decoded {
    if s == [] then Bad
    else if s[0] < 0x80 then Char(s[0], 1)
    else if 0xC0 <= s[0] < 0xE0 && Continues(s, 1) then Shortest(Bits(s[0], 0xC0) * 0x40 + Bits(s[1], 0x80), 2, 0x80)
    else if 0xE0 <= s[0] < 0xF0 && Continues(s, 2) then
      Shortest(Bits(s[0], 0xE0) * 0x1000 + Bits(s[1], 0x80) * 0x40 + Bits(s[2], 0x80), 3, 0x800)
    else if 0xF0 <= s[0] < 0xF8 && Continues(s, 3) then
      Shortest(Bits(s[0], 0xF0) * 0x4_0000 + Bits(s[1], 0x80) * 0x1000 + Bits(s[2], 0x80) * 0x40 + Bits(s[3], 0x80), 4,
               0x1_0000)
    else Bad
  }

  function Shortest(wc: int, length: nat, least: nat): Decoded {
    if least <= wc <= 0x10_FFFF then Char(wc, length) else Bad
  }

  /** The groups of six bits of a number. */
  lemma {:induction false} Groups(wc: nat)
    ensures wc == wc / 0x40 * 0x40 + wc % 0x40
    ensures wc == wc / 0x1000 * 0x1000 + wc / 0x40 % 0x40 * 0x40 + wc % 0x40
    ensures wc == wc / 0x4_0000 * 0x4_0000 + wc / 0x1000 % 0x40 * 0x1000 + wc / 0x40 % 0x40 * 0x40 + wc % 0x40
  {
    assert wc / 0x40 / 0x40 == wc / 0x1000;
    assert wc / 0x1000 / 0x40 == wc / 0x4_0000;
  }

  /** Whatever follows, an encoded character decodes to itself. */
  lemma {:induction false} Utf8Decodes(wc: nat, rest: seq<byte>)
    requires wc <= 0x10_FFFF
    ensures Decode(Utf8(wc) + rest) == Char(wc, |Utf8(wc)|)
  {
    Groups(wc);
    hide Decode;
    if wc <= 0x7F {
      Decode1(wc, rest);
    } else if wc <= 0x7FF {
      Decode2(wc / 0x40, wc % 0x40, rest);
    } else if wc <= 0xFFFF {
      Decode3(wc / 0x1000, wc / 0x40 % 0x40, wc % 0x40, rest);
    } else {
      Decode4(wc / 0x4_0000, wc / 0x1000 % 0x40, wc / 0x40 % 0x40, wc % 0x40, rest);
    }
  }

  lemma {:induction false} Decode1(a: nat, rest: seq<byte>)
    requires a < 0x80
    ensures Decode([a % 256] + rest) == Char(a, 1)
  {
  }

  lemma {:induction false} Decode2(a: nat, b: nat, rest: seq<byte>)
    requires a < 0x20 && b < 0x40
    ensures Decode([0xC0 + a, 0x80 + b] + rest) == Shortest(a * 0x40 + b, 2, 0x80)
  {
  }

  lemma {:induction false} Decode3(a: nat, b: nat, c: nat, rest: seq<byte>)
    requires a < 0x10 && b < 0x40 && c < 0x40
    ensures Decode([0xE0 + a, 0x80 + b, 0x80 + c] + rest) == Shortest(a * 0x1000 + b * 0x40 + c, 3, 0x800)
  {
  }

  lemma {:induction false} Decode4(a: nat, b: nat, c: nat, d: nat, rest: seq<byte>)
    requires a < 8 && b < 0x40 && c < 0x40 && d < 0x40
    ensures Decode([0xF0 + a, 0x80 + b, 0x80 + c, 0x80 + d] + rest) ==
      Shortest(a * 0x4_0000 + b * 0x1000 + c * 0x40 + d, 4, 0x1_0000)
  {
  }

  function Utf8All(ws: seq<int>): seq<byte> {
    if ws == [] then [] else Utf8(ws[0]) + Utf8All(ws[1..])
  }

  function DecodeAll(s: seq<byte>): seq<int>
    decreases |s|
  {
    var d := Decode(s);
    if d.Bad? || d.length == 0 || d.length > |s| then [] else [d.wc] + DecodeAll(s[d.length..])
  }

  /** Anything outside the range is one byte if it is negative, and nothing if it is too large. */
  lemma {:induction false} Utf8Outside(wc: int)
    ensures wc < 0 ==> Utf8(wc) == [wc % 256]
    ensures wc > 0x10_FFFF ==> Utf8(wc) == []
  {
  }

  /** Every wide string decodes back, so no two of them have the same bytes. */
  lemma {:induction false} Utf8RoundTrip(ws: seq<int>)
    requires forall i :: 0 <= i < |ws| ==> 0 <= ws[i] <= 0x10_FFFF
    ensures DecodeAll(Utf8All(ws)) == ws
    decreases |ws|
  {
    if ws != [] {
      var rest := Utf8All(ws[1..]);
      Utf8Decodes(ws[0], rest);
      assert (Utf8(ws[0]) + rest)[|Utf8(ws[0])|..] == rest;
      Utf8RoundTrip(ws[1..]);
    }
  }
}
