/** printk: a format interpreter that emits through a bounded buffer to a set of sinks. */
module Printk {
  import opened Words
  import opened PrintkText
  import opened PrintkFormat

  const BUFFER_SIZE: nat := 64
  const NTOA_SIZE: nat := 24
  const MAX_SINKS: nat := 8

  // ----- Parsing, as the interpreter does it

  method ParseFlags(fmt: seq<byte>, start: nat) returns (f: Flags, i: nat)
    ensures (f, i) == FlagsAt(fmt, start, NoFlags)
  {
    f, i := NoFlags, start;
    while i < |fmt| && IsFlag(fmt[i])
      invariant FlagsAt(fmt, i, f) == FlagsAt(fmt, start, NoFlags)
    {
      f, i := AddFlag(f, fmt[i]), i + 1;
    }
  }

  method ParseNumber(fmt: seq<byte>, start: nat) returns (n: nat, i: nat)
    ensures (n, i) == NumberAt(fmt, start, 0)
  {
    n, i := 0, start;
    while i < |fmt| && 48 <= fmt[i] <= 57
      invariant NumberAt(fmt, i, n) == NumberAt(fmt, start, 0)
    {
      n, i := n * 10 + (fmt[i] - 48) as int, i + 1;
    }
  }

  method ParseDirective(fmt: seq<byte>, start: nat, args: seq<Arg>, a: nat) returns (d: Directive)
    ensures d == Parse(fmt, start, args, a)
  {
    var f, i := ParseFlags(fmt, start);
    var width, precision, arg := 0, -1, a;
    if At(fmt, i) == 42 {
      width, arg := NumOf(args, arg), arg + 1;
      if width < 0 { width, f := -width, f.(left := true); }
      i := i + 1;
    } else {
      width, i := ParseNumber(fmt, i);
    }
    if At(fmt, i) == 46 {
      i := i + 1;
      if At(fmt, i) == 42 {
        precision, arg := NumOf(args, arg), arg + 1;
        if precision < 0 { precision := -1; }
        i := i + 1;
      } else {
        precision, i := ParseNumber(fmt, i);
      }
    }
    var (len, at) := LengthAt(fmt, i);
    d := Directive(f, width, precision, len, at, arg);
  }

  // ----- The buffer

  function Flat(chunks: seq<seq<byte>>): seq<byte> {
    if chunks == [] then [] else Flat(chunks[..|chunks| - 1]) + chunks[|chunks| - 1]
  }

  /** A sink's chunks are not empty and fit the buffer; with what is still in the buffer they make up `all`. */
  ghost predicate Delivered(chunks: seq<seq<byte>>, pending: seq<byte>, all: seq<byte>) {
    && (forall k :: 0 <= k < |chunks| ==> 0 < |chunks[k]| <= BUFFER_SIZE)
    && Flat(chunks) + pending == all
  }

  lemma {:induction false} DeliverChunk(chunks: seq<seq<byte>>, pending: seq<byte>, all: seq<byte>)
    requires Delivered(chunks, pending, all) && 0 < |pending| <= BUFFER_SIZE
    ensures Delivered(chunks + [pending], [], all)
  {
    assert (chunks + [pending])[..|chunks|] == chunks;
  }

  lemma {:induction false} DeliverMore(chunks: seq<seq<byte>>, pending: seq<byte>, all: seq<byte>, c: byte)
    requires Delivered(chunks, pending, all)
    ensures Delivered(chunks, pending + [c], all + [c])
  {
    assert Flat(chunks) + (pending + [c]) == Flat(chunks) + pending + [c];
  }

  class Context {
    const buffer: array<byte>
    const ntoa: array<byte>
    /** Which of the sink slots are taken. */
    const present: seq<bool>
    /** The chunks each sink was given. */
    var received: seq<seq<seq<byte>>>
    var bufLen: nat
    var len: nat
    /** Everything emitted so far. */
    ghost var out: seq<byte>

    ghost predicate Valid()
      reads this, buffer
    {
      && buffer.Length == BUFFER_SIZE && ntoa.Length == NTOA_SIZE && buffer != ntoa && bufLen <= BUFFER_SIZE
      && |present| == |received| == MAX_SINKS && len == |out|
      && forall i :: 0 <= i < MAX_SINKS ==>
           if present[i] then Delivered(received[i], buffer[..bufLen], out) else received[i] == []
    }

    constructor (sinks: seq<bool>)
      requires |sinks| == MAX_SINKS
      ensures Valid() && out == [] && present == sinks && fresh(buffer) && fresh(ntoa)
    {
      buffer, ntoa := new byte[BUFFER_SIZE](_ => 0), new byte[NTOA_SIZE](_ => 0);
      present, received, bufLen, len, out := sinks, seq(MAX_SINKS, _ => []), 0, 0, [];
    }

    /** _flush: every registered sink gets what is in the buffer. */
    method Flush()
      requires Valid()
      modifies this
      ensures Valid() && out == old(out) && bufLen == 0
    {
      if bufLen == 0 { return; }
      hide Delivered;
      ghost var before := received;
      var i := 0;
      while i < MAX_SINKS
        invariant 0 <= i <= MAX_SINKS == |received| && out == old(out) && bufLen == old(bufLen) && len == old(len)
        invariant forall j :: 0 <= j < i ==> if present[j] then Delivered(received[j], [], out) else received[j] == []
        invariant forall j :: i <= j < MAX_SINKS ==> received[j] == before[j]
      {
        if present[i] {
          DeliverChunk(received[i], buffer[..bufLen], out);
          received := received[i := received[i] + [buffer[..bufLen]]];
        }
        i := i + 1;
      }
      bufLen := 0;
      assert buffer[..bufLen] == [];
    }

    /** _putc: one character, flushing first when the buffer is full. */
    method Putc(c: byte)
      requires Valid()
      modifies this, buffer
      ensures Valid() && out == old(out) + [c]
    {
      if bufLen >= BUFFER_SIZE { Flush(); }
      hide Delivered;
      ghost var pending := buffer[..bufLen];
      forall i | 0 <= i < MAX_SINKS && present[i] ensures Delivered(received[i], pending + [c], out + [c]) {
        DeliverMore(received[i], pending, out, c);
      }
      buffer[bufLen] := c;
      bufLen := bufLen + 1;
      len := len + 1;
      out := out + [c];
      assert buffer[..bufLen] == pending + [c];
    }

    /** _pad */
    method Pad(c: byte, n: int)
      requires Valid()
      modifies this, buffer
      ensures Valid() && out == old(out) + Times(c, n)
    {
      hide Valid;
      var k := n;
      ghost var done: nat := 0;
      assert old(out) + Times(c, 0) == old(out);
      while k > 0
        invariant Valid() && out == old(out) + Times(c, done) && (n > 0 ==> k >= 0 && done == n - k)
        invariant n <= 0 ==> k == n && done == 0
      {
        Putc(c);
        assert Times(c, done + 1) == Times(c, done) + [c];
        k, done := k - 1, done + 1;
      }
    }

    /** _str */
    method Str(s: seq<byte>)
      requires Valid()
      modifies this, buffer
      ensures Valid() && out == old(out) + s
    {
      hide Valid;
      var i := 0;
      while i < |s|
        invariant 0 <= i <= |s| && Valid() && out == old(out) + s[..i]
      {
        Putc(s[i]);
        assert s[..i + 1] == s[..i] + [s[i]];
        i := i + 1;
      }
      assert s[..i] == s;
    }

    /** _putwc */
    method Putwc(wc: int)
      requires Valid()
      modifies this, buffer
      ensures Valid() && out == old(out) + Utf8(wc)
    {
      hide Valid;
      if wc <= 0x7F {
        Putc(wc % 256);
      } else if wc <= 0x7FF {
        Putc(0xC0 + wc / 0x40);
        Putc(0x80 + wc % 0x40);
      } else if wc <= 0xFFFF {
        Putc(0xE0 + wc / 0x1000);
        Putc(0x80 + wc / 0x40 % 0x40);
        Putc(0x80 + wc % 0x40);
      } else if wc <= 0x10_FFFF {
        Putc(0xF0 + wc / 0x4_0000);
        Putc(0x80 + wc / 0x1000 % 0x40);
        Putc(0x80 + wc / 0x40 % 0x40);
        Putc(0x80 + wc % 0x40);
      }
    }

    /** _wstr */
    method Wstr(ws: seq<int>)
      requires Valid()
      modifies this, buffer
      ensures Valid() && out == old(out) + Utf8All(ws)
    {
      hide Valid, Utf8;
      var i := 0;
      while i < |ws|
        invariant 0 <= i <= |ws| && Valid() && out + Utf8All(ws[i..]) == old(out) + Utf8All(ws)
      {
        ghost var before := out;
        Putwc(ws[i]);
        assert ws[i..][1..] == ws[i + 1..];
        assert before + Utf8All(ws[i..]) == before + Utf8(ws[i]) + Utf8All(ws[i + 1..]);
        i := i + 1;
      }
      assert out + Utf8All([]) == out;
    }

    /** _ntoa: digits from the right end of the scratch buffer; 64 bits never fill it, so no '?' is written. */
    method Ntoa(value: nat, base: nat, upper: bool) returns (p: nat)
      requires ntoa.Length == 24 && value < WORD && 8 <= base <= 16
      modifies ntoa
      ensures p <= 24 && ntoa[p..] == NumberText(value, base, upper)
    {
      hide Digits, DigitChars, DigitChar, Pow8, NumberText, LastDigit, OtherDigits;
      p := 24;
      NumberIs(value, base, upper);
      if value == 0 {
        p := p - 1;
        ntoa[p] := 48;
        return;
      }
      ghost var text := NumberText(value, base, upper);
      var val: nat := value;
      WordFits();
      assert DigitChars(Digits(val, base), upper) + ntoa[p..] == text;
      while val != 0 && p > 0
        invariant 2 <= p <= 24 && val < Pow8(p - 2) && ntoa.Length == 24
        invariant DigitChars(Digits(val, base), upper) + ntoa[p..] == text
        decreases p
      {
        RoomLeft(val, base, p - 2);
        DigitsStep(val, base, upper);
        ghost var tail := ntoa[p..];
        p := p - 1;
        var c := DigitChar(LastDigit(val, base), upper);
        ntoa[p] := c;
        assert ntoa[p..] == [c] + tail;
        val := OtherDigits(val, base);
        Rest(DigitChars(Digits(val, base), upper), [c], tail);
      }
      assert val == 0;
      NoDigits(base, upper);
    }

    /** _integer */
    method Integer(x: int, signed: bool, base: nat, f: Flags, width: int, precision: int)
      requires Valid() && 8 <= base <= 16 && Magnitude(x) < WORD && (!signed ==> x >= 0)
      modifies this, buffer, ntoa
      ensures Valid() && out == old(out) + IntegerText(x, signed, base, f, width, precision)
    {
      hide Valid, IntegerText, NumberText, Times, Shown, Assembled;
      ContextShape(this);
      var uval := if signed && x < 0 then -x else x;
      var p := Ntoa(uval, base, f.upper);
      var digits := ntoa[p..];
      if precision == 0 && uval == 0 { digits := []; }
      ShownIs(uval, base, f.upper, precision);
      var sign, prefix, zeros, pad := PlanInteger(x, signed, base, f, width, precision, digits);
      EmitInteger(f, sign, prefix, zeros, digits, pad);
    }

    /** The emitting half of _integer. */
    method EmitInteger(f: Flags, sign: byte, prefix: int, zeros: nat, digits: seq<byte>, pad: nat)
      requires Valid()
      modifies this, buffer
      ensures Valid()
      ensures out == old(out) + Assembled(f, sign, prefix, zeros, digits, pad)
    {
      hide Valid, Times;
      ghost var start, done: seq<byte> := out, if f.left then [] else Times(SPACE, pad);
      assert start + [] == start;
      if !f.left { Pad(SPACE, pad); }
      assert out == start + done;
      if sign != 0 { Putc(sign); }
      done := Grown(start, done, if sign != 0 then [sign] else [], out);
      if prefix != 0 {
        Putc(ZERO);
        if prefix == 2 { Putc(if f.upper then 88 else 120); }
      }
      done := Grown(start, done, PrefixOf(prefix, f.upper), out);
      Pad(ZERO, zeros);
      done := Grown(start, done, Times(ZERO, zeros), out);
      Str(digits);
      done := Grown(start, done, digits, out);
      if f.left { Pad(SPACE, pad); }
      done := Grown(start, done, if f.left then Times(SPACE, pad) else [], out);
    }

    /** Text with spaces before or after it. */
    method Field(s: seq<byte>, f: Flags, pad: int)
      requires Valid()
      modifies this, buffer
      ensures Valid()
      ensures out == old(out) +
        ((if f.left then [] else Times(SPACE, pad)) + s + (if f.left then Times(SPACE, pad) else []))
    {
      hide Valid, Times;
      if !f.left { Pad(SPACE, pad); }
      Str(s);
      if f.left { Pad(SPACE, pad); }
    }

    /** The same for a wide string. */
    method WideField(ws: seq<int>, f: Flags, pad: int)
      requires Valid()
      modifies this, buffer
      ensures Valid()
      ensures out == old(out) +
        ((if f.left then [] else Times(SPACE, pad)) + Utf8All(ws) + (if f.left then Times(SPACE, pad) else []))
    {
      hide Valid, Times, Utf8All;
      if !f.left { Pad(SPACE, pad); }
      Wstr(ws);
      if f.left { Pad(SPACE, pad); }
    }

    /** The switch over the conversion letter. */
    method Convert(fmt: seq<byte>, start: nat, d: Directive, args: seq<Arg>)
      requires Valid() && start <= d.at < |fmt|
      modifies this, buffer, ntoa
      ensures Valid() && out == old(out) + DirectiveText(fmt, start, d, args)
    {
      hide Valid, IntegerText, Times, Utf8, Utf8All, NumberText;
      var spec, x, f := fmt[d.at], NumOf(args, d.arg), d.flags;
      WrapBounds(x, d.len);
      if spec == 100 || spec == 105 {
        Integer(Signed(x, d.len), true, 10, f, d.width, d.precision);
      } else if spec == 117 {
        Integer(Unsigned(x, d.len), false, 10, f, d.width, d.precision);
      } else if spec == 111 {
        Integer(Unsigned(x, d.len), false, 8, f, d.width, d.precision);
      } else if spec == 120 {
        Integer(Unsigned(x, d.len), false, 16, f, d.width, d.precision);
      } else if spec == 88 {
        Integer(Unsigned(x, d.len), false, 16, f.(upper := true), d.width, d.precision);
      } else if spec == 99 {
        if d.len.LenL? {
          WideOne(Signed(x, LenNone));
          WideField([Signed(x, LenNone)], f, d.width - 1);
        } else {
          Field([x % 256], f, d.width - 1);
        }
      } else if spec == 115 && d.len.LenL? {
        var ws := Cut(WideOf(args, d.arg), d.precision);
        WideField(ws, f, d.width - |ws|);
      } else if spec == 115 {
        var s := Cut(TextOf(args, d.arg), d.precision);
        Field(s, f, d.width - |s|);
      } else if spec == 112 {
        Pointer(x % WORD, f, d.width);
      } else if spec == 110 {
        assert out == old(out) + [];
      } else {
        Str(fmt[start..d.at + 1]);
      }
    }

    method Pointer(v: nat, f: Flags, width: int)
      requires Valid() && v < WORD
      modifies this, buffer, ntoa
      ensures Valid() && out == old(out) + Padded(PointerText(v), |PointerText(v)|, f, width)
    {
      hide Valid, Times, NumberText, Padded, PointerText;
      ContextShape(this);
      var p := Ntoa(v, 16, false);
      var digits := ntoa[p..];
      var zeros := if |digits| < 16 then 16 - |digits| else 0;
      var pad := width - (2 + zeros + |digits|);
      ghost var start, done: seq<byte> := out, if f.left then [] else Times(SPACE, pad);
      assert start + [] == start;
      if !f.left { Pad(SPACE, pad); }
      assert out == start + done;
      Str([48, 120]);
      done := Grown(start, done, [48, 120], out);
      Pad(ZERO, zeros);
      done := Grown(start, done, Times(ZERO, zeros), out);
      Str(digits);
      done := Grown(start, done, digits, out);
      if f.left { Pad(SPACE, pad); }
      done := Grown(start, done, if f.left then Times(SPACE, pad) else [], out);
      PointerPieces(v, f, width, digits, zeros);
    }

    /** The format loop of _vprintkl, and the final flush. */
    method Interpret(fmt: seq<byte>, args: seq<Arg>) returns (n: nat)
      requires Valid() && out == []
      modifies this, buffer, ntoa
      ensures Valid() && out == Output(fmt, 0, args, 0) && bufLen == 0 && n == |out|
    {
      hide Valid, Parse, DirectiveText, Output;
      var i, a := 0, 0;
      ghost var all := Output(fmt, 0, args, 0);
      assert [] + all == all;
      while At(fmt, i) != 0
        invariant Valid() && out + Output(fmt, i, args, a) == all
        decreases |fmt| - i
      {
        OutputStep(fmt, i, args, a);
        ghost var before, rest := out, Output(fmt, i, args, a);
        if fmt[i] != 37 {
          Putc(fmt[i]);
          Rest(before, [fmt[i]], Output(fmt, i + 1, args, a));
          i := i + 1;
        } else if At(fmt, i + 1) == 37 {
          Putc(37);
          Rest(before, [37], Output(fmt, i + 2, args, a));
          i := i + 2;
        } else {
          var d := ParseDirective(fmt, i + 1, args, a);
          if At(fmt, d.at) == 0 { break; }
          Convert(fmt, i, d, args);
          Rest(before, DirectiveText(fmt, i, d, args), Output(fmt, d.at + 1, args, NextArg(fmt, d)));
          i, a := d.at + 1, NextArg(fmt, d);
        }
      }
      OutputStep(fmt, i, args, a);
      assert out == all;
      Flush();
      LengthIs(this);
      n := len;
    }
  }

  lemma {:induction false} Rest(a: seq<byte>, b: seq<byte>, c: seq<byte>)
    ensures a + (b + c) == a + b + c
  {
  }

  /** One step of the format. */
  lemma {:induction false} OutputStep(fmt: seq<byte>, i: nat, args: seq<Arg>, a: nat)
    ensures At(fmt, i) == 0 ==> Output(fmt, i, args, a) == []
    ensures At(fmt, i) != 0 ==> i < |fmt|
    ensures At(fmt, i) != 0 && fmt[i] != 37 ==> Output(fmt, i, args, a) == [fmt[i]] + Output(fmt, i + 1, args, a)
    ensures At(fmt, i) == 37 && At(fmt, i + 1) == 37 ==> Output(fmt, i, args, a) == [37] + Output(fmt, i + 2, args, a)
    ensures At(fmt, i) == 37 && At(fmt, i + 1) != 37 ==>
      var d := Parse(fmt, i + 1, args, a);
      Output(fmt, i, args, a) == if At(fmt, d.at) == 0 then []
                                 else DirectiveText(fmt, i, d, args) + Output(fmt, d.at + 1, args, NextArg(fmt, d))
  {
    hide Parse, DirectiveText;
  }

  lemma {:induction false} ShownIs(v: nat, base: nat, upper: bool, precision: int)
    requires 2 <= base <= 16
    ensures Shown(v, base, upper, precision) == if precision == 0 && v == 0 then [] else NumberText(v, base, upper)
  {
  }

  lemma {:induction false} FieldIs(x: int, signed: bool, base: nat, f: Flags, precision: int, digits: seq<byte>)
    requires 2 <= base <= 16 && digits == Shown(Magnitude(x), base, f.upper, precision)
    ensures var zeros := Positive(precision - |digits|);
      FieldLength(x, signed, base, f, precision)
        == |SignText(x, signed, f)| + |PrefixText(Magnitude(x), base, f, precision, zeros)| + zeros + |digits|
  {
  }

  /** The arithmetic half of _integer: sign, prefix, zeros and spaces. */
  method PlanInteger(x: int, signed: bool, base: nat, f: Flags, width: int, precision: int, digits: seq<byte>)
    returns (sign: byte, prefix: int, zeros: nat, pad: nat)
    requires 2 <= base <= 16 && digits == Shown(Magnitude(x), base, f.upper, precision) && (!signed ==> x >= 0)
    ensures IntegerText(x, signed, base, f, width, precision) == Assembled(f, sign, prefix, zeros, digits, pad)
  {
    hide IntegerText, Shown, Times, Assembled, FieldLength;
    FieldIs(x, signed, base, f, precision, digits);
    var uval := if signed && x < 0 then -x else x;
    var precZeros := if precision > |digits| then precision - |digits| else 0;
    sign := if signed && x < 0 then MINUS else if f.plus && signed then PLUS else if f.space then SPACE else 0;
    prefix := 0;
    if f.prefix {
      if base == 8 && precZeros == 0 && (uval != 0 || precision == 0) { prefix := 1; }
      else if base == 16 && uval != 0 { prefix := 2; }
    }
    var field := (if sign != 0 then 1 else 0) + prefix + precZeros + |digits|;
    pad := if width > field then width - field else 0;
    var zeroPad: nat := 0;
    if f.zero && !f.left && precision < 0 { zeroPad, pad := pad, 0; }
    zeros := zeroPad + precZeros;
    IntegerPieces(x, signed, base, f, width, precision, sign, prefix, precZeros, zeroPad, pad, digits);
  }

  function PrefixOf(kind: int, upper: bool): seq<byte> {
    if kind == 0 then [] else if kind == 2 then [ZERO, if upper then 88 else 120] else [ZERO]
  }

  /** The pieces of an integer conversion in the order they are emitted. */
  function Assembled(f: Flags, sign: byte, prefix: int, zeros: nat, digits: seq<byte>, pad: nat): seq<byte> {
    (if f.left then [] else Times(SPACE, pad)) + (if sign != 0 then [sign] else []) + PrefixOf(prefix, f.upper)
    + Times(ZERO, zeros) + digits + (if f.left then Times(SPACE, pad) else [])
  }

  /** One more piece emitted. */
  lemma {:induction false} Grown(start: seq<byte>, done: seq<byte>, x: seq<byte>, out: seq<byte>)
    returns (more: seq<byte>)
    requires out == start + done + x
    ensures more == done + x && out == start + more
  {
    more := done + x;
  }

  /** The pieces that _integer works out make up the text of the conversion. */
  lemma {:induction false} IntegerPieces(x: int, signed: bool, base: nat, f: Flags, width: int, precision: int,
                                         sign: byte, prefix: int, zeros: nat, zeroPad: nat, pad: nat, digits: seq<byte>)
    requires 2 <= base <= 16 && digits == Shown(Magnitude(x), base, f.upper, precision)
    requires zeros == Positive(precision - |digits|)
    requires (if sign != 0 then [sign] else []) == SignText(x, signed, f)
    requires PrefixOf(prefix, f.upper) == PrefixText(Magnitude(x), base, f, precision, zeros)
    requires zeroPad + pad == Positive(width - FieldLength(x, signed, base, f, precision))
    requires if ZeroPads(f, precision) then pad == 0 else zeroPad == 0
    ensures IntegerText(x, signed, base, f, width, precision) ==
      Assembled(f, sign, prefix, zeroPad + zeros, digits, pad)
  {
    hide Shown, SignText, PrefixText, FieldLength, ZeroPads, Times, PrefixOf;
  }

  lemma {:induction false} PointerPieces(v: nat, f: Flags, width: int, digits: seq<byte>, zeros: nat)
    requires digits == NumberText(v, 16, false) && zeros == Positive(16 - |digits|)
    ensures var pad := width - (2 + zeros + |digits|);
      Padded(PointerText(v), |PointerText(v)|, f, width) ==
        (if f.left then [] else Times(SPACE, pad)) + [48, 120] + Times(ZERO, zeros) + digits +
          (if f.left then Times(SPACE, pad) else [])
  {
    hide Padded, NumberText;
    assert Times(ZERO, zeros) == Times(ZERO, 16 - |digits|);
    hide Times;
    var text := [48, 120] + (Times(ZERO, zeros) + digits);
    assert PointerText(v) == text;
    hide PointerText;
    PaddedIs(text, |text|, f, width);
    var lead := if f.left then [] else Times(SPACE, width - (2 + zeros + |digits|));
    Ungroup(lead, [48, 120], Times(ZERO, zeros), digits);
  }

  lemma {:induction false} PaddedIs(s: seq<byte>, n: int, f: Flags, width: int)
    ensures Padded(s, n, f, width) ==
      (if f.left then [] else Times(SPACE, width - n)) + s + (if f.left then Times(SPACE, width - n) else [])
  {
  }

  lemma {:induction false} Ungroup(a: seq<byte>, b: seq<byte>, c: seq<byte>, d: seq<byte>)
    ensures a + (b + (c + d)) == a + b + c + d
  {
  }

  lemma {:induction false} ContextShape(c: Context)
    requires c.Valid()
    ensures c.ntoa.Length == 24 && c.buffer != c.ntoa
  {
  }

  lemma {:induction false} LengthIs(c: Context)
    requires c.Valid()
    ensures c.len == |c.out|
  {
  }

  lemma {:induction false} RoomLeft(v: nat, base: nat, n: nat)
    requires base >= 8 && 0 < v < Pow8(n)
    ensures n > 0 && OtherDigits(v, base) < Pow8(n - 1)
  {
    DivideFits(v, base, n);
  }

  lemma {:induction false} DigitsStep(v: nat, base: nat, upper: bool)
    requires 2 <= base <= 16 && v > 0
    ensures DigitChars(Digits(v, base), upper) ==
      DigitChars(Digits(OtherDigits(v, base), base), upper) + [DigitChar(LastDigit(v, base), upper)]
  {
  }

  lemma {:induction false} NumberIs(v: nat, base: nat, upper: bool)
    requires 2 <= base <= 16
    ensures NumberText(v, base, upper) == if v == 0 then [48] else DigitChars(Digits(v, base), upper)
  {
  }

  lemma {:induction false} NoDigits(base: nat, upper: bool)
    requires 2 <= base <= 16
    ensures DigitChars(Digits(0, base), upper) == []
  {
  }

  lemma {:induction false} WideOne(x: int)
    ensures Utf8All([x]) == Utf8(x)
  {
    assert [x][1..] == [];
  }

  lemma {:induction false} WrapBounds(x: int, len: Length)
    ensures Magnitude(Signed(x, len)) < WORD && 0 <= Unsigned(x, len) < WORD && 0 <= x % WORD < WORD
  {
  }

  /** printk on a fresh context: what every registered sink receives. */
  method Vprintk(sinks: seq<bool>, fmt: seq<byte>, args: seq<Arg>) returns (n: nat, received: seq<seq<seq<byte>>>)
    requires |sinks| == MAX_SINKS
    ensures |received| == MAX_SINKS && n == |Output(fmt, 0, args, 0)|
    ensures forall i :: 0 <= i < MAX_SINKS && sinks[i] ==> Flat(received[i]) == Output(fmt, 0, args, 0)
    ensures forall i :: 0 <= i < MAX_SINKS && !sinks[i] ==> received[i] == []
    ensures forall i, k :: 0 <= i < MAX_SINKS && 0 <= k < |received[i]| ==> 0 < |received[i][k]| <= BUFFER_SIZE
    ensures forall ps :: AllFine(ps) && fmt == Render(ps) ==> Output(fmt, 0, args, 0) == Texts(ps, 0, args)
  {
    forall ps | AllFine(ps) && fmt == Render(ps) ensures Output(fmt, 0, args, 0) == Texts(ps, 0, args) {
      WholeFormatPrints(ps, args);
    }
    var context := new Context(sinks);
    n := context.Interpret(fmt, args);
    received := context.received;
    forall i | 0 <= i < MAX_SINKS
      ensures if sinks[i] then Delivered(received[i], [], Output(fmt, 0, args, 0)) else received[i] == []
    {
      assert context.buffer[..context.bufLen] == [];
    }
    hide Output, Flat;
    forall i | 0 <= i < MAX_SINKS && sinks[i] ensures Flat(received[i]) == Output(fmt, 0, args, 0) {
      assert Delivered(received[i], [], Output(fmt, 0, args, 0));
    }
  }
}
