/** The formats of printk: how they are parsed, and what they print. */
module PrintkFormat {
  import opened Words
  import opened PrintkText

  // ----- Formats

  datatype Length = LenNone | LenHH | LenH | LenL | LenLL | LenJ | LenZ | LenT

  /** Arguments as the caller passed them; a missing or mistyped one reads as 0 or as a null pointer. */
  datatype Arg = Num(value: int) | Text(s: seq<byte>) | Wide(ws: seq<int>)

  /** A conversion: its flags and sizes, where its letter is, and the next argument. */
  datatype Directive = Directive(flags: Flags, width: int, precision: int, len: Length, at: nat, arg: nat)

  function At(fmt: seq<byte>, i: nat): byte { if i < |fmt| then fmt[i] else 0 }

  function NumOf(args: seq<Arg>, a: nat): int { if a < |args| && args[a].Num? then args[a].value else 0 }

  const NULL_TEXT: seq<byte> := [40, 110, 117, 108, 108, 41]

  function TextOf(args: seq<Arg>, a: nat): seq<byte> { if a < |args| && args[a].Text? then args[a].s else NULL_TEXT }

  function WideOf(args: seq<Arg>, a: nat): seq<int> {
    if a < |args| && args[a].Wide? then args[a].ws else [40, 110, 117, 108, 108, 41]
  }

  predicate IsFlag(c: byte) { c == 45 || c == 43 || c == 32 || c == 35 || c == 48 }

  function AddFlag(f: Flags, c: byte): Flags {
    if c == 45 then f.(left := true) else if c == 43 then f.(plus := true) else if c == 32 then f.(space := true)
    else if c == 35 then f.(prefix := true) else if c == 48 then f.(zero := true) else f
  }

  function FlagsAt(fmt: seq<byte>, i: nat, f: Flags): (r: (Flags, nat))
    ensures i <= r.1
    decreases |fmt| - i
  {
    if i < |fmt| && IsFlag(fmt[i]) then FlagsAt(fmt, i + 1, AddFlag(f, fmt[i])) else (f, i)
  }

  function NumberAt(fmt: seq<byte>, i: nat, acc: nat): (r: (nat, nat))
    ensures i <= r.1
    decreases |fmt| - i
  {
    if i < |fmt| && 48 <= fmt[i] <= 57 then NumberAt(fmt, i + 1, acc * 10 + (fmt[i] - 48) as int) else (acc, i)
  }

  /** Field width: a number, or `*` for an argument, where a negative one also means left-justified. */
  function WidthAt(fmt: seq<byte>, i: nat, f: Flags, args: seq<Arg>, a: nat): (r: (int, Flags, nat, nat))
    ensures i <= r.2
  {
    if At(fmt, i) == 42 then
      var w := NumOf(args, a);
      if w < 0 then (-w, f.(left := true), i + 1, a + 1) else (w, f, i + 1, a + 1)
    else
      var (w, j) := NumberAt(fmt, i, 0);
      (w, f, j, a)
  }

  /** Precision: absent is -1, and so is a negative argument. */
  function PrecisionAt(fmt: seq<byte>, i: nat, args: seq<Arg>, a: nat): (r: (int, nat, nat))
    ensures i <= r.1
  {
    if At(fmt, i) != 46 then (-1, i, a)
    else if At(fmt, i + 1) == 42 then (if NumOf(args, a) < 0 then -1 else NumOf(args, a), i + 2, a + 1)
    else
      var (p, j) := NumberAt(fmt, i + 1, 0);
      (p, j, a)
  }

  function LengthAt(fmt: seq<byte>, i: nat): (r: (Length, nat))
    ensures i <= r.1
  {
    var c, d := At(fmt, i), At(fmt, i + 1);
    if c == 104 then (if d == 104 then (LenHH, i + 2) else (LenH, i + 1))
    else if c == 108 then (if d == 108 then (LenLL, i + 2) else (LenL, i + 1))
    else if c == 106 then (LenJ, i + 1)
    else if c == 122 then (LenZ, i + 1)
    else if c == 116 then (LenT, i + 1)
    else (LenNone, i)
  }

  const NoFlags: Flags := Flags(false, false, false, false, false, false)

  /** The conversion that starts after the `%` before `i`. */
  function Parse(fmt: seq<byte>, i: nat, args: seq<Arg>, a: nat): (d: Directive)
    ensures i <= d.at
  {
    var (f, j) := FlagsAt(fmt, i, NoFlags);
    var (w, f', k, b) := WidthAt(fmt, j, f, args, a);
    var (p, l, c) := PrecisionAt(fmt, k, args, b);
    var (len, m) := LengthAt(fmt, l);
    Directive(f', w, p, len, m, c)
  }

  // ----- Writing a conversion, and reading it back

  function FlagChars(f: Flags): seq<byte> {
    (if f.left then [45] else []) + ((if f.plus then [43] else []) + ((if f.space then [32] else [])
    + ((if f.prefix then [35] else []) + (if f.zero then [48] else []))))
  }

  function WidthChars(w: nat): seq<byte> { if w == 0 then [] else NumberText(w, 10, false) }

  function PrecisionChars(p: int): seq<byte> { if p < 0 then [] else [46] + NumberText(p, 10, false) }

  function LengthChars(len: Length): seq<byte> {
    match len
    case LenNone => []
    case LenHH => [104, 104]
    case LenH => [104]
    case LenL => [108]
    case LenLL => [108, 108]
    case LenJ => [106]
    case LenZ => [122]
    case LenT => [116]
  }

  function AddAll(f: Flags, s: seq<byte>): Flags
    decreases |s|
  {
    if s == [] then f else AddAll(AddFlag(f, s[0]), s[1..])
  }

  /** Flags are read as far as they go. */
  lemma {:induction false} FlagsRead(pre: seq<byte>, s: seq<byte>, post: seq<byte>, f: Flags)
    requires (forall i :: 0 <= i < |s| ==> IsFlag(s[i])) && (post != [] ==> !IsFlag(post[0]))
    ensures FlagsAt(pre + s + post, |pre|, f) == (AddAll(f, s), |pre| + |s|)
    decreases |s|
  {
    var fmt := pre + s + post;
    if s == [] {
      assert |pre| < |fmt| ==> fmt[|pre|] == post[0];
    } else {
      assert fmt == (pre + [s[0]]) + s[1..] + post && fmt[|pre|] == s[0];
      FlagsRead(pre + [s[0]], s[1..], post, AddFlag(f, s[0]));
    }
  }

  lemma {:induction false} FlagCharsRead(f: Flags)
    requires !f.upper
    ensures (forall i :: 0 <= i < |FlagChars(f)| ==> IsFlag(FlagChars(f)[i])) && AddAll(NoFlags, FlagChars(f)) == f
  {
    var s5: seq<byte> := if f.zero then [48] else [];
    var s4 := (if f.prefix then [35] else []) + s5;
    var s3 := (if f.space then [32] else []) + s4;
    var s2 := (if f.plus then [43] else []) + s3;
    var g1 := NoFlags.(left := f.left);
    var g2 := g1.(plus := f.plus);
    var g3 := g2.(space := f.space);
    var g4 := g3.(prefix := f.prefix);
    AddOne(NoFlags, f.left, 45, s2);
    AddOne(g1, f.plus, 43, s3);
    AddOne(g2, f.space, 32, s4);
    AddOne(g3, f.prefix, 35, s5);
    AddOne(g4, f.zero, 48, []);
    assert s5 + [] == s5;
  }

  lemma {:induction false} AddOne(f: Flags, on: bool, c: byte, rest: seq<byte>)
    ensures AddAll(f, (if on then [c] else []) + rest) == AddAll(if on then AddFlag(f, c) else f, rest)
  {
    var s := (if on then [c] else []) + rest;
    if on { assert s[1..] == rest; } else { assert s == rest; }
  }

  /** A number is read as far as its digits go. */
  lemma {:induction false} NumberRead(pre: seq<byte>, s: seq<byte>, ds: seq<nat>, post: seq<byte>, acc: nat)
    requires |ds| == |s| && (forall i :: 0 <= i < |s| ==> ds[i] < 10 && s[i] == 48 + ds[i])
    requires post != [] ==> !(48 <= post[0] <= 57)
    ensures NumberAt(pre + s + post, |pre|, acc) == (Value(ds, 10, acc), |pre| + |s|)
    decreases |s|
  {
    var fmt := pre + s + post;
    if s == [] {
      assert |pre| < |fmt| ==> fmt[|pre|] == post[0];
    } else {
      assert fmt == (pre + [s[0]]) + s[1..] + post && fmt[|pre|] == s[0];
      NumberRead(pre + [s[0]], s[1..], ds[1..], post, acc * 10 + ds[0]);
    }
  }

  lemma {:induction false} ZeroRead()
    ensures Value([0], 10, 0) == 0
  {
    assert [0][1..] == [];
  }

  lemma {:induction false} DecimalRead(pre: seq<byte>, v: nat, post: seq<byte>)
    requires post != [] ==> !(48 <= post[0] <= 57)
    ensures var s := NumberText(v, 10, false);
      NumberAt(pre + s + post, |pre|, 0) == (v, |pre| + |s|) && 48 <= s[0] <= 57
    ensures v > 0 ==> NumberText(v, 10, false)[0] > 48
  {
    var s := NumberText(v, 10, false);
    var ds := if v == 0 then [0] else Digits(v, 10);
    DigitsValue(v, 10);
    ZeroRead();
    hide Value;
    assert forall i :: 0 <= i < |s| ==> ds[i] < 10 && s[i] == 48 + ds[i];
    hide Digits, NumberText, NumberAt;
    NumberRead(pre, s, ds, post, 0);
  }

  /** What can follow the width: a character that no earlier part of a conversion would take. */
  predicate Follows(s: seq<byte>) {
    s != [] && !IsFlag(s[0]) && !(48 <= s[0] <= 57) && s[0] != 42
  }

  lemma {:induction false} WidthRead(pre: seq<byte>, w: nat, post: seq<byte>, f: Flags, args: seq<Arg>, a: nat)
    requires Follows(post)
    ensures WidthAt(pre + WidthChars(w) + post, |pre|, f, args, a) == (w, f, |pre| + |WidthChars(w)|, a)
    ensures var s := WidthChars(w) + post; s != [] && !IsFlag(s[0])
  {
    var s := WidthChars(w);
    var fmt := pre + s + post;
    if w == 0 {
      assert At(fmt, |pre|) == post[0];
      NumberRead(pre, [], [], post, 0);
      assert fmt == pre + [] + post;
    } else {
      DecimalRead(pre, w, post);
      hide NumberText, NumberAt;
      assert At(fmt, |pre|) == s[0];
    }
  }

  lemma {:induction false} PrecisionRead(pre: seq<byte>, p: int, post: seq<byte>, args: seq<Arg>, a: nat)
    requires Follows(post) && post != [] && post[0] != 46 && p >= -1
    ensures PrecisionAt(pre + PrecisionChars(p) + post, |pre|, args, a) == (p, |pre| + |PrecisionChars(p)|, a)
    ensures Follows(PrecisionChars(p) + post)
  {
    hide NumberText, NumberAt, Follows;
    if p < 0 {
      PrecisionAbsent(pre, post, args, a);
    } else {
      PrecisionGiven(pre, p, post, args, a);
      hide PrecisionAt;
    }
  }

  lemma {:induction false} PrecisionAbsent(pre: seq<byte>, post: seq<byte>, args: seq<Arg>, a: nat)
    requires Follows(post) && post != [] && post[0] != 46
    ensures PrecisionAt(pre + [] + post, |pre|, args, a) == (-1, |pre|, a) && [] + post == post
  {
    hide NumberAt;
    assert At(pre + [] + post, |pre|) == post[0];
  }

  lemma {:induction false} NoDigitFollows(post: seq<byte>)
    requires Follows(post)
    ensures post != [] && !(48 <= post[0] <= 57)
  {
  }

  lemma {:induction false} PrecisionGiven(pre: seq<byte>, p: nat, post: seq<byte>, args: seq<Arg>, a: nat)
    requires Follows(post)
    ensures var s := [46] + NumberText(p, 10, false);
      PrecisionAt(pre + s + post, |pre|, args, a) == (p, |pre| + |s|, a) && Follows(s + post)
  {
    hide NumberText, NumberAt, Follows;
    var s := NumberText(p, 10, false);
    NoDigitFollows(post);
    DecimalRead(pre + [46], p, post);
    DotRead(pre, s, post);
    hide At;
    var fmt := pre + ([46] + s) + post;
    assert NumberAt(fmt, |pre| + 1, 0) == (p, |pre| + 1 + |s|);
    assert [46] + s + post == ([46] + s) + post;
  }

  /** The characters around the dot. */
  lemma {:induction false} DotRead(pre: seq<byte>, s: seq<byte>, post: seq<byte>)
    requires s != [] && 48 <= s[0] <= 57
    ensures var fmt := pre + ([46] + s) + post;
      fmt == (pre + [46]) + s + post && At(fmt, |pre|) == 46 && At(fmt, |pre| + 1) == s[0]
    ensures Follows([46] + s + post)
  {
    assert ([46] + s + post)[0] == 46;
  }

  /** A letter, or the 0 after a format: no earlier part of a conversion would take it, and it is no percent sign. */
  predicate Letter(c: byte) {
    && c != 37 && !IsFlag(c) && !(48 <= c <= 57) && c != 42 && c != 46
    && c != 104 && c != 108 && c != 106 && c != 122 && c != 116
  }

  lemma {:induction false} LengthRead(pre: seq<byte>, len: Length, c: byte, post: seq<byte>)
    requires Letter(c)
    ensures LengthAt(pre + LengthChars(len) + ([c] + post), |pre|) == (len, |pre| + |LengthChars(len)|)
    ensures var s := LengthChars(len) + ([c] + post); Follows(s) && s[0] != 46
  {
    var fmt := pre + LengthChars(len) + ([c] + post);
    var n := |pre|;
    match len {
      case LenNone => assert At(fmt, n) == c;
      case LenHH => assert At(fmt, n) == 104 && At(fmt, n + 1) == 104;
      case LenH => assert At(fmt, n) == 104 && At(fmt, n + 1) == c;
      case LenL => assert At(fmt, n) == 108 && At(fmt, n + 1) == c;
      case LenLL => assert At(fmt, n) == 108 && At(fmt, n + 1) == 108;
      case LenJ => assert At(fmt, n) == 106;
      case LenZ => assert At(fmt, n) == 122;
      case LenT => assert At(fmt, n) == 116;
    }
  }

  /** A field width: a number, or a star for an argument. */
  datatype Count = Given(n: nat) | Star

  /** A precision: none, a number, or a star for an argument. */
  datatype Limit = NoLimit | Limit(n: nat) | StarLimit

  function CountChars(w: Count): seq<byte> { if w.Star? then [42] else WidthChars(w.n) }

  function LimitChars(p: Limit): seq<byte> {
    match p
    case NoLimit => []
    case Limit(n) => PrecisionChars(n)
    case StarLimit => [46, 42]
  }

  /** A conversion as it is written: flags, width, precision, length, letter. */
  function Written(f: Flags, w: Count, p: Limit, len: Length, c: byte): seq<byte> {
    FlagChars(f) + (CountChars(w) + (LimitChars(p) + (LengthChars(len) + [c])))
  }

  /** What a width stands for when the next argument is number `a`; a negative argument stands for its magnitude. */
  function WidthOf(w: Count, args: seq<Arg>, a: nat): nat {
    if w.Given? then w.n else if NumOf(args, a) < 0 then -NumOf(args, a) else NumOf(args, a)
  }

  /** A negative argument also means left-justified. */
  function FlagsOf(f: Flags, w: Count, args: seq<Arg>, a: nat): Flags {
    if w.Star? && NumOf(args, a) < 0 then f.(left := true) else f
  }

  function StarsIn(w: Count): nat { if w.Star? then 1 else 0 }

  function StarsOf(p: Limit): nat { if p.StarLimit? then 1 else 0 }

  /** What a precision stands for; -1 is none, and so is any negative argument. */
  function LimitOf(p: Limit, args: seq<Arg>, a: nat): int {
    match p
    case NoLimit => -1
    case Limit(n) => n
    case StarLimit => if NumOf(args, a) < 0 then -1 else NumOf(args, a)
  }

  lemma {:induction false} CountRead(pre: seq<byte>, w: Count, post: seq<byte>, f: Flags, args: seq<Arg>, a: nat)
    requires Follows(post)
    ensures WidthAt(pre + CountChars(w) + post, |pre|, f, args, a) ==
      (WidthOf(w, args, a), FlagsOf(f, w, args, a), |pre| + |CountChars(w)|, a + StarsIn(w))
    ensures var s := CountChars(w) + post; s != [] && !IsFlag(s[0])
  {
    hide NumberText, NumberAt;
    if w.Star? {
      assert At(pre + [42] + post, |pre|) == 42;
    } else {
      WidthRead(pre, w.n, post, f, args, a);
    }
  }

  lemma {:induction false} LimitRead(pre: seq<byte>, p: Limit, post: seq<byte>, args: seq<Arg>, a: nat)
    requires Follows(post) && post != [] && post[0] != 46
    ensures PrecisionAt(pre + LimitChars(p) + post, |pre|, args, a) ==
      (LimitOf(p, args, a), |pre| + |LimitChars(p)|, a + StarsOf(p))
    ensures Follows(LimitChars(p) + post)
  {
    hide NumberText, NumberAt;
    match p {
      case NoLimit => PrecisionRead(pre, -1, post, args, a);
      case Limit(n) => PrecisionRead(pre, n, post, args, a);
      case StarLimit =>
        var fmt := pre + [46, 42] + post;
        assert At(fmt, |pre|) == 46 && At(fmt, |pre| + 1) == 42;
        assert ([46, 42] + post)[0] == 46;
    }
  }

  /** Every conversion that can be written is read back as it was written, its stars taking arguments in order. */
  lemma {:induction false} WrittenParses(pre: seq<byte>, f: Flags, w: Count, p: Limit, len: Length, c: byte,
                                         post: seq<byte>, args: seq<Arg>, a: nat)
    requires Letter(c) && !f.upper
    ensures var d := Parse(pre + Written(f, w, p, len, c) + post, |pre|, args, a);
      && d == Directive(FlagsOf(f, w, args, a), WidthOf(w, args, a), LimitOf(p, args, a + StarsIn(w)), len,
                        |pre| + |Written(f, w, p, len, c)| - 1, a + StarsIn(w) + StarsOf(p))
      && At(pre + Written(f, w, p, len, c) + post, d.at) == c
  {
    hide FlagChars, CountChars, LimitChars, LengthChars, Follows, IsFlag, Letter, FlagsAt, WidthAt, PrecisionAt,
         LengthAt, AddAll, WidthOf, FlagsOf, LimitOf;
    var fs, ws, ps, ls := FlagChars(f), CountChars(w), LimitChars(p), LengthChars(len);
    var t3 := ls + ([c] + post);
    var t2 := ps + t3;
    var t1 := ws + t2;
    var fmt := pre + (fs + (ws + (ps + (ls + [c])))) + post;
    WrittenCuts(pre, fs, ws, ps, ls, c, post);
    LengthRead(pre + fs + ws + ps, len, c, post);
    LimitRead(pre + fs + ws, p, t3, args, a + StarsIn(w));
    CountRead(pre + fs, w, t2, f, args, a);
    FlagCharsRead(f);
    FlagsRead(pre, fs, t1, NoFlags);
  }

  /** The written conversion cut before each of its parts. */
  lemma {:induction false} WrittenCuts(pre: seq<byte>, fs: seq<byte>, ws: seq<byte>, ps: seq<byte>, ls: seq<byte>,
                                       c: byte, post: seq<byte>)
    ensures var fmt := pre + (fs + (ws + (ps + (ls + [c])))) + post; var t3 := ls + ([c] + post); var t2 := ps + t3;
      var t1 := ws + t2;
      && fmt == pre + fs + t1 && fmt == (pre + fs) + ws + t2 && fmt == (pre + fs + ws) + ps + t3
      && fmt == (pre + fs + ws + ps) + ls + ([c] + post) && At(fmt, |pre| + |fs| + |ws| + |ps| + |ls|) == c
  {
  }

  // ----- The text of a conversion

  function Bits(len: Length): nat {
    if len.LenHH? then 0x100 else if len.LenH? then 0x1_0000 else if len.LenNone? then 0x1_0000_0000 else WORD
  }

  function Signed(x: int, len: Length): int {
    var m := Bits(len);
    (x + m / 2) % m - m / 2
  }

  function Unsigned(x: int, len: Length): nat { x % Bits(len) }

  /** Text in a field of spaces. */
  function Padded(s: seq<byte>, n: int, f: Flags, width: int): seq<byte> {
    (if f.left then [] else Times(SPACE, width - n)) + s + (if f.left then Times(SPACE, width - n) else [])
  }

  function Cut<T>(s: seq<T>, precision: int): seq<T> {
    if 0 <= precision < |s| then s[..precision] else s
  }

  function PointerText(v: nat): seq<byte> {
    var digits := NumberText(v, 16, false);
    [48, 120] + (Times(ZERO, 16 - |digits|) + digits)
  }

  /** What a conversion letter makes of argument `a`. */
  function LetterText(c: byte, f: Flags, w: int, p: int, len: Length, args: seq<Arg>, a: nat): seq<byte> {
    var x := NumOf(args, a);
    if c == 100 || c == 105 then IntegerText(Signed(x, len), true, 10, f, w, p)
    else if c == 117 then IntegerText(Unsigned(x, len), false, 10, f, w, p)
    else if c == 111 then IntegerText(Unsigned(x, len), false, 8, f, w, p)
    else if c == 120 then IntegerText(Unsigned(x, len), false, 16, f, w, p)
    else if c == 88 then IntegerText(Unsigned(x, len), false, 16, f.(upper := true), w, p)
    else if c == 99 then Padded(if len.LenL? then Utf8(Signed(x, LenNone)) else [x % 256], 1, f, w)
    else if c == 115 && len.LenL? then var s := Cut(WideOf(args, a), p); Padded(Utf8All(s), |s|, f, w)
    else if c == 115 then var s := Cut(TextOf(args, a), p); Padded(s, |s|, f, w)
    else if c == 112 then var s := PointerText(x % WORD); Padded(s, |s|, f, w)
    else []
  }

  /** What conversion `d`, written from `start` on, prints; one that is not known prints itself. */
  function DirectiveText(fmt: seq<byte>, start: nat, d: Directive, args: seq<Arg>): seq<byte> {
    var c := At(fmt, d.at);
    if TakesArg(c) then LetterText(c, d.flags, d.width, d.precision, d.len, args, d.arg)
    else if start <= d.at < |fmt| then fmt[start..d.at + 1] else []
  }

  /** The conversion letters that take an argument. */
  predicate TakesArg(c: byte) {
    c == 100 || c == 105 || c == 117 || c == 111 || c == 120 || c == 88 || c == 99 || c == 115 || c == 112 || c == 110
  }

  function NextArg(fmt: seq<byte>, d: Directive): nat { if TakesArg(At(fmt, d.at)) then d.arg + 1 else d.arg }

  /** Everything a format prints, from position `i` and argument `a` on, without any buffer. */
  function Output(fmt: seq<byte>, i: nat, args: seq<Arg>, a: nat): seq<byte>
    decreases |fmt| - i
  {
    if At(fmt, i) == 0 then []
    else if fmt[i] != 37 then [fmt[i]] + Output(fmt, i + 1, args, a)
    else if At(fmt, i + 1) == 37 then [37] + Output(fmt, i + 2, args, a)
    else
      var d := Parse(fmt, i + 1, args, a);
      if At(fmt, d.at) == 0 then []
      else DirectiveText(fmt, i, d, args) + Output(fmt, d.at + 1, args, NextArg(fmt, d))
  }

  // ----- Formats made of pieces

  datatype Piece = Literal(s: seq<byte>) | PercentSign | Conversion(f: Flags, w: Count, p: Limit, len: Length, c: byte)

  predicate Fine(p: Piece) {
    match p
    case Literal(s) => forall i :: 0 <= i < |s| ==> s[i] != 0 && s[i] != 37
    case PercentSign => true
    case Conversion(f, _, _, _, c) => Letter(c) && c != 0 && !f.upper
  }

  predicate AllFine(ps: seq<Piece>) { forall k :: 0 <= k < |ps| ==> Fine(ps[k]) }

  /** How a piece is written in a format. */
  function Rendered(p: Piece): seq<byte> {
    match p
    case Literal(s) => s
    case PercentSign => [37, 37]
    case Conversion(f, w, l, len, c) => [37] + Written(f, w, l, len, c)
  }

  function Render(ps: seq<Piece>): seq<byte> {
    if ps == [] then [] else Rendered(ps[0]) + Render(ps[1..])
  }

  /** How many arguments a piece takes: one for each star, and one for its letter. */
  function Takes(p: Piece): nat {
    if p.Conversion? then StarsIn(p.w) + StarsOf(p.p) + (if TakesArg(p.c) then 1 else 0) else 0
  }

  /** What a piece prints when the next argument is number `a`. */
  function TextOfPiece(p: Piece, args: seq<Arg>, a: nat): seq<byte> {
    match p
    case Literal(s) => s
    case PercentSign => [37]
    case Conversion(f, w, l, len, c) =>
      if !TakesArg(c) then Rendered(p)
      else LetterText(c, FlagsOf(f, w, args, a), WidthOf(w, args, a), LimitOf(l, args, a + StarsIn(w)), len, args,
                      a + StarsIn(w) + StarsOf(l))
  }

  /** The arguments taken by the pieces before piece `k`. */
  function TakenBefore(ps: seq<Piece>, k: nat): nat
    requires k <= |ps|
  {
    if k == 0 then 0 else TakenBefore(ps, k - 1) + Takes(ps[k - 1])
  }

  /** The texts of the pieces from `k` on, each with the arguments that the pieces before it leave. */
  function Texts(ps: seq<Piece>, k: nat, args: seq<Arg>): seq<byte>
    requires k <= |ps|
    decreases |ps| - k
  {
    if k == |ps| then [] else TextOfPiece(ps[k], args, TakenBefore(ps, k)) + Texts(ps, k + 1, args)
  }

  /** Literal characters are printed as they are. */
  lemma {:induction false} LiteralPrints(pre: seq<byte>, s: seq<byte>, post: seq<byte>, args: seq<Arg>, a: nat)
    requires Fine(Literal(s))
    ensures Output(pre + s + post, |pre|, args, a) == s + Output(pre + s + post, |pre| + |s|, args, a)
    decreases |s|
  {
    hide Parse, DirectiveText;
    var fmt := pre + s + post;
    if s == [] {
      assert [] + Output(fmt, |pre|, args, a) == Output(fmt, |pre|, args, a);
    } else {
      assert fmt[|pre|] == s[0] && fmt == (pre + [s[0]]) + s[1..] + post;
      assert Fine(Literal(s[1..]));
      LiteralPrints(pre + [s[0]], s[1..], post, args, a);
      var rest := Output(fmt, |pre| + |s|, args, a);
      assert [s[0]] + (s[1..] + rest) == s + rest;
    }
  }

  /** A written conversion does not start with a percent sign. */
  lemma {:induction false} WrittenStarts(f: Flags, w: Count, p: Limit, len: Length, c: byte)
    requires Letter(c)
    ensures Written(f, w, p, len, c) != [] && Written(f, w, p, len, c)[0] != 37
  {
    var tail := LengthChars(len) + [c];
    assert tail != [] && tail[0] != 37;
    var limited := LimitChars(p) + tail;
    assert limited != [] && limited[0] != 37;
    assert CountChars(w) != [] ==> CountChars(w)[0] != 37 by {
      if w.Given? && w.n > 0 { DecimalRead([], w.n, []); }
    }
    hide WidthChars;
    var counted := CountChars(w) + limited;
    assert counted != [] && counted[0] != 37;
    assert FlagChars(f) != [] ==> FlagChars(f)[0] != 37;
  }

  lemma {:induction false} ConversionPrints(pre: seq<byte>, p: Piece, post: seq<byte>, args: seq<Arg>, a: nat)
    requires p.Conversion? && Fine(p)
    ensures var fmt := pre + Rendered(p) + post;
      Output(fmt, |pre|, args, a) ==
        TextOfPiece(p, args, a) + Output(fmt, |pre| + |Rendered(p)|, args, a + Takes(p))
  {
    hide Parse, LetterText, Rendered, FlagsOf, WidthOf, LimitOf, Output, Letter;
    var fmt := pre + Rendered(p) + post;
    ConversionReads(pre, p, post, args, a);
    OutputAt(fmt, |pre|, args, a);
    assert fmt[|pre|..|pre| + |Rendered(p)|] == Rendered(p);
  }

  /** Where a conversion is in a format, and how it is read. */
  lemma {:induction false} ConversionReads(pre: seq<byte>, p: Piece, post: seq<byte>, args: seq<Arg>, a: nat)
    requires p.Conversion? && Fine(p)
    ensures var fmt := pre + Rendered(p) + post; var d := Parse(fmt, |pre| + 1, args, a);
      && At(fmt, |pre|) == 37 && At(fmt, |pre| + 1) != 37 && At(fmt, d.at) == p.c != 0
      && d == Directive(FlagsOf(p.f, p.w, args, a), WidthOf(p.w, args, a), LimitOf(p.p, args, a + StarsIn(p.w)), p.len,
                        |pre| + |Rendered(p)| - 1, a + StarsIn(p.w) + StarsOf(p.p))
  {
    hide Parse, Written, FlagsOf, WidthOf, LimitOf, Letter;
    var written := Written(p.f, p.w, p.p, p.len, p.c);
    WrittenStarts(p.f, p.w, p.p, p.len, p.c);
    WrittenParses(pre + [37], p.f, p.w, p.p, p.len, p.c, post, args, a);
    assert pre + ([37] + written) + post == (pre + [37]) + written + post;
  }

  lemma {:induction false} OutputAt(fmt: seq<byte>, i: nat, args: seq<Arg>, a: nat)
    requires At(fmt, i) == 37 && At(fmt, i + 1) != 37 && At(fmt, Parse(fmt, i + 1, args, a).at) != 0
    ensures var d := Parse(fmt, i + 1, args, a);
      Output(fmt, i, args, a) ==
        DirectiveText(fmt, i, d, args) +
          Output(fmt, d.at + 1, args, if TakesArg(At(fmt, d.at)) then d.arg + 1 else d.arg)
  {
    hide Parse, DirectiveText;
  }

  lemma {:induction false} PiecePrints(pre: seq<byte>, p: Piece, post: seq<byte>, args: seq<Arg>, a: nat)
    requires Fine(p)
    ensures var fmt := pre + Rendered(p) + post;
      Output(fmt, |pre|, args, a) ==
        TextOfPiece(p, args, a) + Output(fmt, |pre| + |Rendered(p)|, args, a + Takes(p))
  {
    hide Output, LetterText, Written;
    match p {
      case Literal(s) => LiteralPrints(pre, s, post, args, a);
      case PercentSign => PercentPrints(pre, post, args, a);
      case Conversion(_, _, _, _, _) => ConversionPrints(pre, p, post, args, a);
    }
  }

  lemma {:induction false} PercentPrints(pre: seq<byte>, post: seq<byte>, args: seq<Arg>, a: nat)
    ensures var fmt := pre + [37, 37] + post; Output(fmt, |pre|, args, a) == [37] + Output(fmt, |pre| + 2, args, a)
  {
    hide Parse, DirectiveText;
    var fmt := pre + [37, 37] + post;
    assert At(fmt, |pre|) == 37 && At(fmt, |pre| + 1) == 37;
  }

  /**
   A format prints its pieces one after the other: literal text as it is, two percent signs as one, and each conversion
   as the text of its own arguments, which are the next ones that no conversion before it took; and then what follows.
   */
  lemma {:induction false} FormatPrints(ps: seq<Piece>, k: nat, post: seq<byte>, args: seq<Arg>)
    requires AllFine(ps) && k <= |ps|
    ensures var pre := Render(ps[..k]); var fmt := pre + Render(ps[k..]) + post;
      Output(fmt, |pre|, args, TakenBefore(ps, k)) ==
        Texts(ps, k, args) + Output(fmt, |fmt| - |post|, args, TakenBefore(ps, |ps|))
    decreases |ps| - k
  {
    hide Output, Rendered, TextOfPiece, Fine, Takes, Render;
    var pre := Render(ps[..k]);
    if k == |ps| {
      RenderNone(ps, pre);
    } else {
      var here, rest := Rendered(ps[k]), Render(ps[k + 1..]);
      RenderNext(ps, k);
      Regrouped(pre, here, rest, post);
      PiecePrints(pre, ps[k], rest + post, args, TakenBefore(ps, k));
      FormatPrints(ps, k + 1, post, args);
      Joins(TextOfPiece(ps[k], args, TakenBefore(ps, k)), Texts(ps, k + 1, args),
            Output(pre + here + rest + post, |pre + here + rest|, args, TakenBefore(ps, |ps|)));
    }
  }

  lemma {:induction false} RenderNone(ps: seq<Piece>, pre: seq<byte>)
    ensures pre + Render(ps[|ps|..]) == pre
  {
    assert ps[|ps|..] == [];
  }

  lemma {:induction false} RenderNext(ps: seq<Piece>, k: nat)
    requires k < |ps|
    ensures Render(ps[k..]) == Rendered(ps[k]) + Render(ps[k + 1..])
    ensures Render(ps[..k + 1]) == Render(ps[..k]) + Rendered(ps[k])
  {
    hide Rendered;
    assert ps[k..][1..] == ps[k + 1..] && ps[..k + 1] == ps[..k] + [ps[k]];
    RenderMore(ps[..k], ps[k]);
  }

  lemma {:induction false} Regrouped(a: seq<byte>, b: seq<byte>, c: seq<byte>, d: seq<byte>)
    ensures a + (b + c) + d == a + b + (c + d) == a + b + c + d
  {
  }

  lemma {:induction false} Joins(a: seq<byte>, b: seq<byte>, c: seq<byte>)
    ensures a + (b + c) == a + b + c
  {
  }

  lemma {:induction false} OutputEnds(fmt: seq<byte>, args: seq<Arg>, a: nat)
    ensures Output(fmt, |fmt|, args, a) == []
  {
  }

  lemma {:induction false} RenderMore(ps: seq<Piece>, p: Piece)
    ensures Render(ps + [p]) == Render(ps) + Rendered(p)
    decreases |ps|
  {
    hide Rendered;
    if ps == [] {
      assert ps + [p] == [p] && [p][1..] == [];
      assert Rendered(p) + [] == Rendered(p) && [] + Rendered(p) == Rendered(p);
    } else {
      assert (ps + [p])[1..] == ps[1..] + [p];
      RenderMore(ps[1..], p);
      assert Rendered(ps[0]) + (Render(ps[1..]) + Rendered(p)) == Rendered(ps[0]) + Render(ps[1..]) + Rendered(p);
    }
  }

  /** The whole format. */
  lemma {:induction false} WholeFormatPrints(ps: seq<Piece>, args: seq<Arg>)
    requires AllFine(ps)
    ensures Output(Render(ps), 0, args, 0) == Texts(ps, 0, args)
  {
    hide Output, Texts, Render, TakenBefore, AllFine;
    FromTheStart(ps, [], args);
    assert Render(ps) + [] == Render(ps);
    OutputEnds(Render(ps), args, TakenBefore(ps, |ps|));
  }

  lemma {:induction false} FromTheStart(ps: seq<Piece>, post: seq<byte>, args: seq<Arg>)
    requires AllFine(ps)
    ensures var fmt := Render(ps) + post;
      Output(fmt, 0, args, 0) == Texts(ps, 0, args) + Output(fmt, |Render(ps)|, args, TakenBefore(ps, |ps|))
  {
    hide Output, Texts, AllFine;
    FormatPrints(ps, 0, post, args);
    assert ps[..0] == [] && ps[0..] == ps;
    assert [] + Render(ps) == Render(ps);
  }

  /** A conversion that the end of the format cuts off before its letter prints nothing, and nothing after it counts. */
  lemma {:induction false} UnfinishedPrints(ps: seq<Piece>, f: Flags, w: Count, l: Limit, len: Length, post: seq<byte>,
                                            args: seq<Arg>)
    requires AllFine(ps) && !f.upper
    ensures Output(Render(ps) + ([37] + Written(f, w, l, len, 0) + post), 0, args, 0) == Texts(ps, 0, args)
  {
    hide Output, Texts, Written, Parse, Render, TakenBefore, AllFine, WidthOf, FlagsOf, LimitOf;
    var pre, written := Render(ps), Written(f, w, l, len, 0);
    var cut := [37] + written + post;
    FromTheStart(ps, cut, args);
    WrittenStarts(f, w, l, len, 0);
    WrittenParses(pre + [37], f, w, l, len, 0, post, args, TakenBefore(ps, |ps|));
    assert pre + cut == (pre + [37]) + written + post;
    CutOff(pre + cut, |pre|, args, TakenBefore(ps, |ps|));
  }

  lemma {:induction false} CutOff(fmt: seq<byte>, i: nat, args: seq<Arg>, a: nat)
    requires At(fmt, i) == 37 && At(fmt, i + 1) != 37 && At(fmt, Parse(fmt, i + 1, args, a).at) == 0
    ensures Output(fmt, i, args, a) == []
  {
    hide Parse;
  }

  // ----- What the letters print

  /** `s`, which counts as `n` characters, stands in a field of spaces. */
  predicate InField(text: seq<byte>, s: seq<byte>, n: int, left: bool, width: int) {
    var pad := if width > n then width - n else 0;
    && |text| == |s| + pad
    && (left ==> text[..|s|] == s && forall i :: |s| <= i < |text| ==> text[i] == 32)
    && (!left ==> text[pad..] == s && forall i :: 0 <= i < pad ==> text[i] == 32)
  }

  lemma {:induction false} PaddedField(s: seq<byte>, n: int, f: Flags, width: int)
    ensures InField(Padded(s, n, f, width), s, n, f.left, width)
  {
  }

  /** The first `p` elements, or all if `p` is no limit. */
  predicate Limited<T(==)>(r: seq<T>, s: seq<T>, p: int) {
    r <= s && |r| == if p < 0 || p > |s| then |s| else p
  }

  lemma {:induction false} StringLetter(f: Flags, w: int, p: int, len: Length, args: seq<Arg>, k: nat)
    ensures LetterText(115, f, w, p, len, args, k) ==
      if len.LenL? then Padded(Utf8All(Cut(WideOf(args, k), p)), |Cut(WideOf(args, k), p)|, f, w)
      else Padded(Cut(TextOf(args, k), p), |Cut(TextOf(args, k), p)|, f, w)
  {
    hide Padded, Utf8All, IntegerText, Utf8, PointerText, Cut, TextOf, WideOf, Signed, Unsigned;
  }

  lemma {:induction false} OtherLetters(f: Flags, w: int, p: int, len: Length, args: seq<Arg>, k: nat)
    ensures var x := NumOf(args, k);
      && LetterText(99, f, w, p, len, args, k) ==
        Padded(if len.LenL? then Utf8(Signed(x, LenNone)) else [x % 256], 1, f, w)
      && LetterText(112, f, w, p, len, args, k) == Padded(PointerText(x % WORD), |PointerText(x % WORD)|, f, w)
  {
    hide Padded, Utf8All, IntegerText, Utf8, PointerText, Cut, TextOf, WideOf, Signed, Unsigned;
  }

  /** A string conversion prints the characters of its argument up to the precision, in a field of the width. */
  lemma {:induction false} StringPrints(f: Flags, w: Count, l: Limit, len: Length, args: seq<Arg>, a: nat)
    returns (shown: seq<byte>)
    requires !len.LenL?
    ensures var k := a + StarsIn(w) + StarsOf(l); var p := Conversion(f, w, l, len, 115);
      && Takes(p) == k + 1 - a
      && InField(TextOfPiece(p, args, a), shown, |shown|, FlagsOf(f, w, args, a).left, WidthOf(w, args, a))
      && (k < |args| && args[k].Text? ==> Limited(shown, args[k].s, LimitOf(l, args, a + StarsIn(w))))
      && (k >= |args| ==> Limited(shown, [40, 110, 117, 108, 108, 41], LimitOf(l, args, a + StarsIn(w))))
  {
    hide Padded, WidthOf, FlagsOf, LimitOf, LetterText, InField;
    var k := a + StarsIn(w) + StarsOf(l);
    shown := Cut(TextOf(args, k), LimitOf(l, args, a + StarsIn(w)));
    StringLetter(FlagsOf(f, w, args, a), WidthOf(w, args, a), LimitOf(l, args, a + StarsIn(w)), len, args, k);
    PaddedField(shown, |shown|, FlagsOf(f, w, args, a), WidthOf(w, args, a));
  }

  /** A wide string conversion does so with wide characters, which it encodes; width and precision count characters. */
  lemma {:induction false} WideStringPrints(f: Flags, w: Count, l: Limit, args: seq<Arg>, a: nat)
    returns (shown: seq<int>)
    ensures var k := a + StarsIn(w) + StarsOf(l); var p := Conversion(f, w, l, LenL, 115);
      && Takes(p) == k + 1 - a
      && InField(TextOfPiece(p, args, a), Utf8All(shown), |shown|, FlagsOf(f, w, args, a).left, WidthOf(w, args, a))
      && (k < |args| && args[k].Wide? ==> Limited(shown, args[k].ws, LimitOf(l, args, a + StarsIn(w))))
      && (k >= |args| ==> Limited(shown, [40, 110, 117, 108, 108, 41], LimitOf(l, args, a + StarsIn(w))))
  {
    hide Padded, WidthOf, FlagsOf, LimitOf, LetterText, InField, Utf8All;
    var k := a + StarsIn(w) + StarsOf(l);
    shown := Cut(WideOf(args, k), LimitOf(l, args, a + StarsIn(w)));
    StringLetter(FlagsOf(f, w, args, a), WidthOf(w, args, a), LimitOf(l, args, a + StarsIn(w)), LenL, args, k);
    PaddedField(Utf8All(shown), |shown|, FlagsOf(f, w, args, a), WidthOf(w, args, a));
  }

  /** A character conversion prints the low byte of its argument, or the encoding of a wide one. */
  lemma {:induction false} CharacterPrints(f: Flags, w: Count, l: Limit, len: Length, args: seq<Arg>, a: nat)
    ensures var k := a + StarsIn(w) + StarsOf(l); var p := Conversion(f, w, l, len, 99);
      && Takes(p) == k + 1 - a
      && (k < |args| && args[k].Num? ==>
           InField(TextOfPiece(p, args, a),
                   if len.LenL? then Utf8(Signed(args[k].value, LenNone)) else [args[k].value % 256], 1,
                   FlagsOf(f, w, args, a).left, WidthOf(w, args, a)))
  {
    hide Padded, WidthOf, FlagsOf, LimitOf, Signed, Utf8, LetterText, InField, TextOfPiece, Takes, StarsIn, StarsOf;
    var k := a + StarsIn(w) + StarsOf(l);
    var x, g, width := NumOf(args, k), FlagsOf(f, w, args, a), WidthOf(w, args, a);
    PieceIs(f, w, l, len, 99, args, a);
    OtherLetters(g, width, LimitOf(l, args, a + StarsIn(w)), len, args, k);
    var shown := if len.LenL? then Utf8(Signed(x, LenNone)) else [x % 256];
    PaddedField(shown, 1, g, width);
  }

  lemma {:induction false} PieceIs(f: Flags, w: Count, l: Limit, len: Length, c: byte, args: seq<Arg>, a: nat)
    requires TakesArg(c)
    ensures var p := Conversion(f, w, l, len, c); var k := a + StarsIn(w) + StarsOf(l);
      && Takes(p) == k + 1 - a
      && TextOfPiece(p, args, a) ==
        LetterText(c, FlagsOf(f, w, args, a), WidthOf(w, args, a), LimitOf(l, args, a + StarsIn(w)), len, args, k)
  {
    hide LetterText, FlagsOf, WidthOf, LimitOf;
  }

  /** A pointer is printed as 0x and all sixteen digits, in lower case, which read back. */
  lemma {:induction false} PointerShape(v: nat)
    requires v < WORD
    ensures var s := PointerText(v);
      |s| == 18 && s[..2] == [48, 120] && InCase(s, false) && ReadInteger(s, 16) == v
  {
    hide Digits, NumberText, Value, ReadInteger, Pow16, Body, CharDigit, Shown;
    var digits := NumberText(v, 16, false);
    WordIsHex();
    HexShort(v);
    NumberShape(v, 16, false);
    ShownAre(v, 16, false, -1);
    var ds := ShownDigits(v, 16, false, -1);
    ReadParts([], [48, 120], 16 - |digits|, digits, ds, 0, 16);
    BodyIs(16 - |digits|, digits, 0);
    assert Times(SPACE, 0) == [];
    assert [] + ([48, 120] + (Times(ZERO, 16 - |digits|) + digits + [])) == PointerText(v);
  }

  lemma {:induction false} HexShort(v: nat)
    requires v < Pow16(16)
    ensures 0 < |NumberText(v, 16, false)| <= 16
  {
    hide Pow16, Digits;
    HexLength(v, 16);
  }

  lemma {:induction false} PointerValue(x: int) returns (v: nat)
    ensures v == x % WORD < WORD && (0 <= x < WORD ==> v == x)
  {
    SmallRemainder(x, WORD);
    v := x % WORD;
  }

  /** A pointer conversion prints that in a field of the width. */
  lemma {:induction false} PointerPrints(f: Flags, w: Count, l: Limit, len: Length, args: seq<Arg>, a: nat)
    ensures var k := a + StarsIn(w) + StarsOf(l); var p := Conversion(f, w, l, len, 112);
      && Takes(p) == k + 1 - a
      && (k < |args| && args[k].Num? && 0 <= args[k].value < WORD ==>
           InField(TextOfPiece(p, args, a), PointerText(args[k].value), 18, FlagsOf(f, w, args, a).left,
                   WidthOf(w, args, a)))
  {
    hide Padded, WidthOf, FlagsOf, LimitOf, PointerText, LetterText, InField, TextOfPiece, Takes, StarsIn, StarsOf;
    var k := a + StarsIn(w) + StarsOf(l);
    PieceIs(f, w, l, len, 112, args, a);
    var v := PointerValue(NumOf(args, k));
    OtherLetters(FlagsOf(f, w, args, a), WidthOf(w, args, a), LimitOf(l, args, a + StarsIn(w)), len, args, k);
    PointerShape(v);
    PaddedField(PointerText(v), 18, FlagsOf(f, w, args, a), WidthOf(w, args, a));
  }

  /** The reduction to a length gives the one number in range that differs by a multiple of its size. */
  lemma {:induction false} Reduced(x: int, len: Length) returns (i: int, j: int)
    ensures Bits(len) ==
      (match len case LenHH => 0x100 case LenH => 0x1_0000 case LenNone => 0x1_0000_0000 case _ => WORD)
    ensures var m := Bits(len); -(m / 2) <= Signed(x, len) < m / 2 && Signed(x, len) == x + i * m
    ensures var m := Bits(len); 0 <= Unsigned(x, len) < m && Unsigned(x, len) == x + j * m
  {
    hide Bits;
    BitsAre(len);
    i, j := ReducedTo(x, Bits(len));
  }

  lemma {:induction false} BitsAre(len: Length)
    ensures Bits(len) ==
      (match len case LenHH => 0x100 case LenH => 0x1_0000 case LenNone => 0x1_0000_0000 case _ => WORD)
  {
  }

  lemma {:induction false} ReducedTo(x: int, m: nat) returns (i: int, j: int)
    requires m == 0x100 || m == 0x1_0000 || m == 0x1_0000_0000 || m == WORD
    ensures -(m / 2) <= (x + m / 2) % m - m / 2 < m / 2 && (x + m / 2) % m - m / 2 == x + i * m
    ensures 0 <= x % m < m && x % m == x + j * m
  {
    var h := m / 2;
    assert h * 2 == m;
    Multiple(x + h, m);
    Multiple(x, m);
    i, j := -((x + h) / m), -(x / m);
  }

  lemma {:induction false} Multiple(x: int, m: nat)
    requires m > 0
    ensures 0 <= x % m < m && x % m == x + -(x / m) * m
  {
  }

  /** The base of an integer conversion letter; 0 for any other. */
  function BaseOf(c: byte): nat {
    if c == 100 || c == 105 || c == 117 then 10 else if c == 111 then 8 else if c == 120 || c == 88 then 16 else 0
  }

  /**
   What an integer conversion prints reads back as the argument, reduced to the width of its length modifier; an
   argument that fits reads back as itself.
   */
  lemma {:induction false} PrintedIntegerReadsBack(f: Flags, w: Count, l: Limit, len: Length, c: byte, args: seq<Arg>,
                                                   a: nat)
    requires BaseOf(c) != 0
    ensures var k := a + StarsIn(w) + StarsOf(l); var p := Conversion(f, w, l, len, c);
      var text := TextOfPiece(p, args, a); var signed := c == 100 || c == 105;
      && Takes(p) == k + 1 - a && |text| >= WidthOf(w, args, a)
      && (k < |args| && args[k].Num? ==>
           var x := args[k].value;
           && ReadInteger(text, BaseOf(c)) == (if signed then Signed(x, len) else Unsigned(x, len))
           && (signed && -(Bits(len) / 2) <= x < Bits(len) / 2 ==> ReadInteger(text, BaseOf(c)) == x)
           && (!signed && 0 <= x < Bits(len) ==> ReadInteger(text, BaseOf(c)) == x))
  {
    hide IntegerText, ReadInteger, Signed, Unsigned, FieldLength, Bits, WidthOf, LimitOf, FlagsOf;
    var k := a + StarsIn(w) + StarsOf(l);
    var x, signed, g := NumOf(args, k), c == 100 || c == 105, FlagsOf(f, w, args, a);
    FittingUnchanged(x, len);
    var y := if signed then Signed(x, len) else Unsigned(x, len);
    var h := if c == 88 then g.(upper := true) else g;
    var width, precision := WidthOf(w, args, a), LimitOf(l, args, a + StarsIn(w));
    UnsignedNat(x, len);
    IntegerRoundTrip(y, signed, BaseOf(c), h, width, precision);
    IntegerLength(y, signed, BaseOf(c), h, width, precision);
  }

  /** And this is how it is laid out: see Laid. */
  lemma {:induction false} IntegerPrints(f: Flags, w: Count, l: Limit, len: Length, c: byte, args: seq<Arg>, a: nat)
    returns (parts: Parts)
    requires BaseOf(c) != 0 && !f.upper
    ensures var k := a + StarsIn(w) + StarsOf(l); var text := TextOfPiece(Conversion(f, w, l, len, c), args, a);
      var signed := c == 100 || c == 105;
      k < |args| && args[k].Num? ==>
        Laid(text, if signed then Signed(args[k].value, len) else Unsigned(args[k].value, len), signed,
             BaseOf(c), FlagsOf(f, w, args, a).(upper := c == 88), WidthOf(w, args, a),
             LimitOf(l, args, a + StarsIn(w)), parts)
  {
    hide IntegerText, Laid, Signed, Unsigned, WidthOf, LimitOf, FlagsOf;
    var k := a + StarsIn(w) + StarsOf(l);
    var x, signed, g := NumOf(args, k), c == 100 || c == 105, FlagsOf(f, w, args, a);
    assert g.(upper := false) == g by { SameCase(f, w, args, a); }
    var y := if signed then Signed(x, len) else Unsigned(x, len);
    parts := IntegerShape(y, signed, BaseOf(c), g.(upper := c == 88), WidthOf(w, args, a),
                          LimitOf(l, args, a + StarsIn(w)));
  }

  lemma {:induction false} SameCase(f: Flags, w: Count, args: seq<Arg>, a: nat)
    ensures FlagsOf(f, w, args, a).upper == f.upper
  {
  }

  /** The conversion that only counts prints nothing. */
  lemma {:induction false} CountPrintsNothing(f: Flags, w: Count, l: Limit, len: Length, args: seq<Arg>, a: nat)
    ensures TextOfPiece(Conversion(f, w, l, len, 110), args, a) == []
  {
  }

  lemma {:induction false} UnsignedNat(x: int, len: Length)
    ensures Unsigned(x, len) >= 0
  {
  }

  /** The reduction leaves alone every number that fits. */
  lemma {:induction false} FittingUnchanged(x: int, len: Length)
    ensures -(Bits(len) / 2) <= x < Bits(len) / 2 ==> Signed(x, len) == x
    ensures 0 <= x < Bits(len) ==> Unsigned(x, len) == x
  {
    var m := Bits(len);
    assert m / 2 * 2 == m;
    SmallRemainder(x + m / 2, m);
    SmallRemainder(x, m);
    hide Bits;
  }

  lemma {:induction false} SmallRemainder(x: int, m: nat)
    requires m > 0
    ensures 0 <= x < m ==> x % m == x
  {
  }
}
