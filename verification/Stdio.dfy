/** snprintf of libc/stdio.c against a recursive account of the formatted text. */
module Stdio {
  import opened Bits
  import opened Helpers

  const INT_MIN_WORD := 0x8000_0000
  const INT_LIMIT := 0x8000_0000

  /** An argument: a 32-bit word, a string, or a null string. */
  datatype Arg = Number(n: u32) | Text(s: string) | Null

  // ---- numbers ----

  function DigitChar(d: nat): char
    requires d < 36
  {
    if d < 10 then '0' + d as char else 'a' + (d - 10) as char
  }

  /** v / base */
  function Quot(v: nat, base: nat): (q: nat)
    requires base >= 2
    ensures v < base ==> q == 0
    ensures v >= base ==> 0 < q < v && 2 * q <= v
  {
    QuotBounds(v, base, v / base);
    v / base
  }

  /** v % base */
  function Rem(v: nat, base: nat): (r: nat)
    requires base >= 2
    ensures r < base && v == Quot(v, base) * base + r
    ensures v < base ==> r == v
  {
    v % base
  }

  lemma QuotBounds(v: nat, base: nat, q: int)
    requires base >= 2 && q == v / base
    ensures v < base ==> q == 0
    ensures v >= base ==> 0 < q < v && 2 * q <= v
  {
    var x, r := q * base, v % base;
    assert v == x + r && 0 <= r < base;
    TimesBase(q, base, x);
  }

  lemma TimesBase(q: int, base: int, x: int)
    requires base >= 2 && x == q * base
    ensures q >= 1 ==> x >= base && x >= 2 * q
    ensures q <= 0 ==> x <= 0
    ensures q <= -1 ==> x <= -base
  {
    if q >= 1 {
      assert x == base + (q - 1) * base && x == 2 * q + q * (base - 2);
      assert (q - 1) * base >= 0 && q * (base - 2) >= 0;
    } else if q <= -1 {
      assert x == -base + (q + 1) * base;
      assert (-(q + 1)) * base >= 0;
    }
  }

  /** The digits of v, most significant first. */
  function Digits(v: nat, base: nat): (s: string)
    requires 2 <= base <= 36
    ensures |s| >= 1
    decreases v
  {
    if v < base then [DigitChar(v)] else Digits(Quot(v, base), base) + [DigitChar(Rem(v, base))]
  }

  function Repeat(c: char, n: int): (s: string)
    ensures |s| == if n < 0 then 0 else n
    decreases n
  {
    if n <= 0 then "" else Repeat(c, n - 1) + [c]
  }

  function UnsignedText(v: nat, base: nat, width: int, pad: char): string
    requires 2 <= base <= 36
  {
    Repeat(pad, width - |Digits(v, base)|) + Digits(v, base)
  }

  /** The sign comes before the padding. */
  function SignedText(v: int, width: nat, pad: char): string {
    if v < 0 then "-" + UnsignedText(-v, 10, if width > 0 then width - 1 else 0, pad)
    else UnsignedText(v, 10, width, pad)
  }

  function Signed(w: u32): int { if w < INT_MIN_WORD then w else w - WORD }

  // ---- formats ----

  /** What stands between a % and the end of its conversion. */
  datatype Spec = Spec(pad: char, width: nat, rest: string)

  function Width(f: string, w: nat): (r: (nat, string))
    ensures |r.1| <= |f|
  {
    if f != "" && '0' <= f[0] <= '9' then Width(f[1..], w * 10 + (f[0] - '0') as nat) else (w, f)
  }

  /** The flag and the width; the conversion character is first in `rest`. */
  function SpecOf(f: string): (sp: Spec)
    ensures |sp.rest| <= |f|
  {
    if f != "" && f[0] == '0' then Spec('0', Width(f[1..], 0).0, Width(f[1..], 0).1)
    else Spec(' ', Width(f, 0).0, Width(f, 0).1)
  }

  /** The text and the arguments left over; Bad when the format breaks off inside a conversion, a
      width is no int, or an argument is missing, of the wrong kind, or INT_MIN for %d. */
  datatype Rendered = Done(text: string, left: seq<Arg>) | Bad

  function Prepend(t: string, r: Rendered): Rendered {
    if r.Done? then Done(t + r.text, r.left) else Bad
  }

  /** One conversion. */
  function Convert(c: char, width: nat, pad: char, args: seq<Arg>): Rendered {
    if width >= INT_LIMIT then Bad
    else if c == 'd' || c == 'i' then
      if args == [] || !args[0].Number? || args[0].n == INT_MIN_WORD then Bad
      else Done(SignedText(Signed(args[0].n), width, pad), args[1..])
    else if c == 'u' || c == 'x' then
      if args == [] || !args[0].Number? then Bad
      else Done(UnsignedText(args[0].n, if c == 'u' then 10 else 16, width, pad), args[1..])
    else if c == 'p' then
      if args == [] || !args[0].Number? then Bad
      else Done("0x" + UnsignedText(args[0].n, 16, 8, '0'), args[1..])
    else if c == 's' then
      if args == [] || args[0].Number? then Bad
      else Done(StringOf(args[0]) + Repeat(' ', width - |StringOf(args[0])|), args[1..])
    else if c == 'c' then
      if args == [] || !args[0].Number? then Bad
      else Done([(args[0].n % 0x100) as char], args[1..])
    else if c == '%' then Done("%", args)
    else Done("%" + [c], args)
  }

  function StringOf(a: Arg): string
    requires !a.Number?
  {
    if a.Null? then "(null)" else a.s
  }

  /** The full text of a format with its arguments. */
  function Render(f: string, args: seq<Arg>): Rendered
    decreases |f|
  {
    if f == "" then Done("", args)
    else if f[0] != '%' then Prepend([f[0]], Render(f[1..], args))
    else
      var sp := SpecOf(f[1..]);
      if sp.rest == "" then Bad else
        var piece := Convert(sp.rest[0], sp.width, sp.pad, args);
        if piece.Bad? then Bad else Prepend(piece.text, Render(sp.rest[1..], piece.left))
  }

  // ---- what the text means ----

  function DigitValue(c: char): nat {
    if c >= 'a' then c as nat - 'a' as nat + 10 else if c >= '0' then c as nat - '0' as nat else 0
  }

  function Value(s: string, base: nat): nat {
    if s == "" then 0 else Value(s[..|s| - 1], base) * base + DigitValue(s[|s| - 1])
  }

  lemma DigitRead(d: nat)
    requires d < 36
    ensures DigitValue(DigitChar(d)) == d && (DigitChar(d) == '0' ==> d == 0)
  {
  }

  lemma ValueSnoc(s: string, c: char, base: nat)
    ensures Value(s + [c], base) == Value(s, base) * base + DigitValue(c)
  {
    assert (s + [c])[..|s|] == s;
  }

  /** Reading the digits back gives the number; only 0 starts with a 0. */
  lemma {:induction false} DigitsRead(v: nat, base: nat)
    requires 2 <= base <= 36
    ensures Value(Digits(v, base), base) == v
    ensures Digits(v, base)[0] == '0' ==> v == 0
    decreases v
  {
    hide Value, DigitValue, DigitChar, Quot, Rem;
    ValueNone(base);
    if v < base {
      DigitRead(v);
      ValueSnoc("", DigitChar(v), base);
      assert "" + [DigitChar(v)] == [DigitChar(v)];
    } else {
      var q, d := Quot(v, base), Rem(v, base);
      DigitRead(d);
      DigitsRead(q, base);
      ValueSnoc(Digits(q, base), DigitChar(d), base);
    }
  }

  lemma ValueNone(base: nat)
    ensures Value("", base) == 0
  {
  }

  lemma {:induction false} DigitsShort(v: nat, base: nat, n: nat)
    requires 2 <= base <= 36 && v < Pow2(n) && n > 0
    ensures |Digits(v, base)| <= n
    decreases n
  {
    hide Quot, Rem;
    if v >= base {
      assert n > 1;
      DigitsShort(Quot(v, base), base, n - 1);
    }
  }

  lemma {:induction false} WidthAppend(f: string, g: string, w: nat)
    requires Width(f, w).1 != ""
    ensures Width(f + g, w) == (Width(f, w).0, Width(f, w).1 + g)
  {
    assert (f + g)[0] == f[0] && (f + g)[1..] == f[1..] + g;
    if '0' <= f[0] <= '9' { WidthAppend(f[1..], g, w * 10 + (f[0] - '0') as nat); }
  }

  lemma SpecAppend(f: string, g: string)
    requires SpecOf(f).rest != ""
    ensures SpecOf(f + g) == SpecOf(f).(rest := SpecOf(f).rest + g)
  {
    assert (f + g)[0] == f[0] && (f + g)[1..] == f[1..] + g;
    if f[0] == '0' { WidthAppend(f[1..], g, 0); } else { WidthAppend(f, g, 0); }
  }

  /** Formats compose: after a complete format the rest is formatted with the arguments left over. */
  lemma {:induction false} RenderAppend(f: string, g: string, args: seq<Arg>)
    requires Render(f, args).Done?
    ensures Render(f + g, args) == Prepend(Render(f, args).text, Render(g, Render(f, args).left))
    decreases |f|
  {
    hide Convert, SpecOf;
    if f == "" {
      assert f + g == g;
    } else {
      assert (f + g)[0] == f[0] && (f + g)[1..] == f[1..] + g;
      if f[0] != '%' {
        RenderAppend(f[1..], g, args);
      } else {
        SpecAppend(f[1..], g);
        var sp := SpecOf(f[1..]);
        var piece := Convert(sp.rest[0], sp.width, sp.pad, args);
        assert (sp.rest + g)[0] == sp.rest[0] && (sp.rest + g)[1..] == sp.rest[1..] + g;
        RenderAppend(sp.rest[1..], g, piece.left);
      }
      PrependTwice();
    }
  }

  /** A plain character stands for itself, and %s for its argument. */
  lemma RenderPlain(c: char, f: string, args: seq<Arg>)
    requires c != '%'
    ensures Render([c] + f, args) == Prepend([c], Render(f, args))
  {
    assert ([c] + f)[1..] == f;
  }

  lemma RenderString(s: string, f: string, args: seq<Arg>)
    ensures Render("%s" + f, [Text(s)] + args) == Prepend(s, Render(f, args))
  {
    hide Repeat;
    var all, rest := "%s" + f, "s" + f;
    assert all[1..] == rest && rest[1..] == f && rest[0] == 's';
    assert SpecOf(rest) == Spec(' ', 0, rest);
    assert ([Text(s)] + args)[1..] == args;
    assert Repeat(' ', 0 - |s|) == "" && s + "" == s;
  }

  // ---- the conversions, by what their text means ----

  predicate IsDigit(c: char, base: nat) { ('0' <= c <= '9' || 'a' <= c <= 'f') && DigitValue(c) < base }

  /** The text writes the number in the base, without leading zeros. */
  predicate Numeral(s: string, v: nat, base: nat) {
    s != "" && (forall i :: 0 <= i < |s| ==> IsDigit(s[i], base)) && Value(s, base) == v && (s[0] == '0' ==> s == "0")
  }

  /** A numeral behind k padding characters, which are there exactly to fill the width. */
  predicate Field(t: string, k: nat, v: nat, base: nat, width: int, pad: char) {
    && k <= |t| && Numeral(t[k..], v, base) && (forall i :: 0 <= i < k ==> t[i] == pad)
    && |t| >= width && (k > 0 ==> |t| == width)
  }

  lemma {:induction false} DigitsNumeral(v: nat, base: nat)
    requires base == 10 || base == 16
    ensures Numeral(Digits(v, base), v, base)
    decreases v
  {
    hide Quot, Rem, Value;
    DigitsRead(v, base);
    if v >= base { DigitsNumeral(Quot(v, base), base); }
  }

  lemma {:induction false} RepeatAll(c: char, n: int)
    ensures forall i :: 0 <= i < |Repeat(c, n)| ==> Repeat(c, n)[i] == c
    decreases n
  {
    if n > 0 { RepeatAll(c, n - 1); }
  }

  lemma FieldOf(v: nat, base: nat, width: int, pad: char) returns (k: nat)
    requires base == 10 || base == 16
    ensures Field(UnsignedText(v, base, width, pad), k, v, base, width, pad)
  {
    hide Digits, Repeat, Numeral;
    DigitsNumeral(v, base);
    RepeatAll(pad, width - |Digits(v, base)|);
    k := |Repeat(pad, width - |Digits(v, base)|)|;
    assert UnsignedText(v, base, width, pad)[k..] == Digits(v, base);
  }

  /** Decimal digits, as they stand between % and the conversion character. */
  predicate IsWidth(w: string) { (forall i :: 0 <= i < |w| ==> '0' <= w[i] <= '9') && Value(w, 10) < 0x8000_0000 }

  function PadOf(w: string): char { if w != "" && w[0] == '0' then '0' else ' ' }

  lemma {:induction false} WidthReads(pre: string, w: string, rest: string)
    requires forall i :: 0 <= i < |w| ==> '0' <= w[i] <= '9'
    requires rest != "" && !('0' <= rest[0] <= '9')
    ensures Width(w + rest, Value(pre, 10)) == (Value(pre + w, 10), rest)
    decreases |w|
  {
    if w == "" {
      assert w + rest == rest && pre + w == pre;
    } else {
      assert (w + rest)[1..] == w[1..] + rest && (w + rest)[0] == w[0];
      ValueSnoc(pre, w[0], 10);
      WidthReads(pre + [w[0]], w[1..], rest);
      assert pre + [w[0]] + w[1..] == pre + w;
    }
  }

  /** Digits in front of the conversion character give the width; a leading zero asks for zeros. */
  lemma SpecReads(w: string, rest: string)
    requires IsWidth(w) && rest != "" && !('0' <= rest[0] <= '9')
    ensures SpecOf(w + rest) == Spec(PadOf(w), Value(w, 10), rest)
  {
    hide Width, Value;
    ValueNone(10);
    if w != "" && w[0] == '0' {
      assert (w + rest)[1..] == w[1..] + rest;
      ValueSnoc("", '0', 10);
      WidthReads("" + ['0'], w[1..], rest);
      assert "" + ['0'] + w[1..] == w;
    } else {
      WidthReads("", w, rest);
      assert "" + w == w;
      assert w == "" ==> w + rest == rest;
    }
  }

  /** One conversion in front of the rest of a format. */
  lemma RenderOne(w: string, c: char, f: string, args: seq<Arg>)
    requires IsWidth(w) && !('0' <= c <= '9')
    ensures Render("%" + w + [c] + f, args) ==
      var piece := Convert(c, Value(w, 10), PadOf(w), args);
      if piece.Bad? then Bad else Prepend(piece.text, Render(f, piece.left))
  {
    hide Convert, SpecOf, Value, IsWidth;
    var all, rest := "%" + w + [c] + f, [c] + f;
    assert all[1..] == w + rest && rest[1..] == f;
    SpecReads(w, rest);
  }

  /** %u and %x write the number in base 10 and 16, padded on the left to the width. */
  lemma RenderUnsigned(w: string, c: char, n: u32, f: string, args: seq<Arg>) returns (t: string, k: nat)
    requires IsWidth(w) && (c == 'u' || c == 'x')
    ensures Render("%" + w + [c] + f, [Number(n)] + args) == Prepend(t, Render(f, args))
    ensures Field(t, k, n as nat, if c == 'u' then 10 else 16, Value(w, 10), PadOf(w))
  {
    hide Value, UnsignedText, Field, Render;
    RenderOne(w, c, f, [Number(n)] + args);
    assert ([Number(n)] + args)[1..] == args;
    t := UnsignedText(n, if c == 'u' then 10 else 16, Value(w, 10), PadOf(w));
    k := FieldOf(n, if c == 'u' then 10 else 16, Value(w, 10), PadOf(w));
  }

  /** %d and %i write the signed value of the word; the sign stands in front of the padding and counts for the
      width. */
  lemma RenderSigned(w: string, c: char, n: u32, f: string, args: seq<Arg>) returns (t: string, k: nat)
    requires IsWidth(w) && (c == 'd' || c == 'i') && n != 0x8000_0000
    ensures Render("%" + w + [c] + f, [Number(n)] + args) == Prepend(t, Render(f, args))
    ensures n < 0x8000_0000 ==> Field(t, k, n as nat, 10, Value(w, 10), PadOf(w))
    ensures n > 0x8000_0000 ==>
      t != "" && t[0] == '-' && Field(t[1..], k, 0x1_0000_0000 - n, 10, Value(w, 10) - 1, PadOf(w))
  {
    hide Value, UnsignedText, Render;
    RenderOne(w, c, f, [Number(n)] + args);
    assert ([Number(n)] + args)[1..] == args;
    t := SignedText(Signed(n), Value(w, 10), PadOf(w));
    if n < 0x8000_0000 {
      k := FieldOf(n, 10, Value(w, 10), PadOf(w));
    } else {
      var width := if Value(w, 10) > 0 then Value(w, 10) - 1 else 0;
      k := FieldOf(0x1_0000_0000 - n, 10, width, PadOf(w));
      assert t[1..] == UnsignedText(0x1_0000_0000 - n, 10, width, PadOf(w));
    }
  }

  /** %p writes 0x and the number in base 16 with at least eight digits, whatever the width. */
  lemma RenderPointer(w: string, n: u32, f: string, args: seq<Arg>) returns (t: string, k: nat)
    requires IsWidth(w)
    ensures Render("%" + w + "p" + f, [Number(n)] + args) == Prepend("0x" + t, Render(f, args))
    ensures Field(t, k, n as nat, 16, 8, '0')
  {
    hide Value, UnsignedText, Field, Render;
    RenderOne(w, 'p', f, [Number(n)] + args);
    assert ([Number(n)] + args)[1..] == args;
    t := UnsignedText(n, 16, 8, '0');
    k := FieldOf(n, 16, 8, '0');
  }

  /** %c writes the lowest byte of its argument, and %% a percent sign without one. */
  lemma RenderChar(w: string, n: u32, f: string, args: seq<Arg>)
    requires IsWidth(w)
    ensures Render("%" + w + "c" + f, [Number(n)] + args) == Prepend([(n % 0x100) as char], Render(f, args))
    ensures Render("%" + w + "%" + f, args) == Prepend("%", Render(f, args))
  {
    hide Value, Render;
    RenderOne(w, 'c', f, [Number(n)] + args);
    RenderOne(w, '%', f, args);
    assert ([Number(n)] + args)[1..] == args;
  }

  /** %s writes its argument, padded on the right with spaces; a null string reads "(null)". */
  lemma RenderPadded(w: string, a: Arg, f: string, args: seq<Arg>) returns (t: string)
    requires IsWidth(w) && !a.Number?
    ensures Render("%" + w + "s" + f, [a] + args) == Prepend((if a.Null? then "(null)" else a.s) + t, Render(f, args))
    ensures var n := |if a.Null? then "(null)" else a.s|;
      |t| == (if n < Value(w, 10) then Value(w, 10) - n else 0) && forall i :: 0 <= i < |t| ==> t[i] == ' '
  {
    hide Value, Render, Repeat;
    RenderOne(w, 's', f, [a] + args);
    assert ([a] + args)[1..] == args;
    t := Repeat(' ', Value(w, 10) - |StringOf(a)|);
    RepeatAll(' ', Value(w, 10) - |StringOf(a)|);
  }

  lemma PrependTwice()
    ensures forall t, u, q :: Prepend(t, Prepend(u, q)) == Prepend(t + u, q)
  {
    forall t: string, u: string, q: Rendered ensures Prepend(t, Prepend(u, q)) == Prepend(t + u, q) {
      if q.Done? { assert t + (u + q.text) == (t + u) + q.text; }
    }
  }

  // ---- the engine ----

  /** `size - 1` as the source takes it: for size 0 it wraps around. */
  function Limit(size: u32): nat { (size - 1) % WORD }

  /** Memory of the given length, from the buffer on, has room for what a text of n characters fills. */
  predicate Room(length: nat, n: nat, size: u32) { Min(n, Limit(size)) <= length }

  /** The memory b once text has been put into its first places, as far as the limit. */
  function Filled(b: seq<char>, text: string, size: u32): (r: seq<char>)
    requires Room(|b|, |text|, size)
    ensures |r| == |b|
  {
    text[..Min(|text|, Limit(size))] + b[Min(|text|, Limit(size))..]
  }

  lemma FilledMore(b: seq<char>, text: string, c: char, size: u32)
    requires Room(|b|, |text| + 1, size)
    ensures Filled(b, text + [c], size) ==
              if |text| < Limit(size) then Filled(b, text, size)[|text| := c] else Filled(b, text, size)
  {
  }

  /** _buf_putchar */
  method PutChar(buf: array<char>, pos: nat, size: u32, c: char, ghost b: seq<char>, ghost text: string)
    returns (n: nat)
    requires buf.Length == |b| && Room(|b|, |text| + 1, size) && pos == |text| && buf[..] == Filled(b, text, size)
    modifies buf
    ensures n == 1 && buf[..] == Filled(b, text + [c], size)
  {
    hide Filled;
    FilledMore(b, text, c, size);
    if pos < (size - 1) % WORD {
      buf[pos] := c;
    }
    n := 1;
  }

  /** _buf_puts */
  method PutString(buf: array<char>, pos: nat, size: u32, str: string, ghost b: seq<char>, ghost text: string)
    returns (written: nat)
    requires buf.Length == |b| && Room(|b|, |text| + |str|, size)
    requires pos == |text| && buf[..] == Filled(b, text, size)
    modifies buf
    ensures written == |str| && buf[..] == Filled(b, text + str, size)
  {
    hide Filled;
    written := 0;
    assert text + str[..0] == text;
    while written < |str|
      invariant written <= |str| && buf[..] == Filled(b, text + str[..written], size)
    {
      assert text + str[..written + 1] == text + str[..written] + [str[written]];
      var n := PutChar(buf, pos + written, size, str[written], b, text + str[..written]);
      written := written + n;
    }
    assert str[..|str|] == str;
  }

  /** Padding up to a width. */
  method PutPad(buf: array<char>, pos: nat, size: u32, c: char, count: int, ghost b: seq<char>, ghost text: string)
    returns (written: nat)
    requires buf.Length == |b| && Room(|b|, |text| + |Repeat(c, count)|, size)
    requires pos == |text| && buf[..] == Filled(b, text, size)
    modifies buf
    ensures written == |Repeat(c, count)| && buf[..] == Filled(b, text + Repeat(c, count), size)
  {
    hide Filled;
    written := 0;
    assert text + Repeat(c, 0) == text;
    while written < count
      invariant written == 0 || written <= count
      invariant buf[..] == Filled(b, text + Repeat(c, written), size)
    {
      assert text + Repeat(c, written + 1) == text + Repeat(c, written) + [c];
      var n := PutChar(buf, pos + written, size, c, b, text + Repeat(c, written));
      written := written + n;
    }
    assert Repeat(c, written) == Repeat(c, count);
  }

  function Rev(s: string): (r: string)
    ensures |r| == |s|
  {
    if s == "" then "" else Rev(s[1..]) + [s[0]]
  }

  lemma {:induction false} RevSnoc(s: string, c: char)
    ensures Rev(s + [c]) == [c] + Rev(s)
  {
    if s != "" {
      assert (s + [c])[1..] == s[1..] + [c] && (s + [c])[0] == s[0];
      RevSnoc(s[1..], c);
    }
  }

  /** The digits of v are those of val, which are still to come, and those done, backwards. */
  predicate Halfway(v: nat, val: nat, base: nat, done: string)
    requires 2 <= base <= 36
  {
    Digits(v, base) == (if val > 0 then Digits(val, base) else "") + Rev(done)
  }

  lemma HalfwayStep(v: nat, val: nat, base: nat, done: string)
    requires 2 <= base <= 36 && val > 0 && Halfway(v, val, base, done)
    ensures Halfway(v, Quot(val, base), base, done + [DigitChar(Rem(val, base))])
    ensures |Digits(val, base)| == 1 + if Quot(val, base) > 0 then |Digits(Quot(val, base), base)| else 0
  {
    hide Digits, Rev, Quot, Rem, DigitChar;
    DigitsStep(val, base);
    RevSnoc(done, DigitChar(Rem(val, base)));
    var x, c := if Quot(val, base) > 0 then Digits(Quot(val, base), base) else "", [DigitChar(Rem(val, base))];
    assert (x + c) + Rev(done) == x + (c + Rev(done));
  }

  lemma HalfwayEnds(v: nat, base: nat, done: string)
    requires 2 <= base <= 36
    ensures v > 0 ==> Halfway(v, v, base, "")
    ensures Halfway(v, 0, base, done) ==> Rev(done) == Digits(v, base)
  {
    hide Digits;
    assert "" + Rev(done) == Rev(done);
  }

  /** The digit loop: the digits of val, last one first, in the first places of tmp. */
  method PutDigits(tmp: array<char>, v: u32, base: nat) returns (i: nat)
    requires tmp.Length == 32 && 2 <= base <= 36
    modifies tmp
    ensures 0 < i <= 32 && Rev(tmp[..i]) == Digits(v, base)
  {
    hide DigitChar, Rev, Digits, Quot, Rem, Halfway;
    i := 0;
    Pow2Word();
    DigitsShort(v, base, 32);
    var val := v;
    if val == 0 {
      tmp[i] := '0';
      assert tmp[..1] == "" + [tmp[0]];
      RevSnoc("", '0');
      RevNone();
      ZeroDigit(base);
      return 1;
    }
    HalfwayEnds(v, base, "");
    assert tmp[..0] == "";
    while val > 0
      invariant i <= 32 && (val > 0 ==> i + |Digits(val, base)| <= 32) && (val == 0 ==> i > 0)
      invariant Halfway(v, val, base, tmp[..i])
    {
      var digit := Rem(val, base);
      ghost var done := tmp[..i];
      HalfwayStep(v, val, base, done);
      tmp[i] := if digit < 10 then '0' + digit as char else 'a' + (digit - 10) as char;
      DigitCharIs(digit);
      assert tmp[..i + 1] == done + [DigitChar(digit)];
      i := i + 1;
      val := Quot(val, base);
    }
    HalfwayEnds(v, base, tmp[..i]);
  }

  lemma DigitCharIs(d: nat)
    requires d < 36
    ensures DigitChar(d) == if d < 10 then '0' + d as char else 'a' + (d - 10) as char
  {
  }

  lemma RevNone()
    ensures Rev("") == ""
  {
  }

  lemma ZeroDigit(base: nat)
    requires 2 <= base <= 36
    ensures Digits(0, base) == "0" && DigitChar(0) == '0'
  {
  }

  lemma DigitsStep(v: nat, base: nat)
    requires 2 <= base <= 36
    ensures Digits(v, base) ==
      (if Quot(v, base) > 0 then Digits(Quot(v, base), base) else "") + [DigitChar(Rem(v, base))]
  {
    hide Quot, Rem;
  }

  /** _buf_put_uint */
  method PutUnsigned(buf: array<char>, pos: nat, size: u32, v: u32, base: nat, width: int, pad: char,
                     ghost b: seq<char>, ghost text: string)
    returns (written: nat)
    requires 2 <= base <= 36 && buf.Length == |b| && Room(|b|, |text| + |UnsignedText(v, base, width, pad)|, size)
    requires pos == |text| && buf[..] == Filled(b, text, size)
    modifies buf
    ensures written == |UnsignedText(v, base, width, pad)|
    ensures buf[..] == Filled(b, text + UnsignedText(v, base, width, pad), size)
  {
    hide Filled, Digits, Repeat, Rev;
    var tmp := new char[32];
    var i := PutDigits(tmp, v, base);
    ghost var t := tmp[..i];
    written := PutPad(buf, pos, size, pad, width - i, b, text);
    ghost var padded := text + Repeat(pad, width - i);
    ghost var n := i;
    RevTail(t, i);
    assert padded + "" == padded;
    while i > 0
      invariant i <= n && n <= 32 && tmp[..n] == t && |padded| == |text| + |Repeat(pad, width - n)|
      invariant written == |Repeat(pad, width - n)| + n - i
      invariant buf[..] == Filled(b, padded + Rev(t[i..]), size)
    {
      i := i - 1;
      RevTail(t, i);
      assert padded + Rev(t[i..]) == padded + Rev(t[i + 1..]) + [t[i]];
      assert tmp[i] == t[i];
      var k := PutChar(buf, pos + written, size, tmp[i], b, padded + Rev(t[i + 1..]));
      written := written + k;
    }
    assert t[0..] == t;
    assert padded + Rev(t) == text + UnsignedText(v, base, width, pad);
  }

  lemma RevTail(t: string, i: nat)
    requires i <= |t|
    ensures i == |t| ==> Rev(t[i..]) == ""
    ensures i < |t| ==> Rev(t[i..]) == Rev(t[i + 1..]) + [t[i]]
  {
    if i < |t| { assert t[i..][1..] == t[i + 1..] && t[i..][0] == t[i]; }
  }

  /** _buf_put_int */
  method PutSigned(buf: array<char>, pos: nat, size: u32, val: int, width: nat, pad: char,
                   ghost b: seq<char>, ghost text: string)
    returns (written: nat)
    requires -INT_LIMIT < val < INT_LIMIT && buf.Length == |b|
    requires Room(|b|, |text| + |SignedText(val, width, pad)|, size)
    requires pos == |text| && buf[..] == Filled(b, text, size)
    modifies buf
    ensures written == |SignedText(val, width, pad)|
    ensures buf[..] == Filled(b, text + SignedText(val, width, pad), size)
  {
    hide Filled, UnsignedText;
    written := 0;
    var v, w := val, width;
    ghost var t := text;
    if v < 0 {
      written := PutChar(buf, pos, size, '-', b, text);
      v := -v;
      if w > 0 { w := w - 1; }
      t := text + "-";
    }
    var n := PutUnsigned(buf, pos + written, size, v, 10, w, pad, b, t);
    assert t + UnsignedText(v, 10, w, pad) == text + SignedText(val, width, pad);
    written := written + n;
  }

  /** The switch on the conversion character. */
  method PutConversion(buf: array<char>, pos: nat, size: u32, c: char, width: nat, pad: char, args: seq<Arg>,
                       ghost b: seq<char>, ghost text: string)
    returns (n: nat, left: seq<Arg>)
    requires Convert(c, width, pad, args).Done?
    requires buf.Length == |b| && Room(|b|, |text| + |Convert(c, width, pad, args).text|, size)
    requires pos == |text| && buf[..] == Filled(b, text, size)
    modifies buf
    ensures left == Convert(c, width, pad, args).left && n == |Convert(c, width, pad, args).text|
    ensures buf[..] == Filled(b, text + Convert(c, width, pad, args).text, size)
  {
    hide Filled, SignedText, UnsignedText, Repeat;
    left := args;
    if c == 'd' || c == 'i' {
      left := args[1..];
      n := PutSigned(buf, pos, size, Signed(args[0].n), width, pad, b, text);
    } else if c == 'u' || c == 'x' {
      left := args[1..];
      n := PutUnsigned(buf, pos, size, args[0].n, if c == 'u' then 10 else 16, width, pad, b, text);
    } else if c == 'p' {
      left := args[1..];
      n := PutString(buf, pos, size, "0x", b, text);
      var k := PutUnsigned(buf, pos + n, size, args[0].n, 16, 8, '0', b, text + "0x");
      assert text + "0x" + UnsignedText(args[0].n, 16, 8, '0') == text + ("0x" + UnsignedText(args[0].n, 16, 8, '0'));
      n := n + k;
    } else if c == 's' {
      left := args[1..];
      var str := StringOf(args[0]);
      n := PutString(buf, pos, size, str, b, text);
      var k := PutPad(buf, pos + n, size, ' ', width - |str|, b, text + str);
      assert text + str + Repeat(' ', width - |str|) == text + (str + Repeat(' ', width - |str|));
      n := n + k;
    } else if c == 'c' {
      left := args[1..];
      n := PutChar(buf, pos, size, (args[0].n % 0x100) as char, b, text);
    } else if c == '%' {
      n := PutChar(buf, pos, size, '%', b, text);
    } else {
      n := PutChar(buf, pos, size, '%', b, text);
      var k := PutChar(buf, pos + n, size, c, b, text + ['%']);
      assert text + ['%'] + [c] == text + (['%'] + [c]);
      n := n + k;
    }
  }

  /** The flag and the width after a %. */
  method ReadSpec(f: string) returns (sp: Spec)
    requires SpecOf(f).width < INT_LIMIT
    ensures sp == SpecOf(f)
  {
    var pad, rest, width: nat := ' ', f, 0;
    if rest != "" && rest[0] == '0' {
      pad, rest := '0', rest[1..];
    }
    while rest != "" && '0' <= rest[0] <= '9'
      invariant Spec(pad, Width(rest, width).0, Width(rest, width).1) == SpecOf(f)
      decreases |rest|
    {
      width, rest := width * 10 + (rest[0] - '0') as nat, rest[1..];
    }
    sp := Spec(pad, width, rest);
  }

  /** Memory that holds a buffer of this size, and whatever more snprintf writes to. */
  predicate Holds(length: nat, text: string, size: u32) { size <= length && Room(length, |text|, size) }

  /** The buffer holds as much of the text as fits, a NUL after it, and what it held before that.  With
      size 0 there is no NUL, and the text goes as far as the limit that has wrapped around. */
  function Terminated(b: seq<char>, text: string, size: u32): (r: seq<char>)
    requires Holds(|b|, text, size)
    ensures |r| == |b|
  {
    if size == 0 then Filled(b, text, size) else
      var m := Min(|text|, size - 1);
      text[..m] + ['\0'] + b[m + 1..]
  }

  lemma TerminatedAt(b: seq<char>, text: string, size: u32)
    requires Holds(|b|, text, size) && size > 0
    ensures var m := if |text| < size then |text| else size - 1; var r := Terminated(b, text, size);
      && m < |b| && r[..m] == text[..m] && r[m] == '\0' && forall i :: m < i < |b| ==> r[i] == b[i]
  {
  }

  lemma Terminates(b: seq<char>, text: string, size: u32)
    requires Holds(|b|, text, size) && size > 0
    ensures Terminated(b, text, size) == Filled(b, text, size)[if |text| < size then |text| else size - 1 := '\0']
  {
  }

  /** A text that fits is in the buffer whole. */
  lemma TerminatedWhole(b: seq<char>, text: string, size: u32)
    requires |text| < size <= |b|
    ensures Terminated(b, text, size)[..|text|] == text
  {
  }

  /** Whatever memory holds, what lies beyond the buffer stays, exactly when the buffer has a size or the
      text is empty. */
  lemma StaysInsideExactly(text: string, size: u32)
    ensures (forall b: seq<char> :: Holds(|b|, text, size) ==> KeptBeyond(b, text, size)) <==> size > 0 || text == ""
  {
    if size == 0 && text != "" {
      var b := seq(|text|, _ => if text[0] == 'a' then 'b' else 'a');
      assert Holds(|b|, text, size) && Terminated(b, text, size)[0] == text[0] != b[0];
      assert !KeptBeyond(b, text, size);
    }
  }

  predicate KeptBeyond(b: seq<char>, text: string, size: u32)
    requires Holds(|b|, text, size)
  {
    Terminated(b, text, size)[size..] == b[size..]
  }

  /** A buffer of size 0 and one character: it lands in the memory behind. */
  lemma SizeZeroWrites()
    ensures Holds(2, "x", 0) && Terminated("ab", "x", 0) == "xb"
  {
  }

  /** One pass of the main loop, seen from the specification. */
  lemma RenderStep(f: string, args: seq<Arg>)
    requires Render(f, args).Done? && f != ""
    ensures f[0] != '%' ==> Render(f, args) == Prepend([f[0]], Render(f[1..], args))
    ensures f[0] == '%' ==>
      var sp := SpecOf(f[1..]);
      && sp.rest != "" && sp.width < INT_LIMIT
      && var piece := Convert(sp.rest[0], sp.width, sp.pad, args);
         piece.Done? && Render(f, args) == Prepend(piece.text, Render(sp.rest[1..], piece.left))
  {
  }

  /** Truncates to the buffer, and returns the length of the whole text.  `buf` is the memory from the
      buffer on. */
  method Snprintf(buf: array<char>, size: u32, fmt: string, args: seq<Arg>) returns (r: nat)
    requires Render(fmt, args).Done? && |Render(fmt, args).text| < INT_LIMIT
    requires Holds(buf.Length, Render(fmt, args).text, size)
    modifies buf
    ensures r == |Render(fmt, args).text|
    ensures buf[..] == Terminated(old(buf[..]), Render(fmt, args).text, size)
    ensures size > 0 ==>
      var m := if r < size then r else size - 1;
      && m < buf.Length && buf[..m] == Render(fmt, args).text[..m] && buf[m] == '\0'
      && forall i :: m < i < buf.Length ==> buf[i] == old(buf[i])
  {
    hide Filled, Convert, SpecOf, Render, Terminated;
    ghost var b, text := buf[..], "";
    var pos, f, left := 0, fmt, args;
    FilledNone(b, size);
    PrependNone(Render(fmt, args));
    PrependTwice();
    while f != ""
      invariant Render(f, left).Done? && Render(fmt, args) == Prepend(text, Render(f, left))
      invariant pos == |text| <= |Render(fmt, args).text| && buf[..] == Filled(b, text, size)
      decreases |f|
    {
      RenderStep(f, left);
      if f[0] != '%' {
        var n := PutChar(buf, pos, size, f[0], b, text);
        pos, text, f := pos + n, text + [f[0]], f[1..];
      } else {
        var sp := ReadSpec(f[1..]);
        ghost var piece := Convert(sp.rest[0], sp.width, sp.pad, left);
        var n;
        n, left := PutConversion(buf, pos, size, sp.rest[0], sp.width, sp.pad, left, b, text);
        pos, text, f := pos + n, text + piece.text, sp.rest[1..];
      }
    }
    RenderNone(left);
    assert text + "" == text;
    if size > 0 {
      Terminates(b, text, size);
      TerminatedAt(b, text, size);
      buf[if pos < size then pos else size - 1] := '\0';
    } else {
      NotTerminated(b, text);
    }
    r := pos;
  }

  lemma RenderNone(args: seq<Arg>)
    ensures Render("", args) == Done("", args)
  {
  }

  lemma NotTerminated(b: seq<char>, text: string)
    requires Holds(|b|, text, 0)
    ensures Terminated(b, text, 0) == Filled(b, text, 0)
  {
  }

  lemma FilledNone(b: seq<char>, size: u32)
    ensures Filled(b, "", size) == b
  {
  }

  lemma PrependNone(r: Rendered)
    ensures Prepend("", r) == r
  {
    if r.Done? { assert "" + r.text == r.text; }
  }
}
