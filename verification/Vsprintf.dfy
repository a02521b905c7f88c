/** `vsprintf`: the interpreter that walks over the format and writes the buffer. */
module Vsprintf {
  import opened NumberSpec
  import opened NumberPrinter
  import opened FormatSpec
  import opened FormatTheorems

  /** The format in memory: its characters and the terminating NUL. */
  predicate Stored(fmt: seq<char>, s: string) {
    fmt == s + [NUL] && NulFree(s)
  }

  lemma CharAt(fmt: seq<char>, s: string, i: nat)
    requires Stored(fmt, s) && i <= |s|
    ensures fmt[i] == First(s[i..]) && (fmt[i] == NUL <==> i == |s|)
    ensures i < |s| ==> s[i..][1..] == s[i + 1..]
  {
  }

  /** `skip_atoi`. Each sum is a 32-bit word; where a value passes `int`, the
      result is the word that the value leaves behind. */
  method SkipAtoi(fmt: seq<char>, i: nat, ghost s: string) returns (v: int32, j: nat)
    requires Stored(fmt, s) && i <= |s|
    ensures v == Wrap(Decimal(s[i..])) && i <= j <= |s| && s[j..] == AfterDigits(s[i..])
    ensures !IsDigit(fmt[j])
  {
    v, j := 0, i;
    ghost var value := 0;
    while IsDigit(fmt[j])
      invariant i <= j <= |s| && v == Wrap(value) && 0 <= value
      invariant ReadDigits(s[j..], 10, value) == Decimal(s[i..]) && AfterDigits(s[j..]) == AfterDigits(s[i..])
      decreases |s| - j
    {
      CharAt(fmt, s, j);
      ghost var d := DigitValue(fmt[j]);
      AppendIsProduct(value, 10, d);
      WrapStep(value, d);
      value := Append(value, 10, d);
      v := Wrap(v * 10 + (fmt[j] as int - '0' as int));
      j := j + 1;
    }
    CharAt(fmt, s, j);
  }

  /** The flags behind the percent sign at `i`. */
  method ParseFlags(fmt: seq<char>, i: nat, ghost s: string) returns (f: Flags, j: nat)
    requires Stored(fmt, s) && i < |s|
    ensures i < j <= |s| && s[j..] == AfterFlags(s[i + 1..]) && f == FlagsOf(s[i + 1..], NO_FLAGS)
  {
    f, j := NO_FLAGS, i + 1;
    while IsFlag(fmt[j])
      invariant i < j <= |s|
      invariant AfterFlags(s[j..]) == AfterFlags(s[i + 1..]) && FlagsOf(s[j..], f) == FlagsOf(s[i + 1..], NO_FLAGS)
      decreases |s| - j
    {
      CharAt(fmt, s, j);
      f := AddFlag(f, fmt[j]);
      j := j + 1;
    }
    CharAt(fmt, s, j);
  }

  /** A star's argument as a width; a negative one also sets LEFT. */
  function StarWidth(w: int32): int32 {
    if w < 0 then Negate(w) else w
  }

  function StarFlags(w: int32, f: Flags): Flags {
    if w < 0 then f.(left := true) else f
  }

  /** The width. A `*` takes the next argument and stays in place. */
  method ParseWidth(fmt: seq<char>, i: nat, args: seq<Arg>, k: nat, f: Flags, ghost s: string)
    returns (j: nat, width: int, g: Flags, next: nat)
    requires Stored(fmt, s) && i <= |s|
    requires First(s[i..]) == '*' ==> k < |args| && args[k].Word?
    ensures i <= j <= |s| && s[j..] == AfterDigits(s[i..])
    ensures First(s[i..]) != '*' ==> width == WidthOf(s[i..]) && g == f && next == k
    ensures First(s[i..]) == '*' ==> width == StarWidth(args[k].w) && g == StarFlags(args[k].w, f) && next == k + 1
  {
    j, g, next := i, f, k;
    CharAt(fmt, s, j);
    width := -1;
    if IsDigit(fmt[j]) {
      width, j := SkipAtoi(fmt, j, s);
    } else if fmt[j] == '*' {
      width := args[next].w;
      next := next + 1;
      if width < 0 {
        width := Negate(width);
        g := g.(left := true);
      }
    }
  }

  /** The precision, if there is one. A star's negative argument counts as 0. */
  method ParsePrecision(fmt: seq<char>, i: nat, args: seq<Arg>, k: nat, ghost s: string)
    returns (j: nat, precision: int, next: nat)
    requires Stored(fmt, s) && i <= |s|
    requires StarBehindDot(s[i..]) ==> k < |args| && args[k].Word?
    ensures i <= j <= |s| && s[j..] == AfterPrecision(s[i..])
    ensures !StarBehindDot(s[i..]) ==> precision == PrecisionOf(s[i..]) && next == k
    ensures StarBehindDot(s[i..]) ==> precision == Max(0, args[k].w) && next == k + 1 && fmt[j] == '*'
  {
    j, precision, next := i, -1, k;
    CharAt(fmt, s, j);
    if fmt[j] == '.' {
      j := j + 1;
      CharAt(fmt, s, j);
      if IsDigit(fmt[j]) {
        precision, j := SkipAtoi(fmt, j, s);
      } else if fmt[j] == '*' {
        precision := args[next].w;
        next := next + 1;
      }
      if precision < 0 {
        precision := 0;
      }
    }
  }

  /** `for (i = 0; i < len; ++i) *str++ = *s++;` */
  method PutText(buf: array<char>, str: nat, text: string, len: nat) returns (end: nat)
    requires len <= |text| && str + len <= buf.Length
    modifies buf
    ensures end == str + len && buf[..end] == old(buf[..str]) + text[..len]
  {
    end := str;
    ghost var pre := buf[..str];
    NothingAfter(pre);
    for i := 0 to len
      invariant end == str + i && buf[..end] == pre + text[..i]
    {
      Regroup(pre, text[..i], [text[i]]);
      assert text[..i] + [text[i]] == text[..i + 1];
      end := Put(buf, end, text[i]);
    }
  }

  /** `%c` */
  method PutChar(buf: array<char>, str: nat, w: int32, width: int, f: Flags) returns (end: nat)
    requires str + |CharField(w, width, f)| <= buf.Length
    modifies buf
    ensures end == str + |CharField(w, width, f)| && buf[..end] == old(buf[..str]) + CharField(w, width, f)
  {
    var c := (Unsigned(w) % 256) as char;
    var rest := width - 1;
    ghost var pre := buf[..str];
    end := str;
    if !f.left {
      end, rest := Pad(buf, end, ' ', rest);
      Regroup(pre, Repeat(' ', width - 1), [c]);
    }
    end := Put(buf, end, c);
    ghost var t := if f.left then [c] else Repeat(' ', width - 1) + [c];
    assert buf[..end] == pre + t;
    Regroup(pre, t, Repeat(' ', rest));
    NothingAfter(t);
    end, rest := Pad(buf, end, ' ', rest);
  }

  /** `%s` */
  method PutString(buf: array<char>, str: nat, text: string, width: int, precision: int, f: Flags) returns (end: nat)
    requires str + |TextField(text, width, precision, f)| <= buf.Length
    modifies buf
    ensures end == str + |TextField(text, width, precision, f)|
    ensures buf[..end] == old(buf[..str]) + TextField(text, width, precision, f)
  {
    var len := |text|;
    if 0 <= precision && len > precision {
      len := precision;
    }
    ghost var body := text[..len];
    assert precision < 0 || |text| <= precision ==> body == text;
    var rest := width - len;
    ghost var pre := buf[..str];
    end := str;
    if !f.left {
      end, rest := Pad(buf, end, ' ', rest);
      Regroup(pre, Repeat(' ', width - len), body);
    }
    end := PutText(buf, end, text, len);
    ghost var t := if f.left then body else Repeat(' ', width - len) + body;
    assert buf[..end] == pre + t;
    Regroup(pre, t, Repeat(' ', rest));
    NothingAfter(t);
    end, rest := Pad(buf, end, ' ', rest);
  }

  /** What a directive leaves in the buffer, given its last character. */
  function Printed(c: char, args: seq<Arg>, k: nat, width: int, precision: int, f: Flags): string
    requires TakesArg(c) ==> k < |args| && (TakesWord(c) ==> args[k].Word?) && (c == 's' ==> args[k].Text?)
  {
    if TakesArg(c) then Converted(c, args[k], width, precision, f) else Unknown(c)
  }

  /** `str = number(str, ...)`: the base is one that `number` serves. */
  method PutLayout(buf: array<char>, str: nat, w: int32, base: nat, size: int, precision: int, f: Flags)
    returns (end: nat)
    requires 2 <= base <= 36 && str + |Layout(w, base, size, precision, f)| <= buf.Length
    modifies buf
    ensures end == str + |Layout(w, base, size, precision, f)|
    ensures buf[..end] == old(buf[..str]) + Layout(w, base, size, precision, f)
  {
    var p := Number(buf, str, w, base, size, precision, f);
    end := p.value;
  }

  /** The switch over the conversions that print a number. */
  method PutNumber(buf: array<char>, str: nat, c: char, w: int32, width: int, precision: int, f: Flags)
    returns (end: nat)
    requires TakesWord(c) && c != 'c'
    requires str + |Converted(c, Word(w), width, precision, f)| <= buf.Length
    modifies buf
    ensures
      var text := Converted(c, Word(w), width, precision, f);
      end == str + |text| && buf[..end] == old(buf[..str]) + text
  {
    ghost var g := NumberFlags(c, width, f);
    AsLayout(c, w, width, precision, f, BaseOf(c), NumberWidth(c, width), g);
    match c {
    case 'o' => end := PutLayout(buf, str, w, 8, width, precision, f);
    case 'p' =>
      if width == -1 {
        end := PutLayout(buf, str, w, 16, 8, precision, f.(zeropad := true));
      } else {
        end := PutLayout(buf, str, w, 16, width, precision, f);
      }
    case 'x' => end := PutLayout(buf, str, w, 16, width, precision, f.(small := true));
    case 'X' => end := PutLayout(buf, str, w, 16, width, precision, f);
    case 'd' => end := PutLayout(buf, str, w, 10, width, precision, f.(sign := true));
    case 'i' => end := PutLayout(buf, str, w, 10, width, precision, f.(sign := true));
    case _ => end := PutLayout(buf, str, w, 10, width, precision, f);
    }
  }

  /** The whole switch, but for the store of `%n` and the backward step. */
  method Convert(buf: array<char>, str: nat, c: char, args: seq<Arg>, k: nat, width: int, precision: int, f: Flags)
    returns (end: nat)
    requires TakesArg(c) ==> k < |args| && (TakesWord(c) ==> args[k].Word?) && (c == 's' ==> args[k].Text?)
    requires str + |Printed(c, args, k, width, precision, f)| <= buf.Length
    modifies buf
    ensures
      var text := Printed(c, args, k, width, precision, f);
      end == str + |text| && buf[..end] == old(buf[..str]) + text
  {
    end := str;
    if c == 'c' {
      end := PutChar(buf, end, args[k].w, width, f);
    } else if c == 's' {
      end := PutString(buf, end, args[k].text, width, precision, f);
    } else if TakesWord(c) {
      end := PutNumber(buf, end, c, args[k].w, width, precision, f);
    } else if c == 'n' {
      NothingAfter(buf[..str]);
    } else {
      ghost var pre := buf[..str];
      NothingAfter(pre);
      if c != '%' {
        end := Put(buf, end, '%');
      }
      if c != NUL {
        if c != '%' {
          Regroup(pre, "%", [c]);
        }
        end := Put(buf, end, c);
      }
    }
  }

  /** What a directive's last character makes of the arguments that are left. */
  lemma DirectiveText(item: Item, args: seq<Arg>, k: nat, next: nat, width: int, precision: int, f: Flags, written: nat)
    requires item.Dir? && k <= |args| && ItemOk(item, args[k..]) && next == k + item.stars
    requires item.stars == 0 ==> f == item.flags && width == item.width && precision == item.precision
    requires item.stars > 0 ==> item.conv == '*'
    ensures
      var c := item.conv;
      && (TakesArg(c) ==> next < |args| && (TakesWord(c) ==> args[next].Word?) && (c == 's' ==> args[next].Text?))
      && (c == 'n' ==> args[next].Cell?)
      && Printed(c, args, next, width, precision, f) == Output(item, args[k..])
      && StoredBy(item, args[k..], written) == if c == 'n' then [(args[next].cell, written)] else []
  {
    assert TakesArg(item.conv) ==> args[k..][item.stars] == args[next];
  }

  /** The parts of the directive at `i`, up to the character that ends it. */
  method ParseDirective(fmt: seq<char>, i: nat, args: seq<Arg>, k: nat, ghost s: string)
    returns (j: nat, width: int, precision: int, g: Flags, next: nat)
    requires Stored(fmt, s) && i < |s| && k <= |args|
    requires ItemOk(DirOf(s[i + 1..]), args[k..])
    ensures i < j <= |s| && s[j..] == ConvOf(s[i + 1..])
    ensures
      var item := DirOf(s[i + 1..]);
      && next == k + item.stars
      && (item.stars == 0 ==> g == item.flags && width == item.width && precision == item.precision)
      && (item.stars > 0 ==> item.conv == '*')
  {
    var f;
    f, j := ParseFlags(fmt, i, s);
    j, width, g, next := ParseWidth(fmt, j, args, k, f, s);
    j, precision, next := ParsePrecision(fmt, j, args, next, s);
    CharAt(fmt, s, j);
    if fmt[j] in {'h', 'l', 'L'} {
      j := j + 1;
    }
  }

  /** One directive, from its percent sign at `i` to the position at which the
      enclosing loop advances: the directive's last character, or one before the
      NUL if the format stops inside the directive. */
  method Directive(buf: array<char>, str: nat, fmt: seq<char>, i: nat, args: seq<Arg>, k: nat, ghost s: string)
    returns (end: nat, j: nat, next: nat, stored: seq<(nat, nat)>)
    requires Stored(fmt, s) && i < |s| && k <= |args|
    requires
      var item := DirOf(s[i + 1..]);
      && ItemOk(item, args[k..]) && NumbersOk(item)
      && str + |Output(item, args[k..])| <= buf.Length
    modifies buf
    ensures i <= j < |s| && s[j + 1..] == AfterDir(s[i + 1..])
    ensures
      var item := DirOf(s[i + 1..]);
      && next == k + ArgCount(item) <= |args|
      && end == str + |Output(item, args[k..])|
      && buf[..end] == old(buf[..str]) + Output(item, args[k..])
      && stored == StoredBy(item, args[k..], str)
  {
    var width, precision, g;
    j, width, precision, g, next := ParseDirective(fmt, i, args, k, s);
    CharAt(fmt, s, j);
    var c := fmt[j];
    DirectiveText(DirOf(s[i + 1..]), args, k, next, width, precision, g, str);
    stored := if c == 'n' then [(args[next].cell, str)] else [];
    end := Convert(buf, str, c, args, next, width, precision, g);
    if TakesArg(c) {
      next := next + 1;
    }
    if c == NUL {
      j := j - 1;
    }
  }

  /** The item at `i`, and what remains behind it. */
  ghost function ItemAt(s: string, i: nat): Item
    requires i < |s|
  {
    if s[i] == '%' then DirOf(s[i + 1..]) else Lit(s[i])
  }

  ghost function RestAt(s: string, i: nat): string
    requires i < |s|
  {
    if s[i] == '%' then AfterDir(s[i + 1..]) else s[i + 1..]
  }

  lemma ParseFirst(s: string, i: nat)
    requires i < |s|
    ensures Parse(s[i..]) == [ItemAt(s, i)] + Parse(RestAt(s, i))
  {
    assert s[i..][1..] == s[i + 1..] && s[i..][0] == s[i];
  }

  lemma SkipSlice(args: seq<Arg>, k: nat, n: nat)
    requires k + n <= |args|
    ensures Skip(args[k..], n) == args[k + n..]
  {
  }

  lemma RestFits(items: seq<Item>, item: Item, rest: seq<Item>)
    requires items == [item] + rest && NumbersFit(items)
    ensures NumbersFit(rest) && NumbersOk(item)
  {
    assert items[0] == item;
    assert forall m :: 0 <= m < |rest| ==> rest[m] == items[m + 1];
  }

  /** How far a call has come: the arguments left, the text printed and the
      stores made. */
  datatype Progress = Progress(left: seq<Arg>, out: string, stores: seq<(nat, nat)>)

  /** What the items left do with the arguments left completes the `whole` text and
      all the stores. */
  ghost predicate Halfway(printer: Printer, whole: string, stored: seq<(nat, nat)>, items: seq<Item>, p: Progress) {
    match p
    case Progress(left, out, stores) =>
      && ArgsOk(items, left) && NumbersFit(items)
      && whole == out + RenderBy(printer, items, left)
      && stored == stores + StoresBy(printer, items, left, |out|)
  }

  lemma Start(printer: Printer, all: seq<Item>, args: seq<Arg>)
    requires ArgsOk(all, args) && NumbersFit(all)
    ensures Halfway(printer, RenderBy(printer, all, args), StoresBy(printer, all, args, 0), all, Progress(args, "", []))
  {
    NothingAfter(RenderBy(printer, all, args));
    RegroupStores(StoresBy(printer, all, args, 0), [], []);
  }

  lemma Finish(printer: Printer, whole: string, stored: seq<(nat, nat)>, p: Progress)
    requires Halfway(printer, whole, stored, [], p)
    ensures p.out == whole && p.stores == stored
  {
    NothingAfter(p.out);
    RegroupStores(p.stores, [], []);
  }

  /** The first of a list of items, and the others. */
  lemma FirstItem(printer: Printer, items: seq<Item>, item: Item, rest: seq<Item>, args: seq<Arg>, written: nat)
    requires items == [item] + rest && ArgsOk(items, args)
    ensures ItemOk(item, args) && ArgCount(item) <= |args|
    ensures
      var later, text := Skip(args, ArgCount(item)), printer(item, args);
      && ArgsOk(rest, later)
      && RenderBy(printer, items, args) == text + RenderBy(printer, rest, later)
      && StoresBy(printer, items, args, written) ==
         StoredBy(item, args, written) + StoresBy(printer, rest, later, written + |text|)
  {
    assert items[0] == item;
    assert items[1..] == rest;
    FirstText(printer, items, args);
    FirstStores(printer, items, args, written);
  }

  ghost function Advance(printer: Printer, p: Progress, item: Item): Progress {
    Progress(Skip(p.left, ArgCount(item)), p.out + printer(item, p.left), p.stores + StoredBy(item, p.left, |p.out|))
  }

  /** What the next item may rely on, and where it leads. */
  lemma OneItem(printer: Printer, whole: string, stored: seq<(nat, nat)>, item: Item, rest: seq<Item>, p: Progress)
    requires Halfway(printer, whole, stored, [item] + rest, p)
    ensures Ready(item, p.left) && |p.out| + |printer(item, p.left)| <= |whole|
    ensures Halfway(printer, whole, stored, rest, Advance(printer, p, item))
  {
    var items := [item] + rest;
    var text, later, added := printer(item, p.left), Skip(p.left, ArgCount(item)), StoredBy(item, p.left, |p.out|);
    FirstItem(printer, items, item, rest, p.left, |p.out|);
    RestFits(items, item, rest);
    assert |p.out + text| == |p.out| + |text|;
    var tail, more := RenderBy(printer, rest, later), StoresBy(printer, rest, later, |p.out + text|);
    Regroup(p.out, text, tail);
    RegroupStores(p.stores, added, more);
    assert |p.out + text + tail| == |p.out| + |text| + |tail|;
  }

  /** The item has its arguments, and its size stays within int. */
  ghost predicate Ready(item: Item, args: seq<Arg>) {
    ItemOk(item, args) && NumbersOk(item)
  }

  /** One round of the loop: a character that is no percent sign, or a directive. */
  method Step(buf: array<char>, str: nat, fmt: seq<char>, i: nat, args: seq<Arg>, k: nat, ghost s: string)
    returns (end: nat, j: nat, next: nat, stored: seq<(nat, nat)>)
    requires Stored(fmt, s) && i < |s| && k <= |args| && Ready(ItemAt(s, i), args[k..])
    requires str + |Output(ItemAt(s, i), args[k..])| <= buf.Length
    modifies buf
    ensures i < j <= |s| && s[j..] == RestAt(s, i) && next <= |args|
    ensures
      var item := ItemAt(s, i);
      && args[next..] == Skip(args[k..], ArgCount(item))
      && end == str + |Output(item, args[k..])|
      && buf[..end] == old(buf[..str]) + Output(item, args[k..])
      && stored == StoredBy(item, args[k..], str)
  {
    CharAt(fmt, s, i);
    SkipSlice(args, k, ArgCount(ItemAt(s, i)));
    if fmt[i] != '%' {
      end := Put(buf, str, fmt[i]);
      j, next, stored := i, k, [];
    } else {
      end, j, next, stored := Directive(buf, str, fmt, i, args, k, s);
    }
    j := j + 1;
  }

  /** The loop over the format. */
  method Loop(buf: array<char>, fmt: seq<char>, args: seq<Arg>, ghost s: string, ghost all: seq<Item>)
    returns (str: nat, stores: seq<(nat, nat)>)
    requires Stored(fmt, s) && all == Parse(s) && ArgsOk(all, args) && NumbersFit(all)
    requires |Render(all, args)| <= buf.Length
    modifies buf
    ensures str == |Render(all, args)| && buf[..str] == Render(all, args) && stores == Stores(all, args)
  {
    var i: nat, k: nat := 0, 0;
    str, stores := 0, [];
    ghost var p := Progress(args, "", []);
    ghost var whole, stored := Render(all, args), Stores(all, args);
    Start(Output, all, args);
    while fmt[i] != NUL
      invariant i <= |s| && k <= |args| && p.left == args[k..]
      invariant str <= buf.Length && buf[..str] == p.out && stores == p.stores
      invariant Halfway(Output, whole, stored, Parse(s[i..]), p)
      decreases |s| - i
    {
      CharAt(fmt, s, i);
      ParseFirst(s, i);
      OneItem(Output, whole, stored, ItemAt(s, i), Parse(RestAt(s, i)), p);
      p := Advance(Output, p, ItemAt(s, i));
      var added;
      str, i, k, added := Step(buf, str, fmt, i, args, k, s);
      stores := stores + added;
    }
    CharAt(fmt, s, i);
    Finish(Output, whole, stored, p);
  }

  /** `vsprintf` prints exactly what the two phases say, ends it with a NUL,
      answers its length, and stores what the `%n` directives say. Every read of
      the format is at or before its NUL. */
  method Print(buf: array<char>, fmt: seq<char>, args: seq<Arg>, ghost s: string)
    returns (len: nat, stores: seq<(nat, nat)>)
    requires Stored(fmt, s) && ArgsOk(Parse(s), args) && NumbersFit(Parse(s))
    requires |Render(Parse(s), args)| < buf.Length
    modifies buf
    ensures len == |Render(Parse(s), args)| && buf[..len + 1] == Render(Parse(s), args) + [NUL]
    ensures stores == Stores(Parse(s), args)
  {
    len, stores := Loop(buf, fmt, args, s, Parse(s));
    buf[len] := NUL;
  }

  /** Escape round trip on the buffer: a text whose percent signs were doubled,
      printed by vsprintf, gives the text and its length, and takes and stores
      nothing. */
  method PrintEscaped(buf: array<char>, s: string, args: seq<Arg>) returns (len: nat, stores: seq<(nat, nat)>)
    requires NulFree(s) && |s| < buf.Length
    modifies buf
    ensures len == |s| && buf[..len + 1] == s + [NUL] && stores == []
  {
    EscapeRoundTrip(s, args);
    len, stores := Print(buf, Escape(s) + [NUL], args, Escape(s));
  }
}
