/** Format strings: what `vsprintf` prints, as two phases. A format is parsed into
    items, and the items are rendered one after the other. */
module FormatSpec {
  import opened NumberSpec

  /** A literal character, or a directive with the character that ended it, which
      is NUL if the format stops inside the directive. `stars` counts the
      arguments that `*` consumes. */
  datatype Item =
    | Lit(c: char)
    | Dir(flags: Flags, width: int, precision: int, stars: nat, conv: char)

  /** An argument: a word, a string, or the cell that `%n` stores into. */
  datatype Arg = Word(w: int32) | Text(text: string) | Cell(cell: nat)

  const NUL: char := '\0'

  const NO_FLAGS := Flags(false, false, false, false, false, false, false)

  predicate NulFree(s: string) {
    forall i :: 0 <= i < |s| ==> s[i] != NUL
  }

  /** The character a text starts with; behind the last one comes the NUL. */
  function First(s: string): char {
    if s == "" then NUL else s[0]
  }

  predicate IsFlag(c: char) {
    c in {'-', '+', ' ', '#', '0'}
  }

  predicate IsDigit(c: char) {
    '0' <= c <= '9'
  }

  function AddFlag(f: Flags, c: char): Flags {
    if c == '-' then f.(left := true)
    else if c == '+' then f.(plus := true)
    else if c == ' ' then f.(space := true)
    else if c == '#' then f.(special := true)
    else f.(zeropad := true)
  }

  // ----- First phase: parsing -----
  // Each function takes the rest of the format; `After...` is what it leaves.

  function AfterFlags(s: string): (r: string)
    ensures |r| <= |s|
  {
    if s != "" && IsFlag(s[0]) then AfterFlags(s[1..]) else s
  }

  function FlagsOf(s: string, f: Flags): Flags
    decreases |s|
  {
    if s != "" && IsFlag(s[0]) then FlagsOf(s[1..], AddFlag(f, s[0])) else f
  }

  function AfterDigits(s: string): (r: string)
    ensures |r| <= |s|
  {
    if s != "" && IsDigit(s[0]) then AfterDigits(s[1..]) else s
  }

  /** The value of the decimal digits a text starts with. `skip_atoi` answers the
      32-bit word that it leaves behind. */
  function Decimal(s: string): nat {
    ReadDigits(s, 10, 0)
  }

  function WidthOf(s: string): int32 {
    if IsDigit(First(s)) then Wrap(Decimal(s)) else -1
  }

  function PrecisionOf(s: string): int32 {
    if First(s) != '.' then -1
    else if IsDigit(First(s[1..])) then Max(0, Wrap(Decimal(s[1..])))
    else 0
  }

  function AfterPrecision(s: string): (r: string)
    ensures |r| <= |s|
  {
    if First(s) == '.' then AfterDigits(s[1..]) else s
  }

  function AfterQualifier(s: string): (r: string)
    ensures |r| <= |s|
  {
    if First(s) in {'h', 'l', 'L'} then s[1..] else s
  }

  predicate StarBehindDot(s: string) {
    First(s) == '.' && First(s[1..]) == '*'
  }

  /** A `*` is an argument, but it is never skipped: it ends its directive. */
  function StarsOf(width: string, precision: string): nat {
    (if First(width) == '*' then 1 else 0) + (if StarBehindDot(precision) then 1 else 0)
  }

  /** The directive behind a percent sign. */
  function DirOf(s: string): Item {
    var width := AfterFlags(s);
    var precision := AfterDigits(width);
    Dir(FlagsOf(s, NO_FLAGS), WidthOf(width), PrecisionOf(precision), StarsOf(width, precision), First(ConvOf(s)))
  }

  /** The rest of the format from the character that ends the directive. */
  function ConvOf(s: string): (r: string)
    ensures |r| <= |s|
  {
    AfterQualifier(AfterPrecision(AfterDigits(AfterFlags(s))))
  }

  /** Behind the directive; a format that stops inside it is used up. */
  function AfterDir(s: string): (r: string)
    ensures |r| <= |s|
  {
    if ConvOf(s) == "" then "" else ConvOf(s)[1..]
  }

  function Parse(s: string): seq<Item>
    decreases |s|
  {
    if s == "" then []
    else if s[0] != '%' then [Lit(s[0])] + Parse(s[1..])
    else [DirOf(s[1..])] + Parse(AfterDir(s[1..]))
  }

  // ----- Second phase: rendering -----

  predicate TakesWord(c: char) {
    c in {'c', 'o', 'p', 'x', 'X', 'd', 'i', 'u'}
  }

  predicate TakesArg(c: char) {
    TakesWord(c) || c == 's' || c == 'n'
  }

  function ArgCount(item: Item): nat {
    match item
    case Lit(_) => 0
    case Dir(_, _, _, stars, c) => stars + (if TakesArg(c) then 1 else 0)
  }

  /** The arguments are there and of the right kinds. */
  predicate ItemOk(item: Item, args: seq<Arg>) {
    match item
    case Lit(_) => true
    case Dir(_, _, _, stars, c) =>
      && ArgCount(item) <= |args|
      && (forall j :: 0 <= j < stars ==> args[j].Word?)
      && (TakesWord(c) ==> args[stars].Word?)
      && (c == 's' ==> args[stars].Text?)
      && (c == 'n' ==> args[stars].Cell?)
  }

  function CharField(w: int32, width: int, f: Flags): (s: string)
    ensures |s| == Max(width, 1)
  {
    var c := (Unsigned(w) % 256) as char;
    if f.left then [c] + Repeat(' ', width - 1) else Repeat(' ', width - 1) + [c]
  }

  function TextField(text: string, width: int, precision: int, f: Flags): (s: string)
    ensures |s| == Max(width, if 0 <= precision < |text| then precision else |text|)
  {
    var body := if 0 <= precision < |text| then text[..precision] else text;
    if f.left then body + Repeat(' ', width - |body|) else Repeat(' ', width - |body|) + body
  }

  predicate Signed(c: char) {
    c == 'd' || c == 'i'
  }

  function BaseOf(c: char): (base: nat)
    ensures base == 8 || base == 10 || base == 16
  {
    if c == 'o' then 8 else if c in {'x', 'X', 'p'} then 16 else 10
  }

  /** A pointer without width is padded with zeros to eight digits. */
  function NumberWidth(c: char, width: int): int {
    if c == 'p' && width == -1 then 8 else width
  }

  function NumberFlags(c: char, width: int, f: Flags): Flags {
    if Signed(c) then f.(sign := true)
    else if c == 'x' then f.(small := true)
    else if c == 'p' && width == -1 then f.(zeropad := true)
    else f
  }

  /** What a character that is no conversion leaves behind. */
  function Unknown(c: char): string {
    if c == '%' || c == NUL then "%" else ['%', c]
  }

  function Converted(c: char, arg: Arg, width: int, precision: int, f: Flags): string
    requires TakesWord(c) ==> arg.Word?
    requires c == 's' ==> arg.Text?
  {
    if c == 'c' then CharField(arg.w, width, f)
    else if c == 's' then TextField(arg.text, width, precision, f)
    else if TakesWord(c) then Layout(arg.w, BaseOf(c), NumberWidth(c, width), precision, NumberFlags(c, width, f))
    else ""
  }

  /** What one item prints; nothing without the arguments it needs. */
  function Output(item: Item, args: seq<Arg>): string {
    match item
    case Lit(c) => [c]
    case Dir(f, width, precision, stars, c) =>
      if !ItemOk(item, args) then ""
      else if TakesArg(c) then Converted(c, args[stars], width, precision, f)
      else Unknown(c)
  }

  /** The arguments behind the first `n`. */
  function Skip(args: seq<Arg>, n: nat): seq<Arg> {
    if n <= |args| then args[n..] else []
  }

  predicate ArgsOk(items: seq<Item>, args: seq<Arg>)
    decreases items
  {
    items == [] || (ItemOk(items[0], args) && ArgsOk(items[1..], Skip(args, ArgCount(items[0]))))
  }

  type Printer = (Item, seq<Arg>) -> string

  /** The items one after the other, each with the arguments the ones before it
      left. */
  function RenderBy(printer: Printer, items: seq<Item>, args: seq<Arg>): string
    decreases items
  {
    if items == [] then "" else printer(items[0], args) + RenderBy(printer, items[1..], Skip(args, ArgCount(items[0])))
  }

  function Render(items: seq<Item>, args: seq<Arg>): string {
    RenderBy(Output, items, args)
  }

  /** What one item stores, when `written` characters are in the buffer. */
  function StoredBy(item: Item, args: seq<Arg>, written: nat): seq<(nat, nat)> {
    if item.Dir? && item.conv == 'n' && ItemOk(item, args) then [(args[item.stars].cell, written)] else []
  }

  function StoresBy(printer: Printer, items: seq<Item>, args: seq<Arg>, written: nat): seq<(nat, nat)>
    decreases items
  {
    if items == [] then []
    else StoredBy(items[0], args, written)
         + StoresBy(printer, items[1..], Skip(args, ArgCount(items[0])), written + |printer(items[0], args)|)
  }

  /** What the `%n` directives store: cell and number of characters so far. */
  function Stores(items: seq<Item>, args: seq<Arg>): seq<(nat, nat)> {
    StoresBy(Output, items, args, 0)
  }

  /** The size that `number` takes down, by sign, prefix, the longer of precision
      and digits, and the last rounds of its three padding loops, stays within
      `int`. */
  predicate NumbersOk(item: Item) {
    item.Dir? ==> item.width - Max(item.precision, 32) - 6 >= -0x8000_0000
  }

  predicate NumbersFit(items: seq<Item>) {
    forall k :: 0 <= k < |items| ==> NumbersOk(items[k])
  }
}

/** Properties of formats. */
module FormatTheorems {
  import opened NumberSpec
  import opened FormatSpec

  // ----- The first of a list of items -----

  lemma FirstText(printer: Printer, items: seq<Item>, args: seq<Arg>)
    requires items != []
    ensures RenderBy(printer, items, args) ==
            printer(items[0], args) + RenderBy(printer, items[1..], Skip(args, ArgCount(items[0])))
  {
  }

  lemma FirstStores(printer: Printer, items: seq<Item>, args: seq<Arg>, written: nat)
    requires items != []
    ensures
      var later, text := Skip(args, ArgCount(items[0])), printer(items[0], args);
      StoresBy(printer, items, args, written) ==
      StoredBy(items[0], args, written) + StoresBy(printer, items[1..], later, written + |text|)
  {
  }

  lemma RegroupStores(a: seq<(nat, nat)>, b: seq<(nat, nat)>, c: seq<(nat, nat)>)
    ensures a + b + c == a + (b + c) && a + [] == a && [] + a == a
  {
  }

  // ----- Escaping -----

  function Escape(s: string): string {
    if s == [] then [] else (if s[0] == '%' then "%%" else [s[0]]) + Escape(s[1..])
  }

  lemma ParseDoubled(t: string)
    ensures Parse("%%" + t) == [Dir(NO_FLAGS, -1, -1, 0, '%')] + Parse(t)
  {
    var u := "%" + t;
    assert ("%%" + t)[1..] == u && u[1..] == t;
    assert ConvOf(u) == u;
  }

  lemma {:induction false} EscapeNulFree(s: string)
    requires NulFree(s)
    ensures NulFree(Escape(s))
    decreases |s|
  {
    if s != [] {
      EscapeNulFree(s[1..]);
    }
  }

  lemma {:induction false} EscapePrints(s: string, args: seq<Arg>, written: nat)
    ensures
      var items := Parse(Escape(s));
      && ArgsOk(items, args) && NumbersFit(items)
      && Render(items, args) == s && StoresBy(Output, items, args, written) == []
    decreases |s|
  {
    if s != [] {
      var rest := s[1..];
      EscapePrints(rest, args, written + 1);
      var t := Escape(rest);
      var item := if s[0] == '%' then Dir(NO_FLAGS, -1, -1, 0, '%') else Lit(s[0]);
      if s[0] == '%' {
        ParseDoubled(t);
      } else {
        assert ([s[0]] + t)[1..] == t;
      }
      assert Parse(Escape(s)) == [item] + Parse(t);
      OneMoreChar(item, s[0], Parse(t), args, written);
      assert s == [s[0]] + rest;
    }
  }

  /** Escape round trip: a text whose percent signs were doubled is a C string, and
      formatting it gives the text back, without looking at any argument or
      storing anything. */
  lemma EscapeRoundTrip(s: string, args: seq<Arg>)
    requires NulFree(s)
    ensures NulFree(Escape(s))
    ensures
      var items := Parse(Escape(s));
      && ArgsOk(items, args) && NumbersFit(items)
      && Render(items, args) == s && Stores(items, args) == []
  {
    EscapeNulFree(s);
    EscapePrints(s, args, 0);
  }

  /** An item that prints one character and takes no argument. */
  lemma OneMoreChar(item: Item, c: char, rest: seq<Item>, args: seq<Arg>, written: nat)
    requires if c == '%' then item == Dir(NO_FLAGS, -1, -1, 0, '%') else item == Lit(c)
    requires ArgsOk(rest, args) && NumbersFit(rest) && StoresBy(Output, rest, args, written + 1) == []
    ensures
      var items := [item] + rest;
      && ArgsOk(items, args) && NumbersFit(items)
      && Render(items, args) == [c] + Render(rest, args) && StoresBy(Output, items, args, written) == []
  {
    var items := [item] + rest;
    assert items[0] == item && items[1..] == rest;
    assert Skip(args, 0) == args;
    assert Output(item, args) == [c];
  }

  // ----- Writing a format -----

  function FlagText(f: Flags): string {
    (if f.left then "-" else "") + (if f.plus then "+" else "") + (if f.space then " " else "")
    + (if f.special then "#" else "") + (if f.zeropad then "0" else "")
  }

  function WidthText(width: int): string {
    if width >= 0 then Digits(width, 10, false) else ""
  }

  function PrecisionText(precision: int): string {
    if precision >= 0 then "." + Digits(precision, 10, false) else ""
  }

  function Show(item: Item): string {
    match item
    case Lit(c) => [c]
    case Dir(f, width, precision, _, c) => "%" + (FlagText(f) + (WidthText(width) + (PrecisionText(precision) + [c])))
  }

  function ShowAll(items: seq<Item>): string
    decreases items
  {
    if items == [] then "" else Show(items[0]) + ShowAll(items[1..])
  }

  /** Items a format can express: a literal is no percent sign and no NUL; a
      directive has a width that is absent or a positive int, a precision that is
      absent or an int that is not negative, no star, and ends in a character that
      continues no directive. */
  predicate Expressible(item: Item) {
    match item
    case Lit(c) => c != '%' && c != NUL
    case Dir(f, width, precision, stars, c) =>
      && !f.sign && !f.small && stars == 0
      && (width == -1 || 0 < width < 0x8000_0000) && -1 <= precision < 0x8000_0000
      && !IsFlag(c) && !IsDigit(c) && c !in {'.', '*', 'h', 'l', 'L', NUL}
  }

  function AddFlags(f: Flags, t: string): Flags
    decreases |t|
  {
    if t == [] then f else AddFlags(AddFlag(f, t[0]), t[1..])
  }

  lemma {:induction false} ReadFlags(t: string, rest: string, f: Flags)
    requires (forall k :: 0 <= k < |t| ==> IsFlag(t[k])) && !IsFlag(First(rest))
    ensures AfterFlags(t + rest) == rest && FlagsOf(t + rest, f) == AddFlags(f, t)
    decreases |t|
  {
    var s := t + rest;
    if t == [] {
      assert s == rest;
    } else {
      ReadFlags(t[1..], rest, AddFlag(f, t[0]));
      assert s[1..] == t[1..] + rest;
    }
  }

  lemma FlagTextReads(f: Flags)
    requires !f.sign && !f.small
    ensures AddFlags(NO_FLAGS, FlagText(f)) == f
    ensures forall k :: 0 <= k < |FlagText(f)| ==> IsFlag(FlagText(f)[k])
  {
    var t1 := if f.left then "-" else "";
    var t2 := t1 + (if f.plus then "+" else "");
    var t3 := t2 + (if f.space then " " else "");
    var t4 := t3 + (if f.special then "#" else "");
    var g1 := NO_FLAGS.(left := f.left);
    var g2 := g1.(plus := f.plus);
    var g3 := g2.(space := f.space);
    var g4 := g3.(special := f.special);
    assert AddFlags(NO_FLAGS, []) == NO_FLAGS;
    OneFlag(NO_FLAGS, "", f.left, '-');
    assert "" + t1 == t1;
    OneFlag(NO_FLAGS, t1, f.plus, '+');
    OneFlag(NO_FLAGS, t2, f.space, ' ');
    OneFlag(NO_FLAGS, t3, f.special, '#');
    OneFlag(NO_FLAGS, t4, f.zeropad, '0');
  }

  lemma OneFlag(f: Flags, t: string, b: bool, c: char)
    ensures AddFlags(f, t + (if b then [c] else "")) == if b then AddFlag(AddFlags(f, t), c) else AddFlags(f, t)
  {
    if b {
      AddFlagsAppend(f, t, c);
    } else {
      assert t + "" == t;
    }
  }

  lemma {:induction false} AddFlagsAppend(f: Flags, t: string, c: char)
    ensures AddFlags(f, t + [c]) == AddFlag(AddFlags(f, t), c)
    decreases |t|
  {
    if t == [] {
      assert t + [c] == [c];
    } else {
      AddFlagsAppend(AddFlag(f, t[0]), t[1..], c);
      assert (t + [c])[1..] == t[1..] + [c];
    }
  }

  lemma {:induction false} DecimalDigits(ds: seq<nat>)
    requires forall i :: 0 <= i < |ds| ==> ds[i] < 10
    ensures forall k :: 0 <= k < |Print(ds, false)| ==>
              IsDigit(Print(ds, false)[k]) && Print(ds, false)[k] == '0' + ds[k] as char
    decreases |ds|
  {
    if ds != [] {
      DecimalDigits(ds[..|ds| - 1]);
    }
  }

  lemma {:induction false} EndOfDigits(t: string, rest: string)
    requires (forall k :: 0 <= k < |t| ==> IsDigit(t[k])) && !IsDigit(First(rest))
    ensures AfterDigits(t + rest) == rest
    decreases |t|
  {
    var s := t + rest;
    if t == [] {
      assert s == rest;
    } else {
      EndOfDigits(t[1..], rest);
      assert s[1..] == t[1..] + rest;
    }
  }

  /** skip_atoi undoes decimal printing, with or without leading zeros, and stops
      at the first character that is no digit. */
  lemma ReadDecimal(zeros: nat, n: nat, rest: string)
    requires !IsDigit(First(rest))
    ensures
      var s := Repeat('0', zeros) + Digits(n, 10, false) + rest;
      Decimal(s) == n && AfterDigits(s) == rest && IsDigit(First(s))
  {
    var t := Repeat('0', zeros) + Digits(n, 10, false);
    DecimalDigits(DigitList(n, 10));
    EndOfDigits(t, rest);
    Regroup(Repeat('0', zeros), Digits(n, 10, false), rest);
    ReadZeros(zeros, Digits(n, 10, false) + rest, 10);
    ReadPrinted(DigitList(n, 10), 10, false, rest, 0);
    FoldIsNumber(n, 10);
  }

  lemma ReadPlain(n: nat, rest: string)
    requires !IsDigit(First(rest))
    ensures
      var s := Digits(n, 10, false) + rest;
      Decimal(s) == n && AfterDigits(s) == rest && IsDigit(First(s))
  {
    ReadDecimal(0, n, rest);
    assert Repeat('0', 0) + Digits(n, 10, false) == Digits(n, 10, false);
  }

  lemma {:induction false} FirstDigit(n: nat)
    requires n > 0
    ensures DigitList(n, 10)[0] > 0
    decreases n
  {
    if n >= 10 {
      FirstDigit(n / 10);
    }
  }

  /** A width is read back, and its text is neither a flag nor a star. */
  lemma ReadWidth(width: int, rest: string)
    requires width == -1 || 0 < width < 0x8000_0000
    requires !IsFlag(First(rest)) && !IsDigit(First(rest)) && First(rest) != '*'
    ensures
      var s := WidthText(width) + rest;
      WidthOf(s) == width && AfterDigits(s) == rest && !IsFlag(First(s)) && First(s) != '*'
  {
    if width > 0 {
      ReadPlain(width, rest);
      WrapSmall(width);
      DecimalDigits(DigitList(width, 10));
      FirstDigit(width);
    } else {
      assert WidthText(width) + rest == rest;
    }
  }

  lemma ReadPrecision(precision: int, c: char, rest: string)
    requires -1 <= precision < 0x8000_0000 && !IsDigit(c) && c != '.'
    ensures
      var s := PrecisionText(precision) + ([c] + rest);
      && PrecisionOf(s) == precision && AfterPrecision(s) == [c] + rest
      && First(s) == (if precision >= 0 then '.' else c)
      && (precision >= 0 ==> First(s[1..]) != '*')
  {
    var r := [c] + rest;
    if precision >= 0 {
      var d := Digits(precision, 10, false);
      ReadPlain(precision, r);
      Regroup(".", d, r);
      ReadDotted(precision, d + r, r);
    } else {
      assert PrecisionText(precision) + r == r;
    }
  }

  lemma ReadDotted(precision: nat, t: string, rest: string)
    requires precision < 0x8000_0000 && Decimal(t) == precision && AfterDigits(t) == rest && IsDigit(First(t))
    ensures
      var s := "." + t;
      && PrecisionOf(s) == precision && AfterPrecision(s) == rest
      && First(s) == '.' && First(s[1..]) != '*'
  {
    assert ("." + t)[1..] == t;
    WrapSmall(precision);
  }

  /** A directive without its percent sign is read back. */
  lemma ReadDirBody(f: Flags, width: int, precision: int, c: char, rest: string)
    requires Expressible(Dir(f, width, precision, 0, c))
    ensures
      var s := FlagText(f) + (WidthText(width) + (PrecisionText(precision) + ([c] + rest)));
      DirOf(s) == Dir(f, width, precision, 0, c) && AfterDir(s) == rest
  {
    var r2 := PrecisionText(precision) + ([c] + rest);
    ReadPrecision(precision, c, rest);
    ReadWidth(width, r2);
    FlagTextReads(f);
    ReadFlags(FlagText(f), WidthText(width) + r2, NO_FLAGS);
    DirFromParts(FlagText(f) + (WidthText(width) + r2), WidthText(width) + r2, r2, c, rest);
  }

  /** A directive without stars, from where its parts begin. */
  lemma DirFromParts(s: string, width: string, precision: string, c: char, rest: string)
    requires AfterFlags(s) == width && AfterDigits(width) == precision && AfterPrecision(precision) == [c] + rest
    requires First(width) != '*' && !StarBehindDot(precision) && c !in {'h', 'l', 'L'}
    ensures DirOf(s) == Dir(FlagsOf(s, NO_FLAGS), WidthOf(width), PrecisionOf(precision), 0, c)
    ensures AfterDir(s) == rest
  {
    assert ([c] + rest)[1..] == rest;
  }

  /** One length modifier in front of the conversion is skipped. */
  lemma ReadQualified(f: Flags, width: int, precision: int, q: char, c: char, rest: string)
    requires Expressible(Dir(f, width, precision, 0, c)) && q in {'h', 'l', 'L'}
    ensures
      var s := FlagText(f) + (WidthText(width) + (PrecisionText(precision) + ([q] + ([c] + rest))));
      DirOf(s) == Dir(f, width, precision, 0, c) && AfterDir(s) == rest
  {
    var t := [c] + rest;
    var r2 := PrecisionText(precision) + ([q] + t);
    ReadPrecision(precision, q, t);
    ReadWidth(width, r2);
    FlagTextReads(f);
    ReadFlags(FlagText(f), WidthText(width) + r2, NO_FLAGS);
    QualifiedFromParts(FlagText(f) + (WidthText(width) + r2), WidthText(width) + r2, r2, q, c, rest);
  }

  lemma QualifiedFromParts(s: string, width: string, precision: string, q: char, c: char, rest: string)
    requires AfterFlags(s) == width && AfterDigits(width) == precision
    requires AfterPrecision(precision) == [q] + ([c] + rest)
    requires First(width) != '*' && !StarBehindDot(precision) && q in {'h', 'l', 'L'}
    ensures DirOf(s) == Dir(FlagsOf(s, NO_FLAGS), WidthOf(width), PrecisionOf(precision), 0, c)
    ensures AfterDir(s) == rest
  {
    assert ([q] + ([c] + rest))[1..] == [c] + rest;
    assert ([c] + rest)[1..] == rest;
  }

  /** A directive written out is read back, whatever follows. */
  lemma ReadDir(item: Item, rest: string)
    requires item.Dir? && Expressible(item)
    ensures
      var s := Show(item) + rest;
      s[0] == '%' && DirOf(s[1..]) == item && AfterDir(s[1..]) == rest
  {
    var f, width, precision, c := item.flags, item.width, item.precision, item.conv;
    var t := FlagText(f) + (WidthText(width) + (PrecisionText(precision) + ([c] + rest)));
    Unfolded(f, width, precision, c, rest);
    assert ("%" + t)[1..] == t;
    ReadDirBody(f, width, precision, c, rest);
  }

  lemma Unfolded(f: Flags, width: int, precision: int, c: char, rest: string)
    ensures "%" + (FlagText(f) + (WidthText(width) + (PrecisionText(precision) + [c]))) + rest ==
            "%" + (FlagText(f) + (WidthText(width) + (PrecisionText(precision) + ([c] + rest))))
  {
    var p3 := PrecisionText(precision) + [c];
    var p2 := WidthText(width) + p3;
    Regroup(PrecisionText(precision), [c], rest);
    Regroup(WidthText(width), p3, rest);
    Regroup(FlagText(f), p2, rest);
    Regroup("%", FlagText(f) + p2, rest);
  }

  lemma NumberNulFree(n: nat)
    ensures NulFree(Digits(n, 10, false))
  {
    DecimalDigits(DigitList(n, 10));
  }

  lemma NulFreeBoth(s: string, t: string)
    requires NulFree(s) && NulFree(t)
    ensures NulFree(s + t)
  {
  }

  lemma ShowNulFree(item: Item)
    requires Expressible(item)
    ensures NulFree(Show(item))
  {
    if item.Dir? {
      var tail := PrecisionText(item.precision) + [item.conv];
      if item.width >= 0 {
        NumberNulFree(item.width);
      }
      if item.precision >= 0 {
        NumberNulFree(item.precision);
        NulFreeBoth(".", Digits(item.precision, 10, false));
      }
      NulFreeBoth(PrecisionText(item.precision), [item.conv]);
      NulFreeBoth(WidthText(item.width), tail);
      NulFreeBoth(FlagText(item.flags), WidthText(item.width) + tail);
      NulFreeBoth("%", FlagText(item.flags) + (WidthText(item.width) + tail));
    }
  }

  lemma {:induction false} ShownNulFree(items: seq<Item>)
    requires forall k :: 0 <= k < |items| ==> Expressible(items[k])
    ensures NulFree(ShowAll(items))
    decreases |items|
  {
    if items != [] {
      ShowNulFree(items[0]);
      ShownNulFree(items[1..]);
      NulFreeBoth(Show(items[0]), ShowAll(items[1..]));
    }
  }

  lemma {:induction false} ParseBack(items: seq<Item>)
    requires forall k :: 0 <= k < |items| ==> Expressible(items[k])
    ensures Parse(ShowAll(items)) == items
    decreases |items|
  {
    if items != [] {
      var rest := ShowAll(items[1..]);
      ParseBack(items[1..]);
      if items[0].Dir? {
        ReadDir(items[0], rest);
      } else {
        assert ([items[0].c] + rest)[1..] == rest;
      }
    }
  }

  /** Every list of expressible items, written as a format, is a C string and
      parses into itself. */
  lemma ParseShown(items: seq<Item>)
    requires forall k :: 0 <= k < |items| ==> Expressible(items[k])
    ensures Parse(ShowAll(items)) == items && NulFree(ShowAll(items))
  {
    ParseBack(items);
    ShownNulFree(items);
  }

  // ----- Lengths and values -----

  /** The length of an item's output, from the width, the precision and the
      length of what is printed alone. */
  function OutputLength(item: Item, args: seq<Arg>): nat
    requires ItemOk(item, args)
  {
    match item
    case Lit(_) => 1
    case Dir(f, width, precision, stars, c) =>
      if c == 'n' then 0
      else if c == 'c' then Max(width, 1)
      else if c == 's' then
        var n := |args[stars].text|;
        Max(width, if 0 <= precision < n then precision else n)
      else if TakesWord(c) then
        LayoutLength(args[stars].w, BaseOf(c), NumberWidth(c, width), precision, NumberFlags(c, width, f))
      else if c == '%' || c == NUL then 1
      else 2
  }

  /** Sign, prefix and the longer of precision and digits, or the width. */
  function LayoutLength(w: int32, base: nat, size: int, precision: int, f: Flags): nat
    requires 2 <= base <= 36
  {
    var sign := if (f.sign && w < 0) || f.plus || f.space then 1 else 0;
    var prefix := if !f.special then 0 else if base == 16 then 2 else if base == 8 then 1 else 0;
    var n := if f.sign && w < 0 then -(w as int) else Unsigned(w);
    Max(size, sign + prefix + Max(precision, |DigitList(n, base)|))
  }

  function TotalLength(items: seq<Item>, args: seq<Arg>): nat
    requires ArgsOk(items, args)
    decreases items
  {
    if items == [] then 0 else OutputLength(items[0], args) + TotalLength(items[1..], Skip(args, ArgCount(items[0])))
  }

  /** A number's field is as long as its flags, width and precision say. */
  lemma NumberLength(w: int32, base: nat, size: int, precision: int, f: Flags)
    requires 2 <= base <= 36
    ensures |Layout(w, base, size, precision, f)| == LayoutLength(w, base, size, precision, f)
  {
    var sign, prefix := SignText(w, f), PrefixText(base, f);
    assert |sign + prefix| == |sign| + |prefix|;
    assert |Digits(Magnitude(w, f), base, f.small)| == |DigitList(Magnitude(w, f), base)|;
  }

  /** The length of everything that is printed, in closed form. */
  lemma {:induction false} RenderLength(items: seq<Item>, args: seq<Arg>)
    requires ArgsOk(items, args)
    ensures |Render(items, args)| == TotalLength(items, args)
    decreases |items|
  {
    if items != [] {
      RenderLength(items[1..], Skip(args, ArgCount(items[0])));
      if items[0].Dir? {
        ItemLength(items[0], args);
      }
    }
  }

  lemma ItemLength(item: Item, args: seq<Arg>)
    requires ItemOk(item, args) && item.Dir?
    ensures |Output(item, args)| == OutputLength(item, args)
  {
    if TakesWord(item.conv) && item.conv != 'c' {
      var c, f := item.conv, item.flags;
      var size, g := NumberWidth(c, item.width), NumberFlags(c, item.width, f);
      NumberLength(args[item.stars].w, BaseOf(c), size, item.precision, g);
    }
  }

  /** The flags that a number conversion hands on. */
  lemma FlagsKept(c: char, width: int, f: Flags)
    requires !f.sign
    ensures
      var g := NumberFlags(c, width, f);
      g.sign == Signed(c) && g.plus == f.plus && g.space == f.space && g.special == f.special
  {
  }

  /** The field that a number conversion prints. */
  lemma AsLayout(c: char, w: int32, width: int, precision: int, f: Flags, base: nat, size: int, g: Flags)
    requires TakesWord(c) && c != 'c'
    requires base == BaseOf(c) && size == NumberWidth(c, width) && g == NumberFlags(c, width, f)
    ensures Converted(c, Word(w), width, precision, f) == Layout(w, base, size, precision, g)
  {
  }

  /** The switch over the conversions, case by case. */
  lemma ConversionsAre(w: int32, width: int, precision: int, f: Flags)
    ensures Converted('d', Word(w), width, precision, f) == Layout(w, 10, width, precision, f.(sign := true))
    ensures Converted('i', Word(w), width, precision, f) == Layout(w, 10, width, precision, f.(sign := true))
    ensures Converted('u', Word(w), width, precision, f) == Layout(w, 10, width, precision, f)
    ensures Converted('o', Word(w), width, precision, f) == Layout(w, 8, width, precision, f)
    ensures Converted('x', Word(w), width, precision, f) == Layout(w, 16, width, precision, f.(small := true))
    ensures Converted('X', Word(w), width, precision, f) == Layout(w, 16, width, precision, f)
    ensures Converted('p', Word(w), width, precision, f) ==
            if width == -1 then Layout(w, 16, 8, precision, f.(zeropad := true)) else Layout(w, 16, width, precision, f)
  {
    AsLayout('d', w, width, precision, f, 10, width, f.(sign := true));
    AsLayout('i', w, width, precision, f, 10, width, f.(sign := true));
    AsLayout('u', w, width, precision, f, 10, width, f);
    AsLayout('o', w, width, precision, f, 8, width, f);
    AsLayout('x', w, width, precision, f, 16, width, f.(small := true));
    AsLayout('X', w, width, precision, f, 16, width, f);
    PointerIs(w, width, precision, f);
  }

  lemma PointerIs(w: int32, width: int, precision: int, f: Flags)
    ensures Converted('p', Word(w), width, precision, f) ==
            if width == -1 then Layout(w, 16, 8, precision, f.(zeropad := true)) else Layout(w, 16, width, precision, f)
  {
    if width == -1 {
      AsLayout('p', w, width, precision, f, 16, 8, f.(zeropad := true));
    } else {
      AsLayout('p', w, width, precision, f, 16, width, f);
    }
  }

  /** Every number printed can be read back, in base 10 as signed by %d and %i and
      as unsigned by %u, as unsigned in base 8 by %o and in base 16 by %x, %X and
      %p. */
  lemma ConversionReadsBack(w: int32, width: int, precision: int, f: Flags)
    requires !f.sign
    ensures ReadNumber(Converted('d', Word(w), width, precision, f), 10) == w
    ensures ReadNumber(Converted('i', Word(w), width, precision, f), 10) == w
    ensures ReadNumber(Converted('u', Word(w), width, precision, f), 10) == Unsigned(w)
    ensures ReadNumber(Converted('o', Word(w), width, precision, f), 8) == Unsigned(w)
    ensures ReadNumber(Converted('x', Word(w), width, precision, f), 16) == Unsigned(w)
    ensures ReadNumber(Converted('X', Word(w), width, precision, f), 16) == Unsigned(w)
    ensures ReadNumber(Converted('p', Word(w), width, precision, f), 16) == Unsigned(w)
    ensures Unsigned(w) == if w >= 0 then w else w + 0x1_0000_0000
  {
    ConversionsAre(w, width, precision, f);
    NumberRoundTrip(w, 10, width, precision, f.(sign := true));
    NumberRoundTrip(w, 10, width, precision, f);
    NumberRoundTrip(w, 8, width, precision, f);
    NumberRoundTrip(w, 16, width, precision, f.(small := true));
    NumberRoundTrip(w, 16, width, precision, f);
    NumberRoundTrip(w, 16, 8, precision, f.(zeropad := true));
  }

  lemma {:induction false} FlagsUnsigned(s: string, f: Flags)
    requires !f.sign
    ensures !FlagsOf(s, f).sign
    decreases |s|
  {
    if s != "" && IsFlag(s[0]) {
      FlagsUnsigned(s[1..], AddFlag(f, s[0]));
    }
  }

  /** So whatever directive for a number stands in a format: its argument can be
      read back from what it prints. */
  lemma DirectiveReadsBack(s: string, args: seq<Arg>)
    requires ItemOk(DirOf(s), args) && DirOf(s).stars < |args| && args[DirOf(s).stars].Word?
    ensures
      var item := DirOf(s);
      var w, text := args[item.stars].w, Output(item, args);
      && (item.conv in {'d', 'i'} ==> ReadNumber(text, 10) == w)
      && (item.conv == 'u' ==> ReadNumber(text, 10) == Unsigned(w))
      && (item.conv == 'o' ==> ReadNumber(text, 8) == Unsigned(w))
      && (item.conv in {'x', 'X', 'p'} ==> ReadNumber(text, 16) == Unsigned(w))
  {
    var item := DirOf(s);
    var w := args[item.stars].w;
    FlagsUnsigned(s, NO_FLAGS);
    ConversionReadsBack(w, item.width, item.precision, item.flags);
    assert TakesWord(item.conv) ==>
        Output(item, args) == Converted(item.conv, Word(w), item.width, item.precision, item.flags);
  }

  // ----- Departures from section 7.21.6.1 of ISO/IEC 9899:2011 -----

  /** A star takes its argument, but it is not skipped: the directive ends there
      and prints as an unknown one, whatever the argument. */
  lemma StarPrintsItself(s: string, args: seq<Arg>)
    requires ItemOk(DirOf(s), args) && DirOf(s).stars > 0
    ensures Output(DirOf(s), args) == "%*"
  {
    var width := AfterFlags(s);
    var precision := AfterDigits(width);
    assert First(AfterPrecision(precision)) == '*';
  }

  lemma StarOfFive()
    ensures Output(DirOf("*d"), [Word(5)]) == "%*"
  {
    var s := "*d";
    assert AfterFlags(s) == s && AfterDigits(s) == s;
    assert FlagsOf(s, NO_FLAGS) == NO_FLAGS;
    StarPrintsItself(s, [Word(5)]);
  }

  lemma {:induction false} DigitsHaveNo(ds: seq<nat>, small: bool, c: char)
    requires AllDigits(ds) && DigitValue(c) == 36
    ensures c !in Print(ds, small)
    decreases |ds|
  {
    if ds != [] {
      DigitsHaveNo(ds[..|ds| - 1], small, c);
      DigitCharValue(ds[|ds| - 1], small);
    }
  }

  /** A sign or a space in a field comes from its padding or from its sign. */
  lemma InField(c: char, head: string, zeros: string, digits: string, rest: int, f: Flags)
    requires c != '0' && c !in zeros && c !in digits
    ensures c in Pieces(head, zeros, digits, rest, f) <==>
            c in head || (c == ' ' && rest > 0 && (f.left || !f.zeropad))
  {
    var spaces := Repeat(' ', rest);
    if rest > 0 {
      assert spaces[0] == ' ';
    }
  }

  lemma InLayout(c: char, w: int32, base: nat, size: int, precision: int, f: Flags)
    requires 2 <= base <= 36 && c in {'+', '-', ' '}
    ensures
      var rest := size - |Head(w, base, f)| - Max(precision, |Digits(Magnitude(w, f), base, f.small)|);
      c in Layout(w, base, size, precision, f) <==>
      c in Head(w, base, f) || (c == ' ' && rest > 0 && (f.left || !f.zeropad))
  {
    var head, digits := Head(w, base, f), Digits(Magnitude(w, f), base, f.small);
    var longer := Max(precision, |digits|);
    DigitsHaveNo(DigitList(Magnitude(w, f), base), f.small, c);
    InField(c, head, Repeat('0', longer - |digits|), digits, size - |head| - longer, f);
  }

  lemma InHead(c: char, w: int32, base: nat, f: Flags)
    requires c in {'+', '-', ' '}
    ensures c in Head(w, base, f) <==> c in SignText(w, f)
  {
    assert c !in PrefixText(base, f);
  }

  /** Where a field has a plus sign, a minus sign or, without padding, a space. */
  lemma SignInLayout(w: int32, base: nat, size: int, precision: int, f: Flags)
    requires 2 <= base <= 36
    ensures '+' in Layout(w, base, size, precision, f) <==> f.plus && !(f.sign && w < 0)
    ensures '-' in Layout(w, base, size, precision, f) <==> f.sign && w < 0
    ensures size <= 0 ==>
              (' ' in Layout(w, base, size, precision, f) <==> f.space && !f.plus && !(f.sign && w < 0))
  {
    InLayout('+', w, base, size, precision, f);
    InLayout('-', w, base, size, precision, f);
    InLayout(' ', w, base, size, precision, f);
    InHead('+', w, base, f);
    InHead('-', w, base, f);
    InHead(' ', w, base, f);
  }

  /** A plus sign is printed for unsigned conversions as well: exactly if the
      flag is there, except in front of a negative number, which has a minus sign.
      The same holds for the space flag, where there is no padding. */
  lemma SignsOfUnsigned(c: char, w: int32, width: int, precision: int, f: Flags)
    requires TakesWord(c) && c != 'c' && !f.sign
    ensures '+' in Converted(c, Word(w), width, precision, f) <==> f.plus && !(c in {'d', 'i'} && w < 0)
    ensures '-' in Converted(c, Word(w), width, precision, f) <==> c in {'d', 'i'} && w < 0
    ensures NumberWidth(c, width) <= 0 ==>
              (' ' in Converted(c, Word(w), width, precision, f) <==> f.space && !f.plus && !(c in {'d', 'i'} && w < 0))
  {
    var base, size, g := BaseOf(c), NumberWidth(c, width), NumberFlags(c, width, f);
    AsLayout(c, w, width, precision, f, base, size, g);
    FlagsKept(c, width, f);
    SignInLayout(w, base, size, precision, g);
  }

  lemma PlusOnUnsigned()
    ensures Converted('u', Word(5), -1, -1, NO_FLAGS.(plus := true)) == "+5"
  {
    OneDigit(5, 10, false, '5');
    assert Repeat('0', 0) == "" && Repeat(' ', -3) == "";
  }

  lemma OneDigit(n: nat, base: nat, small: bool, c: char)
    requires 2 <= base <= 36 && n < base && c == DigitChar(n, small)
    ensures Digits(n, base, small) == [c]
  {
    assert DigitList(n, base) == [n];
    assert [n][..0] == [];
  }

  /** The 0 flag changes a field exactly if there is padding to its left, with a
      precision as well as without. */
  lemma ZeropadIff(w: int32, base: nat, size: int, precision: int, f: Flags)
    requires 2 <= base <= 36
    ensures
      var head, digits := Head(w, base, f), Digits(Magnitude(w, f), base, f.small);
      var on, off := f.(zeropad := true), f.(zeropad := false);
      Layout(w, base, size, precision, on) != Layout(w, base, size, precision, off) <==>
      !f.left && size > |head| + Max(precision, |digits|)
  {
    var head, digits := Head(w, base, f), Digits(Magnitude(w, f), base, f.small);
    var on, off := f.(zeropad := true), f.(zeropad := false);
    assert Head(w, base, on) == head && Head(w, base, off) == head;
    assert Magnitude(w, on) == Magnitude(w, f) && Magnitude(w, off) == Magnitude(w, f);
    FieldZeropadIff(head, digits, size, precision, f);
  }

  lemma FieldZeropadIff(head: string, digits: string, size: int, precision: int, f: Flags)
    ensures
      var on, off := f.(zeropad := true), f.(zeropad := false);
      Field(head, digits, size, precision, on) != Field(head, digits, size, precision, off) <==>
      !f.left && size > |head| + Max(precision, |digits|)
  {
    var longer := Max(precision, |digits|);
    var zeros := Repeat('0', longer - |digits|);
    var rest := size - |head| - longer;
    if !f.left {
      PiecesOn(head, zeros, digits, rest, f);
      if rest > 0 {
        PaddingDiffers(head, zeros + digits, rest);
      } else {
        assert Repeat('0', rest) == "" && Repeat(' ', rest) == "";
        NothingAfter(head);
      }
    }
  }

  lemma PiecesOn(head: string, zeros: string, digits: string, rest: int, f: Flags)
    requires !f.left
    ensures Pieces(head, zeros, digits, rest, f.(zeropad := true)) == head + Repeat('0', rest) + (zeros + digits)
    ensures Pieces(head, zeros, digits, rest, f.(zeropad := false)) == Repeat(' ', rest) + head + (zeros + digits)
  {
    Regroup(head + Repeat('0', rest), zeros, digits);
    Regroup(Repeat(' ', rest) + head, zeros, digits);
    NothingAfter(head + Repeat('0', rest) + zeros + digits);
    NothingAfter(Repeat(' ', rest) + head + zeros + digits);
    NothingAfter(Repeat(' ', rest) + head);
  }

  /** Zeros behind the head are not spaces in front of it. */
  lemma PaddingDiffers(head: string, body: string, rest: int)
    requires rest > 0
    ensures head + Repeat('0', rest) + body != Repeat(' ', rest) + head + body
  {
    var a, b := head + Repeat('0', rest) + body, Repeat(' ', rest) + head + body;
    var n := |head|;
    AllSpaces(head, body, rest, n);
    assert a[n] == '0' && b[n] == if n < rest then ' ' else head[n - rest];
  }

  lemma {:induction false} AllSpaces(head: string, body: string, rest: int, n: nat)
    requires rest > 0 && n <= |head|
    ensures head + Repeat('0', rest) + body == Repeat(' ', rest) + head + body ==>
              forall i :: 0 <= i < n ==> head[i] == ' '
  {
    if n > 0 {
      AllSpaces(head, body, rest, n - 1);
      var a, b := head + Repeat('0', rest) + body, Repeat(' ', rest) + head + body;
      var k := n - 1;
      assert a[k] == head[k] && b[k] == if k < rest then ' ' else head[k - rest];
    }
  }

  /** The width keeps its zeros although there is a precision. */
  lemma ZerosWithPrecision()
    ensures Converted('d', Word(5), 4, 1, NO_FLAGS.(zeropad := true)) == "0005"
  {
    OneDigit(5, 10, false, '5');
    assert Repeat('0', 3) == "000" && Repeat('0', 0) == "" && Repeat(' ', 0) == "";
  }

  /** The special flag changes a field always in base 16, zero included, and in
      base 8 unless the zeros that pad the field hide the prefix. */
  lemma SpecialIff(w: int32, base: nat, size: int, precision: int, f: Flags)
    requires 2 <= base <= 36
    ensures
      var n := |SignText(w, f)| + Max(precision, |Digits(Magnitude(w, f), base, f.small)|);
      var on, off := f.(special := true), f.(special := false);
      Layout(w, base, size, precision, on) != Layout(w, base, size, precision, off) <==>
      base == 16 || (base == 8 && (!f.zeropad || f.left || size <= n))
  {
    var on, off := f.(special := true), f.(special := false);
    var sign, prefix, digits := SignText(w, f), PrefixText(base, on), Digits(Magnitude(w, f), base, f.small);
    assert SignText(w, on) == sign && SignText(w, off) == sign && PrefixText(base, off) == "";
    assert Magnitude(w, on) == Magnitude(w, f) && Magnitude(w, off) == Magnitude(w, f);
    NothingAfter(sign);
    if prefix == "" {
      FieldIgnoresSpecial(sign, digits, size, precision, f);
    } else {
      DigitsHaveNo(DigitList(Magnitude(w, f), base), f.small, ' ');
      PrefixIff(sign, prefix, digits, size, precision, f);
    }
  }

  lemma FieldIgnoresSpecial(head: string, digits: string, size: int, precision: int, f: Flags)
    ensures Field(head, digits, size, precision, f.(special := true)) ==
            Field(head, digits, size, precision, f.(special := false))
  {
  }

  /** A prefix is in a field exactly if the field without it is another one: but
      for zeros in front of zeros. */
  lemma PrefixIff(sign: string, prefix: string, digits: string, size: int, precision: int, f: Flags)
    requires sign in {"", "-", "+", " "} && prefix in {"0", "0x", "0X"} && digits != "" && ' ' !in digits
    ensures
      var n := |sign| + Max(precision, |digits|);
      Field(sign + prefix, digits, size, precision, f.(special := true)) !=
      Field(sign, digits, size, precision, f.(special := false)) <==>
      prefix != "0" || !f.zeropad || f.left || size <= n
  {
    var longer := Max(precision, |digits|);
    var rest := size - |sign| - longer;
    if rest < |prefix| {
      assert |sign + prefix| == |sign| + |prefix|;
      assert |Field(sign, digits, size, precision, f.(special := false))| < |sign| + |prefix| + longer;
    } else {
      PrefixInSpace(sign, prefix, digits, size, precision, f, longer, rest);
    }
  }

  /** With space for the prefix in the padding. */
  lemma PrefixInSpace(sign: string, prefix: string, digits: string, size: int, precision: int, f: Flags,
                      longer: int, rest: int)
    requires sign in {"", "-", "+", " "} && prefix in {"0", "0x", "0X"} && digits != "" && ' ' !in digits
    requires longer == Max(precision, |digits|) && rest == size - |sign| - longer >= |prefix|
    ensures
      Field(sign + prefix, digits, size, precision, f.(special := true)) !=
      Field(sign, digits, size, precision, f.(special := false)) <==>
      prefix != "0" || !f.zeropad || f.left
  {
    assert |sign + prefix| == |sign| + |prefix|;
    FieldPieces(sign + prefix, digits, size, precision, f.(special := true), longer, rest - |prefix|);
    FieldPieces(sign, digits, size, precision, f.(special := false), longer, rest);
    PrefixInPieces(sign, prefix, Repeat('0', longer - |digits|), digits, rest, f);
  }

  lemma PrefixInPieces(sign: string, prefix: string, zeros: string, digits: string, rest: int, f: Flags)
    requires sign in {"", "-", "+", " "} && prefix in {"0", "0x", "0X"} && digits != "" && ' ' !in digits
    requires rest >= |prefix|
    ensures
      Pieces(sign + prefix, zeros, digits, rest - |prefix|, f.(special := true)) !=
      Pieces(sign, zeros, digits, rest, f.(special := false)) <==>
      prefix != "0" || !f.zeropad || f.left
  {
    var body := zeros + digits;
    if f.left {
      PrefixOnLeft(sign, prefix, zeros, digits, rest, f);
    } else {
      PiecesOn(sign + prefix, zeros, digits, rest - |prefix|, f.(special := true));
      PiecesOn(sign, zeros, digits, rest, f.(special := false));
      PrefixInZeros(sign, prefix, body, rest);
      PrefixInSpaces(sign, prefix, body, rest);
    }
  }

  /** Zeros in front of zeros. */
  lemma PrefixInZeros(sign: string, prefix: string, body: string, rest: int)
    requires |sign| <= 1 && prefix in {"0", "0x", "0X"} && rest >= |prefix|
    ensures sign + prefix + Repeat('0', rest - |prefix|) + body == sign + Repeat('0', rest) + body <==> prefix == "0"
  {
    var a, b := sign + prefix + Repeat('0', rest - |prefix|) + body, sign + Repeat('0', rest) + body;
    if prefix == "0" {
      assert sign + prefix + Repeat('0', rest - 1) == sign + Repeat('0', rest);
    } else {
      var k := |sign| + 1;
      assert a[k] == prefix[1] && b[k] == '0';
    }
  }

  /** Where the prefix begins, the field without it has a space or a sign. */
  lemma PrefixInSpaces(sign: string, prefix: string, body: string, rest: int)
    requires sign in {"", "-", "+", " "} && prefix in {"0", "0x", "0X"} && rest >= |prefix|
    ensures Repeat(' ', rest - |prefix|) + (sign + prefix) + body != Repeat(' ', rest) + sign + body
  {
    var a, b := Repeat(' ', rest - |prefix|) + (sign + prefix) + body, Repeat(' ', rest) + sign + body;
    var k := rest - |prefix| + |sign|;
    assert a[k] == prefix[0];
    assert b[k] == if k < rest then ' ' else sign[k - rest];
  }

  /** Where the last digit is, the field without the prefix has a space. */
  lemma PrefixOnLeft(sign: string, prefix: string, zeros: string, digits: string, rest: int, f: Flags)
    requires f.left && digits != "" && ' ' !in digits && prefix != "" && rest >= |prefix|
    ensures Pieces(sign + prefix, zeros, digits, rest - |prefix|, f.(special := true)) !=
            Pieces(sign, zeros, digits, rest, f.(special := false))
  {
    var a := sign + prefix + zeros + digits + Repeat(' ', rest - |prefix|);
    var b := sign + zeros + digits + Repeat(' ', rest);
    LeftPieces(sign + prefix, zeros, digits, rest - |prefix|, f.(special := true));
    LeftPieces(sign, zeros, digits, rest, f.(special := false));
    var k := |sign| + |prefix| + |zeros| + |digits| - 1;
    assert a[k] == digits[|digits| - 1];
    assert b[k] == ' ';
  }

  lemma LeftPieces(head: string, zeros: string, digits: string, rest: int, f: Flags)
    requires f.left
    ensures Pieces(head, zeros, digits, rest, f) == head + zeros + digits + Repeat(' ', rest)
  {
    assert "" + head + "" == head;
  }

  /** `%#04o` and `%04o` print 5 alike. */
  lemma PrefixHidden()
    ensures
      var f := NO_FLAGS.(zeropad := true);
      Converted('o', Word(5), 4, -1, f.(special := true)) == Converted('o', Word(5), 4, -1, f.(special := false))
  {
    var f := NO_FLAGS.(zeropad := true);
    OneDigit(5, 8, false, '5');
    SpecialIff(5, 8, 4, -1, f);
    AsLayout('o', 5, 4, -1, f.(special := true), 8, 4, f.(special := true));
    AsLayout('o', 5, 4, -1, f.(special := false), 8, 4, f.(special := false));
  }

  lemma PrefixOfZero()
    ensures Converted('x', Word(0), -1, -1, NO_FLAGS.(special := true)) == "0x0"
  {
    OneDigit(0, 16, true, '0');
    assert Repeat('0', 0) == "" && Repeat(' ', -4) == "";
  }
}
