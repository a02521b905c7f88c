/** What directives are and print, character by character. */
module FormatMeaning {
  import opened NumberSpec
  import opened FormatSpec
  import opened FormatTheorems

  // ----- Flags -----

  predicate FlagChars(t: string) {
    forall k :: 0 <= k < |t| ==> t[k] in {'-', '+', ' ', '#', '0'}
  }

  lemma {:induction false} FlagsAdded(f: Flags, t: string)
    requires FlagChars(t)
    ensures
      var g := AddFlags(f, t);
      && (g.left <==> f.left || '-' in t) && (g.plus <==> f.plus || '+' in t) && (g.space <==> f.space || ' ' in t)
      && (g.special <==> f.special || '#' in t) && (g.zeropad <==> f.zeropad || '0' in t)
      && g.sign == f.sign && g.small == f.small
    decreases |t|
  {
    if t != [] {
      assert t[0] in {'-', '+', ' ', '#', '0'};
      FlagsAdded(AddFlag(f, t[0]), t[1..]);
      assert t == [t[0]] + t[1..];
    }
  }

  /** A flag is set exactly if its character stands between the percent sign and
      the rest of the directive, in whatever order and however often. */
  lemma FlagsByPresence(t: string, rest: string)
    requires FlagChars(t) && (rest != "" ==> rest[0] !in {'-', '+', ' ', '#', '0'})
    ensures
      var g := DirOf(t + rest).flags;
      && (g.left <==> '-' in t) && (g.plus <==> '+' in t) && (g.space <==> ' ' in t)
      && (g.special <==> '#' in t) && (g.zeropad <==> '0' in t) && !g.sign && !g.small
  {
    ReadFlags(t, rest, NO_FLAGS);
    FlagsAdded(NO_FLAGS, t);
  }

  // ----- Leading zeros -----

  lemma {:induction false} FirstDigit(n: nat, base: nat)
    requires 2 <= base <= 36 && n > 0
    ensures DigitList(n, base)[0] > 0
    decreases n
  {
    if n >= base {
      DivisionShrinks(n, base);
      QuotientPositive(n, base);
      FirstDigit(n / base, base);
    }
  }

  lemma QuotientPositive(n: nat, base: nat)
    requires 0 < base <= n
    ensures n / base > 0
  {
    assert n == base * (n / base) + n % base;
  }

  lemma {:induction false} PrintFirst(ds: seq<nat>, small: bool)
    requires AllDigits(ds) && ds != []
    ensures Print(ds, small)[0] == DigitChar(ds[0], small)
    decreases |ds|
  {
    if |ds| > 1 {
      PrintFirst(ds[..|ds| - 1], small);
    } else {
      assert ds[..|ds| - 1] == [];
    }
  }

  /** No number but zero, which is one digit, starts with a zero: with the round
      trip, its digits are the shortest ones. */
  lemma NoLeadingZero(n: nat, base: nat, small: bool)
    requires 2 <= base <= 36
    ensures if n == 0 then Digits(n, base, small) == "0" else Digits(n, base, small)[0] != '0'
  {
    PrintFirst(DigitList(n, base), small);
    if n > 0 {
      FirstDigit(n, base);
    }
  }

  // ----- Letter case -----

  lemma {:induction false} DigitCase(ds: seq<nat>, small: bool)
    requires AllDigits(ds)
    ensures forall k :: 0 <= k < |Print(ds, small)| ==>
              var c := Print(ds, small)[k];
              if small then !('A' <= c <= 'Z') else !('a' <= c <= 'z')
    decreases |ds|
  {
    if ds != [] {
      DigitCase(ds[..|ds| - 1], small);
    }
  }

  predicate NoCapitals(s: string) {
    forall k :: 0 <= k < |s| ==> !('A' <= s[k] <= 'Z')
  }

  predicate NoSmalls(s: string) {
    forall k :: 0 <= k < |s| ==> !('a' <= s[k] <= 'z')
  }

  /** The letters of a field are those of its flags, prefix included. */
  lemma LayoutCase(w: int32, base: nat, size: int, precision: int, f: Flags)
    requires 2 <= base <= 36
    ensures f.small ==> NoCapitals(Layout(w, base, size, precision, f))
    ensures !f.small ==> NoSmalls(Layout(w, base, size, precision, f))
  {
    var head, digits := Head(w, base, f), Digits(Magnitude(w, f), base, f.small);
    DigitCase(DigitList(Magnitude(w, f), base), f.small);
    if f.small {
      assert NoCapitals(SignText(w, f)) && NoCapitals(PrefixText(base, f));
      FieldCase(head, digits, size, precision, f);
    } else {
      assert NoSmalls(SignText(w, f)) && NoSmalls(PrefixText(base, f));
      FieldCase(head, digits, size, precision, f);
    }
  }

  lemma FieldCase(head: string, digits: string, size: int, precision: int, f: Flags)
    ensures NoCapitals(head) && NoCapitals(digits) ==> NoCapitals(Field(head, digits, size, precision, f))
    ensures NoSmalls(head) && NoSmalls(digits) ==> NoSmalls(Field(head, digits, size, precision, f))
  {
  }

  /** %x prints no capital letter, and the other numbers no small one. */
  lemma LetterCase(c: char, w: int32, width: int, precision: int, f: Flags)
    requires c in {'d', 'i', 'u', 'o', 'x', 'X', 'p'} && !f.small
    ensures
      var s := Converted(c, Word(w), width, precision, f);
      if c == 'x' then NoCapitals(s) else NoSmalls(s)
  {
    var g := NumberFlags(c, width, f);
    AsLayout(c, w, width, precision, f, BaseOf(c), NumberWidth(c, width), g);
    LayoutCase(w, BaseOf(c), NumberWidth(c, width), precision, g);
  }

  // ----- Where things stand in a field -----

  predicate AllOf(s: string, from: int, to: int, c: char) {
    forall k :: 0 <= from <= k < to && k < |s| ==> s[k] == c
  }

  /** With LEFT, the padding is spaces behind the content; otherwise with ZEROPAD
      zeros between head and number, and without it spaces in front. */
  predicate Placed(s: string, head: string, number: string, f: Flags) {
    var content := head + number;
    var pad := |s| - |content|;
    && pad >= 0
    && if f.left then s[..|content|] == content && AllOf(s, |content|, |s|, ' ')
       else if f.zeropad then
         s[..|head|] == head && AllOf(s, |head|, |head| + pad, '0') && s[|head| + pad..] == number
       else AllOf(s, 0, pad, ' ') && s[pad..] == content
  }

  /** A number's field is its head, and its digits brought up to the precision by
      zeros, placed by the flags. */
  lemma NumberPlaced(w: int32, base: nat, size: int, precision: int, f: Flags)
    requires 2 <= base <= 36
    ensures
      var digits := Digits(Magnitude(w, f), base, f.small);
      Placed(Layout(w, base, size, precision, f), Head(w, base, f), Repeat('0', precision - |digits|) + digits, f)
  {
    FieldPlaced(Head(w, base, f), Digits(Magnitude(w, f), base, f.small), size, precision, f);
  }

  lemma FieldPlaced(head: string, digits: string, size: int, precision: int, f: Flags)
    ensures Placed(Field(head, digits, size, precision, f), head, Repeat('0', precision - |digits|) + digits, f)
  {
    var longer := Max(precision, |digits|);
    var rest := size - |head| - longer;
    var zeros := Repeat('0', longer - |digits|);
    assert zeros == Repeat('0', precision - |digits|);
    FieldPieces(head, digits, size, precision, f, longer, rest);
    if f.left {
      LeftPlaced(head, zeros, digits, rest, f);
    } else if f.zeropad {
      ZerosPlaced(head, zeros, digits, rest, f);
    } else {
      RightPlaced(head, zeros, digits, rest, f);
    }
  }

  lemma LeftPlaced(head: string, zeros: string, digits: string, rest: int, f: Flags)
    requires f.left
    ensures Placed(Pieces(head, zeros, digits, rest, f), head, zeros + digits, f)
  {
    LeftPieces(head, zeros, digits, rest, f);
    Regroup(head, zeros, digits);
  }

  lemma ZerosPlaced(head: string, zeros: string, digits: string, rest: int, f: Flags)
    requires !f.left && f.zeropad
    ensures Placed(Pieces(head, zeros, digits, rest, f), head, zeros + digits, f)
  {
    assert f == f.(zeropad := true);
    PiecesOn(head, zeros, digits, rest, f);
  }

  lemma RightPlaced(head: string, zeros: string, digits: string, rest: int, f: Flags)
    requires !f.left && !f.zeropad
    ensures Placed(Pieces(head, zeros, digits, rest, f), head, zeros + digits, f)
  {
    assert f == f.(zeropad := false);
    PiecesOn(head, zeros, digits, rest, f);
    Regroup(Repeat(' ', rest), head, zeros + digits);
  }

  /** %c prints the low byte of its argument, first with LEFT and last without,
      and spaces up to the width. */
  lemma CharPlaced(w: int32, width: int, precision: int, f: Flags)
    ensures
      var s := Converted('c', Word(w), width, precision, f);
      var at := if f.left then 0 else |s| - 1;
      && |s| == Max(width, 1) && s[at] as int == w % 256
      && forall k :: 0 <= k < |s| && k != at ==> s[k] == ' '
  {
    LowByte(w);
  }

  lemma LowByte(w: int32)
    ensures Unsigned(w) % 256 == w % 256
  {
    var q := (w as int) / 256;
    assert w == 256 * q + w % 256;
  }

  /** %s prints its text up to the precision, in front with LEFT and behind
      without, and spaces up to the width. */
  lemma TextPlaced(text: string, width: int, precision: int, f: Flags)
    ensures
      var s := Converted('s', Text(text), width, precision, f);
      var n := if 0 <= precision < |text| then precision else |text|;
      var at := if f.left then 0 else |s| - n;
      && |s| == Max(width, n) && s[at..at + n] == text[..n]
      && forall k :: 0 <= k < |s| && !(at <= k < at + n) ==> s[k] == ' '
  {
  }

  // ----- What is no conversion -----

  /** A character that is no conversion is printed behind a percent sign; the
      percent sign alone stands for itself and for a format that stops. */
  lemma UnknownPrints(f: Flags, width: int, precision: int, c: char, args: seq<Arg>)
    requires c !in {'c', 's', 'o', 'p', 'x', 'X', 'd', 'i', 'u', 'n'}
    ensures Output(Dir(f, width, precision, 0, c), args) == if c in {'%', '\0'} then "%" else ['%', c]
  {
  }

  // ----- Whose argument is whose, and %n -----

  /** The arguments that the items leave. */
  function ArgsLeft(items: seq<Item>, args: seq<Arg>): seq<Arg>
    decreases |items|
  {
    if items == [] then args else ArgsLeft(items[1..], Skip(args, ArgCount(items[0])))
  }

  /** How many arguments an item takes: one for its conversion, if it is one, and
      one for each of its stars. */
  function Takes(item: Item): nat {
    match item
    case Lit(_) => 0
    case Dir(_, _, _, stars, c) =>
      stars + (if c in {'c', 's', 'o', 'p', 'x', 'X', 'd', 'i', 'u', 'n'} then 1 else 0)
  }

  function Taken(items: seq<Item>): nat
    decreases |items|
  {
    if items == [] then 0 else Takes(items[0]) + Taken(items[1..])
  }

  lemma {:induction false} ArgsLeftAre(items: seq<Item>, args: seq<Arg>)
    requires ArgsOk(items, args)
    ensures Taken(items) <= |args| && ArgsLeft(items, args) == args[Taken(items)..]
    decreases |items|
  {
    if items != [] {
      var k, later := Takes(items[0]), Taken(items[1..]);
      ArgsLeftAre(items[1..], args[k..]);
      assert args[k..][later..] == args[k + later..];
    }
  }

  lemma {:induction false} LastText(printer: Printer, items: seq<Item>, args: seq<Arg>, n: Item)
    ensures RenderBy(printer, items + [n], args) ==
            RenderBy(printer, items, args) + printer(n, ArgsLeft(items, args))
    decreases |items|
  {
    var all := items + [n];
    if items == [] {
      assert all == [n] && all[1..] == [];
      FirstText(printer, all, args);
    } else {
      assert all[0] == items[0] && all[1..] == items[1..] + [n];
      LastText(printer, items[1..], Skip(args, ArgCount(items[0])), n);
      TextFromSecond(printer, all, items, args, printer(n, ArgsLeft(items, args)));
    }
  }

  lemma TextFromSecond(printer: Printer, all: seq<Item>, items: seq<Item>, args: seq<Arg>, last: string)
    requires all != [] && items != [] && all[0] == items[0]
    requires
      var later := Skip(args, ArgCount(items[0]));
      RenderBy(printer, all[1..], later) == RenderBy(printer, items[1..], later) + last
    ensures RenderBy(printer, all, args) == RenderBy(printer, items, args) + last
  {
    FirstText(printer, all, args);
    FirstText(printer, items, args);
    Regroup(printer(items[0], args), RenderBy(printer, items[1..], Skip(args, ArgCount(items[0]))), last);
  }

  /** Each item prints what it prints of the arguments behind those that the items
      in front of it take. */
  lemma ArgumentsInOrder(items: seq<Item>, args: seq<Arg>, n: Item)
    requires ArgsOk(items, args)
    ensures Taken(items) <= |args|
    ensures Render(items + [n], args) == Render(items, args) + Output(n, args[Taken(items)..])
  {
    ArgsLeftAre(items, args);
    LastText(Output, items, args, n);
  }

  lemma {:induction false} LastArgsOk(items: seq<Item>, args: seq<Arg>, n: Item)
    requires ArgsOk(items, args) && ItemOk(n, ArgsLeft(items, args))
    ensures ArgsOk(items + [n], args)
    decreases |items|
  {
    var all := items + [n];
    if items == [] {
      assert all == [n] && all[1..] == [];
    } else {
      assert all[0] == items[0] && all[1..] == items[1..] + [n];
      LastArgsOk(items[1..], Skip(args, ArgCount(items[0])), n);
    }
  }

  lemma StoresOfOne(printer: Printer, n: Item, args: seq<Arg>, written: nat)
    ensures StoresBy(printer, [n], args, written) == StoredBy(n, args, written)
  {
    FirstStores(printer, [n], args, written);
    assert [n][1..] == [];
  }

  lemma {:induction false} LastStores(printer: Printer, items: seq<Item>, args: seq<Arg>, n: Item, written: nat)
    ensures
      StoresBy(printer, items + [n], args, written) ==
      StoresBy(printer, items, args, written)
      + StoredBy(n, ArgsLeft(items, args), written + |RenderBy(printer, items, args)|)
    decreases |items|
  {
    if items == [] {
      assert items + [n] == [n];
      StoresOfOne(printer, n, args, written);
    } else {
      var all, text := items + [n], printer(items[0], args);
      assert all[0] == items[0] && all[1..] == items[1..] + [n];
      LastStores(printer, items[1..], Skip(args, ArgCount(items[0])), n, written + |text|);
      SameCount(printer, items, args, n, written);
      StoresFromSecond(printer, all, items, args, written,
                       StoredBy(n, ArgsLeft(items, args), written + |RenderBy(printer, items, args)|));
    }
  }

  lemma SameCount(printer: Printer, items: seq<Item>, args: seq<Arg>, n: Item, written: nat)
    requires items != []
    ensures
      var later, text := Skip(args, ArgCount(items[0])), printer(items[0], args);
      StoredBy(n, ArgsLeft(items, args), written + |RenderBy(printer, items, args)|) ==
      StoredBy(n, ArgsLeft(items[1..], later), written + |text| + |RenderBy(printer, items[1..], later)|)
  {
    FirstText(printer, items, args);
  }

  /** From what is stored behind the first item to what all of them store. */
  lemma StoresFromSecond(printer: Printer, all: seq<Item>, items: seq<Item>, args: seq<Arg>, written: nat,
                         last: seq<(nat, nat)>)
    requires all != [] && items != [] && all[0] == items[0]
    requires
      var later, text := Skip(args, ArgCount(items[0])), printer(items[0], args);
      StoresBy(printer, all[1..], later, written + |text|) ==
      StoresBy(printer, items[1..], later, written + |text|) + last
    ensures StoresBy(printer, all, args, written) == StoresBy(printer, items, args, written) + last
  {
    var item := items[0];
    var later, count := Skip(args, ArgCount(item)), written + |printer(item, args)|;
    FirstStoresOf(printer, item, all[1..], all, args, written);
    FirstStoresOf(printer, item, items[1..], items, args, written);
    LastBehind(StoresBy(printer, all, args, written), StoresBy(printer, items, args, written),
               StoredBy(item, args, written), StoresBy(printer, all[1..], later, count),
               StoresBy(printer, items[1..], later, count), last);
  }

  lemma FirstStoresOf(printer: Printer, item: Item, rest: seq<Item>, items: seq<Item>, args: seq<Arg>, written: nat)
    requires items != [] && items[0] == item && items[1..] == rest
    ensures
      var later, text := Skip(args, ArgCount(item)), printer(item, args);
      StoresBy(printer, items, args, written) ==
      StoredBy(item, args, written) + StoresBy(printer, rest, later, written + |text|)
  {
    FirstStores(printer, items, args, written);
  }

  lemma LastBehind<T>(all: seq<T>, some: seq<T>, first: seq<T>, rest: seq<T>, others: seq<T>, last: seq<T>)
    requires all == first + rest && some == first + others && rest == others + last
    ensures all == some + last
  {
  }

  /** %n prints nothing and stores how many characters were printed before it. */
  lemma CountSoFar(items: seq<Item>, args: seq<Arg>, n: Item)
    requires n.Dir? && n.stars == 0 && n.conv == 'n'
    requires ArgsOk(items, args) && Taken(items) < |args| && args[Taken(items)].Cell?
    ensures ArgsOk(items + [n], args) && Render(items + [n], args) == Render(items, args)
    ensures Stores(items + [n], args) == Stores(items, args) + [(args[Taken(items)].cell, |Render(items, args)|)]
  {
    ArgsLeftAre(items, args);
    CountOnly(n, args[Taken(items)..], |Render(items, args)|);
    LastArgsOk(items, args, n);
    LastText(Output, items, args, n);
    CountStores(Output, items, args, n, args[Taken(items)..]);
  }

  lemma CountStores(printer: Printer, items: seq<Item>, args: seq<Arg>, n: Item, left: seq<Arg>)
    requires n.Dir? && n.stars == 0 && n.conv == 'n'
    requires left == ArgsLeft(items, args) && left != [] && left[0].Cell?
    ensures
      var count := |RenderBy(printer, items, args)|;
      StoresBy(printer, items + [n], args, 0) == StoresBy(printer, items, args, 0) + [(left[0].cell, count)]
  {
    CountOnly(n, left, |RenderBy(printer, items, args)|);
    LastStores(printer, items, args, n, 0);
  }

  lemma CountOnly(n: Item, args: seq<Arg>, written: nat)
    requires n.Dir? && n.stars == 0 && n.conv == 'n' && args != [] && args[0].Cell?
    ensures ItemOk(n, args) && Output(n, args) == "" && StoredBy(n, args, written) == [(args[0].cell, written)]
  {
  }
}
