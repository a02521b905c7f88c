/** Printing one integer: the layout of a number under flags, width and
    precision, and a reader that takes the value back out of the text. */
module NumberSpec {

  /** The flag bits of a conversion. */
  datatype Flags = Flags(zeropad: bool, sign: bool, plus: bool, space: bool, left: bool, special: bool, small: bool)

  type int32 = x: int | -0x8000_0000 <= x < 0x8000_0000

  /** The bits of a signed word read as an unsigned one. */
  function Unsigned(num: int32): nat {
    if num < 0 then num + 0x1_0000_0000 else num
  }

  function DigitChar(d: nat, small: bool): char
    requires d < 36
  {
    if d < 10 then '0' + d as char
    else if small then 'a' + (d - 10) as char
    else 'A' + (d - 10) as char
  }

  /** The value of a digit in any base, or 36 for any other character. */
  function DigitValue(c: char): nat {
    if '0' <= c <= '9' then (c - '0') as int
    else if 'a' <= c <= 'z' then (c - 'a') as int + 10
    else if 'A' <= c <= 'Z' then (c - 'A') as int + 10
    else 36
  }

  lemma DivisionShrinks(n: nat, base: nat)
    requires 2 <= base
    ensures n / base <= n / 2
  {
    var q := n / base;
    assert base * q <= n;
    assert 2 * q <= base * q;
  }

  lemma RemainderFits(n: nat, base: nat)
    requires 2 <= base
    ensures 0 <= n % base < base
  {
  }

  /** The digit values of a number, most significant first. */
  function DigitList(n: nat, base: nat): (s: seq<nat>)
    requires 2 <= base <= 36
    ensures |s| >= 1 && forall i :: 0 <= i < |s| ==> s[i] < base
    decreases n
  {
    if n < base then [n]
    else
      DivisionShrinks(n, base);
      RemainderFits(n, base);
      DigitList(n / base, base) + [n % base]
  }

  predicate AllDigits(ds: seq<nat>) {
    forall i :: 0 <= i < |ds| ==> ds[i] < 36
  }

  function Print(ds: seq<nat>, small: bool): (s: string)
    requires AllDigits(ds)
    ensures |s| == |ds|
  {
    if ds == [] then "" else Print(ds[..|ds| - 1], small) + [DigitChar(ds[|ds| - 1], small)]
  }

  /** The digits of a number as text. */
  function Digits(n: nat, base: nat, small: bool): (s: string)
    requires 2 <= base <= 36
    ensures |s| >= 1
  {
    Print(DigitList(n, base), small)
  }

  function Repeat(c: char, n: int): (s: string)
    ensures |s| == if n > 0 then n else 0
    ensures forall i :: 0 <= i < |s| ==> s[i] == c
    decreases n
  {
    if n <= 0 then [] else Repeat(c, n - 1) + [c]
  }

  function SignText(num: int32, f: Flags): string {
    if f.sign && num < 0 then "-"
    else if f.plus then "+"
    else if f.space then " "
    else ""
  }

  function PrefixText(base: nat, f: Flags): string {
    if !f.special then ""
    else if base == 8 then "0"
    else if base == 16 then (if f.small then "0x" else "0X")
    else ""
  }

  /** The number whose digits are printed. */
  function Magnitude(num: int32, f: Flags): nat {
    if f.sign && num < 0 then -(num as int) else Unsigned(num)
  }

  function Max(a: int, b: int): int {
    if a > b then a else b
  }

  /** Sign and prefix. */
  function Head(num: int32, base: nat, f: Flags): string {
    SignText(num, f) + PrefixText(base, f)
  }

  /** A field: the padding `rest` is in front, between head and digits, or behind,
      as the flags say; LEFT switches ZEROPAD off. */
  function Pieces(head: string, zeros: string, digits: string, rest: int, f: Flags): string {
    (if !f.zeropad && !f.left then Repeat(' ', rest) else "") + head
    + (if f.zeropad && !f.left then Repeat('0', rest) else "") + zeros + digits
    + (if f.left then Repeat(' ', rest) else "")
  }

  /** `digits` brought up to the precision by zeros, and with `head` to the size
      by padding. */
  function Field(head: string, digits: string, size: int, precision: int, f: Flags): (s: string)
    ensures |s| == Max(size, |head| + Max(precision, |digits|))
  {
    var longer := Max(precision, |digits|);
    Pieces(head, Repeat('0', longer - |digits|), digits, size - |head| - longer, f)
  }

  lemma FieldPieces(head: string, digits: string, size: int, precision: int, f: Flags, zeros: int, rest: int)
    requires zeros == Max(precision, |digits|) && rest == size - |head| - zeros
    ensures Field(head, digits, size, precision, f) == Pieces(head, Repeat('0', zeros - |digits|), digits, rest, f)
  {
  }

  /** The whole field of a number: padding, sign, prefix, zeros, digits and
      padding. It is as long as the longer of the width and its contents. */
  function Layout(num: int32, base: nat, size: int, precision: int, f: Flags): (s: string)
    requires 2 <= base <= 36
    ensures |s| == Max(size, |Head(num, base, f)| + Max(precision, |Digits(Magnitude(num, f), base, f.small)|))
  {
    Field(Head(num, base, f), Digits(Magnitude(num, f), base, f.small), size, precision, f)
  }

  // ----- Reading a number back -----

  function SkipSpaces(s: string): string {
    if s != [] && s[0] == ' ' then SkipSpaces(s[1..]) else s
  }

  /** Reads digits of the base until another character comes. */
  function ReadDigits(s: string, base: nat, acc: nat): nat {
    if s != [] && DigitValue(s[0]) < base then ReadDigits(s[1..], base, Append(acc, base, DigitValue(s[0]))) else acc
  }

  /** The text starts as a hexadecimal number may: the second character is no
      digit of the base. */
  predicate HexPrefix(u: string, base: nat) {
    base == 16 && |u| >= 2 && u[0] == '0' && u[1] in {'x', 'X'}
  }

  /** Reads digits, and over the prefix of hexadecimal ones if it is there. */
  function ReadUnsigned(u: string, base: nat): nat {
    ReadDigits(if HexPrefix(u, base) then u[2..] else u, base, 0)
  }

  /** Reads a field: spaces, a sign, a prefix, digits. */
  function ReadNumber(s: string, base: nat): int {
    var t := SkipSpaces(s);
    if t != [] && t[0] == '-' then -(ReadUnsigned(t[1..], base) as int)
    else if t != [] && t[0] == '+' then ReadUnsigned(t[1..], base)
    else ReadUnsigned(t, base)
  }

  lemma DigitCharValue(d: nat, small: bool)
    requires d < 36
    ensures DigitValue(DigitChar(d, small)) == d
    ensures DigitChar(d, small) !in {' ', '+', '-'}
  {
  }

  /** `acc` with one more digit behind it, `acc * base + d` as a sum. */
  function Append(acc: nat, base: nat, d: nat): nat {
    if base == 0 then d else acc + Append(acc, base - 1, d)
  }

  lemma {:induction false} AppendIsProduct(acc: nat, base: nat, d: nat)
    ensures Append(acc, base, d) == acc * base + d
  {
    if base > 0 {
      AppendIsProduct(acc, base - 1, d);
    }
  }

  /** `acc` followed by the digits `ds`. */
  function Fold(ds: seq<nat>, base: nat, acc: nat): nat {
    if ds == [] then acc else Append(Fold(ds[..|ds| - 1], base, acc), base, ds[|ds| - 1])
  }

  lemma ReadOne(d: nat, base: nat, small: bool, rest: string, acc: nat)
    requires d < base <= 36
    ensures ReadDigits([DigitChar(d, small)] + rest, base, acc) == ReadDigits(rest, base, Append(acc, base, d))
  {
    DigitCharValue(d, small);
    var s := [DigitChar(d, small)] + rest;
    assert s[1..] == rest;
  }

  /** Reading a run of digits in front of other text. */
  lemma {:induction false} ReadPrinted(ds: seq<nat>, base: nat, small: bool, rest: string, acc: nat)
    requires base <= 36 && forall i :: 0 <= i < |ds| ==> ds[i] < base
    ensures ReadDigits(Print(ds, small) + rest, base, acc) == ReadDigits(rest, base, Fold(ds, base, acc))
    decreases |ds|
  {
    if ds == [] {
      assert Print(ds, small) + rest == rest;
    } else {
      var init, d := ds[..|ds| - 1], ds[|ds| - 1];
      var last := [DigitChar(d, small)];
      ReadPrinted(init, base, small, last + rest, acc);
      assert Print(ds, small) + rest == Print(init, small) + (last + rest);
      ReadOne(d, base, small, rest, Fold(init, base, acc));
    }
  }

  lemma QuotientRemainder(n: nat, base: nat, q: nat, r: nat)
    requires base >= 2 && q == n / base && r == n % base
    ensures q * base + r == n
  {
  }

  lemma LastDigit(n: nat, base: nat) returns (q: nat, r: nat)
    requires 2 <= base <= 36 && n >= base
    ensures q < n && Append(q, base, r) == n
    ensures Fold(DigitList(n, base), base, 0) == Append(Fold(DigitList(q, base), base, 0), base, r)
  {
    q, r := n / base, n % base;
    AppendIsProduct(q, base, r);
    QuotientRemainder(n, base, q, r);
    var ds := DigitList(n, base);
    assert ds[..|ds| - 1] == DigitList(q, base);
  }

  lemma {:induction false} FoldIsNumber(n: nat, base: nat)
    requires 2 <= base <= 36
    ensures Fold(DigitList(n, base), base, 0) == n
    decreases n
  {
    if n >= base {
      var q, r := LastDigit(n, base);
      FoldIsNumber(q, base);
    } else {
      assert [n][..0] == [];
      AppendIsProduct(0, base, n);
    }
  }

  lemma {:induction false} ReadZeros(k: int, rest: string, base: nat)
    requires 2 <= base
    ensures ReadDigits(Repeat('0', k) + rest, base, 0) == ReadDigits(rest, base, 0)
    decreases k
  {
    if k > 0 {
      ReadZeros(k - 1, ['0'] + rest, base);
      AppendIsProduct(0, base, 0);
      assert Repeat('0', k) + rest == Repeat('0', k - 1) + (['0'] + rest);
      assert (['0'] + rest)[1..] == rest;
    } else {
      assert Repeat('0', k) + rest == rest;
    }
  }

  lemma {:induction false} SkipRepeat(k: int, rest: string)
    ensures SkipSpaces(Repeat(' ', k) + rest) == SkipSpaces(rest)
    decreases k
  {
    if k > 0 {
      SkipRepeat(k - 1, [' '] + rest);
      assert Repeat(' ', k) + rest == Repeat(' ', k - 1) + ([' '] + rest);
      assert ([' '] + rest)[1..] == rest;
    } else {
      assert Repeat(' ', k) + rest == rest;
    }
  }

  /** Zeros, digits and whatever is not a digit read as the number. */
  lemma ReadBody(zeros: int, n: nat, base: nat, small: bool, k: int)
    requires 2 <= base <= 36
    ensures ReadDigits(Repeat('0', zeros) + Digits(n, base, small) + Repeat(' ', k), base, 0) == n
  {
    var tail := Repeat(' ', k);
    var digits := Digits(n, base, small);
    assert Repeat('0', zeros) + digits + tail == Repeat('0', zeros) + (digits + tail);
    ReadZeros(zeros, digits + tail, base);
    ReadPrinted(DigitList(n, base), base, small, tail, 0);
    FoldIsNumber(n, base);
    if k > 0 {
      assert tail[0] == ' ';
    }
  }

  lemma {:induction false} PrintFirst(ds: seq<nat>, small: bool)
    requires AllDigits(ds) && ds != []
    ensures Print(ds, small)[0] == DigitChar(ds[0], small)
    decreases |ds|
  {
    if |ds| > 1 {
      PrintFirst(ds[..|ds| - 1], small);
    } else {
      assert ds[..0] == [];
    }
  }

  /** The sign is read, whatever follows it. */
  lemma ReadSign(num: int32, base: nat, f: Flags, u: string)
    requires u != [] && u[0] !in {' ', '+', '-'}
    ensures ReadNumber(SignText(num, f) + u, base) ==
            var n: int := ReadUnsigned(u, base);
            if f.sign && num < 0 then -n else n
  {
    var t := SignText(num, f) + u;
    if SignText(num, f) == "" {
      assert t == u;
    } else {
      assert t[0] == SignText(num, f)[0] && t[1..] == u;
    }
    assert SkipSpaces(u) == u;
  }

  /** The prefix is read over, whatever follows it. */
  lemma ReadPrefix(base: nat, f: Flags, body: string)
    requires 2 <= base && !HexPrefix(body, base)
    ensures ReadUnsigned(PrefixText(base, f) + body, base) == ReadDigits(body, base, 0)
  {
    var prefix := PrefixText(base, f);
    var u := prefix + body;
    if prefix == "0" {
      assert u[1..] == body;
      AppendIsProduct(0, base, 0);
    } else if prefix == "" {
      assert u == body;
    } else {
      assert u[2..] == body;
    }
  }

  lemma Regroup(a: string, b: string, c: string)
    ensures a + b + c == a + (b + c)
  {
  }

  /** Sign and prefix are read, whatever digits follow. */
  lemma ReadHead(num: int32, base: nat, f: Flags, body: string)
    requires 2 <= base && body != [] && body[0] !in {' ', '+', '-'} && !HexPrefix(body, base)
    ensures ReadNumber(Head(num, base, f) + body, base) ==
            var n: int := ReadDigits(body, base, 0);
            if f.sign && num < 0 then -n else n
  {
    var prefix := PrefixText(base, f);
    Regroup(SignText(num, f), prefix, body);
    assert prefix != "" ==> (prefix + body)[0] == '0';
    assert prefix == "" ==> prefix + body == body;
    ReadSign(num, base, f, prefix + body);
    ReadPrefix(base, f, body);
  }

  /** A field whose parts are known reads as the number. */
  lemma ReadField(spaces: int, num: int32, base: nat, f: Flags, zeros: int, k: int)
    requires 2 <= base <= 36
    ensures
      var body := Repeat('0', zeros) + Digits(Magnitude(num, f), base, f.small) + Repeat(' ', k);
      ReadNumber(Repeat(' ', spaces) + (Head(num, base, f) + body), base) ==
      if f.sign then num else Unsigned(num)
  {
    var n := Magnitude(num, f);
    var body := Repeat('0', zeros) + Digits(n, base, f.small) + Repeat(' ', k);
    BodyFirst(zeros, n, base, f.small, k);
    BodyNoPrefix(zeros, n, base, f.small, k);
    ReadBody(zeros, n, base, f.small, k);
    ReadHead(num, base, f, body);
    SkipRepeat(spaces, Head(num, base, f) + body);
  }

  lemma BodyFirst(zeros: int, n: nat, base: nat, small: bool, k: int)
    requires 2 <= base <= 36
    ensures
      var body := Repeat('0', zeros) + Digits(n, base, small) + Repeat(' ', k);
      body != [] && body[0] !in {' ', '+', '-'}
  {
    PrintFirst(DigitList(n, base), small);
    DigitCharValue(DigitList(n, base)[0], small);
    var body := Repeat('0', zeros) + Digits(n, base, small) + Repeat(' ', k);
    assert body[0] == if zeros > 0 then '0' else Digits(n, base, small)[0];
  }

  lemma {:induction false} DigitsBelow(ds: seq<nat>, base: nat, small: bool)
    requires base <= 36 && forall i :: 0 <= i < |ds| ==> ds[i] < base
    ensures forall k :: 0 <= k < |Print(ds, small)| ==> DigitValue(Print(ds, small)[k]) < base
    decreases |ds|
  {
    if ds != [] {
      DigitsBelow(ds[..|ds| - 1], base, small);
      DigitCharValue(ds[|ds| - 1], small);
    }
  }

  lemma BodyNoPrefix(zeros: int, n: nat, base: nat, small: bool, k: int)
    requires 2 <= base <= 36
    ensures !HexPrefix(Repeat('0', zeros) + Digits(n, base, small) + Repeat(' ', k), base)
  {
    var digits := Digits(n, base, small);
    var body := Repeat('0', zeros) + digits + Repeat(' ', k);
    DigitsBelow(DigitList(n, base), base, small);
    if base == 16 && |body| >= 2 {
      var z := |Repeat('0', zeros)|;
      assert body[1] == if 1 < z then '0' else if 1 < z + |digits| then digits[1 - z] else ' ';
    }
  }

  lemma NothingAfter(s: string)
    ensures s + "" == s && "" + s == s
  {
  }

  lemma PiecesLeft(head: string, zeros: string, digits: string, pad: string)
    ensures "" + head + "" + zeros + digits + pad == "" + (head + (zeros + digits + pad))
  {
    NothingAfter(head);
    NothingAfter(head + (zeros + digits + pad));
    Regroup(head, zeros, digits);
    Regroup(head, zeros + digits, pad);
  }

  lemma PiecesRight(pad: string, head: string, zeros: string, digits: string)
    ensures pad + head + "" + zeros + digits + "" == pad + (head + (zeros + digits + ""))
  {
    NothingAfter(pad + head);
    NothingAfter(pad + head + zeros + digits);
    NothingAfter(zeros + digits);
    Regroup(pad + head, zeros, digits);
    Regroup(pad, head, zeros + digits);
  }

  lemma PiecesZeros(head: string, pad: string, zeros: string, digits: string)
    ensures "" + head + pad + zeros + digits + "" == "" + (head + (pad + zeros + digits + ""))
  {
    NothingAfter(head);
    NothingAfter(head + pad + zeros + digits);
    NothingAfter(pad + zeros + digits);
    NothingAfter(head + (pad + zeros + digits));
    Regroup(head, pad, zeros);
    Regroup(head, pad + zeros, digits);
  }

  /** Every field is blanks, the head, zeros, the digits, and blanks. */
  lemma FieldShape(head: string, digits: string, size: int, precision: int, f: Flags)
    returns (spaces: int, zeros: int, k: int)
    ensures Field(head, digits, size, precision, f) ==
            Repeat(' ', spaces) + (head + (Repeat('0', zeros) + digits + Repeat(' ', k)))
  {
    var longer := Max(precision, |digits|);
    var z := longer - |digits|;
    var rest := size - |head| - longer;
    if f.left {
      PiecesLeft(head, Repeat('0', z), digits, Repeat(' ', rest));
      return 0, z, rest;
    }
    if !f.zeropad {
      PiecesRight(Repeat(' ', rest), head, Repeat('0', z), digits);
      return rest, z, 0;
    }
    RepeatAdds('0', Max(rest, 0), z);
    assert Repeat('0', Max(rest, 0)) == Repeat('0', rest);
    PiecesZeros(head, Repeat('0', rest), Repeat('0', z), digits);
    return 0, Max(rest, 0) + z, 0;
  }

  /** Round trip: for every 32-bit number, base, width, precision and set of
      flags, reading the printed field gives the number back, signed if the
      conversion is signed, as an unsigned word otherwise. */
  lemma NumberRoundTrip(num: int32, base: nat, size: int, precision: int, f: Flags)
    requires 2 <= base <= 36
    ensures ReadNumber(Layout(num, base, size, precision, f), base) ==
            if f.sign then num else Unsigned(num)
  {
    var head, digits := Head(num, base, f), Digits(Magnitude(num, f), base, f.small);
    var spaces, zeros, k := FieldShape(head, digits, size, precision, f);
    ReadField(spaces, num, base, f, zeros, k);
  }

  lemma {:induction false} RepeatAdds(c: char, m: nat, n: nat)
    ensures Repeat(c, m + n) == Repeat(c, m) + Repeat(c, n)
    decreases n
  {
    if n > 0 {
      RepeatAdds(c, m, n - 1);
    }
  }

  function Pow2(n: nat): nat {
    if n == 0 then 1 else 2 * Pow2(n - 1)
  }

  /** The signed 32-bit word that an integer leaves behind. */
  function Wrap(n: int): int32 {
    (n + 0x8000_0000) % 0x1_0000_0000 - 0x8000_0000
  }

  lemma Multiple(q: int, r: int)
    requires 0 <= r < 0x1_0000_0000
    ensures (0x1_0000_0000 * q + r) % 0x1_0000_0000 == r
  {
  }

  lemma WrapSame(n: int, k: int)
    ensures Wrap(n + 0x1_0000_0000 * k) == Wrap(n)
  {
    var q, r := (n + 0x8000_0000) / 0x1_0000_0000, (n + 0x8000_0000) % 0x1_0000_0000;
    Multiple(q, r);
    Multiple(q + k, r);
  }

  lemma WrapSmall(n: nat)
    requires n < 0x8000_0000
    ensures Wrap(n) == n
  {
  }

  /** Wrapping once at the end is the same as wrapping at every step. */
  lemma WrapStep(n: int, d: int)
    ensures Wrap(Wrap(n) * 10 + d) == Wrap(n * 10 + d)
  {
    var q := (n + 0x8000_0000) / 0x1_0000_0000;
    assert Wrap(n) == n - 0x1_0000_0000 * q;
    WrapSame(n * 10 + d, -10 * q);
  }

  /** A number below a power of two has at most as many digits in any base. */
  lemma {:induction false} FewDigits(n: nat, base: nat, k: nat)
    requires 2 <= base <= 36 && n < Pow2(k) && k > 0
    ensures |DigitList(n, base)| <= k
    decreases n
  {
    if n >= base {
      DivisionShrinks(n, base);
      if k > 1 {
        FewDigits(n / base, base, k - 1);
      }
    }
  }
}

/** `number`: the loops that write a field into a buffer. */
module NumberPrinter {
  import opened NumberSpec

  datatype Option<T> = None | Some(value: T)

  function Reverse(s: string): (r: string)
    ensures |r| == |s|
  {
    if s == [] then [] else [s[|s| - 1]] + Reverse(s[..|s| - 1])
  }

  /** `while (size-- > 0) *str++ = c;` */
  method Pad(buf: array<char>, str: nat, c: char, size: int) returns (end: nat, rest: int)
    requires str <= buf.Length && str + |Repeat(c, size)| <= buf.Length
    modifies buf
    ensures end == str + |Repeat(c, size)| && buf[..end] == old(buf[..str]) + Repeat(c, size)
    ensures rest == if size > 0 then -1 else size - 1
  {
    end, rest := str, size;
    ghost var k := 0;
    while rest > 0
      invariant rest == (if size > 0 then size - k else size) && 0 <= k && (if size > 0 then k <= size else k == 0)
      invariant k == end - str && end <= buf.Length
      invariant buf[..end] == old(buf[..str]) + Repeat(c, k)
      decreases rest
    {
      buf[end] := c;
      end := end + 1;
      rest := rest - 1;
      k := k + 1;
    }
    rest := rest - 1;
  }

  /** One character. */
  method Put(buf: array<char>, str: nat, c: char) returns (end: nat)
    requires str < buf.Length
    modifies buf
    ensures end == str + 1 && buf[..end] == old(buf[..str]) + [c]
  {
    buf[str] := c;
    end := str + 1;
  }

  lemma {:induction false} Pow2Sum(m: nat, n: nat)
    ensures Pow2(m + n) == Pow2(m) * Pow2(n)
  {
    if n > 0 {
      Pow2Sum(m, n - 1);
    }
  }

  lemma DoublePow2(n: nat)
    ensures Pow2(n + n) == Pow2(n) * Pow2(n)
  {
    Pow2Sum(n, n);
  }

  lemma TwoTo32()
    ensures Pow2(32) == 0x1_0000_0000
  {
    assert Pow2(4) == 16;
    DoublePow2(4);
    assert Pow2(8) == 256;
    DoublePow2(8);
    assert Pow2(16) == 0x1_0000;
    DoublePow2(16);
  }

  lemma SmallDivision(n: nat, base: nat)
    requires n < base
    ensures n / base == 0 && n % base == n
  {
  }

  lemma LargeDivision(n: nat, base: nat)
    requires 2 <= base <= n
    ensures 0 < n / base < n
  {
    QuotientRemainder(n, base, n / base, n % base);
    QuotientBounds(n, base, n / base, n % base);
  }

  lemma QuotientBounds(n: nat, base: nat, q: nat, r: nat)
    requires 2 <= base <= n && q * base + r == n && r < base
    ensures 0 < q < n
  {
    assert q * (base - 2) >= 0;
  }

  /** Quotient and remainder are the number without its last digit, and that
      digit. */
  lemma DigitsStep(n: nat, base: nat, small: bool, q: int, r: int)
    requires 2 <= base <= 36 && q == n / base && r == n % base
    ensures 0 <= r < base && 0 <= q && (n > 0 ==> q < n)
    ensures Digits(n, base, small) == (if q == 0 then "" else Digits(q, base, small)) + [DigitChar(r, small)]
  {
    var ds := DigitList(n, base);
    if n < base {
      SmallDivision(n, base);
      assert ds[..0] == [];
    } else {
      LargeDivision(n, base);
      assert ds[..|ds| - 1] == DigitList(n / base, base);
    }
  }

  /** `do_div`: unsigned division. */
  method DoDiv(n: nat, base: nat, ghost small: bool) returns (q: nat, r: nat)
    requires 2 <= base <= 36
    ensures r < base && (n > 0 ==> q < n)
    ensures Digits(n, base, small) == (if q == 0 then "" else Digits(q, base, small)) + [DigitChar(r, small)]
  {
    DigitsStep(n, base, small, n / base, n % base);
    q, r := n / base, n % base;
  }

  /** The digits of a word in reverse order. */
  method ReverseDigits(num: nat, base: nat, small: bool, tmp: array<char>) returns (i: nat)
    requires 2 <= base <= 36 && num < 0x1_0000_0000 && tmp.Length == 36
    modifies tmp
    ensures 1 <= i <= 32 && Reverse(tmp[..i]) == Digits(num, base, small)
  {
    if num == 0 {
      tmp[0] := '0';
      i := 1;
      assert tmp[..1] == "0";
      var q, r := DoDiv(num, base, small);
    } else {
      i := DivideOut(num, base, small, tmp);
    }
  }

  /** The loop for a number that is not zero. */
  method DivideOut(num: nat, base: nat, small: bool, tmp: array<char>) returns (i: nat)
    requires 2 <= base <= 36 && 0 < num < 0x1_0000_0000 && tmp.Length == 36
    modifies tmp
    ensures 1 <= i <= 32 && Reverse(tmp[..i]) == Digits(num, base, small)
  {
    TwoTo32();
    FewDigits(num, base, 32);
    ghost var all := Digits(num, base, small);
    i := 0;
    var n := num;
    while n != 0
      invariant i <= 32 && |all| <= 32
      invariant all == (if n == 0 then "" else Digits(n, base, small)) + Reverse(tmp[..i])
      decreases n
    {
      ghost var before := tmp[..i];
      var q, r := DoDiv(n, base, small);
      tmp[i] := DigitChar(r, small);
      ReverseMore(before, tmp[..i + 1]);
      Regroup(if q == 0 then "" else Digits(q, base, small), [DigitChar(r, small)], Reverse(before));
      n := q;
      i := i + 1;
    }
  }

  lemma ReverseMore(s: string, t: string)
    requires |t| == |s| + 1 && t[..|s|] == s
    ensures Reverse(t) == [t[|s|]] + Reverse(s)
  {
  }

  /** `while (i-- > 0) *str++ = tmp[i];` */
  method CopyReversed(buf: array<char>, str: nat, tmp: array<char>, n: nat) returns (end: nat)
    requires n <= tmp.Length && str + n <= buf.Length && buf != tmp
    modifies buf
    ensures end == str + n && buf[..end] == old(buf[..str]) + Reverse(tmp[..n])
  {
    end := str;
    var i := n;
    ghost var pre, out := buf[..str], "";
    NothingAfter(pre);
    NothingAfter(Reverse(tmp[..n]));
    while i > 0
      invariant 0 <= i <= n && end == str + n - i
      invariant buf[..end] == pre + out
      invariant Reverse(tmp[..n]) == out + Reverse(tmp[..i])
    {
      i := i - 1;
      ReverseMore(tmp[..i], tmp[..i + 1]);
      Regroup(out, [tmp[i]], Reverse(tmp[..i]));
      Regroup(pre, out, [tmp[i]]);
      end := Put(buf, end, tmp[i]);
      out := out + [tmp[i]];
    }
    NothingAfter(out);
  }

  /** Sign and prefix. */
  method PutHead(buf: array<char>, str: nat, sign: string, base: nat, f: Flags) returns (end: nat)
    requires |sign| <= 1 && str + |sign + PrefixText(base, f)| <= buf.Length
    modifies buf
    ensures end == str + |sign + PrefixText(base, f)|
    ensures buf[..end] == old(buf[..str]) + (sign + PrefixText(base, f))
  {
    end := str;
    if sign != "" {
      end := Put(buf, end, sign[0]);
    }
    if f.special {
      if base == 8 {
        end := Put(buf, end, '0');
      } else if base == 16 {
        end := Put(buf, end, '0');
        end := Put(buf, end, DigitChar(33, f.small));
      }
    }
  }

  /** Padding behind the text `t` that was already written behind `pre`. */
  method PadAfter(buf: array<char>, str: nat, c: char, size: int, ghost pre: string, ghost t: string)
    returns (end: nat, rest: int)
    requires str + |Repeat(c, size)| <= buf.Length && buf[..str] == pre + t
    modifies buf
    ensures end == str + |Repeat(c, size)| && buf[..end] == pre + (t + Repeat(c, size))
    ensures rest == if size > 0 then -1 else size - 1
  {
    Regroup(pre, t, Repeat(c, size));
    end, rest := Pad(buf, str, c, size);
  }

  /** The part of `number` that writes, once the digits are known. */
  method WriteField(buf: array<char>, str: nat, sign: string, base: nat, f: Flags, rest: int, zeros: int,
                    tmp: array<char>, i: nat) returns (end: nat)
    requires |sign| <= 1 && i <= tmp.Length && buf != tmp && zeros >= i
    requires
      var text := Pieces(sign + PrefixText(base, f), Repeat('0', zeros - i), Reverse(tmp[..i]), rest, f);
      str + |text| <= buf.Length
    modifies buf
    ensures
      var text := Pieces(sign + PrefixText(base, f), Repeat('0', zeros - i), Reverse(tmp[..i]), rest, f);
      end == str + |text| && buf[..end] == old(buf[..str]) + text
  {
    // LEFT clears ZEROPAD.
    var zeropad := f.zeropad && !f.left;
    var left := rest;
    ghost var pre := buf[..str];
    ghost var digits := Reverse(tmp[..i]);
    ghost var head := sign + PrefixText(base, f);
    NothingAfter(pre);
    end := str;
    ghost var t1 := if !f.zeropad && !f.left then Repeat(' ', rest) else "";
    if !zeropad && !f.left {
      end, left := PadAfter(buf, end, ' ', left, pre, "");
      assert "" + t1 == t1;
    }
    Regroup(pre, t1, head);
    end := PutHead(buf, end, sign, base, f);
    ghost var t2 := t1 + head;
    ghost var t3 := t2 + (if f.zeropad && !f.left then Repeat('0', rest) else "");
    NothingAfter(t2);
    if !f.left {
      end, left := PadAfter(buf, end, if zeropad then '0' else ' ', left, pre, t2);
    }
    assert buf[..end] == pre + t3;
    var none;
    end, none := PadAfter(buf, end, '0', zeros - i, pre, t3);
    ghost var t4 := t3 + Repeat('0', zeros - i);
    Regroup(pre, t4, digits);
    end := CopyReversed(buf, end, tmp, i);
    ghost var t5 := t4 + digits;
    end, left := PadAfter(buf, end, ' ', left, pre, t5);
  }

  /** The sign character, if any, and the digits' value as an unsigned word. */
  method SignAndMagnitude(num: int32, f: Flags) returns (sign: string, u: nat)
    ensures sign == SignText(num, f) && |sign| <= 1 && u == Magnitude(num, f) < 0x1_0000_0000
  {
    sign := "";
    u := Unsigned(num);
    if f.sign && num < 0 {
      sign := "-";
      // num = -num wraps around for the most negative number, whose bits then
      // read as its magnitude.
      u := Unsigned(Negate(num));
    } else if f.plus {
      sign := "+";
    } else if f.space {
      sign := " ";
    }
  }

  /** The size left for zeros, digits and padding. */
  method ShrinkSize(size: int, sign: string, base: nat, f: Flags) returns (rest: int)
    requires |sign| <= 1
    ensures rest == size - |sign + PrefixText(base, f)|
  {
    rest := size;
    if sign != "" {
      rest := rest - 1;
    }
    if f.special {
      if base == 16 {
        rest := rest - 2;
      } else if base == 8 {
        rest := rest - 1;
      }
    }
  }

  /** The field of a number in a base that is served. */
  method NumberInBase(buf: array<char>, str: nat, num: int32, base: nat, size: int, precision: int, f: Flags)
    returns (end: nat)
    requires 2 <= base <= 36 && str + |Layout(num, base, size, precision, f)| <= buf.Length
    modifies buf
    ensures end == str + |Layout(num, base, size, precision, f)|
    ensures buf[..end] == old(buf[..str]) + Layout(num, base, size, precision, f)
  {
    var tmp := new char[36];
    var sign, u := SignAndMagnitude(num, f);
    var rest := ShrinkSize(size, sign, base, f);
    var i := ReverseDigits(u, base, f.small, tmp);
    var zeros := precision;
    if i > zeros {
      zeros := i;
    }
    rest := rest - zeros;
    FieldPieces(Head(num, base, f), Reverse(tmp[..i]), size, precision, f, zeros, rest);
    end := WriteField(buf, str, sign, base, f, rest, zeros, tmp, i);
  }

  /** `number`: writes a field at `str` and answers the position behind it. A
      base outside 2 to 36 is refused with a null pointer and nothing written. */
  method Number(buf: array<char>, str: nat, num: int32, base: int, size: int, precision: int, f: Flags)
    returns (end: Option<nat>)
    requires str <= buf.Length
    requires 2 <= base <= 36 ==> str + |Layout(num, base, size, precision, f)| <= buf.Length
    modifies buf
    ensures base < 2 || base > 36 ==> end == None && buf[..] == old(buf[..])
    ensures 2 <= base <= 36 ==>
              && end == Some(str + |Layout(num, base, size, precision, f)|)
              && buf[..end.value] == old(buf[..str]) + Layout(num, base, size, precision, f)
  {
    if base < 2 || base > 36 {
      return None;
    }
    var p := NumberInBase(buf, str, num, base, size, precision, f);
    return Some(p);
  }

  /** Two's complement negation. */
  function Negate(num: int32): int32 {
    if num == -0x8000_0000 then num else -num
  }
}
