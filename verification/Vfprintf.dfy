/**
 * The conversions of vfprintf. What the output callback is given is collected in a string; it never fails here.
 */
module Vfprintf {
  import opened Arith

  datatype Option<T> = None | Some(value: T)

  datatype Conversion = Int | UOctal | UDec | UHex | UHexBig | UChar | Str | Ptr

  /** A conversion specification as it is written; width and precision are optional. */
  datatype Request = Request(minus: bool, plus: bool, space: bool, hash: bool, zero: bool,
                             width: Option<nat>, precision: Option<nat>, conversion: Conversion)

  /** What is kept of it: the width and the precision are words. */
  datatype Spec = Spec(minus: bool, plus: bool, space: bool, hash: bool, zero: bool,
                       width: nat, precision: nat, conversion: Conversion)

  /**
   * Enumerations are as short as possible (confmk/common.mk:47), so that the mark for a missing width or precision, -2,
   * is kept in the lowest byte of a zeroed word, and looked for in the lowest byte of any word.
   */
  const EMPTY := 254

  predicate Given(word: nat) {
    word % 256 != EMPTY
  }

  function Word(o: Option<nat>): nat {
    if o.None? then EMPTY else o.value
  }

  /** parse_conv_spec. */
  function Stored(r: Request): Spec {
    Spec(r.minus, r.plus, r.space, r.hash, r.zero, Word(r.width), Word(r.precision), r.conversion)
  }

  /** A fetched argument: the magnitude of a number and its sign, or a string. */
  datatype Argument = Argument(value: nat, str: string, negative: bool)

  const UINTMAX_END := 0x1_0000_0000_0000_0000
  const DEC_DIGITS := 20
  const OCT_DIGITS := 22
  const HEX_DIGITS := 16

  // ------------------------------------------------------------ digits

  function Power(base: nat, n: nat): nat {
    if n == 0 then 1 else base * Power(base, n - 1)
  }

  function DigitChar(d: nat, ten: char): char
    requires d < 16 && ten in {'a', 'A'}
  {
    if d < 10 then '0' + d as char else ten + (d - 10) as char
  }

  // The last digit of a number, and the number without it.

  function Last(value: nat, base: nat): (d: nat)
    requires base > 0
    ensures d < base
  {
    value % base
  }

  function Rest(value: nat, base: nat): nat
    requires base > 0
  {
    value / base
  }

  lemma DigitsAddUp(value: nat, base: nat)
    requires base > 0
    ensures value == Rest(value, base) * base + Last(value, base)
  {
  }

  /** A number written in a base, most significant digit first. */
  function DigitsOf(value: nat, base: nat, ten: char): (s: string)
    requires 2 <= base <= 16 && ten in {'a', 'A'}
    ensures |s| > 0
  {
    (if value < base then "" else DigitsOf(Rest(value, base), base, ten)) + [DigitChar(Last(value, base), ten)]
  }

  function DigitValue(c: char): nat {
    if '0' <= c <= '9' then c as nat - '0' as nat
    else if 'a' <= c <= 'f' then c as nat - 'a' as nat + 10
    else if 'A' <= c <= 'F' then c as nat - 'A' as nat + 10
    else 0
  }

  function ReadBack(s: string, base: nat): nat {
    if s == "" then 0 else ReadBack(s[..|s| - 1], base) * base + DigitValue(s[|s| - 1])
  }

  lemma DigitRoundTrip(d: nat, ten: char)
    requires d < 16 && ten in {'a', 'A'}
    ensures DigitValue(DigitChar(d, ten)) == d
  {
    var c := DigitChar(d, ten);
    assert c as nat == if d < 10 then '0' as nat + d else ten as nat + (d - 10);
  }

  lemma ReadBackSnoc(s: string, c: char, base: nat)
    ensures ReadBack(s + [c], base) == ReadBack(s, base) * base + DigitValue(c)
  {
    assert (s + [c])[..|s|] == s;
  }

  /** What is left of a value without its last digit. */
  function Leading(value: nat, base: nat, ten: char): string
    requires 2 <= base <= 16 && ten in {'a', 'A'}
  {
    if value == 0 then "" else DigitsOf(value, base, ten)
  }

  lemma ScaledOrder(base: nat, q: nat, r: nat, p: nat)
    requires r < base
    ensures base * q + r < base * p <==> q < p
  {
    if q < p {
      MultipleAtLeast(p - q, base);
      assert base * p == base * q + (p - q) * base;
    } else {
      assert base * q == base * p + (q - p) * base;
    }
  }

  lemma DivideByBase(value: nat, base: nat, p: nat)
    requires base > 0
    ensures value < base * p <==> value / base < p
  {
    ScaledOrder(base, value / base, value % base, p);
  }

  lemma RestIsLess(value: nat, base: nat)
    requires base >= 2
    ensures Rest(value, base) == 0 <==> value < base
    ensures value > 0 ==> Rest(value, base) < value
  {
    DivideByBase(value, base, 1);
    if value > 0 {
      MultipleAtLeast(base - 1, value);
      assert base * value == (base - 1) * value + value;
      DivideByBase(value, base, value);
    }
  }

  lemma LastDigit(value: nat, base: nat, ten: char)
    requires 2 <= base <= 16 && ten in {'a', 'A'}
    ensures DigitsOf(value, base, ten) == Leading(Rest(value, base), base, ten) + [DigitChar(Last(value, base), ten)]
    ensures Rest(value, base) > 0 ==> Rest(value, base) < value
  {
    hide DigitChar, Rest, Last;
    RestIsLess(value, base);
  }

  lemma LeadingReadsBack(q: nat, base: nat, ten: char)
    requires 2 <= base <= 16 && ten in {'a', 'A'}
    requires q > 0 ==> ReadBack(DigitsOf(q, base, ten), base) == q
    ensures ReadBack(Leading(q, base, ten), base) == q
  {
    hide DigitsOf;
  }

  /** The digits read back to the value. */
  lemma {:induction false} DigitsReadBack(value: nat, base: nat, ten: char)
    requires 2 <= base <= 16 && ten in {'a', 'A'}
    ensures ReadBack(DigitsOf(value, base, ten), base) == value
    decreases value
  {
    hide DigitChar, DigitValue, DigitsOf, Last, Rest, Leading, ReadBack;
    var q, d := Rest(value, base), Last(value, base);
    LastDigit(value, base, ten);
    if q > 0 {
      DigitsReadBack(q, base, ten);
    }
    LeadingReadsBack(q, base, ten);
    DigitRoundTrip(d, ten);
    ReadBackSnoc(Leading(q, base, ten), DigitChar(d, ten), base);
    DigitsAddUp(value, base);
  }

  /** A digit, if letters begin with `ten`. */
  predicate InCase(c: char, ten: char) {
    '0' <= c <= '9' || (ten == 'a' && 'a' <= c <= 'f') || (ten == 'A' && 'A' <= c <= 'F')
  }

  lemma DigitCharInCase(d: nat, ten: char)
    requires d < 16 && ten in {'a', 'A'}
    ensures InCase(DigitChar(d, ten), ten)
  {
    assert DigitChar(d, ten) as nat == if d < 10 then '0' as nat + d else ten as nat + (d - 10);
  }

  lemma {:induction false} DigitsInCase(value: nat, base: nat, ten: char)
    requires 2 <= base <= 16 && ten in {'a', 'A'}
    ensures forall c :: c in DigitsOf(value, base, ten) ==> InCase(c, ten)
    decreases value
  {
    hide DigitsOf, DigitChar, Last, Rest;
    LastDigit(value, base, ten);
    DigitCharInCase(Last(value, base), ten);
    if Rest(value, base) > 0 {
      DigitsInCase(Rest(value, base), base, ten);
    }
  }

  lemma {:induction false} PowerMonotone(base: nat, a: nat, b: nat)
    requires base > 0 && a <= b
    ensures 0 < Power(base, a) <= Power(base, b)
    decreases b
  {
    if a < b {
      PowerMonotone(base, a, b - 1);
    } else if b > 0 {
      PowerMonotone(base, a - 1, b - 1);
    }
  }

  /** As many digits as the power that the value reaches says. */
  lemma {:induction false} DigitsByPower(value: nat, base: nat, ten: char, i: nat)
    requires 2 <= base <= 16 && ten in {'a', 'A'}
    requires (i > 0 ==> Power(base, i) <= value) && value < Power(base, i + 1)
    ensures |DigitsOf(value, base, ten)| == i + 1
  {
    assert Power(base, i + 1) == base * Power(base, i);
    if i == 0 {
      assert Power(base, 0) == 1;
    } else {
      DivideByBase(value, base, Power(base, i));
      DivideByBase(value, base, Power(base, i - 1));
      PowerMonotone(base, 1, i);
      DigitsByPower(value / base, base, ten, i - 1);
    }
  }

  lemma PowerStep(base: nat, n: nat)
    ensures Power(base, 0) == 1 && Power(base, n + 1) == Power(base, n) * base
  {
  }

  /** The power is computed in 64 bits, which is enough here. */
  method PowerOf(base: nat, n: nat) returns (power: nat)
    requires base > 0 && Power(base, n) < UINTMAX_END
    ensures power == Power(base, n)
  {
    hide Power;
    PowerStep(base, 0);
    power := 1;
    for j := 0 to n
      invariant power == Power(base, j)
    {
      PowerStep(base, j);
      PowerMonotone(base, j + 1, n);
      power := power * base % UINTMAX_END;
    }
  }

  /** The predicted number of digits. */
  method LengthForIntNumBase(num: nat, base: nat, maxDigits: nat, ghost ten: char) returns (n: nat)
    requires 2 <= base <= 16 && ten in {'a', 'A'} && maxDigits > 0
    requires Power(base, maxDigits - 1) < UINTMAX_END && num < Power(base, maxDigits)
    ensures n == |DigitsOf(num, base, ten)|
  {
    hide Power, DigitsOf;
    PowerStep(base, 0);
    var i: int := maxDigits - 1;
    while i >= 0
      invariant -1 <= i < maxDigits && num < Power(base, i + 1)
    {
      PowerMonotone(base, i, maxDigits - 1);
      var power := PowerOf(base, i);
      if num >= power {
        DigitsByPower(num, base, ten, i);
        return i + 1;
      }
      i := i - 1;
    }
    DigitsByPower(num, base, ten, 0);
    return 1;
  }

  lemma DropDigit(value: nat, base: nat, ten: char, n: nat)
    requires 2 <= base <= 16 && ten in {'a', 'A'} && value < Power(base, n + 1)
    ensures Rest(value, base) < Power(base, n)
    ensures DigitsOf(value, base, ten) == Leading(Rest(value, base), base, ten) + [DigitChar(Last(value, base), ten)]
  {
    hide DigitChar, DigitsOf;
    LastDigit(value, base, ten);
    assert Power(base, n + 1) == base * Power(base, n);
    DivideByBase(value, base, Power(base, n));
  }

  method PutInFront(buffer: array<char>, at: nat, c: char)
    requires at < buffer.Length
    modifies buffer
    ensures buffer[at..] == [c] + old(buffer[at + 1..])
  {
    buffer[at] := c;
  }

  /** The digits of a value, filled backwards into a buffer that is large enough; they start at `start`. */
  method FillDigits(value: nat, base: nat, ten: char, size: nat) returns (buffer: array<char>, start: nat)
    requires 2 <= base <= 16 && ten in {'a', 'A'} && size > 0 && value < Power(base, size)
    ensures fresh(buffer) && buffer.Length == size && start < size
    ensures buffer[start..] == DigitsOf(value, base, ten)
  {
    hide DigitsOf, DigitChar, Power, Last, Rest;
    PowerStep(base, 0);
    buffer := new char[size](_ => '0');
    start := size - 1;
    DropDigit(value, base, ten, start);
    PutInFront(buffer, start, DigitChar(Last(value, base), ten));
    var rest: nat := Rest(value, base);
    while rest != 0 && start > 0
      invariant start < size && rest < Power(base, start)
      invariant DigitsOf(value, base, ten) == Leading(rest, base, ten) + buffer[start..]
      decreases start
    {
      DropDigit(rest, base, ten, start - 1);
      start := start - 1;
      PutInFront(buffer, start, DigitChar(Last(rest, base), ten));
      rest := Rest(rest, base);
    }
  }

  // ------------------------------------------------------------ conversions

  function Repeat(c: char, n: int): (s: string)
    ensures |s| == if n > 0 then n else 0
    ensures forall i :: 0 <= i < |s| ==> s[i] == c
  {
    if n <= 0 then "" else Repeat(c, n - 1) + [c]
  }

  /** A zero value with a precision of zero has no digits, but for pointers. */
  predicate NoDigits(spec: Spec, arg: Argument) {
    spec.precision == 0 && arg.value == 0 && spec.conversion != Ptr
  }

  /** At least as many digits as the precision says. */
  function Padded(spec: Spec, digits: string): (s: string)
    ensures !Given(spec.precision) ==> s == digits
  {
    (if Given(spec.precision) then Repeat('0', spec.precision - |digits|) else "") + digits
  }

  function Ten(spec: Spec): char {
    if spec.conversion == UHex then 'a' else 'A'
  }

  /** The string is longer than the precision. */
  predicate Cuts(spec: Spec, arg: Argument) {
    Given(spec.precision) && spec.precision < |arg.str|
  }

  /** What a conversion makes of its argument. Hexadecimal digits are not padded to the precision. */
  function Body(spec: Spec, arg: Argument): string {
    match spec.conversion
    case Int | UDec => if NoDigits(spec, arg) then "" else Padded(spec, DigitsOf(arg.value, 10, 'a'))
    case UOctal => if NoDigits(spec, arg) then "" else Padded(spec, DigitsOf(arg.value, 8, 'a'))
    case UHex | UHexBig | Ptr => if NoDigits(spec, arg) then "" else DigitsOf(arg.value, 16, Ten(spec))
    case Str => if Cuts(spec, arg) then arg.str[..spec.precision] else arg.str
    case UChar => [(arg.value % 256) as char]
  }

  /** %x writes no capital letters, and %X and %p no small ones. */
  lemma HexInCase(spec: Spec, arg: Argument, c: char)
    requires c in Body(spec, arg)
    ensures spec.conversion == UHex ==> '0' <= c <= '9' || 'a' <= c <= 'f'
    ensures spec.conversion in {UHexBig, Ptr} ==> '0' <= c <= '9' || 'A' <= c <= 'F'
  {
    hide DigitsOf;
    DigitsInCase(arg.value, 16, Ten(spec));
  }

  lemma TimesTimes(a: nat, b: nat, c: nat)
    ensures a * (b * c) == a * b * c
  {
  }

  lemma {:induction false} PowerAdds(base: nat, a: nat, b: nat)
    ensures Power(base, a + b) == Power(base, a) * Power(base, b)
  {
    if a > 0 {
      PowerAdds(base, a - 1, b);
      TimesTimes(base, Power(base, a - 1), Power(base, b));
    }
  }

  /** The buffers hold every 64-bit value, and no power overflows on the way to its length. */
  lemma BuffersSuffice()
    ensures Power(10, DEC_DIGITS - 1) < UINTMAX_END <= Power(10, DEC_DIGITS)
    ensures Power(8, OCT_DIGITS - 1) < UINTMAX_END <= Power(8, OCT_DIGITS)
    ensures Power(16, HEX_DIGITS - 1) < UINTMAX_END <= Power(16, HEX_DIGITS)
  {
    assert Power(10, 5) == 100_000;
    PowerAdds(10, 5, 5);
    PowerAdds(10, 10, 10);
    assert Power(8, 5) == 0x8000 && Power(8, 6) == 0x4_0000;
    PowerAdds(8, 5, 6);
    PowerAdds(8, 11, 11);
    assert Power(16, 4) == 0x1_0000;
    PowerAdds(16, 4, 4);
    PowerAdds(16, 8, 8);
  }

  /** dec_length and oct_length */
  method NumberLength(spec: Spec, value: nat, base: nat, maxDigits: nat) returns (n: nat)
    requires 2 <= base <= 16 && maxDigits > 0
    requires Power(base, maxDigits - 1) < UINTMAX_END && value < Power(base, maxDigits)
    ensures n == if spec.precision == 0 && value == 0 then 0 else |Padded(spec, DigitsOf(value, base, 'a'))|
  {
    if spec.precision == 0 && value == 0 {
      return 0;
    }
    n := LengthForIntNumBase(value, base, maxDigits, 'a');
    if Given(spec.precision) && spec.precision >= n {
      n := spec.precision;
    }
  }

  /** hex_length */
  method HexLength(spec: Spec, arg: Argument) returns (n: nat)
    requires arg.value < UINTMAX_END
    ensures n == if NoDigits(spec, arg) then 0 else |DigitsOf(arg.value, 16, Ten(spec))|
  {
    hide DigitsOf, Power;
    BuffersSuffice();
    if spec.conversion != Ptr && spec.precision == 0 && arg.value == 0 {
      return 0;
    }
    n := LengthForIntNumBase(arg.value, 16, HEX_DIGITS, Ten(spec));
  }

  /** hex_print */
  method HexPrint(spec: Spec, arg: Argument) returns (out: string)
    requires arg.value < UINTMAX_END
    ensures out == if NoDigits(spec, arg) then "" else DigitsOf(arg.value, 16, Ten(spec))
  {
    hide DigitsOf, Power;
    BuffersSuffice();
    if spec.conversion != Ptr && spec.precision == 0 && arg.value == 0 {
      return "";
    }
    var buffer, start := FillDigits(arg.value, 16, Ten(spec), HEX_DIGITS);
    out := buffer[start..];
  }

  /** The lengths predicted for the conversions are those of what they print. */
  method PredictLength(spec: Spec, arg: Argument) returns (n: nat)
    requires arg.value < UINTMAX_END
    ensures n == |Body(spec, arg)|
  {
    hide DigitsOf, Power;
    BuffersSuffice();
    match spec.conversion
    case Int => n := NumberLength(spec, arg.value, 10, DEC_DIGITS);
    case UDec => n := NumberLength(spec, arg.value, 10, DEC_DIGITS);
    case UOctal => n := NumberLength(spec, arg.value, 8, OCT_DIGITS);
    case Str => n := if Given(spec.precision) && spec.precision < |arg.str| then spec.precision else |arg.str|;
    case UChar => n := 1;
    case _ => n := HexLength(spec, arg);
  }

  /** dec_print and oct_print */
  method PrintNumber(spec: Spec, value: nat, base: nat, maxDigits: nat) returns (out: string)
    requires 2 <= base <= 16 && maxDigits > 0 && value < Power(base, maxDigits)
    ensures out == if spec.precision == 0 && value == 0 then "" else Padded(spec, DigitsOf(value, base, 'a'))
  {
    hide DigitsOf, Power;
    if spec.precision == 0 && value == 0 {
      return "";
    }
    var buffer, start := FillDigits(value, base, 'a', maxDigits);
    out := "";
    if Given(spec.precision) {
      var padding: int := spec.precision - (maxDigits - start);
      var i: int := 0;
      while i < padding
        invariant 0 <= i && (i <= padding || i == 0) && out == Repeat('0', i)
      {
        out := out + "0";
        i := i + 1;
      }
      assert out == Repeat('0', padding);
    }
    out := out + buffer[start..];
  }

  method PrintBody(spec: Spec, arg: Argument) returns (out: string)
    requires arg.value < UINTMAX_END
    ensures out == Body(spec, arg)
  {
    hide DigitsOf, Power, Padded;
    BuffersSuffice();
    match spec.conversion
    case Int => out := PrintNumber(spec, arg.value, 10, DEC_DIGITS);
    case UDec => out := PrintNumber(spec, arg.value, 10, DEC_DIGITS);
    case UOctal => out := PrintNumber(spec, arg.value, 8, OCT_DIGITS);
    case Str =>
      var len := PredictLength(spec, arg);
      out := arg.str[..len];
    case UChar => out := [(arg.value % 256) as char];
    case _ => out := HexPrint(spec, arg);
  }

  // ------------------------------------------------------------ the field

  const INTPTR_MAX := 0x7FFF_FFFF

  function Prefix(spec: Spec): string {
    if spec.conversion == Ptr || (spec.conversion in {UHex, UHexBig} && spec.hash) then "0x" else ""
  }

  function Sign(spec: Spec, arg: Argument): string {
    if arg.negative then "-" else if spec.plus then "+" else if spec.space then " " else ""
  }

  /** What comes before the body. */
  function Lead(spec: Spec, arg: Argument): string {
    Prefix(spec) + Sign(spec, arg)
  }

  /** The characters missing to the width. */
  function Missing(spec: Spec, arg: Argument): int {
    if Given(spec.width) then spec.width - |Lead(spec, arg)| - |Body(spec, arg)| else 0
  }

  /** With flag 0 the lead is printed only on the way to right justification. */
  predicate LosesLead(spec: Spec) {
    spec.zero && (spec.minus || !Given(spec.width))
  }

  /** The field that print_conv_spec prints, case by case. */
  function Field(spec: Spec, arg: Argument): string {
    if LosesLead(spec) then Body(spec, arg) + Repeat(' ', if spec.minus then Missing(spec, arg) else 0)
    else if spec.minus then Lead(spec, arg) + Body(spec, arg) + Repeat(' ', Missing(spec, arg))
    else if spec.zero then Lead(spec, arg) + Repeat('0', Missing(spec, arg)) + Body(spec, arg)
    else Repeat(' ', Missing(spec, arg)) + Lead(spec, arg) + Body(spec, arg)
  }

  /** put_flags */
  method PutFlags(spec: Spec, arg: Argument) returns (out: string)
    ensures out == Sign(spec, arg)
  {
    out := "";
    if arg.negative {
      out := "-";
    } else if spec.plus {
      out := if arg.negative then "-" else "+";
    } else if spec.space {
      out := if arg.negative then "-" else " ";
    }
  }

  method Fill(c: char, n: int) returns (out: string)
    ensures out == Repeat(c, n)
  {
    out := "";
    var left := n;
    while left > 0
      invariant out == Repeat(c, if n > 0 then n - left else 0) && (n > 0 ==> 0 <= left <= n)
    {
      out := out + [c];
      left := left - 1;
    }
  }

  /** print_conv_spec, for a specification other than %%. */
  method PrintConvSpec(spec: Spec, arg: Argument) returns (out: string)
    requires arg.value < UINTMAX_END && |Body(spec, arg)| < INTPTR_MAX
    requires spec.width < INTPTR_MAX
    ensures out == Field(spec, arg)
  {
    hide Body, Sign, Prefix, Repeat;
    var length := PredictLength(spec, arg);
    var prefix := Prefix(spec);
    var flags := PutFlags(spec, arg);
    var widthToFill: int := spec.width - length - |prefix| - |flags|;
    out := "";
    if !spec.minus && Given(spec.width) {
      if spec.zero {
        out := out + prefix + flags;
      }
      var fill := Fill(if spec.zero then '0' else ' ', widthToFill);
      out := out + fill;
    }
    if !spec.zero {
      out := out + prefix + flags;
    }
    var body := PrintBody(spec, arg);
    out := out + body;
    if spec.minus && Given(spec.width) {
      var fill := Fill(' ', widthToFill);
      out := out + fill;
    }
  }

  /** The length a field should have: the width, or more if the parts need more. */
  function FieldLength(r: Request, arg: Argument): nat {
    var parts := |Lead(Stored(r), arg)| + |Body(Stored(r), arg)|;
    if r.width.None? then parts else Max(r.width.value, parts)
  }

  /** A field has it, unless flag 0 loses sign or prefix, or a width to be filled is taken for none. */
  lemma FieldHasItsLength(r: Request, arg: Argument)
    ensures |Field(Stored(r), arg)| == FieldLength(r, arg) <==>
              && (!LosesLead(Stored(r)) || Lead(Stored(r), arg) == "")
              && (r.width.None? || Given(r.width.value) ||
                  r.width.value <= |Lead(Stored(r), arg)| + |Body(Stored(r), arg)|)
  {
    hide Body, Lead;
  }

  lemma WidthIsNotInParts(r: Request, arg: Argument)
    ensures Body(Stored(r.(width := None)), arg) == Body(Stored(r), arg)
    ensures Lead(Stored(r.(width := None)), arg) == Lead(Stored(r), arg)
  {
    hide DigitsOf, Repeat, Word;
  }

  lemma PrecisionTakenForNone(r: Request, arg: Argument)
    requires !Given(Stored(r).precision)
    ensures Body(Stored(r.(precision := None)), arg) == Body(Stored(r), arg)
    ensures Lead(Stored(r.(precision := None)), arg) == Lead(Stored(r), arg)
  {
    hide DigitsOf, Repeat;
  }

  /** Exactly the words that are 254 modulo 256 are taken for none, and print the field of none. */
  lemma TakenForNone(r: Request, arg: Argument)
    ensures !Given(Stored(r).width) <==> r.width.None? || r.width.value % 256 == EMPTY
    ensures !Given(Stored(r).precision) <==> r.precision.None? || r.precision.value % 256 == EMPTY
    ensures !Given(Stored(r).width) ==> Field(Stored(r), arg) == Field(Stored(r.(width := None)), arg)
    ensures !Given(Stored(r).precision) ==> Field(Stored(r), arg) == Field(Stored(r.(precision := None)), arg)
  {
    hide Body, Lead, Repeat;
    WidthIsNotInParts(r, arg);
    if !Given(Stored(r).precision) {
      PrecisionTakenForNone(r, arg);
    }
  }
}
