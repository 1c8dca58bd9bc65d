/** The field that section 7.19.6.1 of C99 asks for, and exactly when vfprintf prints it. */
module C99Field {
  import opened FieldStrings
  import opened Vfprintf

  predicate Hex(r: Request) {
    r.conversion in {UHex, UHexBig}
  }

  predicate Number(r: Request) {
    r.conversion in {Int, UOctal, UDec, UHex, UHexBig}
  }

  /** The combinations of flags, precision and conversion that the standard defines. */
  predicate Defined(r: Request) {
    && (r.hash ==> r.conversion == UOctal || Hex(r))
    && (r.zero ==> Number(r))
    && (r.precision.Some? ==> Number(r) || r.conversion == Str)
  }

  /**
   * The sign of a signed conversion, and the prefix of a nonzero hexadecimal one. A pointer is written in the way of
   * the implementation, whatever the flags.
   */
  function Lead99(r: Request, arg: Argument): string {
    if r.conversion == Int then
      if arg.negative then "-" else if r.plus then "+" else if r.space then " " else ""
    else if r.conversion == Ptr then "0x"
    else if Hex(r) && r.hash && arg.value != 0 then (if r.conversion == UHex then "0x" else "0X")
    else ""
  }

  /** A number has at least as many digits as the precision says, and zero with a precision of zero has none. */
  function Number99(r: Request, value: nat, base: nat, ten: char): string
    requires 2 <= base <= 16 && ten in {'a', 'A'}
  {
    var digits := DigitsOf(value, base, ten);
    if r.precision == Some(0) && value == 0 then ""
    else if r.precision.None? then digits
    else Repeat('0', r.precision.value - |digits|) + digits
  }

  /** Flag # makes an octal number begin with a zero. */
  function Octal99(r: Request, value: nat): string {
    var s := Number99(r, value, 8, 'a');
    if r.hash && (s == "" || s[0] != '0') then "0" + s else s
  }

  function Body99(r: Request, arg: Argument): string {
    match r.conversion
    case Int | UDec => Number99(r, arg.value, 10, 'a')
    case UOctal => Octal99(r, arg.value)
    case UHex => Number99(r, arg.value, 16, 'a')
    case UHexBig => Number99(r, arg.value, 16, 'A')
    case Ptr => DigitsOf(arg.value, 16, 'A')
    case Str => if r.precision.Some? && r.precision.value < |arg.str| then arg.str[..r.precision.value] else arg.str
    case UChar => [(arg.value % 256) as char]
  }

  function Width(r: Request): nat {
    if r.width.None? then 0 else r.width.value
  }

  /** Flag - overrules flag 0, and so does a precision with a number. */
  function StandardField(r: Request, arg: Argument): string {
    var lead, body := Lead99(r, arg), Body99(r, arg);
    var missing := Width(r) - |lead| - |body|;
    if r.minus then lead + body + Repeat(' ', missing)
    else if r.zero && r.precision.None? then lead + Repeat('0', missing) + body
    else Repeat(' ', missing) + lead + body
  }

  // ------------------------------------------------------------ the exact condition

  /** The sign that the code prints before what is not signed. */
  function Extra(r: Request, arg: Argument): string {
    if r.conversion == Int then "" else Sign(Stored(r), arg)
  }

  /** The rest of its lead. */
  function Kept(r: Request, arg: Argument): string {
    if r.conversion == Int then Sign(Stored(r), arg) else Prefix(Stored(r))
  }

  /** The width that the code fills, and whether it is the one that was asked for. */
  function Filled(r: Request): nat {
    if Given(Word(r.width)) then Word(r.width) else 0
  }

  predicate Sees(r: Request) {
    Filled(r) == Width(r)
  }

  /** A precision that is taken for none would have cut the string. */
  predicate Uncut(r: Request, arg: Argument) {
    && r.conversion == Str && r.precision.Some? && !Given(r.precision.value) && r.precision.value < |arg.str|
  }

  /**
   * Exactly when the field is the standard one. With flag 0 and no right justification there must be no lead to lose;
   * a plus before what is not signed is always wrong, and a blank is right only where it passes for one of the blanks
   * that fill the width; otherwise lead and body must be the standard ones, but that zeros that fill the width may
   * stand for those that the body lacks, and flag 0 must not fill the width of a number with a precision. A width that
   * is taken for none must not be more than what is printed without it, and where a precision that is taken for none
   * would have cut a string, only blanks may have been cut.
   */
  predicate Conforms(r: Request, arg: Argument) {
    var p, q, e := Kept(r, arg), Lead99(r, arg), Extra(r, arg);
    var b, c, w := |Body(Stored(r), arg)|, |Body99(r, arg)|, Width(r);
    if Uncut(r, arg) then
      && e != "+" && Reaches(Filled(r), w, |e| + b)
      && Blank(if r.minus && e == "" then arg.str[r.precision.value..] else arg.str)
    else if LosesLead(Stored(r)) then
      q == "" && b == c && (w <= b || (Sees(r) && Lead(Stored(r), arg) == ""))
    else if e == "+" then
      false
    else if e == " " then
      && p == ""
      && (if r.zero && !r.minus then r.precision.Some? && w == c + 1
          else b == c && (if Sees(r) then w > b else w == b + 1) && (r.minus ==> Blank(Body(Stored(r), arg))))
    else
      && p == q
      && (if !r.zero then b == c && (Sees(r) || w <= |p| + c)
          else if r.precision.None? then b == c || w >= |p| + c
          else w <= |p| + c && (b == c || w == |p| + c))
  }

  lemma NumberBody(r: Request, arg: Argument)
    ensures r.conversion !in {Str, UChar} ==> Digits(Body(Stored(r), arg))
  {
    hide DigitsOf;
    DigitsAreDigits(arg.value, 10, 'a');
    DigitsAreDigits(arg.value, 8, 'a');
    DigitsAreDigits(arg.value, 16, Ten(Stored(r)));
  }

  /** The standard has the same body behind `k` zeros. */
  predicate Behind(r: Request, arg: Argument, k: nat) {
    && Defined(r) && (arg.negative ==> r.conversion == Int) && !Uncut(r, arg)
    && Body99(r, arg) == Repeat('0', k) + Body(Stored(r), arg) && (k > 0 ==> Number(r))
  }

  lemma BodyBehindZeros(r: Request, arg: Argument) returns (k: nat)
    requires Defined(r) && (arg.negative ==> r.conversion == Int) && !Uncut(r, arg)
    ensures Behind(r, arg, k)
  {
    hide DigitsOf;
    k := |Body99(r, arg)| - |Body(Stored(r), arg)|;
    assert Repeat('0', 1) == "0";
    assert Repeat('0', 0) + Body(Stored(r), arg) == Body(Stored(r), arg);
  }

  lemma TwoLeads(r: Request, arg: Argument)
    requires Defined(r) && (arg.negative ==> r.conversion == Int)
    ensures Leads(Kept(r, arg), Lead99(r, arg)) && Lead(Stored(r), arg) == Kept(r, arg) + Extra(r, arg)
    ensures Extra(r, arg) in {"", "+", " "} && (Extra(r, arg) != "" ==> Kept(r, arg) in {"", "0x"})
    ensures r.conversion in {Str, UChar} ==> Kept(r, arg) == Lead99(r, arg) == ""
    ensures Kept(r, arg) == Lead99(r, arg) != "" && Extra(r, arg) != "" ==>
              Body(Stored(r), arg) != "" && Body(Stored(r), arg)[0] != ' '
    ensures Lead(Stored(r), arg) == "" ==> Lead99(r, arg) == ""
  {
    hide DigitsOf;
    NumberBody(r, arg);
  }

  /** The fields of code and standard from their parts. */
  lemma FieldParts(r: Request, arg: Argument, l: string, b: string)
    requires l == Lead(Stored(r), arg) && b == Body(Stored(r), arg)
    ensures var m := Filled(r) - |l| - |b|;
            Field(Stored(r), arg) ==
              if LosesLead(Stored(r)) then b + Repeat(' ', if r.minus then m else 0)
              else if r.minus then l + b + Repeat(' ', m)
              else if r.zero then l + Repeat('0', m) + b
              else Repeat(' ', m) + l + b
  {
    hide Body, Lead;
    assert !Given(Word(r.width)) ==> Repeat(' ', Filled(r) - |l| - |b|) == "" == Repeat(' ', Missing(Stored(r), arg));
  }

  lemma StandardParts(r: Request, arg: Argument, q: string, c: string)
    requires q == Lead99(r, arg) && c == Body99(r, arg)
    ensures var n := Width(r) - |q| - |c|;
            StandardField(r, arg) ==
              if r.minus then q + c + Repeat(' ', n)
              else if r.zero && r.precision.None? then q + Repeat('0', n) + c
              else Repeat(' ', n) + q + c
  {
    hide Body99, Lead99;
  }

  lemma PlusIsWrong(r: Request, arg: Argument, k: nat)
    requires Behind(r, arg, k) && Sees(r) && !LosesLead(Stored(r)) && Extra(r, arg) == "+"
    ensures !Same(Field(Stored(r), arg), StandardField(r, arg))
  {
    hide Same, Body, Body99, Lead, Lead99, Kept, Extra, Field, StandardField, Repeat, Digits, Leads, Blank, DigitsOf;
    TwoLeads(r, arg);
    NumberBody(r, arg);
    var p, q, b, c, w := Kept(r, arg), Lead99(r, arg), Body(Stored(r), arg), Body99(r, arg), Width(r);
    FieldParts(r, arg, p + "+", b);
    StandardParts(r, arg, q, c);
    if r.minus {
      PlusLeft(p, q, b, k, c, w);
    } else if r.zero {
      PlusZero(p, q, b, k, c, w);
    } else {
      PlusRight(p, q, b, k, c, w);
    }
  }

  lemma BlankWithMinus(r: Request, arg: Argument, k: nat)
    requires Behind(r, arg, k) && Sees(r) && !LosesLead(Stored(r)) && Extra(r, arg) == " "
    requires r.minus
    ensures Same(Field(Stored(r), arg), StandardField(r, arg)) <==> Conforms(r, arg)
  {
    hide Same, Body, Body99, Lead, Lead99, Kept, Extra, Field, StandardField, Repeat, Digits, Leads, Blank, DigitsOf;
    TwoLeads(r, arg);
    NumberBody(r, arg);
    var p, q, b, c, w := Kept(r, arg), Lead99(r, arg), Body(Stored(r), arg), Body99(r, arg), Width(r);
    FieldParts(r, arg, p + " ", b);
    StandardParts(r, arg, q, c);
    BlankLeft(p, q, b, k, c, w);
  }

  lemma BlankWithZero(r: Request, arg: Argument, k: nat)
    requires Behind(r, arg, k) && Sees(r) && !LosesLead(Stored(r)) && Extra(r, arg) == " "
    requires !r.minus && r.zero
    ensures Same(Field(Stored(r), arg), StandardField(r, arg)) <==> Conforms(r, arg)
  {
    hide Same, Body, Body99, Lead, Lead99, Kept, Extra, Field, StandardField, Repeat, Digits, Leads, Blank, DigitsOf;
    TwoLeads(r, arg);
    NumberBody(r, arg);
    var p, q, b, c, w := Kept(r, arg), Lead99(r, arg), Body(Stored(r), arg), Body99(r, arg), Width(r);
    FieldParts(r, arg, p + " ", b);
    StandardParts(r, arg, q, c);
    if r.precision.None? {
      BlankZero(p, q, b, k, c, w);
    } else {
      BlankAgainstBlank(p, q, b, k, c, w);
    }
  }

  lemma BlankWithoutFlags(r: Request, arg: Argument, k: nat)
    requires Behind(r, arg, k) && Sees(r) && !LosesLead(Stored(r)) && Extra(r, arg) == " "
    requires !r.minus && !r.zero
    ensures Same(Field(Stored(r), arg), StandardField(r, arg)) <==> Conforms(r, arg)
  {
    hide Same, Body, Body99, Lead, Lead99, Kept, Extra, Field, StandardField, Repeat, Digits, Leads, Blank, DigitsOf;
    TwoLeads(r, arg);
    NumberBody(r, arg);
    var p, q, b, c, w := Kept(r, arg), Lead99(r, arg), Body(Stored(r), arg), Body99(r, arg), Width(r);
    FieldParts(r, arg, p + " ", b);
    StandardParts(r, arg, q, c);
    BlankRight(p, q, b, k, c, w);
  }

  lemma NoExtraWithMinus(r: Request, arg: Argument, k: nat)
    requires Behind(r, arg, k) && Sees(r) && !LosesLead(Stored(r)) && Extra(r, arg) == ""
    requires r.minus
    ensures Same(Field(Stored(r), arg), StandardField(r, arg)) <==> Conforms(r, arg)
  {
    hide Same, Body, Body99, Lead, Lead99, Kept, Extra, Field, StandardField, Repeat, Digits, Leads, Blank, DigitsOf;
    TwoLeads(r, arg);
    NumberBody(r, arg);
    var p, q, b, c, w := Kept(r, arg), Lead99(r, arg), Body(Stored(r), arg), Body99(r, arg), Width(r);
    assert p + "" == p;
    FieldParts(r, arg, p, b);
    StandardParts(r, arg, q, c);
    LeftJustified(p, q, b, k, c, w);
  }

  lemma NoExtraWithZero(r: Request, arg: Argument, k: nat)
    requires Behind(r, arg, k) && Sees(r) && !LosesLead(Stored(r)) && Extra(r, arg) == ""
    requires !r.minus && r.zero
    ensures Same(Field(Stored(r), arg), StandardField(r, arg)) <==> Conforms(r, arg)
  {
    hide Same, Body, Body99, Lead, Lead99, Kept, Extra, Field, StandardField, Repeat, Digits, Leads, Blank, DigitsOf;
    TwoLeads(r, arg);
    NumberBody(r, arg);
    var p, q, b, c, w := Kept(r, arg), Lead99(r, arg), Body(Stored(r), arg), Body99(r, arg), Width(r);
    assert p + "" == p;
    FieldParts(r, arg, p, b);
    StandardParts(r, arg, q, c);
    if r.precision.None? {
      ZeroPadded(p, q, b, k, c, w);
    } else {
      ZeroAgainstBlank(p, q, b, k, c, w);
    }
  }

  lemma NoExtraWithoutFlags(r: Request, arg: Argument, k: nat)
    requires Behind(r, arg, k) && Sees(r) && !LosesLead(Stored(r)) && Extra(r, arg) == ""
    requires !r.minus && !r.zero
    ensures Same(Field(Stored(r), arg), StandardField(r, arg)) <==> Conforms(r, arg)
  {
    hide Same, Body, Body99, Lead, Lead99, Kept, Extra, Field, StandardField, Repeat, Digits, Leads, Blank, DigitsOf;
    TwoLeads(r, arg);
    NumberBody(r, arg);
    var p, q, b, c, w := Kept(r, arg), Lead99(r, arg), Body(Stored(r), arg), Body99(r, arg), Width(r);
    assert p + "" == p;
    FieldParts(r, arg, p, b);
    StandardParts(r, arg, q, c);
    RightJustified(p, q, b, k, c, w);
  }

  lemma BlankIsRight(r: Request, arg: Argument, k: nat)
    requires Behind(r, arg, k) && Sees(r) && !LosesLead(Stored(r)) && Extra(r, arg) == " "
    ensures Same(Field(Stored(r), arg), StandardField(r, arg)) <==> Conforms(r, arg)
  {
    hide Same, Conforms, Field, StandardField, Body, Body99, Behind;
    if r.minus {
      BlankWithMinus(r, arg, k);
    } else if r.zero {
      BlankWithZero(r, arg, k);
    } else {
      BlankWithoutFlags(r, arg, k);
    }
  }

  lemma NoExtraIsRight(r: Request, arg: Argument, k: nat)
    requires Behind(r, arg, k) && Sees(r) && !LosesLead(Stored(r)) && Extra(r, arg) == ""
    ensures Same(Field(Stored(r), arg), StandardField(r, arg)) <==> Conforms(r, arg)
  {
    hide Same, Conforms, Field, StandardField, Body, Body99, Behind;
    if r.minus {
      NoExtraWithMinus(r, arg, k);
    } else if r.zero {
      NoExtraWithZero(r, arg, k);
    } else {
      NoExtraWithoutFlags(r, arg, k);
    }
  }

  lemma NothingMissing(q: string, c: string, n: int)
    requires n <= 0
    ensures q + c + Repeat(' ', n) == q + Repeat('0', n) + c == Repeat(' ', n) + q + c
  {
  }

  lemma LostLeadIsRight(r: Request, arg: Argument, k: nat)
    requires Behind(r, arg, k) && Sees(r) && LosesLead(Stored(r))
    ensures Same(Field(Stored(r), arg), StandardField(r, arg)) <==> Conforms(r, arg)
  {
    hide Same, Body, Body99, Lead, Lead99, Kept, Extra, Field, StandardField, Digits, Leads, Blank, DigitsOf;
    TwoLeads(r, arg);
    NumberBody(r, arg);
    var q, b, c, w := Lead99(r, arg), Body(Stored(r), arg), Body99(r, arg), Width(r);
    FieldParts(r, arg, Lead(Stored(r), arg), b);
    StandardParts(r, arg, q, c);
    if !r.minus {
      NothingMissing(q, c, w - |q| - |c|);
    }
    LeadLost(Lead(Stored(r), arg), q, b, k, c, w, r.minus);
  }

  lemma SeenIsRight(r: Request, arg: Argument, k: nat)
    requires Behind(r, arg, k) && Sees(r)
    ensures Same(Field(Stored(r), arg), StandardField(r, arg)) <==> Conforms(r, arg)
  {
    hide Same, Body, Body99, Lead, Lead99, Kept, Extra, Field, StandardField;
    TwoLeads(r, arg);
    if LosesLead(Stored(r)) {
      LostLeadIsRight(r, arg, k);
    } else if Extra(r, arg) == "+" {
      PlusIsWrong(r, arg, k);
    } else if Extra(r, arg) == " " {
      BlankIsRight(r, arg, k);
    } else {
      NoExtraIsRight(r, arg, k);
    }
  }

  lemma UnfilledField(r: Request, arg: Argument)
    requires !Sees(r)
    ensures LosesLead(Stored(r)) <==> r.zero
    ensures Field(Stored(r), arg) ==
      if r.zero then Body(Stored(r), arg) else Lead(Stored(r), arg) + Body(Stored(r), arg)
  {
    hide Body, Lead;
  }

  /** A width that the code does not see. */
  lemma UnseenIsRight(r: Request, arg: Argument, k: nat)
    requires Behind(r, arg, k) && !Sees(r)
    ensures Same(Field(Stored(r), arg), StandardField(r, arg)) <==> Conforms(r, arg)
  {
    hide Same, Body, Body99, Lead, Lead99, Kept, Extra, Field, StandardField, Repeat, Digits, Leads, Blank, DigitsOf;
    TwoLeads(r, arg);
    NumberBody(r, arg);
    var p, q, b, c, w := Kept(r, arg), Lead99(r, arg), Body(Stored(r), arg), Body99(r, arg), Width(r);
    UnfilledField(r, arg);
    StandardParts(r, arg, q, c);
    if r.zero {
      UnfilledLost(q, b, k, c, w);
    } else if Extra(r, arg) == "+" {
      UnfilledPlus(p, q, b, k, c, w);
    } else if Extra(r, arg) == " " {
      if r.minus {
        UnfilledBlankLeft(p, q, b, k, c, w);
      } else {
        UnfilledBlankRight(p, q, b, k, c, w);
      }
    } else {
      assert p + "" == p;
      UnfilledPlain(p, q, b, k, c, w);
    }
  }

  lemma EmptyLead(c: string, n: int)
    ensures "" + c + Repeat(' ', n) == c + Repeat(' ', n) && Repeat(' ', n) + "" + c == Repeat(' ', n) + c
  {
  }

  /** A precision that the code does not see, of a string. */
  lemma UncutIsRight(r: Request, arg: Argument)
    requires Defined(r) && !arg.negative && Uncut(r, arg)
    ensures Same(Field(Stored(r), arg), StandardField(r, arg)) <==> Conforms(r, arg)
  {
    hide Same, Lead, Lead99, Kept, Extra, Field, StandardField, Repeat, Digits, Leads, Blank, DigitsOf;
    TwoLeads(r, arg);
    var s, n, e := arg.str, r.precision.value, Extra(r, arg);
    var v: int, w: int := Filled(r), Width(r);
    assert "" + e == e;
    FieldParts(r, arg, e, s);
    StandardParts(r, arg, "", s[..n]);
    EmptyLead(s[..n], w - n);
    EmptyLead(s, v - |s|);
    if e == "+" {
      CutPlus(s, n, v - |e| - |s|, w - n);
    } else if e == " " {
      if r.minus {
        CutBlankLeft(s, n, v, w);
      } else {
        CutBlankRight(s, n, v, w);
      }
    } else {
      if r.minus {
        CutLeft(s, n, v, w);
      } else {
        CutRight(s, n, v, w);
      }
    }
  }

  /** The field is the one of the standard exactly under this condition. */
  lemma FieldIsStandard(r: Request, arg: Argument)
    requires Defined(r) && (arg.negative ==> r.conversion == Int)
    ensures Field(Stored(r), arg) == StandardField(r, arg) <==> Conforms(r, arg)
  {
    hide Body, Body99, Lead, Lead99, Kept, Extra, Field, StandardField, Conforms, LosesLead;
    TwoLeads(r, arg);
    if Uncut(r, arg) {
      UncutIsRight(r, arg);
    } else {
      var k := BodyBehindZeros(r, arg);
      if !Sees(r) {
        UnseenIsRight(r, arg, k);
      } else {
        SeenIsRight(r, arg, k);
      }
    }
  }

  lemma WhereLeadsDiffer(r: Request, arg: Argument)
    requires Defined(r)
    ensures Kept(r, arg) == Lead99(r, arg) <==> !(Hex(r) && r.hash && (arg.value == 0 || r.conversion == UHexBig))
  {
    assert "0x"[1] != "0X"[1];
  }

  /** A number lacks zeros where the code has no more digits than without a precision. */
  lemma WhereNumbersDiffer(r: Request, value: nat, base: nat, ten: char, body: string)
    requires 2 <= base <= 16 && ten in {'a', 'A'}
    requires var digits := DigitsOf(value, base, ten);
             if r.precision == Some(0) && value == 0 then body == ""
             else body in {digits, Repeat('0', if r.precision.None? then 0 else r.precision.value - |digits|) + digits}
    ensures |Number99(r, value, base, ten)| == |body| <==> !(r.precision.Some? && r.precision.value > |body|)
  {
    hide DigitsOf;
  }

  lemma WhereOctalsDiffer(r: Request, arg: Argument)
    requires r.conversion == UOctal
    ensures var body := Body(Stored(r), arg);
            |Body99(r, arg)| == |body| <==>
              && !(r.precision.Some? && r.precision.value > |body|)
              && !(r.hash && (body == "" || body[0] != '0'))
  {
    hide DigitsOf;
    var body, s := Body(Stored(r), arg), Number99(r, arg.value, 8, 'a');
    WhereNumbersDiffer(r, arg.value, 8, 'a', body);
    if |s| == |body| {
      assert s == body;
    }
  }

  /**
   * Lead and body are those of the standard but for `0x` and `0X`, precisions of hexadecimal numbers, flag # on octal
   * ones, and precisions that are taken for none.
   */
  lemma WherePartsDiffer(r: Request, arg: Argument)
    requires Defined(r)
    ensures Kept(r, arg) == Lead99(r, arg) <==> !(Hex(r) && r.hash && (arg.value == 0 || r.conversion == UHexBig))
    ensures |Body99(r, arg)| == |Body(Stored(r), arg)| <==>
              && !(Number(r) && r.precision.Some? && r.precision.value > |Body(Stored(r), arg)|)
              && !(r.conversion == UOctal && r.hash && (Body(Stored(r), arg) == "" || Body(Stored(r), arg)[0] != '0'))
              && !Uncut(r, arg)
  {
    hide DigitsOf, Number99, Octal99, Lead99, Kept;
    WhereLeadsDiffer(r, arg);
    var body := Body(Stored(r), arg);
    match r.conversion
    case Int => WhereNumbersDiffer(r, arg.value, 10, 'a', body);
    case UDec => WhereNumbersDiffer(r, arg.value, 10, 'a', body);
    case UOctal => WhereOctalsDiffer(r, arg);
    case UHex => WhereNumbersDiffer(r, arg.value, 16, 'a', body);
    case UHexBig => WhereNumbersDiffer(r, arg.value, 16, 'A', body);
    case Str =>
    case UChar =>
    case Ptr =>
  }

  /** Without flag 0, signs on what is not signed and words that are taken for none, only the parts can differ. */
  lemma PlainFieldIsStandard(r: Request, arg: Argument)
    requires Defined(r) && (arg.negative ==> r.conversion == Int) && !r.zero && Extra(r, arg) == ""
    requires Sees(r) && !Uncut(r, arg)
    ensures Field(Stored(r), arg) == StandardField(r, arg) <==>
              && !(Hex(r) && r.hash && (arg.value == 0 || r.conversion == UHexBig))
              && !(Number(r) && r.precision.Some? && r.precision.value > |Body(Stored(r), arg)|)
              && !(r.conversion == UOctal && r.hash && (Body(Stored(r), arg) == "" || Body(Stored(r), arg)[0] != '0'))
  {
    hide Field, StandardField, Body, Body99, Kept, Lead99, Extra, Hex, Number;
    FieldIsStandard(r, arg);
    WherePartsDiffer(r, arg);
  }

  // ------------------------------------------------------------ one field for each way to differ

  function Plain(conversion: Conversion): Request {
    Request(false, false, false, false, false, None, None, conversion)
  }

  function Value(value: nat): Argument {
    Argument(value, "", false)
  }

  /** %+u and %+s: a sign on what is not signed. */
  lemma PlusOnUnsigned()
    ensures Defined(Plain(UDec).(plus := true)) && Defined(Plain(Str).(plus := true))
    ensures Field(Stored(Plain(UDec).(plus := true)), Value(5)) == "+5"
    ensures StandardField(Plain(UDec).(plus := true), Value(5)) == "5"
    ensures Field(Stored(Plain(Str).(plus := true)), Argument(0, "ab", false)) == "+ab"
    ensures StandardField(Plain(Str).(plus := true), Argument(0, "ab", false)) == "ab"
  {
    assert DigitsOf(5, 10, 'a') == "5";
  }

  /** % u: a blank in front of what is not signed. */
  lemma SpaceOnUnsigned()
    ensures Defined(Plain(UDec).(space := true))
    ensures Field(Stored(Plain(UDec).(space := true)), Value(5)) == " 5"
    ensures StandardField(Plain(UDec).(space := true), Value(5)) == "5"
  {
    assert DigitsOf(5, 10, 'a') == "5";
  }

  /** %#o: no leading zero. */
  lemma HashOnOctal()
    ensures Defined(Plain(UOctal).(hash := true))
    ensures Field(Stored(Plain(UOctal).(hash := true)), Value(7)) == "7"
    ensures StandardField(Plain(UOctal).(hash := true), Value(7)) == "07"
  {
    assert DigitsOf(7, 8, 'a') == "7";
  }

  /** %.4x: the precision is ignored. */
  lemma PrecisionOnHex()
    ensures Defined(Plain(UHex).(precision := Some(4)))
    ensures Field(Stored(Plain(UHex).(precision := Some(4))), Value(10)) == "a"
    ensures StandardField(Plain(UHex).(precision := Some(4)), Value(10)) == "000a"
  {
    assert DigitsOf(10, 16, 'a') == "a";
    assert Repeat('0', 3) == "000";
  }

  /** %#x of 0: a prefix all the same. */
  lemma HashOnZero()
    ensures Defined(Plain(UHex).(hash := true))
    ensures Field(Stored(Plain(UHex).(hash := true)), Value(0)) == "0x0"
    ensures StandardField(Plain(UHex).(hash := true), Value(0)) == "0"
  {
    assert DigitsOf(0, 16, 'a') == "0";
  }

  /** %#X: the prefix is never 0X. */
  lemma HashOnBigHex()
    ensures Defined(Plain(UHexBig).(hash := true))
    ensures Field(Stored(Plain(UHexBig).(hash := true)), Value(10)) == "0xA"
    ensures StandardField(Plain(UHexBig).(hash := true), Value(10)) == "0XA"
  {
    assert DigitsOf(10, 16, 'A') == "A";
  }

  /** %05.3d: flag 0 in spite of a precision. */
  lemma ZeroWithPrecision()
    ensures Defined(Plain(Int).(zero := true, width := Some(5), precision := Some(3)))
    ensures Field(Stored(Plain(Int).(zero := true, width := Some(5), precision := Some(3))), Value(7)) == "00007"
    ensures StandardField(Plain(Int).(zero := true, width := Some(5), precision := Some(3)), Value(7)) == "  007"
  {
    assert DigitsOf(7, 10, 'a') == "7";
    assert Repeat('0', 2) == "00" && Repeat(' ', 2) == "  ";
  }

  /** %0d: flag 0 without a width loses the sign. */
  lemma ZeroWithoutWidth()
    ensures Defined(Plain(Int).(zero := true))
    ensures Field(Stored(Plain(Int).(zero := true)), Argument(5, "", true)) == "5"
    ensures StandardField(Plain(Int).(zero := true), Argument(5, "", true)) == "-5"
  {
    assert DigitsOf(5, 10, 'a') == "5";
  }

  /** %#0x: it loses the prefix too. */
  lemma ZeroWithoutPrefix()
    ensures Defined(Plain(UHex).(hash := true, zero := true))
    ensures Field(Stored(Plain(UHex).(hash := true, zero := true)), Value(10)) == "a"
    ensures StandardField(Plain(UHex).(hash := true, zero := true), Value(10)) == "0xa"
  {
    assert DigitsOf(10, 16, 'a') == "a";
  }

  /** %-05d: flag 0 with flag - loses the sign. */
  lemma ZeroWithMinus()
    ensures Defined(Plain(Int).(minus := true, zero := true, width := Some(5)))
    ensures Field(Stored(Plain(Int).(minus := true, zero := true, width := Some(5))), Argument(5, "", true)) == "5   "
    ensures StandardField(Plain(Int).(minus := true, zero := true, width := Some(5)), Argument(5, "", true)) == "-5   "
  {
    assert DigitsOf(5, 10, 'a') == "5";
    assert Repeat(' ', 3) == "   ";
  }

  /** %254d and %.254d: the width is not filled, and the number not padded. */
  lemma TakenForNoneShows()
    ensures Defined(Plain(Int).(width := Some(254))) && Defined(Plain(Int).(precision := Some(254)))
    ensures Field(Stored(Plain(Int).(width := Some(254))), Value(5)) == "5"
    ensures |StandardField(Plain(Int).(width := Some(254)), Value(5))| == 254
    ensures Field(Stored(Plain(Int).(precision := Some(254))), Value(5)) == "5"
    ensures |StandardField(Plain(Int).(precision := Some(254)), Value(5))| == 254
  {
    hide Repeat;
    assert DigitsOf(5, 10, 'a') == "5";
    assert Repeat(' ', 0) == "";
  }
}
