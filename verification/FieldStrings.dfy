/** The strings a field is put together from, and when two of them agree. */
module FieldStrings {
  import opened Vfprintf

  // ------------------------------------------------------------ characters

  predicate Digit(c: char) {
    '0' <= c <= '9' || 'a' <= c <= 'f' || 'A' <= c <= 'F'
  }

  predicate Digits(s: string) {
    forall i :: 0 <= i < |s| ==> Digit(s[i])
  }

  predicate Blank(s: string) {
    forall i :: 0 <= i < |s| ==> s[i] == ' '
  }

  lemma DigitCharIsDigit(d: nat, ten: char)
    requires d < 16 && ten in {'a', 'A'}
    ensures Digit(DigitChar(d, ten))
  {
    var c := DigitChar(d, ten);
    assert c as nat == if d < 10 then '0' as nat + d else ten as nat + (d - 10);
  }

  lemma {:induction false} DigitsAreDigits(value: nat, base: nat, ten: char)
    requires 2 <= base <= 16 && ten in {'a', 'A'}
    ensures Digits(DigitsOf(value, base, ten))
    decreases value
  {
    hide DigitsOf, DigitChar, Last, Rest;
    LastDigit(value, base, ten);
    DigitCharIsDigit(Last(value, base), ten);
    if Rest(value, base) > 0 {
      DigitsAreDigits(Rest(value, base), base, ten);
    }
  }

  /** How often a character occurs. */
  function Count(s: string, c: char): nat {
    multiset(s)[c]
  }

  lemma CountSum(a: string, b: string, c: char)
    ensures Count(a + b, c) == Count(a, c) + Count(b, c)
  {
  }

  lemma CountNone(s: string, c: char)
    requires forall i :: 0 <= i < |s| ==> s[i] != c
    ensures Count(s, c) == 0
  {
    assert c !in s;
  }

  lemma {:induction false} CountRepeat(c: char, n: int)
    ensures Count(Repeat(c, n), c) == if n > 0 then n else 0
  {
    if n > 0 {
      CountRepeat(c, n - 1);
      CountSum(Repeat(c, n - 1), [c], c);
      assert multiset([c]) == multiset{c};
    }
  }

  lemma CountOther(c: char, n: int, d: char)
    requires c != d
    ensures Count(Repeat(c, n), d) == 0
  {
    CountNone(Repeat(c, n), d);
  }

  // ------------------------------------------------------------ parts of the two fields

  /** The two leads of an unsigned conversion or of a signed one. */
  predicate Leads(p: string, q: string) {
    || (p == "0x" && q in {"", "0x", "0X"})
    || (p == q && p in {"", "-", "+", " "})
  }

  /** Only a lead has an x. */
  lemma OnlyLeadHasX(p: string, q: string, b: string, k: nat)
    requires Leads(p, q) && p != q && Digits(b)
    ensures 'x' in p && 'x' !in q && 'x' !in Repeat('0', k) + b && 'x' !in b
  {
    assert p[1] == 'x';
    assert 'x' !in Repeat('0', k);
  }

  function AtLeast0(n: int): nat {
    if n > 0 then n else 0
  }

  lemma ZerosThen(a: int, c: int, s: string)
    ensures Repeat('0', a) + s == Repeat('0', c) + s <==> AtLeast0(a) == AtLeast0(c)
  {
    if AtLeast0(a) == AtLeast0(c) {
      assert Repeat('0', a) == Repeat('0', c);
    } else {
      assert |Repeat('0', a) + s| != |Repeat('0', c) + s|;
    }
  }

  lemma ZerosMore(a: int, k: nat, s: string)
    ensures Repeat('0', a) + (Repeat('0', k) + s) == Repeat('0', AtLeast0(a) + k) + s
  {
    assert Repeat('0', a) + Repeat('0', k) == Repeat('0', AtLeast0(a) + k);
    assert Repeat('0', a) + (Repeat('0', k) + s) == (Repeat('0', a) + Repeat('0', k)) + s;
  }

  lemma SamePrefix(p: string, a: string, b: string)
    ensures p + a == p + b <==> a == b
  {
    assert (p + a)[|p|..] == a && (p + b)[|p|..] == b;
  }

  lemma SameSuffix(a: string, b: string, s: string)
    ensures a + s == b + s <==> a == b
  {
    assert |a + s| == |a| + |s| && |b + s| == |b| + |s|;
    assert (a + s)[..|a|] == a && (b + s)[..|b|] == b;
  }

  // ------------------------------------------------------------ the two fields, case by case
  //
  // `p` and `q` are the leads of code and standard, `b` is the body of the code; that of the standard, `c`, has `k`
  // zeros before it. `w` is the width, or 0.

  predicate Same(f: string, g: string) {
    f == g
  }

  lemma XShows(f: string, g: string)
    requires 'x' in f && 'x' !in g
    ensures !Same(f, g)
  {
  }

  lemma ZerosAgree(p: string, b: string, k: nat, w: nat)
    ensures Same(p + Repeat('0', w - |p| - |b|) + b, p + Repeat('0', w - |p| - |b| - k) + (Repeat('0', k) + b)) <==>
              k == 0 || w >= |p| + |b| + k
  {
    hide Repeat, AtLeast0;
    var m, n := w - |p| - |b|, w - |p| - |b| - k;
    ZerosMore(n, k, b);
    assert p + Repeat('0', m) + b == p + (Repeat('0', m) + b);
    assert p + Repeat('0', n) + (Repeat('0', k) + b) == p + (Repeat('0', AtLeast0(n) + k) + b);
    ZerosThen(m, AtLeast0(n) + k, b);
    SamePrefix(p, Repeat('0', m) + b, Repeat('0', AtLeast0(n) + k) + b);
  }

  /** Flag 0 without a precision. */
  lemma ZeroPadded(p: string, q: string, b: string, k: nat, c: string, w: nat)
    requires c == Repeat('0', k) + b
    requires Leads(p, q) && Digits(b)
    ensures Same(p + Repeat('0', w - |p| - |b|) + b,
                 q + Repeat('0', w - |q| - |c|) + c) <==>
              p == q && (k == 0 || w >= |p| + |b| + k)
  {
    hide Same, Digits, Leads;
    assert |c| == k + |b|;
    if p == q {
      ZerosAgree(p, b, k, w);
    } else {
      OnlyLeadHasX(p, q, b, k);
      assert 'x' !in Repeat('0', w - |q| - |c|);
      XShows(p + Repeat('0', w - |p| - |b|) + b, q + Repeat('0', w - |q| - |c|) + c);
    }
  }

  /** Flag 0 with a precision, where the standard has blanks. */
  lemma ZeroAgainstBlank(p: string, q: string, b: string, k: nat, c: string, w: nat)
    requires c == Repeat('0', k) + b
    requires Leads(p, q) && Digits(b)
    ensures Same(p + Repeat('0', w - |p| - |b|) + b,
                 Repeat(' ', w - |q| - |c|) + q + c) <==>
              p == q && w <= |p| + |b| + k && (k == 0 || w == |p| + |b| + k)
  {
    var m, n := w - |p| - |b|, w - |q| - |c|;
    var tail := Repeat('0', k) + b;
    var f, g := p + Repeat('0', m) + b, Repeat(' ', n) + q + tail;
    assert f == p + (Repeat('0', m) + b);
    if p != q {
      OnlyLeadHasX(p, q, b, k);
      assert 'x' in f && 'x' !in g;
    } else if n > 0 {
      assert p == " " ==> f[1] == '0' && g[1] == ' ';
      assert p == "" ==> f[0] == '0';
      assert g[0] == ' ';
    } else {
      assert g == q + tail;
      SamePrefix(p, Repeat('0', m) + b, tail);
      ZerosThen(m, k, b);
    }
  }

  /** Bodies of different lengths, neither with a blank at the end, do not become equal by blanks. */
  lemma BlanksBehind(b: string, c: string, m: int, n: int)
    requires |b| < |c| && c[|c| - 1] != ' '
    ensures b + Repeat(' ', m) != c + Repeat(' ', n)
  {
    var f, g := b + Repeat(' ', m), c + Repeat(' ', n);
    if |f| == |g| {
      assert f[|c| - 1] == ' ' && g[|c| - 1] != ' ';
    }
  }

  /** Flag -. */
  lemma LeftJustified(p: string, q: string, b: string, k: nat, c: string, w: nat)
    requires c == Repeat('0', k) + b
    requires Leads(p, q) && (Digits(b) || (p == q && k == 0))
    ensures Same(p + b + Repeat(' ', w - |p| - |b|),
                 q + c + Repeat(' ', w - |q| - |c|)) <==>
              p == q && k == 0
  {
    var m, n := w - |p| - |b|, w - |q| - |c|;
    var tail := Repeat('0', k) + b;
    var f, g := p + b + Repeat(' ', m), q + tail + Repeat(' ', n);
    if p != q {
      OnlyLeadHasX(p, q, b, k);
      assert 'x' in f && 'x' !in g;
    } else if k > 0 {
      assert f == p + (b + Repeat(' ', m)) && g == p + (tail + Repeat(' ', n));
      SamePrefix(p, b + Repeat(' ', m), tail + Repeat(' ', n));
      BlanksBehind(b, tail, m, n);
    } else {
      assert tail == b;
    }
  }

  lemma BlanksBefore(p: string, b: string, k: nat, m: int, n: int)
    requires k > 0 && Leads(p, p) && m == n + k
    ensures Repeat(' ', m) + p + b != Repeat(' ', n) + p + (Repeat('0', k) + b)
  {
    var f, g := Repeat(' ', m) + p + b, Repeat(' ', n) + p + (Repeat('0', k) + b);
    if |f| == |g| {
      assert n >= 0;
      var i := n + |p| + k - 1;
      assert g[i] == '0';
      if |p| < k {
        assert f[m - 1] == ' ' && g[m - 1] == '0';
      } else {
        assert k <= 2;
        assert p == "0x" ==> f[m + 1] == 'x';
      }
    }
  }

  /** Neither flag. */
  lemma RightJustified(p: string, q: string, b: string, k: nat, c: string, w: nat)
    requires c == Repeat('0', k) + b
    requires Leads(p, q) && (Digits(b) || (p == q && k == 0))
    ensures Same(Repeat(' ', w - |p| - |b|) + p + b,
                 Repeat(' ', w - |q| - |c|) + q + c) <==>
              p == q && k == 0
  {
    var m, n := w - |p| - |b|, w - |q| - |c|;
    var tail := Repeat('0', k) + b;
    var f, g := Repeat(' ', m) + p + b, Repeat(' ', n) + q + tail;
    if p != q {
      OnlyLeadHasX(p, q, b, k);
      assert 'x' in f && 'x' !in g;
    } else if k > 0 {
      BlanksBefore(p, b, k, m, n);
    } else {
      assert tail == b;
    }
  }

  // ------------------------------------------------------------ a sign that the standard does not have

  /** A plus before the body of an unsigned conversion always shows, wherever it is. */
  lemma PlusShows(p: string, q: string, b: string, k: nat, before: string, behind: string, blanks: string)
    requires Leads(p, q) && p in {"", "0x"} && '+' !in before && '+' !in behind && '+' !in blanks
    ensures Count(before + (p + "+") + b + behind, '+') == 1 + Count(b, '+')
    ensures Count(blanks + q + (Repeat('0', k) + b) + behind, '+') == Count(b, '+')
  {
    hide Repeat;
    var head, tail := before + (p + "+"), Repeat('0', k) + b;
    CountSum(p, "+", '+');
    CountSum(before, p + "+", '+');
    CountSum(head, b, '+');
    CountSum(head + b, behind, '+');
    CountSum(Repeat('0', k), b, '+');
    CountSum(blanks, q, '+');
    CountSum(blanks + q, tail, '+');
    CountSum(blanks + q + tail, behind, '+');
    CountOther('0', k, '+');
    assert multiset("+") == multiset{'+'};
    CountNone(p, '+');
    CountNone(q, '+');
  }

  lemma PlusBehind(p: string, q: string, b: string, k: nat, x: string, y: string)
    requires Leads(p, q) && p in {"", "0x"} && '+' !in x && '+' !in y
    ensures p + "+" + b + x != q + (Repeat('0', k) + b) + y
  {
    hide Repeat, Count;
    PlusShows(p, q, b, k, "", x, "");
    PlusShows(p, q, b, k, "", y, "");
    assert "" + (p + "+") + b + x == p + "+" + b + x;
    assert "" + q + (Repeat('0', k) + b) + y == q + (Repeat('0', k) + b) + y;
  }

  lemma PlusLeft(p: string, q: string, b: string, k: nat, c: string, w: nat)
    requires c == Repeat('0', k) + b
    requires Leads(p, q) && p in {"", "0x"}
    ensures !Same(p + "+" + b + Repeat(' ', w - |p + "+"| - |b|),
                  q + c + Repeat(' ', w - |q| - |c|))
  {
    var x, y := Repeat(' ', w - |p + "+"| - |b|), Repeat(' ', w - |q| - |c|);
    PlusBehind(p, q, b, k, x, y);
  }

  lemma PlusRight(p: string, q: string, b: string, k: nat, c: string, w: nat)
    requires c == Repeat('0', k) + b
    requires Leads(p, q) && p in {"", "0x"}
    ensures !Same(Repeat(' ', w - |p + "+"| - |b|) + (p + "+") + b,
                  Repeat(' ', w - |q| - |c|) + q + c)
  {
    var x, y := Repeat(' ', w - |p + "+"| - |b|), Repeat(' ', w - |q| - |c|);
    PlusShows(p, q, b, k, x, "", y);
    assert x + (p + "+") + b + "" == x + (p + "+") + b;
    assert y + q + (Repeat('0', k) + b) + "" == y + q + (Repeat('0', k) + b);
  }

  lemma PlusZero(p: string, q: string, b: string, k: nat, c: string, w: nat)
    requires c == Repeat('0', k) + b
    requires Leads(p, q) && p in {"", "0x"} && Digits(b)
    ensures !Same(p + "+" + Repeat('0', w - |p + "+"| - |b|) + b,
                  q + Repeat('0', w - |q| - |c|) + c)
    ensures !Same(p + "+" + Repeat('0', w - |p + "+"| - |b|) + b,
                  Repeat(' ', w - |q| - |c|) + q + c)
  {
    assert (p + "+")[|p|] == '+';
    assert '+' in p + "+" + Repeat('0', w - |p + "+"| - |b|) + b;
    assert '+' !in q && '+' !in b;
  }

  lemma {:induction false} BlankTravels(b: string, f: string, i: nat)
    requires i <= |b| && |b| < |f| && f[..|b| + 1] == " " + b && f[..|b|] == b
    ensures forall j :: 0 <= j < i ==> b[j] == ' '
  {
    if i > 0 {
      BlankTravels(b, f, i - 1);
      assert f[i - 1] == b[i - 1];
      assert i > 1 ==> f[i - 1] == (" " + b)[i - 1] == b[i - 2];
      assert i == 1 ==> f[0] == (" " + b)[0];
    }
  }

  lemma BlankInFront(b: string, w: nat)
    ensures " " + b + Repeat(' ', w - 1 - |b|) == b + Repeat(' ', w - |b|) <==> w > |b| && Blank(b)
  {
    var f, g := " " + b + Repeat(' ', w - 1 - |b|), b + Repeat(' ', w - |b|);
    if w <= |b| {
      assert |f| == |b| + 1 && |g| == |b|;
    } else if Blank(b) {
      assert f == Repeat(' ', w) && g == Repeat(' ', w);
    } else if f == g {
      BlankTravels(b, f, |b|);
    }
  }

  /** A blank before the body and flag -: only blanks look the same. */
  lemma BlankLeft(p: string, q: string, b: string, k: nat, c: string, w: nat)
    requires c == Repeat('0', k) + b
    requires Leads(p, q) && p in {"", "0x"} && (p == q != "" ==> b != "" && b[0] != ' ')
    requires Digits(b) || (p == q && k == 0)
    ensures Same(p + " " + b + Repeat(' ', w - |p + " "| - |b|),
                 q + c + Repeat(' ', w - |q| - |c|)) <==>
              p == "" && k == 0 && w > |b| && Blank(b)
  {
    var m, n := w - |p| - 1 - |b|, w - |q| - |c|;
    var tail := Repeat('0', k) + b;
    var f, g := p + " " + b + Repeat(' ', m), q + tail + Repeat(' ', n);
    if p != q {
      OnlyLeadHasX(p, q, b, k);
      assert 'x' in f && 'x' !in g;
    } else if p == "0x" {
      assert f[2] == ' ' && g[2] == tail[0] != ' ';
    } else if k > 0 {
      assert f[0] == ' ' && g[0] == '0';
    } else {
      assert tail == b && g == b + Repeat(' ', n) && f == " " + b + Repeat(' ', m);
      BlankInFront(b, w);
    }
  }

  /** A blank and flag 0, without a precision. */
  lemma BlankZero(p: string, q: string, b: string, k: nat, c: string, w: nat)
    requires c == Repeat('0', k) + b
    requires Leads(p, q) && p in {"", "0x"} && Digits(b)
    ensures !Same(p + " " + Repeat('0', w - |p + " "| - |b|) + b,
                  q + Repeat('0', w - |q| - |c|) + c)
  {
    var m, n := w - |p| - 1 - |b|, w - |q| - |c|;
    assert (p + " ")[|p|] == ' ';
    assert ' ' in p + " " + Repeat('0', m) + b;
    assert ' ' !in Repeat('0', n) && ' ' !in Repeat('0', k) && ' ' !in b && ' ' !in q;
  }

  /** The same with a precision: only where the standard has a single blank. */
  lemma BlankAgainstBlank(p: string, q: string, b: string, k: nat, c: string, w: nat)
    requires c == Repeat('0', k) + b
    requires Leads(p, q) && p in {"", "0x"} && Digits(b)
    ensures Same(p + " " + Repeat('0', w - |p + " "| - |b|) + b,
                 Repeat(' ', w - |q| - |c|) + q + c) <==>
              p == "" && w == |b| + k + 1
  {
    var m, n := w - |p| - 1 - |b|, w - |q| - |c|;
    var tail := Repeat('0', k) + b;
    var f, g := p + " " + Repeat('0', m) + b, Repeat(' ', n) + q + tail;
    if p == "0x" {
      assert f[0] == '0' && f[2] == ' ' && f[1] == 'x';
      if n > 0 {
        assert g[0] == ' ';
      } else {
        assert g == q + tail && ' ' !in q && ' ' !in tail && ' ' in f;
      }
    } else if n == 1 {
      assert Repeat(' ', n) == " " && q == "";
      assert f == " " + (Repeat('0', m) + b) && g == " " + tail;
      assert Repeat('0', m) == Repeat('0', k);
    } else if n > 1 {
      assert g[1] == ' ';
      assert ' ' !in Repeat('0', m) + b && f[1..] == Repeat('0', m) + b;
      assert |f| > 1 ==> f[1] == (Repeat('0', m) + b)[0];
    } else {
      assert g == tail && ' ' !in tail && f[0] == ' ';
    }
  }

  /** A blank before the body, without flags: it may be one of the blanks that fill the width. */
  lemma BlankRight(p: string, q: string, b: string, k: nat, c: string, w: nat)
    requires c == Repeat('0', k) + b
    requires Leads(p, q) && p in {"", "0x"} && (Digits(b) || (p == q && k == 0))
    ensures Same(Repeat(' ', w - |p + " "| - |b|) + (p + " ") + b,
                 Repeat(' ', w - |q| - |c|) + q + c) <==>
              p == "" && k == 0 && w > |b|
  {
    hide Leads;
    var m, n := w - |p| - 1 - |b|, w - |q| - |c|;
    var tail := Repeat('0', k) + b;
    var f, g := Repeat(' ', m) + (p + " ") + b, Repeat(' ', n) + q + tail;
    if p != q {
      OnlyLeadHasX(p, q, b, k);
      assert p[1] == 'x';
      assert 'x' in p + " " && 'x' in f && 'x' !in g;
    } else {
      assert g == (Repeat(' ', n) + q + Repeat('0', k)) + b;
      SameSuffix(Repeat(' ', m) + (p + " "), Repeat(' ', n) + q + Repeat('0', k), b);
      var c, d := Repeat(' ', m) + (p + " "), Repeat(' ', n) + q + Repeat('0', k);
      assert c[|c| - 1] == ' ';
      if k > 0 {
        assert d[|d| - 1] == '0';
      } else if p == "0x" {
        assert d[|d| - 1] == 'x';
      } else {
        assert d == Repeat(' ', n) && c == Repeat(' ', AtLeast0(m) + 1);
      }
    }
  }

  /** Flag 0 without right justification: the lead of the code is lost. */
  lemma LeadLost(l: string, q: string, b: string, k: nat, c: string, w: nat, minus: bool)
    requires c == Repeat('0', k) + b
    requires Digits(b) && (l == "" ==> q == "") && (!minus ==> w == 0)
    ensures Same(b + Repeat(' ', if minus then w - |l| - |b| else 0),
                 q + c + Repeat(' ', w - |q| - |c|)) <==>
              q == "" && k == 0 && (l == "" || w <= |b|)
  {
    var m, n := if minus then w - |l| - |b| else 0, w - |q| - |c|;
    var tail := Repeat('0', k) + b;
    var f, g := b + Repeat(' ', m), q + tail + Repeat(' ', n);
    if q == "" && k == 0 {
      assert tail == b && g == b + Repeat(' ', n);
      SamePrefix(b, Repeat(' ', m), Repeat(' ', n));
      assert |Repeat(' ', m)| == AtLeast0(m) && |Repeat(' ', n)| == AtLeast0(n);
      if AtLeast0(m) == AtLeast0(n) {
        assert Repeat(' ', m) == Repeat(' ', n);
      }
    } else if |f| == |g| {
      assert l == "" && k > 0;
      assert g == tail + Repeat(' ', n);
      BlanksBehind(b, tail, m, n);
    }
  }

  // ------------------------------------------------------------ a width that the code does not see

  lemma UnfilledPlain(p: string, q: string, b: string, k: nat, c: string, w: nat)
    requires c == Repeat('0', k) + b
    requires Leads(p, q) && (Digits(b) || (p == q && k == 0))
    ensures Same(p + b, q + c + Repeat(' ', w - |q| - |c|)) <==> p == q && k == 0 && w <= |p| + |c|
    ensures Same(p + b, Repeat(' ', w - |q| - |c|) + q + c) <==> p == q && k == 0 && w <= |p| + |c|
  {
    var n := w - |q| - |c|;
    var f, g, h := p + b, q + c + Repeat(' ', n), Repeat(' ', n) + q + c;
    if p != q {
      OnlyLeadHasX(p, q, b, k);
      assert 'x' in f && 'x' !in g && 'x' !in h;
    } else {
      assert |f| == |p| + |b| && |g| == |h| == |p| + k + |b| + AtLeast0(n);
      assert k == 0 && n <= 0 ==> c == b && g == f && h == f;
    }
  }

  lemma UnfilledBlankLeft(p: string, q: string, b: string, k: nat, c: string, w: nat)
    requires c == Repeat('0', k) + b
    requires Leads(p, q) && p in {"", "0x"} && (p == q != "" ==> b != "" && b[0] != ' ')
    requires Digits(b) || (p == q && k == 0)
    ensures Same(p + " " + b, q + c + Repeat(' ', w - |q| - |c|)) <==> p == "" && k == 0 && w == |b| + 1 && Blank(b)
  {
    var n := w - |q| - |c|;
    var f, g := p + " " + b, q + c + Repeat(' ', n);
    if p != q {
      OnlyLeadHasX(p, q, b, k);
      assert 'x' in f && 'x' !in g;
    } else if p == "0x" {
      assert f[2] == ' ' && g[2] == c[0] != ' ';
    } else if k > 0 {
      assert f[0] == ' ' && g[0] == '0';
    } else {
      assert c == b && g == b + Repeat(' ', w - |b|) && f == " " + b;
      BlankInFront(b, |b| + 1);
      assert " " + b + Repeat(' ', 0) == " " + b;
      assert |f| == |g| ==> w == |b| + 1;
    }
  }

  lemma UnfilledBlankRight(p: string, q: string, b: string, k: nat, c: string, w: nat)
    requires c == Repeat('0', k) + b
    requires Leads(p, q) && p in {"", "0x"} && (Digits(b) || (p == q && k == 0))
    ensures Same(p + " " + b, Repeat(' ', w - |q| - |c|) + q + c) <==> p == "" && k == 0 && w == |b| + 1
  {
    hide Leads;
    var n := w - |q| - |c|;
    var f, g := p + " " + b, Repeat(' ', n) + q + c;
    if p != q {
      OnlyLeadHasX(p, q, b, k);
      assert p[1] == 'x';
      assert 'x' in p + " " && 'x' in f && 'x' !in g;
    } else {
      var x, y := p + " ", Repeat(' ', n) + q + Repeat('0', k);
      assert g == y + b;
      SameSuffix(x, y, b);
      assert x[|x| - 1] == ' ';
      if k > 0 {
        assert y[|y| - 1] == '0';
      } else if p == "0x" {
        assert y[|y| - 1] == 'x';
      } else {
        assert x == " " && y == Repeat(' ', n) && |y| == AtLeast0(n);
        assert Repeat(' ', 1) == " ";
      }
    }
  }

  lemma UnfilledPlus(p: string, q: string, b: string, k: nat, c: string, w: nat)
    requires c == Repeat('0', k) + b
    requires Leads(p, q) && p in {"", "0x"}
    ensures !Same(p + "+" + b, q + c + Repeat(' ', w - |q| - |c|))
    ensures !Same(p + "+" + b, Repeat(' ', w - |q| - |c|) + q + c)
  {
    hide Repeat, Count, Leads;
    var y := Repeat(' ', w - |q| - |c|);
    PlusBehind(p, q, b, k, "", y);
    assert p + "+" + b + "" == p + "+" + b;
    PlusShows(p, q, b, k, "", "", y);
    assert "" + (p + "+") + b + "" == p + "+" + b;
    assert y + q + c + "" == y + q + c;
  }

  lemma UnfilledLost(q: string, b: string, k: nat, c: string, w: nat)
    requires c == Repeat('0', k) + b
    ensures Same(b, q + c + Repeat(' ', w - |q| - |c|)) <==> q == "" && k == 0 && w <= |b|
    ensures Same(b, q + Repeat('0', w - |q| - |c|) + c) <==> q == "" && k == 0 && w <= |b|
    ensures Same(b, Repeat(' ', w - |q| - |c|) + q + c) <==> q == "" && k == 0 && w <= |b|
  {
    var n := w - |q| - |c|;
    assert |q + c + Repeat(' ', n)| == |q| + k + |b| + AtLeast0(n);
    assert |q + Repeat('0', n) + c| == |q| + k + |b| + AtLeast0(n);
    assert |Repeat(' ', n) + q + c| == |q| + k + |b| + AtLeast0(n);
    if q == "" && k == 0 && w <= |b| {
      assert c == b;
    }
  }

  // ------------------------------------------------------------ a precision of a string that the code does not see
  //
  // The code prints all of `s`, the standard its first `n` characters; the code fills the width `v`.

  /** The width reaches to the end of what the code prints: where it sees the width that is enough. */
  predicate Reaches(v: nat, w: nat, length: nat) {
    if v == w then w >= length else w == length
  }

  lemma TotalLength(a: string, v: nat, b: string, w: nat)
    requires |b| < |a| && (v == w || v == 0)
    ensures |a| + AtLeast0(v - |a|) == |b| + AtLeast0(w - |b|) <==> Reaches(v, w, |a|)
  {
  }

  lemma CutLeft(s: string, n: nat, v: nat, w: nat)
    requires n < |s| && (v == w || v == 0)
    ensures Same(s + Repeat(' ', v - |s|), s[..n] + Repeat(' ', w - n)) <==> Reaches(v, w, |s|) && Blank(s[n..])
  {
    var f, g := s + Repeat(' ', v - |s|), s[..n] + Repeat(' ', w - n);
    TotalLength(s, v, s[..n], w);
    if |f| == |g| {
      if Blank(s[n..]) {
        assert forall i :: n <= i < |s| ==> s[i] == s[n..][i - n];
        assert forall i :: 0 <= i < |f| ==> f[i] == g[i];
      } else {
        var i :| 0 <= i < |s[n..]| && s[n..][i] != ' ';
        assert f[n + i] != ' ' && g[n + i] == ' ';
      }
    }
  }

  lemma {:induction false} ShiftTravels(s: string, d: nat, i: nat)
    requires d > 0 && i <= |s|
    requires forall j :: 0 <= j < |s| && j < d ==> s[j] == ' '
    requires forall j :: d <= j < |s| ==> s[j] == s[j - d]
    ensures forall j :: 0 <= j < i ==> s[j] == ' '
  {
    if i > 0 {
      ShiftTravels(s, d, i - 1);
      assert i - 1 >= d ==> s[i - 1] == s[i - 1 - d];
    }
  }

  /** A string behind blanks, and its beginning behind more of them. */
  lemma Shifted(s: string, n: nat, m: nat)
    requires n < |s|
    ensures Same(Repeat(' ', m) + s, Repeat(' ', m + |s| - n) + s[..n]) <==> Blank(s)
  {
    var f, g := Repeat(' ', m) + s, Repeat(' ', m + |s| - n) + s[..n];
    if Blank(s) {
      assert forall i :: 0 <= i < |f| ==> f[i] == g[i];
    } else if f == g {
      var d := |s| - n;
      forall j | 0 <= j < |s| && j < d ensures s[j] == ' ' {
        assert f[m + j] == s[j] && g[m + j] == ' ';
      }
      forall j | d <= j < |s| ensures s[j] == s[j - d] {
        assert f[m + j] == s[j] && g[m + j] == s[..n][j - d];
      }
      ShiftTravels(s, d, |s|);
    }
  }

  lemma CutRight(s: string, n: nat, v: nat, w: nat)
    requires n < |s| && (v == w || v == 0)
    ensures Same(Repeat(' ', v - |s|) + s, Repeat(' ', w - n) + s[..n]) <==> Reaches(v, w, |s|) && Blank(s)
  {
    var f, g := Repeat(' ', v - |s|) + s, Repeat(' ', w - n) + s[..n];
    TotalLength(s, v, s[..n], w);
    if |f| == |g| {
      var m := AtLeast0(v - |s|);
      assert Repeat(' ', v - |s|) == Repeat(' ', m) && Repeat(' ', w - n) == Repeat(' ', m + |s| - n);
      Shifted(s, n, m);
    }
  }

  lemma CutBlankRight(s: string, n: nat, v: nat, w: nat)
    requires n < |s| && (v == w || v == 0)
    ensures Same(Repeat(' ', v - 1 - |s|) + " " + s, Repeat(' ', w - n) + s[..n]) <==>
      Reaches(v, w, |s| + 1) && Blank(s)
  {
    var f, g := Repeat(' ', v - 1 - |s|) + " " + s, Repeat(' ', w - n) + s[..n];
    TotalLength(" " + s, v, s[..n], w);
    var m := AtLeast0(v - 1 - |s|) + 1;
    assert Repeat(' ', v - 1 - |s|) + " " == Repeat(' ', m);
    assert |f| == m + |s|;
    if |f| == |g| {
      assert Repeat(' ', w - n) == Repeat(' ', m + |s| - n);
      Shifted(s, n, m);
    }
  }

  lemma CutBlankLeft(s: string, n: nat, v: nat, w: nat)
    requires 0 < n < |s| && (v == w || v == 0)
    ensures Same(" " + s + Repeat(' ', v - 1 - |s|), s[..n] + Repeat(' ', w - n)) <==>
      Reaches(v, w, |s| + 1) && Blank(s)
  {
    var f, g := " " + s + Repeat(' ', v - 1 - |s|), s[..n] + Repeat(' ', w - n);
    TotalLength(" " + s, v, s[..n], w);
    if |f| == |g| {
      if Blank(s) {
        assert forall i :: 0 <= i < |f| ==> f[i] == ' ' == g[i];
      } else if f == g {
        var t := s[..n];
        forall j | 0 <= j < n && j < 1 ensures t[j] == ' ' {
          assert f[j] == ' ' && g[j] == t[j];
        }
        forall j | 1 <= j < n ensures t[j] == t[j - 1] {
          assert f[j] == s[j - 1] && g[j] == t[j];
        }
        ShiftTravels(t, 1, n);
        forall j | 0 <= j < n ensures s[j] == ' ' {
          assert s[j] == t[j];
        }
        forall j | n <= j < |s| ensures s[j] == ' ' {
          assert f[j + 1] == s[j] && g[j + 1] == ' ';
        }
      }
    }
  }

  lemma CutPlus(s: string, n: nat, v: int, w: int)
    requires n < |s|
    ensures !Same("+" + s + Repeat(' ', v), s[..n] + Repeat(' ', w))
    ensures !Same(Repeat(' ', v) + "+" + s, Repeat(' ', w) + s[..n])
  {
    hide Repeat;
    assert s == s[..n] + s[n..];
    CountSum(s[..n], s[n..], '+');
    CountSum("+", s, '+');
    CountSum("+" + s, Repeat(' ', v), '+');
    CountSum(s[..n], Repeat(' ', w), '+');
    CountSum(Repeat(' ', v), "+", '+');
    CountSum(Repeat(' ', v) + "+", s, '+');
    CountSum(Repeat(' ', w), s[..n], '+');
    CountOther(' ', v, '+');
    CountOther(' ', w, '+');
    assert multiset("+") == multiset{'+'};
  }
}
