/**
 Ruby's `String#to_f`, read as an exact decimal rather than a float: leading
 white space, an optional sign, decimal digits (a single `_` may stand between
 two digits), and an optional `.` followed by digits. Whatever follows is
 ignored, and a string with no digits in that position reads as zero.
 */
module Numeral {
  import opened Options

  /** A signed decimal `digits / 10^scale`. */
  datatype Decimal = Decimal(negative: bool, digits: string, scale: nat)

  const Zero := Decimal(false, "", 0)

  predicate IsDigit(c: char) {
    '0' <= c <= '9'
  }

  predicate AllDigits(ds: string) {
    forall i :: 0 <= i < |ds| ==> IsDigit(ds[i])
  }

  /** The white space Ruby skips before a number: blank, tab, line feed, vertical tab, form feed, carriage return. */
  predicate IsSpace(c: char) {
    c == ' ' || c == '\t' || c == '\n' || c == '\U{000B}' || c == '\U{000C}' || c == '\r'
  }

  function Pow10(n: nat): (r: nat)
    ensures r >= 1
  {
    if n == 0 then 1 else 10 * Pow10(n - 1)
  }

  /** The natural number written by the decimal digits `ds`; the empty string is 0. */
  function DigitsValue(ds: string): nat
    requires AllDigits(ds)
  {
    if ds == [] then 0
    else 10 * DigitsValue(ds[..|ds| - 1]) + (ds[|ds| - 1] as int - '0' as int)
  }

  /** The exact value of a decimal. */
  function Value(d: Decimal): real
    requires AllDigits(d.digits)
  {
    var magnitude := DigitsValue(d.digits) as real / Pow10(d.scale) as real;
    if d.negative then -magnitude else magnitude
  }

  /** Drops leading white space. */
  function SkipSpaces(s: string): (r: string)
    ensures |r| <= |s| && r == s[|s| - |r|..]
    ensures forall i :: 0 <= i < |s| - |r| ==> IsSpace(s[i])
    ensures r == [] || !IsSpace(r[0])
  {
    if s != [] && IsSpace(s[0]) then SkipSpaces(s[1..]) else s
  }

  /**
   The leading run of digits of `s`, with every `_` that stands between two
   digits removed, and what follows that run.
   */
  function LeadingDigits(s: string): (r: (string, string))
    ensures AllDigits(r.0)
    ensures r.0 == [] <==> (s == [] || !IsDigit(s[0]))
    ensures r.0 != [] ==> r.0[0] == s[0]
    ensures r.1 == [] || !IsDigit(r.1[0])
  {
    if s == [] || !IsDigit(s[0]) then ("", s)
    else
      var skip := if |s| >= 3 && s[1] == '_' && IsDigit(s[2]) then 2 else 1;
      var more := LeadingDigits(s[skip..]);
      ([s[0]] + more.0, more.1)
  }

  /** Position `i` of `t` holds a digit, or an `_` with a digit on each side. */
  predicate GroupedAt(t: string, i: nat)
    requires i < |t|
  {
    IsDigit(t[i]) || (t[i] == '_' && 0 < i < |t| - 1 && IsDigit(t[i - 1]) && IsDigit(t[i + 1]))
  }

  /** Digits in which every `_` stands between two digits, as Ruby accepts in a number. */
  predicate DigitGroups(t: string) {
    forall i :: 0 <= i < |t| ==> GroupedAt(t, i)
  }

  /** `t` with its underscores removed. */
  function DropUnderscores(t: string): (r: string)
    ensures |r| <= |t|
  {
    if t == [] then []
    else (if t[0] == '_' then [] else [t[0]]) + DropUnderscores(t[1..])
  }

  /** A digit in front of digit groups, with or without an `_` between, gives digit groups. */
  lemma GroupsPrefix(c: char, underscore: bool, t: string)
    requires IsDigit(c) && DigitGroups(t)
    requires underscore ==> t != [] && IsDigit(t[0])
    ensures DigitGroups([c] + (if underscore then "_" else "") + t)
  {
    var u := [c] + (if underscore then "_" else "") + t;
    var skip := if underscore then 2 else 1;
    forall i | 0 <= i < |u|
      ensures GroupedAt(u, i)
    {
      if i >= skip {
        var j := i - skip;
        assert GroupedAt(t, j);
        assert u[i] == t[j];
        if u[i] == '_' {
          assert u[i - 1] == t[j - 1] && u[i + 1] == t[j + 1];
        }
      } else if i == 1 {
        assert u[0] == c && u[1] == '_' && u[2] == t[0];
      } else {
        assert u[0] == c;
      }
    }
  }

  /** How many characters `LeadingDigits` consumes from the front of `s`. */
  function Consumed(s: string): nat {
    var rest := LeadingDigits(s).1;
    if |rest| <= |s| then |s| - |rest| else 0
  }

  /** What `LeadingDigits` leaves is the rest of `s` after the consumed prefix, and it cannot be extended by `_digit`. */
  lemma {:induction false} LeadingDigitsRest(s: string)
    ensures |LeadingDigits(s).1| <= |s|
    ensures LeadingDigits(s).1 == s[Consumed(s)..]
    ensures var rest := LeadingDigits(s).1;
      !(Consumed(s) > 0 && |rest| >= 2 && rest[0] == '_' && IsDigit(rest[1]))
    decreases |s|
  {
    if s != [] && IsDigit(s[0]) {
      var underscore := |s| >= 3 && s[1] == '_' && IsDigit(s[2]);
      var skip := if underscore then 2 else 1;
      var s' := s[skip..];
      LeadingDigitsRest(s');
      var rest := LeadingDigits(s').1;
      assert LeadingDigits(s) == ([s[0]] + LeadingDigits(s').0, rest);
      var k' := Consumed(s');
      assert k' == |s'| - |rest|;
      assert Consumed(s) == skip + k';
      assert s'[k'..] == s[skip + k'..];
      if k' == 0 && |rest| >= 2 && rest[0] == '_' {
        assert rest == s' && !underscore;
        assert s[1] == '_' && s[2] == rest[1];
      }
    }
  }

  /** After an underscore that joins two digits, reading continues: the digits behind it are consumed too. */
  lemma UnderscoreJoins(s: string)
    requires |s| >= 3 && IsDigit(s[0]) && s[1] == '_' && IsDigit(s[2])
    ensures Consumed(s[2..]) > 0
  {
    LeadingDigitsRest(s[2..]);
    assert s[2..][0] == s[2];
  }

  /** The consumed prefix is made of digit groups. */
  lemma {:induction false} LeadingDigitsGroups(s: string)
    ensures DigitGroups(s[..Consumed(s)])
    decreases |s|
  {
    LeadingDigitsRest(s);
    if s != [] && IsDigit(s[0]) {
      var underscore := |s| >= 3 && s[1] == '_' && IsDigit(s[2]);
      var skip := if underscore then 2 else 1;
      var s' := s[skip..];
      LeadingDigitsGroups(s');
      LeadingDigitsRest(s');
      var t' := s'[..Consumed(s')];
      assert Consumed(s) == skip + Consumed(s');
      if underscore {
        UnderscoreJoins(s);
        assert t'[0] == s[2];
      }
      assert s[..Consumed(s)] == [s[0]] + (if underscore then "_" else "") + t';
      GroupsPrefix(s[0], underscore, t');
    } else {
      assert s[..0] == [];
    }
  }

  /** The digits returned are the consumed prefix without its underscores. */
  lemma {:induction false} LeadingDigitsDropped(s: string)
    ensures LeadingDigits(s).0 == DropUnderscores(s[..Consumed(s)])
    decreases |s|
  {
    LeadingDigitsRest(s);
    if s != [] && IsDigit(s[0]) {
      var underscore := |s| >= 3 && s[1] == '_' && IsDigit(s[2]);
      var skip := if underscore then 2 else 1;
      var s' := s[skip..];
      LeadingDigitsDropped(s');
      LeadingDigitsRest(s');
      var t' := s'[..Consumed(s')];
      var t := s[..Consumed(s)];
      assert Consumed(s) == skip + Consumed(s');
      assert LeadingDigits(s).0 == [s[0]] + LeadingDigits(s').0;
      var middle := if underscore then "_" else "";
      assert t == [s[0]] + middle + t';
      assert t[1..] == middle + t';
      assert DropUnderscores(t) == [s[0]] + DropUnderscores(middle + t');
      if underscore {
        assert (middle + t')[1..] == t';
      } else {
        assert middle + t' == t';
      }
      assert DropUnderscores(middle + t') == DropUnderscores(t');
    } else {
      assert s[..0] == [];
    }
  }

  /**
   `LeadingDigits` consumes the longest prefix made of digit groups and returns
   that prefix without underscores, together with the untouched rest of `s`.
   */
  lemma LeadingDigitsSpec(s: string)
    ensures var r := LeadingDigits(s);
      && |r.1| <= |s| && r.1 == s[|s| - |r.1|..]
      && DigitGroups(s[..|s| - |r.1|])
      && r.0 == DropUnderscores(s[..|s| - |r.1|])
      && !(|s| > |r.1| && |r.1| >= 2 && r.1[0] == '_' && IsDigit(r.1[1]))
  {
    LeadingDigitsRest(s);
    LeadingDigitsGroups(s);
    LeadingDigitsDropped(s);
  }

  /** `s.to_f` as an exact decimal. */
  function ToF(s: string): (d: Decimal)
    ensures AllDigits(d.digits)
    ensures d.scale <= |d.digits|
    ensures d.negative <==> SkipSpaces(s) != [] && SkipSpaces(s)[0] == '-'
  {
    var t := SkipSpaces(s);
    var negative := t != [] && t[0] == '-';
    var unsigned := if t != [] && (t[0] == '-' || t[0] == '+') then t[1..] else t;
    ReadUnsigned(negative, unsigned)
  }

  /** The number after its sign: whole digits, then a point and fraction digits if a digit follows the point. */
  function ReadUnsigned(negative: bool, u: string): (d: Decimal)
    ensures AllDigits(d.digits)
    ensures d.scale <= |d.digits|
    ensures d.negative == negative
  {
    var whole := LeadingDigits(u);
    var rest := whole.1;
    if |rest| >= 2 && rest[0] == '.' && IsDigit(rest[1]) then
      var fraction := LeadingDigits(rest[1..]).0;
      Decimal(negative, whole.0 + fraction, |fraction|)
    else
      Decimal(negative, whole.0, 0)
  }

  /** Writes whole and fraction digits out, with a point only when there is a fraction. */
  function RenderUnsigned(whole: string, frac: string): (r: string)
    requires AllDigits(whole)
    ensures r == [] || r[0] == '.' || IsDigit(r[0])
  {
    assert whole != [] ==> (whole + (if frac != [] then "." + frac else ""))[0] == whole[0];
    whole + (if frac != [] then "." + frac else "")
  }

  /** Writes a decimal out in the plain form `-ddd.ddd`, with no point when there is no fraction. */
  function Render(d: Decimal): string
    requires AllDigits(d.digits) && d.scale <= |d.digits|
  {
    var k := |d.digits| - d.scale;
    (if d.negative then "-" else "") + RenderUnsigned(d.digits[..k], d.digits[k..])
  }

  /** A run of digits followed by something that neither continues nor joins it is read back exactly. */
  lemma {:induction false} LeadingDigitsExact(ds: string, rest: string)
    requires AllDigits(ds)
    requires rest == [] || (!IsDigit(rest[0]) && rest[0] != '_')
    ensures LeadingDigits(ds + rest) == (ds, rest)
    decreases |ds|
  {
    if ds != [] {
      var s := ds + rest;
      assert s[0] == ds[0];
      assert |s| >= 2 ==> s[1] != '_' by {
        if |ds| >= 2 { assert s[1] == ds[1]; } else if |s| >= 2 { assert s[1] == rest[0]; }
      }
      assert s[1..] == ds[1..] + rest;
      LeadingDigitsExact(ds[1..], rest);
      assert LeadingDigits(s) == ([s[0]] + LeadingDigits(s[1..]).0, LeadingDigits(s[1..]).1);
      assert [ds[0]] + ds[1..] == ds;
    } else {
      assert ds + rest == rest;
    }
  }

  /** The unsigned part of a written-out decimal is read back exactly. */
  lemma ReadUnsignedExact(negative: bool, whole: string, frac: string)
    requires AllDigits(whole) && AllDigits(frac)
    ensures ReadUnsigned(negative, RenderUnsigned(whole, frac)) == Decimal(negative, whole + frac, |frac|)
  {
    var rest := if frac != [] then "." + frac else "";
    LeadingDigitsExact(whole, rest);
    if frac != [] {
      assert rest[1..] == frac + "";
      LeadingDigitsExact(frac, "");
    } else {
      assert whole + frac == whole;
    }
  }

  /** A text starting with a minus sign is read as the negated reading of what follows the sign. */
  lemma ToFMinus(text: string)
    requires text != [] && text[0] == '-'
    ensures ToF(text) == ReadUnsigned(true, text[1..])
  {
  }

  /** A text starting with a digit or a point, or empty, is read without sign or white space. */
  lemma ToFPlain(text: string)
    requires text == [] || text[0] == '.' || IsDigit(text[0])
    ensures ToF(text) == ReadUnsigned(false, text)
  {
  }

  /** An `_` between two digits is skipped: the digits on both sides are read as one run. */
  lemma LeadingDigitsUnderscore(d: char, ds: string, rest: string)
    requires IsDigit(d) && ds != [] && AllDigits(ds)
    requires rest == [] || (!IsDigit(rest[0]) && rest[0] != '_')
    ensures LeadingDigits([d] + "_" + ds + rest) == ([d] + ds, rest)
  {
    var s := [d] + "_" + ds + rest;
    assert s[0] == d && s[1] == '_' && s[2] == ds[0];
    assert s[2..] == ds + rest;
    LeadingDigitsExact(ds, rest);
  }

  /** `"0_5".to_f` is 5, so it passes the amount check although it starts with `0`. */
  lemma UnderscoreAmountAccepted()
    ensures AmountPositive(Some("0_5"))
  {
    var s := "0_5";
    assert s == ['0'] + "_" + "5" + "";
    LeadingDigitsUnderscore('0', "5", "");
    ToFPlain(s);
    assert ReadUnsigned(false, s) == Decimal(false, "05", 0);
    assert "05"[1] != '0';
  }

  /** Reading back a written-out decimal gives the same decimal. */
  lemma ToFRender(d: Decimal)
    requires AllDigits(d.digits) && d.scale <= |d.digits|
    ensures ToF(Render(d)) == d
  {
    var k := |d.digits| - d.scale;
    var whole, frac := d.digits[..k], d.digits[k..];
    var unsigned := RenderUnsigned(whole, frac);
    assert whole + frac == d.digits;
    ReadUnsignedExact(d.negative, whole, frac);
    var text := Render(d);
    if d.negative {
      assert text == "-" + unsigned;
      assert text[1..] == unsigned;
      ToFMinus(text);
    } else {
      assert text == unsigned;
      ToFPlain(text);
    }
  }

  /** `x.to_f` for an argument that may be `nil`; `nil.to_f` is zero. */
  function ArgToF(x: Option<string>): (d: Decimal)
    ensures AllDigits(d.digits)
    ensures x.None? ==> Value(d) == 0.0
  {
    match x
    case None => Zero
    case Some(s) => ToF(s)
  }

  /** `x.to_f > 0.0`. */
  function AmountPositive(x: Option<string>): (positive: bool)
    ensures x.None? ==> !positive
    ensures positive <==> !ArgToF(x).negative && HasNonzeroDigit(ArgToF(x).digits)
  {
    PositiveIff(ArgToF(x));
    Value(ArgToF(x)) > 0.0
  }

  /** Reference reading of positivity: a digit string writes a positive number exactly when one of its digits is not `0`. */
  predicate HasNonzeroDigit(ds: string) {
    exists i :: 0 <= i < |ds| && ds[i] != '0'
  }

  lemma {:induction false} DigitsValuePositive(ds: string)
    requires AllDigits(ds)
    ensures DigitsValue(ds) > 0 <==> HasNonzeroDigit(ds)
  {
    if ds != [] {
      var init := ds[..|ds| - 1];
      DigitsValuePositive(init);
      if HasNonzeroDigit(init) {
        var i :| 0 <= i < |init| && init[i] != '0';
        assert ds[i] != '0';
      }
      if HasNonzeroDigit(ds) && !HasNonzeroDigit(init) {
        assert ds[|ds| - 1] != '0';
      }
    }
  }

  /** A decimal is greater than zero exactly when it has no minus sign and a non-zero digit. */
  lemma PositiveIff(d: Decimal)
    requires AllDigits(d.digits)
    ensures Value(d) > 0.0 <==> !d.negative && HasNonzeroDigit(d.digits)
  {
    DigitsValuePositive(d.digits);
    var n := DigitsValue(d.digits) as real;
    var p := Pow10(d.scale) as real;
    if n > 0.0 {
      assert n / p > 0.0;
    } else {
      assert n / p == 0.0;
    }
  }

  /** A missing amount fails the amount check. */
  lemma MissingAmountRejected()
    ensures !AmountPositive(None)
  {
  }

  /** A number written with a minus sign is never a valid amount, whatever its digits. */
  lemma MinusRejected(s: string)
    requires s != [] && s[0] == '-'
    ensures !AmountPositive(Some(s))
  {
    PositiveIff(ToF(s));
  }

  /** A string that does not start with white space, a sign, a digit or a point reads as zero and fails the amount check. */
  lemma NonNumericRejected(s: string)
    requires s == [] || !(IsSpace(s[0]) || IsDigit(s[0]) || s[0] in "+-.")
    ensures !AmountPositive(Some(s))
  {
    assert SkipSpaces(s) == s;
    assert ToF(s) == ReadUnsigned(false, s);
    assert LeadingDigits(s) == ("", s);
  }

  /** A string that starts with a non-zero digit passes the amount check, whatever follows it. */
  lemma NonzeroLeadAccepted(s: string)
    requires s != [] && '1' <= s[0] <= '9'
    ensures AmountPositive(Some(s))
  {
    PositiveIff(ToF(s));
    assert ToF(s).digits[0] == s[0];
  }
}
