/**
 * The `Edm.Double` literal handler (class Double): it recognises a
 * floating-point literal in a URI, strips its optional `d`/`D` suffix,
 * answers type-compatibility queries and renders a value back into URI form.
 */
module DoubleType {
  import opened Wrappers
  import opened PhpStrings
  import opened MetadataType

  /** The exponent part of a literal: `E` or `e`, an optional sign, digits. */
  datatype Exponent = Exponent(marker: char, sign: Option<char>, digits: string)

  /**
   * A literal of the pattern
   *   optional `-`, digits, optional (`.` digits), optional exponent, optional `d`/`D`
   * taken apart into its pieces.
   */
  datatype Literal = Literal(
    negative: bool,
    integral: string,
    fraction: Option<string>,
    exponent: Option<Exponent>,
    suffix: Option<char>)
  {
    predicate Valid() {
      |integral| > 0 && AllDigits(integral) && ValidTail(fraction, exponent, suffix)
    }

    /** The text of the literal, piece after piece. */
    function Render(): string {
      SignText(negative) + integral + FractionText(fraction) + ExponentText(exponent) + CharText(suffix)
    }
  }

  /** The pieces after the integral digits are well-formed. */
  predicate ValidTail(fraction: Option<string>, exponent: Option<Exponent>, suffix: Option<char>) {
    (fraction.Some? ==> |fraction.value| > 0 && AllDigits(fraction.value))
    && (exponent.Some? ==> ValidExponent(exponent.value))
    && (suffix.Some? ==> IsSuffix(suffix.value))
  }

  predicate IsSuffix(c: char) {
    c == 'd' || c == 'D'
  }

  predicate ValidExponent(e: Exponent) {
    (e.marker == 'E' || e.marker == 'e')
    && (e.sign.Some? ==> e.sign.value == '+' || e.sign.value == '-')
    && |e.digits| > 0 && AllDigits(e.digits)
  }

  function SignText(negative: bool): string {
    if negative then "-" else ""
  }

  function FractionText(fraction: Option<string>): string {
    if fraction.Some? then "." + fraction.value else ""
  }

  function ExponentText(exponent: Option<Exponent>): string {
    match exponent
    case None => ""
    case Some(e) => [e.marker] + CharText(e.sign) + e.digits
  }

  /** An optional single character: the exponent's sign, the suffix. */
  function CharText(c: Option<char>): string {
    if c.Some? then [c.value] else ""
  }

  /** The strings the pattern's body matches (between its anchors). */
  ghost predicate IsLiteral(s: string) {
    exists lit: Literal :: lit.Valid() && lit.Render() == s
  }

  /** The characters `rtrim($value, 'dD')` removes. */
  const SuffixChars: set<char> := {'d', 'D'}

  // ---------------------------------------------------------------------
  // The recogniser: a left-to-right scan of the pattern's pieces.

  /** The length of the run of digits at the front of `s`. */
  function DigitRun(s: string): (n: nat)
    ensures n <= |s| && AllDigits(s[..n])
    ensures n < |s| ==> !IsDigit(s[n])
  {
    if |s| > 0 && IsDigit(s[0]) then 1 + DigitRun(s[1..]) else 0
  }

  /** The pattern's `\d+`, taken greedily: the digits and what follows them. */
  function ParseDigits(s: string): (r: Option<(string, string)>)
    ensures r.Some? ==> |r.value.0| > 0 && AllDigits(r.value.0) && r.value.0 + r.value.1 == s
    ensures r.Some? ==> |r.value.1| > 0 ==> !IsDigit(r.value.1[0])
  {
    var n := DigitRun(s);
    if n == 0 then None
    else
      assert s == s[..n] + s[n..];
      Some((s[..n], s[n..]))
  }

  /** The optional `.` digits piece; None when a `.` is not followed by a digit. */
  function ParseFraction(s: string): (r: Option<(Option<string>, string)>)
    ensures r.Some? ==> FractionText(r.value.0) + r.value.1 == s
    ensures r.Some? && r.value.0.Some? ==> |r.value.0.value| > 0 && AllDigits(r.value.0.value)
  {
    if |s| > 0 && s[0] == '.' then
      assert s == "." + s[1..];
      match ParseDigits(s[1..])
      case None => None
      case Some((digits, rest)) => Some((Some(digits), rest))
    else
      Some((None, s))
  }

  /** The optional exponent piece; None when `E`/`e` (and a sign) is not followed by a digit. */
  function ParseExponent(s: string): (r: Option<(Option<Exponent>, string)>)
    ensures r.Some? ==> ExponentText(r.value.0) + r.value.1 == s
    ensures r.Some? && r.value.0.Some? ==> ValidExponent(r.value.0.value)
  {
    if |s| > 0 && (s[0] == 'E' || s[0] == 'e') then
      var sign := if |s| > 1 && (s[1] == '+' || s[1] == '-') then Some(s[1]) else None;
      var k := 1 + |CharText(sign)|;
      assert s == [s[0]] + CharText(sign) + s[k..] by {
        if sign.Some? { assert s == [s[0]] + [s[1]] + s[2..]; } else { assert s == [s[0]] + s[1..]; }
      }
      var digits := ParseDigits(s[k..]);
      if digits.None? then None
      else
        var e := Exponent(s[0], sign, digits.value.0);
        ExponentTextThen(e, digits.value.1);
        Some((Some(e), digits.value.1))
    else
      Some((None, s))
  }

  lemma ExponentTextThen(e: Exponent, rest: string)
    ensures ExponentText(Some(e)) + rest == [e.marker] + CharText(e.sign) + (e.digits + rest)
  {
  }

  /** The optional suffix, which must end the subject. */
  function ParseSuffix(s: string): (r: Option<Option<char>>)
    ensures r.Some? ==> CharText(r.value) == s && (r.value.Some? ==> IsSuffix(r.value.value))
  {
    if s == [] then Some(None)
    else if |s| == 1 && IsSuffix(s[0]) then Some(Some(s[0]))
    else None
  }

  /** Everything after the integral digits: fraction, exponent and suffix, in that order. */
  function ParseTail(s: string): (r: Option<(Option<string>, Option<Exponent>, Option<char>)>)
    ensures r.Some? ==> FractionText(r.value.0) + ExponentText(r.value.1) + CharText(r.value.2) == s
    ensures r.Some? ==> ValidTail(r.value.0, r.value.1, r.value.2)
  {
    var fraction := ParseFraction(s);
    if fraction.None? then None
    else
      var exponent := ParseExponent(fraction.value.1);
      if exponent.None? then None
      else
        var suffix := ParseSuffix(exponent.value.1);
        if suffix.None? then None
        else
          var f, e, x := FractionText(fraction.value.0), ExponentText(exponent.value.0), CharText(suffix.value);
          Associative(f, e, x);
          Some((fraction.value.0, exponent.value.0, suffix.value))
  }

  lemma Associative(a: string, b: string, c: string)
    ensures a + (b + c) == a + b + c
  {
  }

  /** The text of a literal as its sign, its integral digits and the rest. */
  lemma RenderPieces(lit: Literal)
    ensures lit.Render() == SignText(lit.negative) + (lit.integral + Tail(lit))
  {
  }

  /** What follows the integral digits of a literal. */
  function Tail(lit: Literal): string {
    FractionText(lit.fraction) + ExponentText(lit.exponent) + CharText(lit.suffix)
  }

  /** The recogniser is sound: whatever it returns is a well-formed literal spelling `s`. */
  function Parse(s: string): (r: Option<Literal>)
    ensures r.Some? ==> r.value.Valid() && r.value.Render() == s
  {
    var negative := |s| > 0 && s[0] == '-';
    var rest := if negative then s[1..] else s;
    assert s == SignText(negative) + rest;
    var digits := ParseDigits(rest);
    if digits.None? then None
    else
      var tail := ParseTail(digits.value.1);
      if tail.None? then None
      else
        var (fraction, exponent, suffix) := tail.value;
        var lit := Literal(negative, digits.value.0, fraction, exponent, suffix);
        RenderPieces(lit);
        Some(lit)
  }

  /**
   * `preg_match` with the anchored pattern: PCRE's `$` matches at the very end
   * and also just before one final line feed.
   */
  function Matches(value: string): (r: bool)
    ensures r <==> Parse(Subject(value)).Some?
  {
    if Parse(value).Some? then
      LiteralEnds(Parse(value).value);
      true
    else
      |value| > 0 && value[|value| - 1] == '\n' && Parse(value[..|value| - 1]).Some?
  }

  // ---------------------------------------------------------------------
  // The recogniser is complete: it takes apart every well-formed literal.

  lemma {:induction false} DigitRunOf(d: string, t: string)
    requires AllDigits(d)
    requires |t| > 0 ==> !IsDigit(t[0])
    ensures DigitRun(d + t) == |d|
  {
    if d != [] {
      assert (d + t)[0] == d[0];
      assert (d + t)[1..] == d[1..] + t;
      DigitRunOf(d[1..], t);
    } else {
      assert d + t == t;
    }
  }

  lemma ParseDigitsOf(d: string, t: string)
    requires |d| > 0 && AllDigits(d)
    requires |t| > 0 ==> !IsDigit(t[0])
    ensures ParseDigits(d + t) == Some((d, t))
  {
    DigitRunOf(d, t);
    assert (d + t)[..|d|] == d && (d + t)[|d|..] == t;
  }

  lemma ParseFractionOf(fraction: Option<string>, t: string)
    requires fraction.Some? ==> |fraction.value| > 0 && AllDigits(fraction.value)
    requires |t| > 0 ==> !IsDigit(t[0]) && t[0] != '.'
    ensures ParseFraction(FractionText(fraction) + t) == Some((fraction, t))
  {
    if fraction.Some? {
      var s := FractionText(fraction) + t;
      assert s[1..] == fraction.value + t;
      ParseDigitsOf(fraction.value, t);
    } else {
      assert FractionText(fraction) + t == t;
    }
  }

  lemma ParseExponentOf(exponent: Option<Exponent>, t: string)
    requires exponent.Some? ==> ValidExponent(exponent.value)
    requires |t| > 0 ==> !IsDigit(t[0]) && t[0] != 'E' && t[0] != 'e'
    ensures ParseExponent(ExponentText(exponent) + t) == Some((exponent, t))
  {
    if exponent.Some? {
      var e := exponent.value;
      var s := ExponentText(exponent) + t;
      var k := |CharText(e.sign)| + 1;
      assert s == [e.marker] + CharText(e.sign) + (e.digits + t);
      assert s[k..] == e.digits + t;
      assert e.sign.None? ==> !(s[1] == '+' || s[1] == '-') by {
        if e.sign.None? { assert s[1] == e.digits[0]; }
      }
      ParseDigitsOf(e.digits, t);
    } else {
      assert ExponentText(exponent) + t == t;
    }
  }

  /** What follows the integral digits starts with `.`, `E`, `e`, `d` or `D`, if anything follows. */
  lemma TailHead(lit: Literal)
    requires lit.Valid()
    ensures var t := Tail(lit); |t| > 0 ==> t[0] in {'.', 'E', 'e', 'd', 'D'}
  {
    var e, x := ExponentText(lit.exponent), CharText(lit.suffix);
    if lit.fraction.None? {
      assert Tail(lit) == e + x;
      if lit.exponent.None? {
        assert Tail(lit) == x;
      }
    }
  }

  lemma ParseTailOf(lit: Literal)
    requires lit.Valid()
    ensures ParseTail(Tail(lit)) == Some((lit.fraction, lit.exponent, lit.suffix))
  {
    var e, x := ExponentText(lit.exponent), CharText(lit.suffix);
    Associative(FractionText(lit.fraction), e, x);
    assert |e + x| > 0 ==> (e + x)[0] in {'E', 'e', 'd', 'D'} by {
      if lit.exponent.None? { assert e + x == x; }
    }
    ParseFractionOf(lit.fraction, e + x);
    ParseExponentOf(lit.exponent, x);
    assert ParseSuffix(x) == Some(lit.suffix);
  }

  /** Every well-formed literal is recognised, and taken apart into its own pieces. */
  lemma ParseComplete(lit: Literal)
    requires lit.Valid()
    ensures Parse(lit.Render()) == Some(lit)
  {
    var s := lit.Render();
    var rest := lit.integral + Tail(lit);
    RenderPieces(lit);
    assert (|s| > 0 && s[0] == '-') == lit.negative && (if lit.negative then s[1..] else s) == rest by {
      if lit.negative {
        assert s == "-" + rest;
      } else {
        assert s == rest && s[0] == lit.integral[0];
      }
    }
    TailHead(lit);
    ParseDigitsOf(lit.integral, Tail(lit));
    ParseTailOf(lit);
  }

  lemma ParseIsLiteral(s: string)
    ensures Parse(s).Some? <==> IsLiteral(s)
  {
    if IsLiteral(s) {
      var lit: Literal :| lit.Valid() && lit.Render() == s;
      ParseComplete(lit);
    }
  }

  // ---------------------------------------------------------------------
  // Facts about the ends of a literal, used for the rejections and for rtrim.

  /** A literal starts with `-` or a digit. */
  lemma LiteralStart(lit: Literal)
    requires lit.Valid()
    ensures |lit.Render()| > 0
    ensures lit.Render()[0] == '-' || IsDigit(lit.Render()[0])
  {
    RenderPieces(lit);
  }

  /** Without its suffix a literal ends with a digit, and the suffix is what remains. */
  lemma UnsuffixedEnd(lit: Literal)
    requires lit.Valid()
    ensures var u := lit.(suffix := None).Render();
      |u| > 0 && IsDigit(u[|u| - 1]) && lit.Render() == u + CharText(lit.suffix)
  {
    var head := SignText(lit.negative) + lit.integral;
    var f := FractionText(lit.fraction);
    var e := ExponentText(lit.exponent);
    var u := lit.(suffix := None).Render();
    assert u == head + f + e + "";
    assert IsDigit(head[|head| - 1]);
    if lit.exponent.Some? {
      assert u[|u| - 1] == lit.exponent.value.digits[|lit.exponent.value.digits| - 1];
    } else if lit.fraction.Some? {
      assert u[|u| - 1] == lit.fraction.value[|lit.fraction.value| - 1];
    } else {
      assert u == head;
    }
  }

  /** `rtrim($value, 'dD')` on a literal removes exactly its suffix, if any. */
  lemma TrimSuffix(lit: Literal)
    requires lit.Valid()
    ensures RTrim(lit.Render(), SuffixChars) == lit.(suffix := None).Render()
  {
    UnsuffixedEnd(lit);
    RTrimDropsSuffix(lit.(suffix := None).Render(), CharText(lit.suffix), SuffixChars);
  }

  /** A literal starts with `-` or a digit and ends with a digit, or with one suffix after a digit. */
  lemma LiteralEnds(lit: Literal)
    requires lit.Valid()
    ensures var c := lit.Render();
      |c| > 0 && (c[0] == '-' || IsDigit(c[0]))
      && (IsDigit(c[|c| - 1]) || (|c| > 1 && IsSuffix(c[|c| - 1]) && IsDigit(c[|c| - 2])))
  {
    LiteralStart(lit);
    UnsuffixedEnd(lit);
  }

  // ---------------------------------------------------------------------
  // Double::validate

  /** The anchored match is a literal match of the subject. */
  lemma MatchesSubject(value: string)
    ensures Matches(value) <==> IsLiteral(Subject(value))
  {
    ParseIsLiteral(Subject(value));
  }

  /**
   * Double::validate: on a match the out-value is the input with its trailing
   * `d`/`D` characters removed, otherwise the out-value is left as it was.
   */
  function Validate(value: string, prev: Option<string>): (r: Validation)
    ensures !r.ok ==> r == Rejected(prev)
    ensures r.ok ==> |value| > 0
    ensures r.ok ==> r.outValue == Some(value) || r.outValue == Some(value[..|value| - 1])
  {
    if !Matches(value) then Rejected(prev)
    else
      var lit := Parse(Subject(value)).value;
      assert |value| > 0 by {
        LiteralStart(lit);
      }
      assert RTrim(value, SuffixChars) == value || RTrim(value, SuffixChars) == value[..|value| - 1] by {
        if value[|value| - 1] != '\n' {
          assert Subject(value) == value;
          UnsuffixedEnd(lit);
          TrimSuffix(lit);
        }
      }
      Accepted(RTrim(value, SuffixChars))
  }

  /** A literal is accepted and normalised to itself without its suffix. */
  lemma ValidateLiteral(lit: Literal, prev: Option<string>)
    requires lit.Valid()
    ensures Validate(lit.Render(), prev) == Accepted(lit.(suffix := None).Render())
  {
    ParseComplete(lit);
    TrimSuffix(lit);
  }

  /**
   * A literal followed by one line feed is accepted too (PCRE's `$`), and as
   * the line feed stops `rtrim`, the out-value is the whole input.
   */
  lemma ValidateLiteralLineFeed(lit: Literal, prev: Option<string>)
    requires lit.Valid()
    ensures Validate(lit.Render() + "\n", prev) == Accepted(lit.Render() + "\n")
  {
    var value := lit.Render() + "\n";
    assert value[..|value| - 1] == lit.Render();
    ParseComplete(lit);
  }

  /** validate accepts exactly the literals, each optionally followed by one line feed. */
  lemma ValidateAccepts(value: string, prev: Option<string>)
    ensures Validate(value, prev).ok <==> IsLiteral(Subject(value))
  {
    MatchesSubject(value);
  }

  /** The forms the pattern turns away: no literal is empty or has these ends. */
  lemma NotLiteral(c: string)
    requires c == "" || c[0] == '+' || c[0] == '.' || c[|c| - 1] == '.'
          || (|c| > 1 && IsSuffix(c[|c| - 1]) && IsSuffix(c[|c| - 2]))
    ensures !IsLiteral(c)
  {
    ParseIsLiteral(c);
    if Parse(c).Some? {
      var lit := Parse(c).value;
      LiteralEnds(lit);
    }
  }

  /**
   * validate turns away, on the subject between the anchors: the empty string,
   * a leading `+`, a leading or a trailing `.`, and two suffix characters.
   */
  lemma Rejections(value: string, prev: Option<string>)
    ensures var c := Subject(value);
      (c == "" || c[0] == '+' || c[0] == '.' || c[|c| - 1] == '.'
       || (|c| > 1 && IsSuffix(c[|c| - 1]) && IsSuffix(c[|c| - 2])))
      ==> Validate(value, prev) == Rejected(prev)
  {
    var c := Subject(value);
    ValidateAccepts(value, prev);
    if c == "" || c[0] == '+' || c[0] == '.' || c[|c| - 1] == '.'
       || (|c| > 1 && IsSuffix(c[|c| - 1]) && IsSuffix(c[|c| - 2])) {
      NotLiteral(c);
    }
  }

  /** Normalisation is idempotent: the out-value validates again, to itself. */
  lemma ValidateIdempotent(value: string, prev: Option<string>, prev': Option<string>)
    requires Validate(value, prev).ok
    ensures Validate(Validate(value, prev).outValue.value, prev') == Validate(value, prev)
  {
    if Parse(value).Some? {
      var lit := Parse(value).value;
      ValidateLiteral(lit, prev);
      ValidateLiteral(lit.(suffix := None), prev');
    }
  }

  // ---------------------------------------------------------------------
  // The rest of the class.

  /** Double::convertToOData: the value followed by the `D` suffix. */
  function ConvertToOData(value: string): (r: string)
    ensures |r| == |value| + 1 && r[..|value|] == value && r[|value|] == 'D'
  {
    value + "D"
  }

  /** Rendering an accepted unsuffixed literal and validating it gives the literal back. */
  lemma ConvertToODataRoundTrip(s: string, prev: Option<string>, prev': Option<string>)
    requires Validate(s, prev) == Accepted(s)
    requires s[|s| - 1] != '\n'
    ensures Validate(ConvertToOData(s), prev') == Accepted(s)
  {
    var lit := Parse(s).value;
    ParseIsLiteral(s);
    TrimSuffix(lit);
    assert lit.suffix.None? by {
      UnsuffixedEnd(lit);
    }
    var suffixed := lit.(suffix := Some('D'));
    assert suffixed.Render() == ConvertToOData(s);
    ValidateLiteral(suffixed, prev');
  }

  function GetTypeCode(): (r: TypeCode)
    ensures r == TypeCode.Double
  {
    TypeCode.Double
  }

  /** The codes whose values widen to a double. */
  const CompatibleCodes: set<TypeCode> :=
    {TypeCode.Byte, TypeCode.SByte, TypeCode.Int16, TypeCode.Int32, TypeCode.Int64, TypeCode.Single, TypeCode.Double}

  /** Double::isCompatibleWith, given the other type's code. */
  function IsCompatibleWith(code: TypeCode): (r: bool)
    ensures r <==> code in CompatibleCodes
  {
    match code
    case Byte | SByte | Int16 | Int32 | Int64 | Single | Double => true
    case _ => false
  }

  function FullTypeName(): (r: string)
    ensures r == "Edm.Double"
  {
    "Edm.Double"
  }

  /** getName is the full EDM name. */
  function Name(): (r: string)
    ensures r == FullTypeName()
  {
    FullTypeName()
  }

  /** getName is getFullTypeName, the EDM name. */
  lemma Names()
    ensures Name() == FullTypeName() == "Edm.Double"
  {
  }

  /** The type's code is DOUBLE, so a double is compatible with itself, and not with a date-time. */
  lemma SelfCompatible()
    ensures GetTypeCode() == TypeCode.Double
    ensures IsCompatibleWith(GetTypeCode()) && !IsCompatibleWith(TypeCode.DateTime)
  {
  }
}
