/**
 * The `Edm.DateTime` literal handler (class DateTime): it recognises a
 * `datetime'…'` literal in a URI, strips the wrapper and a `+hh:mm`/`-hh:mm`
 * offset, has PHP's date library check what remains, answers
 * type-compatibility queries, renders a value back into URI form and compares
 * two date-times by their Unix timestamps.
 */
module DateTimeType {
  import opened Wrappers
  import opened PhpStrings
  import opened MetadataType

  /** The zone designator after the seconds: `Z`, or a sign (`+`, `|` or `-`) with `hh:mm`. */
  datatype Zone = Utc | Offset(sign: char, hours: string, minutes: string)

  /** `:ss` with an optional zone. */
  datatype Seconds = Seconds(digits: string, zone: Option<Zone>)

  /** The time part: a separator, `hh:mm` and optional seconds. */
  datatype Time = Time(separator: char, hour: string, minute: string, seconds: Option<Seconds>)

  /** A literal `datetime'yyyy-mm-dd…'` taken apart into its pieces. */
  datatype Literal = Literal(year: string, month: string, day: string, time: Option<Time>)
  {
    predicate Valid() {
      |year| == 4 && AllDigits(year) && IsTwoDigits(month) && IsTwoDigits(day)
      && (time.Some? ==> ValidTime(time.value))
    }

    /** What lies between the quotes. */
    function Body(): string {
      year + "-" + month + "-" + day + TimeText(time)
    }

    function Render(): string {
      Prefix + Body() + "'"
    }
  }

  const Prefix: string := "datetime'"

  predicate IsTwoDigits(s: string) {
    |s| == 2 && AllDigits(s)
  }

  /** `[0-1][0-9]|2[0-4]`: 00 to 24. */
  predicate IsHour(s: string) {
    |s| == 2 && (('0' <= s[0] <= '1' && IsDigit(s[1])) || (s[0] == '2' && '0' <= s[1] <= '4'))
  }

  /** `[0-5][0-9]`: 00 to 59. */
  predicate IsSexagesimal(s: string) {
    |s| == 2 && '0' <= s[0] <= '5' && IsDigit(s[1])
  }

  /** `\s|T`. */
  predicate IsSeparator(c: char) {
    IsSpace(c) || c == 'T'
  }

  /** The class `[\+|-]`, which holds `|` besides the two signs. */
  predicate IsOffsetSign(c: char) {
    c == '+' || c == '|' || c == '-'
  }

  predicate ValidZone(z: Zone) {
    z.Offset? ==> IsOffsetSign(z.sign) && IsTwoDigits(z.hours) && IsTwoDigits(z.minutes)
  }

  predicate ValidSeconds(s: Seconds) {
    IsSexagesimal(s.digits) && (s.zone.Some? ==> ValidZone(s.zone.value))
  }

  predicate ValidTime(t: Time) {
    IsSeparator(t.separator) && IsHour(t.hour) && IsSexagesimal(t.minute)
    && (t.seconds.Some? ==> ValidSeconds(t.seconds.value))
  }

  function ZoneText(zone: Option<Zone>): string {
    match zone
    case None => ""
    case Some(Utc) => "Z"
    case Some(Offset(sign, hours, minutes)) => [sign] + hours + ":" + minutes
  }

  function SecondsText(seconds: Option<Seconds>): string {
    match seconds
    case None => ""
    case Some(s) => ":" + s.digits + ZoneText(s.zone)
  }

  function TimeText(time: Option<Time>): string {
    match time
    case None => ""
    case Some(t) => [t.separator] + t.hour + ":" + t.minute + SecondsText(t.seconds)
  }

  /** The strings the pattern's body matches (between its anchors). */
  ghost predicate IsLiteral(s: string) {
    exists lit: Literal :: lit.Valid() && lit.Render() == s
  }

  // ---------------------------------------------------------------------
  // The recogniser. Every piece has a fixed length, so it reads by position.

  function ParseZone(z: string): (r: Option<Option<Zone>>)
    ensures r.Some? ==> ZoneText(r.value) == z && (r.value.Some? ==> ValidZone(r.value.value))
  {
    if z == [] then Some(None)
    else if z == "Z" then Some(Some(Utc))
    else if |z| == 6 && IsOffsetSign(z[0]) && IsTwoDigits(z[1..3]) && z[3] == ':' && IsTwoDigits(z[4..]) then
      assert z == [z[0]] + z[1..3] + ":" + z[4..];
      Some(Some(Offset(z[0], z[1..3], z[4..])))
    else None
  }

  function ParseSeconds(t: string): (r: Option<Option<Seconds>>)
    ensures r.Some? ==> SecondsText(r.value) == t && (r.value.Some? ==> ValidSeconds(r.value.value))
  {
    if t == [] then Some(None)
    else if |t| >= 3 && t[0] == ':' && IsSexagesimal(t[1..3]) then
      var zone := ParseZone(t[3..]);
      if zone.None? then None
      else
        assert t == ":" + t[1..3] + t[3..];
        Some(Some(Seconds(t[1..3], zone.value)))
    else None
  }

  function ParseTime(t: string): (r: Option<Option<Time>>)
    ensures r.Some? ==> TimeText(r.value) == t && (r.value.Some? ==> ValidTime(r.value.value))
  {
    if t == [] then Some(None)
    else if |t| >= 6 && IsSeparator(t[0]) && IsHour(t[1..3]) && t[3] == ':' && IsSexagesimal(t[4..6]) then
      var seconds := ParseSeconds(t[6..]);
      if seconds.None? then None
      else
        assert t == [t[0]] + t[1..3] + ":" + t[4..6] + t[6..];
        Some(Some(Time(t[0], t[1..3], t[4..6], seconds.value)))
    else None
  }

  function ParseBody(b: string): (r: Option<Literal>)
    ensures r.Some? ==> r.value.Valid() && r.value.Body() == b
  {
    if |b| >= 10 && AllDigits(b[..4]) && b[4] == '-' && IsTwoDigits(b[5..7]) && b[7] == '-' && IsTwoDigits(b[8..10]) then
      var time := ParseTime(b[10..]);
      if time.None? then None
      else
        assert b == b[..4] + "-" + b[5..7] + "-" + b[8..10] + b[10..];
        Some(Literal(b[..4], b[5..7], b[8..10], time.value))
    else None
  }

  /** The recogniser is sound: whatever it returns is a well-formed literal spelling `s`. */
  function Parse(s: string): (r: Option<Literal>)
    ensures r.Some? ==> r.value.Valid() && r.value.Render() == s
  {
    if |s| >= 10 && s[..9] == Prefix && s[|s| - 1] == '\'' then
      assert s == s[..9] + s[9..|s| - 1] + "'";
      ParseBody(s[9..|s| - 1])
    else None
  }

  /**
   * `preg_match` with the anchored pattern: PCRE's `$` matches at the very end
   * and also just before one final line feed.
   */
  function Matches(value: string): (r: bool)
    ensures r <==> Parse(Subject(value)).Some?
  {
    Parse(value).Some? || (|value| > 0 && value[|value| - 1] == '\n' && Parse(value[..|value| - 1]).Some?)
  }

  // ---------------------------------------------------------------------
  // The recogniser is complete: it takes apart every well-formed literal.

  lemma ParseZoneOf(zone: Option<Zone>)
    requires zone.Some? ==> ValidZone(zone.value)
    ensures ParseZone(ZoneText(zone)) == Some(zone)
  {
    if zone.Some? && zone.value.Offset? {
      var z := ZoneText(zone);
      assert z[1..3] == zone.value.hours && z[4..] == zone.value.minutes;
    }
  }

  lemma ParseSecondsOf(seconds: Option<Seconds>)
    requires seconds.Some? ==> ValidSeconds(seconds.value)
    ensures ParseSeconds(SecondsText(seconds)) == Some(seconds)
  {
    if seconds.Some? {
      var t := SecondsText(seconds);
      assert t[1..3] == seconds.value.digits && t[3..] == ZoneText(seconds.value.zone);
      ParseZoneOf(seconds.value.zone);
    }
  }

  lemma ParseTimeOf(time: Option<Time>)
    requires time.Some? ==> ValidTime(time.value)
    ensures ParseTime(TimeText(time)) == Some(time)
  {
    if time.Some? {
      var t := TimeText(time);
      var tm := time.value;
      assert t == [tm.separator] + tm.hour + ":" + tm.minute + SecondsText(tm.seconds);
      assert t[1..3] == tm.hour && t[4..6] == tm.minute && t[6..] == SecondsText(tm.seconds);
      ParseSecondsOf(tm.seconds);
    }
  }

  lemma ParseBodyOf(lit: Literal)
    requires lit.Valid()
    ensures ParseBody(lit.Body()) == Some(lit)
  {
    var b := lit.Body();
    assert b[..4] == lit.year && b[5..7] == lit.month && b[8..10] == lit.day;
    assert b[10..] == TimeText(lit.time);
    ParseTimeOf(lit.time);
  }

  /** Every well-formed literal is recognised, and taken apart into its own pieces. */
  lemma ParseComplete(lit: Literal)
    requires lit.Valid()
    ensures Parse(lit.Render()) == Some(lit)
  {
    var s := lit.Render();
    assert s[..9] == Prefix && s[9..|s| - 1] == lit.Body();
    ParseBodyOf(lit);
  }

  lemma ParseIsLiteral(s: string)
    ensures Parse(s).Some? <==> IsLiteral(s)
  {
    if IsLiteral(s) {
      var lit: Literal :| lit.Valid() && lit.Render() == s;
      ParseComplete(lit);
    }
  }

  // ---------------------------------------------------------------------
  // DateTime::validate

  /** The characters of `trim($value, 'datetime\'')`. */
  const TrimChars: set<char> := {'d', 'a', 't', 'e', 'i', 'm', '\''}

  /**
   * After the trim: when the value is longer than 24 characters and its
   * sixth character from the end is `-` or `+`, the last six are cut off.
   */
  function StripOffset(value: string): (r: string)
    ensures 24 < |value| && value[|value| - 6] in {'-', '+'} ==> r == value[..|value| - 6]
    ensures !(24 < |value| && value[|value| - 6] in {'-', '+'}) ==> r == value
  {
    var valLen := |value| - 6;
    var offsetCheck := CharAt(value, valLen);
    if 18 < valLen && (offsetCheck == Some('-') || offsetCheck == Some('+')) then value[..valLen] else value
  }

  /**
   * DateTime::validate. `parses` stands for PHP's date library: whether
   * `new \DateTime($value, new DateTimeZone('UTC'))` returns rather than throws.
   */
  function Validate(value: string, prev: Option<string>, parses: string -> bool): (r: Validation)
    ensures !r.ok ==> r == Rejected(prev)
    ensures r.ok ==> Matches(value) && r.outValue.Some?
    ensures r.ok ==> var out := r.outValue.value;
      |out| >= 2 && out[0] == '\'' && out[|out| - 1] == '\'' && parses(out[1..|out| - 1])
  {
    if !Matches(value) then Rejected(prev)
    else
      var trimmed := Trim(value, TrimChars);
      var stripped := StripOffset(trimmed);
      if !parses(stripped) then Rejected(prev)
      else
        var out := "'" + stripped + "'";
        assert out[1..|out| - 1] == stripped;
        Accepted(out)
  }

  /** The zone of a literal, when it has seconds and a zone after them. */
  function ZoneOf(lit: Literal): Option<Zone> {
    if lit.time.Some? && lit.time.value.seconds.Some? then lit.time.value.seconds.value.zone else None
  }

  /** The literal ends with a `+hh:mm` or `-hh:mm` offset (not a `|hh:mm` one). */
  predicate HasSignedOffset(lit: Literal) {
    ZoneOf(lit).Some? && ZoneOf(lit).value.Offset? && (ZoneOf(lit).value.sign == '+' || ZoneOf(lit).value.sign == '-')
  }

  /** The same literal without a zone after its seconds. */
  function DropZone(lit: Literal): Literal {
    if lit.time.Some? && lit.time.value.seconds.Some? then
      var t := lit.time.value;
      lit.(time := Some(t.(seconds := Some(t.seconds.value.(zone := None)))))
    else lit
  }

  /** The literal the handler passes on: the same, without a signed offset. */
  function Normalised(lit: Literal): Literal {
    if HasSignedOffset(lit) then DropZone(lit) else lit
  }

  /** A body starts with a digit and ends with a digit or `Z`. */
  lemma BodyEnds(lit: Literal)
    requires lit.Valid()
    ensures var b := lit.Body(); |b| >= 10 && IsDigit(b[0]) && (IsDigit(b[|b| - 1]) || b[|b| - 1] == 'Z')
  {
    var b := lit.Body();
    var date := lit.year + "-" + lit.month + "-" + lit.day;
    assert b == date + TimeText(lit.time);
    assert b[0] == lit.year[0];
    if lit.time.Some? {
      var t := lit.time.value;
      if t.seconds.Some? {
        var s := t.seconds.value;
        if s.zone.Some? && s.zone.value.Offset? {
          assert b[|b| - 1] == s.zone.value.minutes[1];
        } else if s.zone.None? {
          assert b[|b| - 1] == s.digits[1];
        }
      } else {
        assert b[|b| - 1] == t.minute[1];
      }
    } else {
      assert b[|b| - 1] == lit.day[1];
    }
  }

  /** For a literal, the character-set trim drops exactly the 9-character prefix and the closing quote. */
  lemma TrimLiteral(lit: Literal)
    requires lit.Valid()
    ensures Trim(lit.Render(), TrimChars) == lit.Body()
  {
    BodyEnds(lit);
    assert lit.Render() == Prefix + (lit.Body() + "'");
    LTrimDropsPrefix(Prefix, lit.Body() + "'", TrimChars);
    RTrimDropsSuffix(lit.Body(), "'", TrimChars);
  }

  /** After a final line feed, which is outside the set, the trim keeps the closing quote and the line feed. */
  lemma TrimLiteralLineFeed(lit: Literal)
    requires lit.Valid()
    ensures Trim(lit.Render() + "\n", TrimChars) == lit.Body() + "'\n"
  {
    var kept := lit.Body() + "'\n";
    LTrimLineFeed(lit);
    RTrimDropsSuffix(kept, "", TrimChars);
    assert kept + "" == kept;
  }

  lemma LTrimLineFeed(lit: Literal)
    requires lit.Valid()
    ensures LTrim(lit.Render() + "\n", TrimChars) == lit.Body() + "'\n"
  {
    var kept := lit.Body() + "'\n";
    BodyEnds(lit);
    assert lit.Render() + "\n" == Prefix + kept;
    LTrimDropsPrefix(Prefix, kept, TrimChars);
  }

  /** Seconds text is the seconds without their zone, then the zone. */
  lemma SecondsSplit(s: Seconds)
    ensures SecondsText(Some(s)) == SecondsText(Some(s.(zone := None))) + ZoneText(s.zone)
    ensures |SecondsText(Some(s.(zone := None)))| == 1 + |s.digits|
  {
    assert SecondsText(Some(s.(zone := None))) == ":" + s.digits + "";
  }

  /** A time's text is its text without the zone, then the zone. */
  lemma TimeSplit(t: Time)
    ensures t.seconds.Some? ==> TimeText(Some(t)) == TimeText(Some(t.(seconds := Some(t.seconds.value.(zone := None))))) + ZoneText(t.seconds.value.zone)
  {
    if t.seconds.Some? {
      var s := t.seconds.value;
      SecondsSplit(s);
      var clock := [t.separator] + t.hour + ":" + t.minute;
      assert TimeText(Some(t)) == clock + (SecondsText(Some(s.(zone := None))) + ZoneText(s.zone));
    }
  }

  /** A body is the body without the zone, followed by the zone. */
  lemma ZoneSplit(lit: Literal)
    ensures lit.Body() == DropZone(lit).Body() + ZoneText(ZoneOf(lit))
  {
    var date := lit.year + "-" + lit.month + "-" + lit.day;
    if lit.time.None? {
      assert lit.Body() == date + "";
    } else if lit.time.value.seconds.None? {
      assert lit.Body() == lit.Body() + "";
    } else {
      TimeSplit(lit.time.value);
    }
  }

  /** The body without the zone is at most 19 characters long, and exactly 19 when a zone follows. */
  lemma DropZoneLength(lit: Literal)
    requires lit.Valid()
    ensures |DropZone(lit).Body()| <= 19
    ensures ZoneOf(lit).Some? ==> |DropZone(lit).Body()| == 19
  {
    var d := DropZone(lit);
    assert |d.year + "-" + d.month + "-" + d.day| == 10;
    if d.time.Some? {
      var t := d.time.value;
      assert |TimeText(d.time)| == 6 + |SecondsText(t.seconds)|;
      if t.seconds.Some? {
        assert |SecondsText(t.seconds)| == 1 + |t.seconds.value.digits| + 0;
      }
    }
  }

  /** The body's length tells its shape; only a body with an offset is longer than 20. */
  lemma BodyLength(lit: Literal)
    requires lit.Valid()
    ensures var b := lit.Body();
      (ZoneOf(lit).Some? && ZoneOf(lit).value.Offset? ==> |b| == 25 && b[19] == ZoneOf(lit).value.sign && IsDigit(b[21]))
      && (!(ZoneOf(lit).Some? && ZoneOf(lit).value.Offset?) ==> |b| <= 20)
  {
    ZoneSplit(lit);
    DropZoneLength(lit);
    var z := ZoneText(ZoneOf(lit));
    if ZoneOf(lit).Some? && ZoneOf(lit).value.Offset? {
      var zone := ZoneOf(lit).value;
      assert z == [zone.sign] + zone.hours + ":" + zone.minutes;
      assert z[0] == zone.sign && z[2] == zone.hours[1];
    }
  }

  /** The offset strip turns the body of a literal into the body of its normalised form. */
  lemma StripOffsetOf(lit: Literal)
    requires lit.Valid()
    ensures StripOffset(lit.Body()) == Normalised(lit).Body()
    ensures HasSignedOffset(lit) ==> StripOffset(lit.Body()) == lit.Body()[..|lit.Body()| - 6]
    ensures !HasSignedOffset(lit) ==> StripOffset(lit.Body()) == lit.Body()
  {
    BodyLength(lit);
    ZoneSplit(lit);
    DropZoneLength(lit);
  }

  /** With the closing quote and line feed still in place, the character six from the end is never a sign. */
  lemma StripOffsetLineFeed(lit: Literal)
    requires lit.Valid()
    ensures StripOffset(lit.Body() + "'\n") == lit.Body() + "'\n"
  {
    BodyLength(lit);
  }

  /** The anchored match is a literal match of the subject. */
  lemma MatchesSubject(value: string)
    ensures Matches(value) <==> IsLiteral(Subject(value))
  {
    ParseIsLiteral(Subject(value));
  }

  /**
   * validate on a literal: the library sees the body without a signed
   * offset; the out-value is that, quoted, when the library accepts it.
   */
  lemma ValidateLiteral(lit: Literal, prev: Option<string>, parses: string -> bool)
    requires lit.Valid()
    ensures var v := Normalised(lit).Body();
      Validate(lit.Render(), prev, parses) == if parses(v) then Accepted("'" + v + "'") else Rejected(prev)
  {
    ParseComplete(lit);
    TrimLiteral(lit);
    StripOffsetOf(lit);
  }

  /**
   * validate on a literal followed by one line feed: the pattern matches, the
   * trim stops at the line feed, and no offset is cut.
   */
  lemma ValidateLiteralLineFeed(lit: Literal, prev: Option<string>, parses: string -> bool)
    requires lit.Valid()
    ensures var v := lit.Body() + "'\n";
      Validate(lit.Render() + "\n", prev, parses) == if parses(v) then Accepted("'" + v + "'") else Rejected(prev)
  {
    var value := lit.Render() + "\n";
    assert value[..|value| - 1] == lit.Render();
    ParseComplete(lit);
    TrimLiteralLineFeed(lit);
    StripOffsetLineFeed(lit);
  }

  /** Anything that is not a literal (optionally with one final line feed) is turned away untouched. */
  lemma ValidateRejects(value: string, prev: Option<string>, parses: string -> bool)
    ensures !IsLiteral(Subject(value)) ==> Validate(value, prev, parses) == Rejected(prev)
  {
    MatchesSubject(value);
  }

  /** The hour class admits 24. */
  lemma HourTwentyFourAccepted()
    ensures Matches("datetime'2000-01-01T24:00'")
  {
    var lit := Literal("2000", "01", "01", Some(Time('T', "24", "00", None)));
    assert lit.Valid();
    assert lit.Render() == "datetime'2000-01-01T24:00'";
    ParseComplete(lit);
  }

  /** The minute class stops at 59. */
  lemma MinuteSixtyRejected()
    ensures !Matches("datetime'2000-01-01T23:60'")
  {
    var late := "datetime'2000-01-01T23:60'";
    assert late[9..|late| - 1][10..][4..6][0] == late[23] == '6';
  }

  /** The literal `2000-01-01T10:00:00Z`. */
  lemma UtcLiteral() returns (lit: Literal)
    ensures lit.Valid() && lit.Render() == "datetime'2000-01-01T10:00:00Z'"
  {
    lit := Literal("2000", "01", "01", Some(Time('T', "10", "00", Some(Seconds("00", Some(Utc))))));
    assert lit.Valid();
  }

  /** A zone is only admitted after the seconds. */
  lemma ZoneWithoutSecondsRejected()
    ensures !Matches("datetime'2000-01-01T10:00Z'")
  {
    var early := "datetime'2000-01-01T10:00Z'";
    var t := early[9..|early| - 1][10..];
    assert |t| == 7 && t[6] == 'Z';
  }

  /** After the seconds, a zone is admitted. */
  lemma ZoneAfterSecondsAccepted()
    ensures Matches("datetime'2000-01-01T10:00:00Z'")
  {
    var lit := UtcLiteral();
    ParseComplete(lit);
  }

  /** The literal `2000-01-01T10:00:00|01:00`. */
  lemma PipeOffsetLiteral() returns (lit: Literal)
    ensures lit.Valid() && lit.Render() == "datetime'2000-01-01T10:00:00|01:00'"
  {
    lit := Literal("2000", "01", "01", Some(Time('T', "10", "00", Some(Seconds("00", Some(Offset('|', "01", "00")))))));
    assert lit.Valid();
  }

  /** The sign class `[\+|-]` admits `|`. */
  lemma PipeOffsetAccepted()
    ensures Matches("datetime'2000-01-01T10:00:00|01:00'")
  {
    var lit := PipeOffsetLiteral();
    ParseComplete(lit);
  }

  // ---------------------------------------------------------------------
  // The rest of the class.

  /** DateTime::convert performs no conversion. */
  function Convert(stringValue: string): (r: string)
    ensures r == stringValue
  {
    stringValue
  }

  /**
   * DateTime::convertToOData: the value, URL-encoded, between `datetime'` and
   * `'`. `urlEncode` stands for PHP's `urlencode`.
   */
  function ConvertToOData(value: string, urlEncode: string -> string): (r: string)
    ensures |r| == |urlEncode(value)| + 10
    ensures r[..9] == Prefix && r[9..|r| - 1] == urlEncode(value) && r[|r| - 1] == '\''
  {
    Prefix + urlEncode(value) + "'"
  }

  /**
   * Rendering the body of a literal that URL-encoding leaves alone (a bare
   * date, say) and validating the result is validating that literal.
   */
  lemma ConvertToODataRoundTrip(lit: Literal, urlEncode: string -> string, prev: Option<string>, parses: string -> bool)
    requires lit.Valid() && urlEncode(lit.Body()) == lit.Body()
    ensures var v := Normalised(lit).Body();
      Validate(ConvertToOData(lit.Body(), urlEncode), prev, parses)
        == if parses(v) then Accepted("'" + v + "'") else Rejected(prev)
  {
    assert ConvertToOData(lit.Body(), urlEncode) == lit.Render();
    ValidateLiteral(lit, prev, parses);
  }

  function GetTypeCode(): (r: TypeCode)
    ensures r == TypeCode.DateTime
  {
    TypeCode.DateTime
  }

  /** DateTime::isCompatibleWith, given the other type's code. */
  function IsCompatibleWith(code: TypeCode): (r: bool)
    ensures r <==> code == TypeCode.DateTime
  {
    TypeCode.DateTime == code
  }

  function FullTypeName(): (r: string)
    ensures r == "Edm.DateTime"
  {
    "Edm.DateTime"
  }

  /** getName is the full EDM name. */
  function Name(): (r: string)
    ensures r == FullTypeName()
  {
    FullTypeName()
  }

  /** getName is getFullTypeName, the EDM name. */
  lemma Names()
    ensures Name() == FullTypeName() == "Edm.DateTime"
  {
  }

  /** The type's code is DATETIME, and a date-time is compatible with exactly that code. */
  lemma SelfCompatible()
    ensures GetTypeCode() == TypeCode.DateTime
    ensures forall code: TypeCode :: IsCompatibleWith(code) <==> code == GetTypeCode()
  {
  }

  // ---------------------------------------------------------------------
  // DateTime::dateTimeCmp

  /** An argument of dateTimeCmp: a `\DateTime` (seen through `getTimestamp`), a string, or anything else. */
  datatype CmpArgument = DateTimeObject(timestamp: int) | Text(text: string) | OtherValue

  /** A timestamp as PHP holds it: an int, or `false` where `strtotime` could not read the string. */
  datatype Stamp = Timestamp(seconds: int) | NoTimestamp

  /**
   * DateTime::dateTimeCmpCheckInput: the timestamp of a `\DateTime`, or
   * `strtotime` of a string (`strToTime` stands for the library call, None
   * standing for `false`); any other argument throws with `msg`.
   */
  function CheckInput(dateTime: CmpArgument, msg: string, strToTime: string -> Option<int>): (r: Result<Stamp>)
    ensures r.Failure? <==> dateTime.OtherValue?
    ensures r.Failure? ==> r.message == msg
    ensures dateTime.DateTimeObject? ==> r == Success(Timestamp(dateTime.timestamp))
    ensures dateTime.Text? ==> r == Success(if strToTime(dateTime.text).Some? then Timestamp(strToTime(dateTime.text).value) else NoTimestamp)
  {
    match dateTime
    case DateTimeObject(timestamp) => Success(Timestamp(timestamp))
    case Text(text) =>
      if strToTime(text).Some? then Success(Timestamp(strToTime(text).value)) else Success(NoTimestamp)
    case OtherValue => Failure(msg)
  }

  /** PHP 8 `==` between two stamps: `false` against an int compares `false` with `int != 0`. */
  predicate LooseEquals(a: Stamp, b: Stamp) {
    match (a, b)
    case (Timestamp(x), Timestamp(y)) => x == y
    case (NoTimestamp, NoTimestamp) => true
    case (NoTimestamp, Timestamp(y)) => y == 0
    case (Timestamp(x), NoTimestamp) => x == 0
  }

  /** PHP 8 `<` between two stamps: `false` is below every non-zero int, and no int is below `false`. */
  predicate LooseLess(a: Stamp, b: Stamp) {
    match (a, b)
    case (Timestamp(x), Timestamp(y)) => x < y
    case (NoTimestamp, NoTimestamp) => false
    case (NoTimestamp, Timestamp(y)) => y != 0
    case (Timestamp(x), NoTimestamp) => false
  }

  const FirstArgumentMessage: string := "Invalid input - datetime1 must be DateTime or string"
  const SecondArgumentMessage: string := "Invalid input - datetime2 must be DateTime or string"

  /** DateTime::dateTimeCmp: 0 when the stamps are equal, -1 when the first is smaller, 1 otherwise. */
  function Compare(dateTime1: CmpArgument, dateTime2: CmpArgument, strToTime: string -> Option<int>): (r: Result<int>)
    ensures dateTime1.OtherValue? ==> r == Failure(FirstArgumentMessage)
    ensures !dateTime1.OtherValue? && dateTime2.OtherValue? ==> r == Failure(SecondArgumentMessage)
    ensures r.Success? ==> r.value == -1 || r.value == 0 || r.value == 1
  {
    var first := CheckInput(dateTime1, FirstArgumentMessage, strToTime);
    if first.Failure? then Failure(first.message)
    else
      var second := CheckInput(dateTime2, SecondArgumentMessage, strToTime);
      if second.Failure? then Failure(second.message)
      else if LooseEquals(first.value, second.value) then Success(0)
      else if LooseLess(first.value, second.value) then Success(-1)
      else Success(1)
  }

  /** Swapping the arguments negates the answer (and keeps a failure for the argument that caused it). */
  lemma CompareAntisymmetric(a: CmpArgument, b: CmpArgument, strToTime: string -> Option<int>)
    requires !a.OtherValue? && !b.OtherValue?
    ensures Compare(a, b, strToTime).Success? && Compare(b, a, strToTime).Success?
    ensures Compare(a, b, strToTime).value == -Compare(b, a, strToTime).value
  {
  }

  /** Every date-time compares equal to itself. */
  lemma CompareReflexive(a: CmpArgument, strToTime: string -> Option<int>)
    requires !a.OtherValue?
    ensures Compare(a, a, strToTime) == Success(0)
  {
  }

  /** When both timestamps are read, the answer is the sign of their difference. */
  lemma CompareTimestamps(a: CmpArgument, b: CmpArgument, strToTime: string -> Option<int>, x: int, y: int)
    requires CheckInput(a, FirstArgumentMessage, strToTime) == Success(Timestamp(x))
    requires CheckInput(b, SecondArgumentMessage, strToTime) == Success(Timestamp(y))
    ensures Compare(a, b, strToTime) == Success(if x == y then 0 else if x < y then -1 else 1)
  {
  }

  /**
   * A string `strtotime` cannot read compares equal to the zero timestamp and
   * below every other one, from either side.
   */
  lemma UnreadableStamp(s: string, strToTime: string -> Option<int>, y: int)
    requires strToTime(s).None?
    ensures Compare(Text(s), DateTimeObject(0), strToTime) == Success(0)
    ensures Compare(DateTimeObject(0), Text(s), strToTime) == Success(0)
    ensures y != 0 ==> Compare(Text(s), DateTimeObject(y), strToTime) == Success(-1)
    ensures y != 0 ==> Compare(DateTimeObject(y), Text(s), strToTime) == Success(1)
  {
  }

  /**
   * So the comparison is not transitive once such a string is among its
   * arguments: -1 is below 0, 0 equals the string, and the string is below -1.
   */
  lemma UnreadableBreaksTransitivity(s: string, strToTime: string -> Option<int>)
    requires strToTime(s).None?
    ensures Compare(DateTimeObject(-1), DateTimeObject(0), strToTime) == Success(-1)
    ensures Compare(DateTimeObject(0), Text(s), strToTime) == Success(0)
    ensures Compare(Text(s), DateTimeObject(-1), strToTime) == Success(-1)
  {
  }
}
