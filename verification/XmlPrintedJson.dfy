/** Printed strings and scalars are read back, and stream, where values must be JSON. */
module XmlPrintedJson {
  import opened Wrappers
  import opened Text
  import opened Json
  import opened JsonStrings
  import opened XmlSpec
  import opened XmlRoundTrip
  import opened XmlGrowth
  import opened XmlValues
  import opened XmlJsonValues
  import opened XmlPrintedStream
  import JsonReading
  import Utf8

  // ------------------------------------------------------------ printed strings

  /** `dump` writes it without an escape of four digits. */
  predicate Short(c: char) {
    c as int >= 0x20 || c as int in {8, 9, 10, 12, 13}
  }

  predicate ShortText(s: string) {
    forall i | 0 <= i < |s| :: Short(s[i])
  }

  lemma ShortParts(s: string)
    requires ShortText(s) && s != ""
    ensures Short(s[0]) && ShortText(s[1..])
  {}

  /** One printed character is one unit of the body. */
  lemma PrintedUnit(c: char, rest: string)
    requires Short(c)
    ensures var e := EscapeChar(c); var t := e + rest;
            && t != "" && t[0] != '"' && Unit(t) == |e| && GoodUnit(t) && t[..|e|] == e && t[|e|..] == rest
            && t != "\\"
  {}

  lemma EscapeSteps(s: string, rest: string)
    requires s != ""
    ensures EscapeAll(s) + rest == EscapeChar(s[0]) + (EscapeAll(s[1..]) + rest)
  {
    hide EscapeChar;
    assert EscapeAll(s) == EscapeChar(s[0]) + EscapeAll(s[1..]);
  }

  /** What `dump` prints for a string is a string for the parser, up to its quote. */
  lemma {:induction false} PrintedString(s: string, rest: string)
    requires ShortText(s)
    ensures var t := EscapeAll(s) + ("\"" + rest);
            PlainString(t) && Closes(t) && Taken(t) == EscapeAll(s) + "\"" && Inside(t) == EscapeAll(s)
    decreases |s|
  {
    hide EscapeChar; hide Unit; hide GoodUnit; hide Taken; hide Inside; hide Short;
    var t := EscapeAll(s) + ("\"" + rest);
    TakenFirst(t);
    InsideFirst(t);
    if s == "" {
      assert EscapeAll(s) == "" && t == "\"" + rest && t[0] == '"';
    } else {
      ShortParts(s);
      PrintedString(s[1..], rest);
      EscapeSteps(s, "\"" + rest);
      EscapeSteps(s, "\"");
      EscapeSteps(s, "");
      assert EscapeAll(s) + "" == EscapeAll(s) && EscapeAll(s[1..]) + "" == EscapeAll(s[1..]);
      PrintedUnit(s[0], EscapeAll(s[1..]) + ("\"" + rest));
    }
  }

  lemma HighStays(c: char)
    requires c as int >= 0x80
    ensures EscapeChar(c) == [c]
  {}

  lemma AsciiStays(c: char)
    requires c as int < 0x80
    ensures forall k | 0 <= k < |EscapeChar(c)| :: EscapeChar(c)[k] as int < 0x80
  {}

  lemma {:induction false} HighAllStay(s: string)
    requires forall i | 0 <= i < |s| :: s[i] as int >= 0x80
    ensures EscapeAll(s) == s
  {
    hide EscapeChar;
    if s != "" {
      HighStays(s[0]);
      HighAllStay(s[1..]);
    }
  }

  lemma {:induction false} JoinChars(a: string, b: string)
    requires (forall i | 0 <= i < |a| :: a[i] as int < 0x80) && Utf8.WellFormed(b)
    ensures Utf8.WellFormed(a + b)
    decreases |a|
  {
    if a == "" {
      assert a + b == b;
    } else {
      JoinChars(a[1..], b);
      assert (a + b)[1..] == a[1..] + b;
    }
  }

  lemma EmptyPrints()
    ensures EscapeAll("") == "" && Utf8.WellFormed("")
  {}

  lemma LongIsHigh(s: string)
    requires s != ""
    ensures var n := Utf8.CharLength(s);
            && (n == 1 ==> s[0] as int < 0x80)
            && (n > 1 ==> forall i | 0 <= i < n :: s[i] as int >= 0x80)
  {}

  lemma AsciiFirst(c: char)
    requires c as int < 0x80
    ensures forall k | 0 <= k < |EscapeAll([c])| :: EscapeAll([c])[k] as int < 0x80
  {
    hide EscapeChar;
    AsciiStays(c);
    assert [c][1..] == "";
    assert EscapeAll([c]) == EscapeChar(c) + EscapeAll("") == EscapeChar(c);
  }

  /** Printing keeps characters whole. */
  lemma {:induction false} PrintedIsWhole(s: string)
    requires Utf8.WellFormed(s)
    ensures Utf8.WellFormed(EscapeAll(s))
    decreases |s|
  {
    hide EscapeChar; hide EscapeAll; hide Utf8.CharLength;
    if s == "" {
      EmptyPrints();
    } else {
      var n := Utf8.CharLength(s);
      PrintedIsWhole(s[n..]);
      assert s == s[..n] + s[n..];
      EscapeAllJoins(s[..n], s[n..]);
      LongIsHigh(s);
      if n == 1 {
        AsciiFirst(s[0]);
        assert s[..1] == [s[0]];
        JoinChars(EscapeAll(s[..1]), EscapeAll(s[1..]));
      } else {
        HighAllStay(s[..n]);
        CharThen(s, n, EscapeAll(s[n..]));
      }
    }
  }

  lemma CharThen(s: string, n: nat, rest: string)
    requires n == Utf8.CharLength(s) && 0 < n && Utf8.WellFormed(rest)
    ensures Utf8.WellFormed(s[..n] + rest)
  {
    var t := s[..n] + rest;
    Utf8.CharLengthOfPrefix(s[..n], s);
    Utf8.CharLengthOfExtension(s[..n], t);
    assert t[n..] == rest;
  }

  // ------------------------------------------------------------ a printed string as a value

  /** The value is a string, printed after spaces as `dump` prints it. */
  ghost predicate StringParam(p: Param) {
    p.value.Str? && Bytes(p.value.text) && Utf8.WellFormed(p.value.text) && ShortText(p.value.text) &&
    exists lead: string :: JsonSpaces(lead) && p.text == lead + Quote(p.value.text)
  }

  lemma LeadOf(p: Param) returns (lead: string)
    requires StringParam(p)
    ensures JsonSpaces(lead) && p.text == lead + Quote(p.value.text)
    ensures p.value.Str? && Bytes(p.value.text) && Utf8.WellFormed(p.value.text) && ShortText(p.value.text)
  {
    hide JsonSpaces; hide Quote; hide Bytes; hide Utf8.WellFormed; hide ShortText;
    lead :| JsonSpaces(lead) && p.text == lead + Quote(p.value.text);
  }

  lemma OccursBefore(s: string, text: string, i: nat) returns (rest: string)
    requires OccursAt(s, text, i)
    ensures i + |text| <= |s| && s[i..] == text + rest && rest == s[i + |text|..]
  {
    rest := s[i + |text|..];
    assert s[i..] == s[i..i + |text|] + s[i + |text|..];
  }

  /** Where the value stands: the spaces, the quote, and what follows it. */
  lemma StringStands(src: Source, i: nat, lead: string, s: string, closing: string)
    requires OccursAt(src.input, (lead + Quote(s)) + closing, i) && JsonSpaces(lead)
    ensures i <= |src.input|
    ensures var j := SkipSpaces(src.input, i);
            j == i + |lead| && j < |src.input| && src.input[j] == '"' && SpacesAt(src, i) == lead
    ensures exists rest: string :: AfterQuote(src, i) == EscapeAll(s) + ("\"" + (closing + rest))
  {
    var rest := OccursBefore(src.input, (lead + Quote(s)) + closing, i);
    hide *;
    var body := EscapeAll(s) + ("\"" + (closing + rest));
    QuoteIsText(s);
    Nested(lead, EscapeAll(s), closing, rest);
    QuoteStands(src, i, lead, body);
  }

  lemma QuoteIsText(s: string)
    ensures Quote(s) == ("\"" + EscapeAll(s)) + "\""
  {
    hide EscapeAll;
  }

  lemma Nested(lead: string, e: string, closing: string, rest: string)
    ensures ((lead + (("\"" + e) + "\"")) + closing) + rest == lead + ("\"" + (e + ("\"" + (closing + rest))))
  {}

  lemma QuoteStands(src: Source, i: nat, lead: string, body: string)
    requires i <= |src.input| && src.input[i..] == lead + ("\"" + body) && JsonSpaces(lead)
    ensures var j := SkipSpaces(src.input, i);
            && j == i + |lead| && j < |src.input| && src.input[j] == '"' && SpacesAt(src, i) == lead
            && AfterQuote(src, i) == body
  {
    hide SkipSpaces;
    var j := i + |lead|;
    assert src.input[j] == src.input[i..][|lead|] == '"';
    forall k | i <= k < j ensures IsSpace(src.input[k]) {
      assert src.input[k] == src.input[i..][k - i] == lead[k - i];
    }
    SkipSpacesIs(src.input, i, j);
    assert src.input[i..j] == src.input[i..][..|lead|] == lead;
    assert src.input[j + 1..] == src.input[i..][|lead| + 1..] == body;
  }

  lemma OccursEnds(src: Source, form: Format, last: bool, j: nat)
    requires StreamFormat(form) && form.rawArgval == Some(false) && OccursAt(src.input, Closing(form, last), j)
    ensures SkipSpaces(src.input, j) == j < |src.input| && EndsHere(src, form, j)
  {
    hide AgreesAt; hide OccursAt; hide Sharp;
    JsonTags(form);
    CommaIsNoSpace();
    var tag := Closing(form, last);
    OccursBegins(src, tag, j);
  }

  lemma EndOfString(src: Source, i: nat, lead: string, s: string, closing: string)
    requires OccursAt(src.input, (lead + Quote(s)) + closing, i) && i <= |src.input|
    requires SkipSpaces(src.input, i) == i + |lead| < |src.input|
    requires Taken(AfterQuote(src, i)) == EscapeAll(s) + "\""
    ensures StringEnd(src, i) == i + |lead + Quote(s)| && OccursAt(src.input, closing, StringEnd(src, i))
  {
    hide SkipSpaces; hide Taken; hide AfterQuote; hide OccursAt; hide EscapeAll;
    Splits(src.input, lead + Quote(s), closing, i);
  }

  /** It is a good value for the parser, and is read as that string. */
  lemma StringIsRead(src: Source, form: Format, i: nat, p: Param, last: bool)
    requires OccursAt(src.input, p.text + Closing(form, last), i) && StringParam(p) && StreamFormat(form)
    requires form.rawArgval == Some(false) && |form.valEnd| == 1 && KnowsJson(src.readJson)
    ensures i <= |src.input| && GoodValue(src, form, i)
    ensures JsonAt(src, i) == Read(p.value, |p.text|, "", "")
    ensures OccursAt(src.input, Closing(form, last), i + |p.text|)
  {
    hide *;
    var lead := LeadOf(p);
    var s, closing := p.value.text, Closing(form, last);
    StringStands(src, i, lead, s, closing);
    var rest :| AfterQuote(src, i) == EscapeAll(s) + ("\"" + (closing + rest));
    PrintedString(s, closing + rest);
    PrintedIsWhole(s);
    EndOfString(src, i, lead, s, closing);
    OccursEnds(src, form, last, StringEnd(src, i));
    StringIf(src, form, i);
    JsonValueIs(src, form, i);
    GoodMeans(src, form, i);
    KnowsBoth(src.readJson);
    ClosedStringRead(src, form, i);
    JsonReading.DecodeUndoesEscape(s);
    ClosedTextIs(AfterQuote(src, i));
    SkipBack(src.input, i + JsonAt(src, i).size);
  }

  lemma SkipBack(s: string, e: nat)
    requires e <= |s|
    ensures e <= SkipSpaces(s, e)
  {}

  // ------------------------------------------------------------ a printed scalar as a value

  /** The value is a scalar, printed after spaces, and what the reader makes of it alone. */
  ghost predicate ScalarParam(read: Reader, p: Param) {
    exists lead: string, b: string ::
      JsonSpaces(lead) && Scalar(b) && p.text == lead + b && p.value == ReadAlone(read, b)
  }

  lemma ScalarOf(read: Reader, p: Param) returns (lead: string, b: string)
    requires ScalarParam(read, p)
    ensures JsonSpaces(lead) && Scalar(b) && p.text == lead + b && p.value == ReadAlone(read, b)
  {
    hide JsonSpaces; hide Scalar; hide ReadAlone;
    lead, b :| JsonSpaces(lead) && Scalar(b) && p.text == lead + b && p.value == ReadAlone(read, b);
  }

  predicate NumberChar(c: char) {
    '0' <= c <= '9' || c == '-' || c == '+' || c == '.' || c == 'e' || c == 'E'
  }

  lemma ExponentBytes(b: string, fraction: nat)
    requires fraction < |b| && (b[fraction] == 'e' || b[fraction] == 'E')
    requires var sign := fraction + 1;
             var from := if sign < |b| && (b[sign] == '+' || b[sign] == '-') then sign + 1 else sign;
             from < |b| && SkipDigits(b, from) == |b|
    ensures forall k | fraction <= k < |b| :: NumberChar(b[k])
  {
    hide SkipDigits;
    var sign := fraction + 1;
    DigitRun(b, if b[sign] == '+' || b[sign] == '-' then sign + 1 else sign);
  }

  lemma NumberBytes(b: string)
    requires JsonNumber(b)
    ensures b != "" && forall k | 0 <= k < |b| :: NumberChar(b[k])
  {
    hide SkipDigits;
    var i := if b[0] == '-' then 1 else 0;
    DigitRun(b, i);
    var whole := if b[i] == '0' then i + 1 else SkipDigits(b, i);
    var point := whole < |b| && b[whole] == '.';
    if point { DigitRun(b, whole + 1); }
    var fraction := if point then SkipDigits(b, whole + 1) else whole;
    if fraction < |b| { ExponentBytes(b, fraction); }
    forall k | 0 <= k < |b| ensures NumberChar(b[k]) {
      if k < whole {
      } else if k < fraction {
      } else {
      }
    }
  }

  /** No space, comma or brace is in a scalar. */
  lemma ScalarBytes(b: string)
    requires Scalar(b)
    ensures b != "" && forall k | 0 <= k < |b| :: !IsSpace(b[k]) && b[k] != ',' && b[k] != '}'
  {
    hide JsonNumber;
    if JsonNumber(b) { NumberBytes(b); }
  }

  lemma BodyEndIs(s: string, i: nat, e: nat)
    requires i <= e < |s| && (forall k | i <= k < e :: !IsSpace(s[k]) && s[k] != ',' && s[k] != '}')
    requires s[e] == ',' || s[e] == '}'
    ensures BodyEnd(s, i) == e
  {
    BodyStops(s, i);
  }

  lemma BodyStands(s: string, b: string, closing: string, i: nat)
    requires OccursAt(s, b, i) && OccursAt(s, closing, i + |b|)
    requires forall k | 0 <= k < |b| :: !IsSpace(b[k]) && b[k] != ',' && b[k] != '}'
    requires closing != "" && (closing[0] == ',' || closing[0] == '}')
    ensures i + |b| < |s| && BodyEnd(s, i) == i + |b|
  {
    hide OccursAt; hide IsSpace; hide BodyEnd;
    BytesStand(s, b, i);
    BytesStand(s, closing, i + |b|);
    BodyEndIs(s, i, i + |b|);
  }

  lemma ScalarStands(src: Source, i: nat, lead: string, b: string, closing: string)
    requires OccursAt(src.input, (lead + b) + closing, i) && JsonSpaces(lead) && Scalar(b)
    requires closing != "" && (closing[0] == ',' || closing[0] == '}')
    ensures i <= |src.input| && SpacesAt(src, i) == lead && Body(src, i) == b
    ensures ScalarStop(src, i) == i + |lead + b| && OccursAt(src.input, closing, ScalarStop(src, i))
  {
    hide *;
    ScalarBytes(b);
    Splits(src.input, lead + b, closing, i);
    Splits(src.input, lead, b, i);
    SpacesStand(src, i, lead, b);
    OccursFits(src.input, (lead + b) + closing, i);
    BodyStands(src.input, b, closing, i + |lead|);
    StopIs(src, i);
    BodyIs(src, i);
    Between(src.input, b, i + |lead|);
  }

  lemma BytesStand(s: string, t: string, i: nat)
    requires OccursAt(s, t, i)
    ensures i + |t| <= |s| && forall k | i <= k < i + |t| :: s[k] == t[k - i]
  {
    forall k | i <= k < i + |t| ensures s[k] == t[k - i] { assert s[k] == s[i..i + |t|][k - i]; }
  }

  lemma SpacesStand(src: Source, i: nat, lead: string, b: string)
    requires OccursAt(src.input, lead, i) && OccursAt(src.input, b, i + |lead|) && JsonSpaces(lead)
    requires b != "" && !IsSpace(b[0])
    ensures i <= |src.input| && SkipSpaces(src.input, i) == i + |lead| && SpacesAt(src, i) == lead
  {
    BytesStand(src.input, lead, i);
    BytesStand(src.input, b, i + |lead|);
    SkipSpacesIs(src.input, i, i + |lead|);
  }

  lemma ScalarIsRead(src: Source, form: Format, i: nat, p: Param, last: bool)
    requires OccursAt(src.input, p.text + Closing(form, last), i) && ScalarParam(src.readJson, p)
    requires StreamFormat(form) && form.rawArgval == Some(false) && KnowsJson(src.readJson)
    ensures i <= |src.input| && GoodValue(src, form, i)
    ensures JsonAt(src, i) == Read(p.value, |p.text|, "", "")
    ensures OccursAt(src.input, Closing(form, last), i + |p.text|)
  {
    hide *;
    var lead, b := ScalarOf(src.readJson, p);
    var closing := Closing(form, last);
    ClosingByte(form, last);
    ScalarStands(src, i, lead, b, closing);
    ScalarBytes(b);
    var e := ScalarStop(src, i);
    OccursEnds(src, form, last, e);
    ScalarIf(src, form, i, "");
    JsonValueIs(src, form, i);
    GoodMeans(src, form, i);
    KnowsBoth(src.readJson);
    BodyIs(src, i);
    AttemptIs(src, i);
    EndsByte(src, form, e);
    AfterValueIs(src.input, e);
    ScalarEndsIs(src.input, e);
    ClosedScalarRead(src.readJson, lead, b, src.input[e..]);
    SkipInView(src.input, e);
    ScalarReadExact(src.readJson(src.input[i..]), p.value, |p.text|, src.input[e..]);
  }

  lemma ClosingByte(form: Format, last: bool)
    requires StreamFormat(form) && form.rawArgval == Some(false)
    ensures var closing := Closing(form, last); closing != "" && (closing[0] == ',' || closing[0] == '}')
  {
    hide AgreesAt; hide Sharp;
    JsonTags(form);
  }

  lemma ScalarReadExact(a: Attempt, value: Value, size: nat, rest: string)
    requires ScalarRead(a, value, size, rest) && SkipSpaces(rest, 0) == 0
    ensures a == Read(value, size, "", "")
  {
    hide SkipSpaces; hide Structured;
  }

  // ------------------------------------------------------------ what the printed stream needs

  ghost predicate JsonParam(read: Reader, p: Param) {
    StringParam(p) || ScalarParam(read, p)
  }

  /** With a reader that knows strings and scalars as the shipped one does, printed strings and scalars are read back
      as they are, and are good values wherever they stand. */
  lemma JsonParamPrints(src: Source, form: Format, p: Param, last: bool)
    requires StreamFormat(form) && PrintableFormat(form) && form.rawArgval == Some(false) && |form.valEnd| == 1
    requires KnowsJson(src.readJson) && JsonParam(src.readJson, p)
    ensures ReadsBack(src, form, p, last) && GoodParam(src, form, p, last)
  {
    hide *;
    forall i: nat | OccursAt(src.input, p.text + Closing(form, last), i)
      ensures i <= |src.input| && GoodValue(src, form, i) && StandsFor(src, form, i, p.text, p.value, last)
    {
      JsonParamMeans(src.readJson, p);
      if StringParam(p) { StringIsRead(src, form, i, p, last); } else { ScalarIsRead(src, form, i, p, last); }
      ReadStands(src, form, i, p, last);
    }
    ReadsBackIf(src, form, p, last);
  }

  lemma JsonParamMeans(read: Reader, p: Param)
    requires JsonParam(read, p)
    ensures StringParam(p) || ScalarParam(read, p)
  {
    hide StringParam; hide ScalarParam;
  }

  lemma ReadStands(src: Source, form: Format, i: nat, p: Param, last: bool)
    requires i <= |src.input| && JsonAt(src, i) == Read(p.value, |p.text|, "", "") && form.rawArgval == Some(false)
    requires StreamFormat(form) && OccursAt(src.input, Closing(form, last), i + |p.text|)
    ensures StandsFor(src, form, i, p.text, p.value, last)
  {
    hide *;
    var e := i + |p.text|;
    OccursFits(src.input, Closing(form, last), e);
    OccursEnds(src, form, last, e);
    EndFound(src, form, e);
    ClosedFound(src, form, e);
    GivesWayMeans(src, form, i);
    ClosingByte(form, last);
    CommaIsNoSpace();
    StandsIf(src, form, i, p, last);
  }

  lemma ClosedFound(src: Source, form: Format, e: nat)
    requires e <= |src.input|
    requires var r := FindValEnd(src, form, e); r.found.Some? && AllSpace(r.found.value.prelude)
    ensures ClosedJson(src, form, e, "").found.Some?
  {
    hide FindValEnd; hide AllSpace;
  }

  lemma StandsIf(src: Source, form: Format, i: nat, p: Param, last: bool)
    requires i <= |src.input| && JsonAt(src, i) == Read(p.value, |p.text|, "", "") && !GivesWay(src, form, i)
    requires Closing(form, last) != "" && !IsSpace(Closing(form, last)[0])
    ensures StandsFor(src, form, i, p.text, p.value, last)
  {
    hide JsonAt; hide GivesWay; hide Closing; hide IsSpace;
  }

  lemma ReadsBackIf(src: Source, form: Format, p: Param, last: bool)
    requires forall i: nat | OccursAt(src.input, p.text + Closing(form, last), i) ::
               i <= |src.input| && GoodValue(src, form, i) && StandsFor(src, form, i, p.text, p.value, last)
    ensures ReadsBack(src, form, p, last) && GoodParam(src, form, p, last)
  {
    hide OccursAt; hide Closing; hide GoodValue; hide StandsFor;
  }
}
