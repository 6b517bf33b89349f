/** A value that must be JSON, while it streams in: strings are shown as they grow, numbers and names are held back. */
module XmlJsonValues {
  import opened Wrappers
  import opened Text
  import opened LiteralSearch
  import opened Json
  import opened JsonHealing
  import opened JsonStrings
  import opened XmlSpec
  import opened XmlGrowth
  import opened XmlShown
  import opened XmlValues
  import Utf8

  // ------------------------------------------------------------ values that must be JSON

  /** What ends a value stands at `j`, as far as it has arrived: its delimiter, or the end of the tool. */
  predicate EndsHere(src: Source, form: Format, j: nat) {
    && j < |src.input|
    && (Begins(src, form.valEnd, j) || (form.lastValEnd.Some? && Begins(src, form.toolEnd, j)))
  }

  /** Where the value ends: after its delimiter, once it has arrived whole, or before the end of the tool. */
  function StopAt(src: Source, form: Format, j: nat): (k: Option<nat>)
    requires j < |src.input|
    ensures k.Some? ==> j <= k.value <= |src.input|
  {
    if src.input[j] != ',' then Some(j)
    else if j + |form.valEnd| <= |src.input| then Some(j + |form.valEnd|) else None
  }

  /** An end of the tool ends a value without a delimiter. */
  lemma CloseByTool(src: Source, form: Format, e: nat)
    requires e <= |src.input| && form.lastToolEnd.None? && form.lastValEnd == Some("")
    ensures var r := FindValEnd(src, form, e);
            var tc, tc2 := Search(src, e, form.valEnd), Search(src, e, form.toolEnd);
            r == if Earlier(tc2, tc) then Close(0, Some(tc2.value.(end := tc2.value.begin)))
                 else Close(|form.valEnd|, tc)
  {
    hide FindLiteral;
    CloseSteps(src, e, form.valEnd, form.lastValEnd, form.toolEnd, form.lastToolEnd);
  }

  lemma SpacesBefore(s: string, e: nat, c: char)
    requires e <= |s| && !IsSpace(c)
    ensures forall i | e <= i < SkipSpaces(s, e) :: s[i] != c
    ensures AllSpace(s[e..SkipSpaces(s, e)])
  {
    SkipsExactlySpaces(s, e);
  }

  lemma JsonTags(form: Format)
    requires StreamFormat(form) && form.rawArgval == Some(false)
    ensures Sharp(form.valEnd) && Sharp(form.toolEnd) && form.valEnd != "" && form.toolEnd != ""
    ensures form.valEnd[0] == ',' && form.toolEnd[0] == '}' && form.lastToolEnd.None?
    ensures form.lastValEnd.None? || form.lastValEnd == Some("")
  {}

  lemma BeginsWith(src: Source, tag: string, j: nat)
    requires j < |src.input| && tag != "" && Begins(src, tag, j)
    ensures src.input[j] == tag[0]
  {
    assert src.input[j] == src.input[j..][0];
  }

  lemma NoneBefore(src: Source, e: nat, j: nat, tag: string)
    requires e <= j < |src.input| && Sharp(tag) && (forall i | e <= i < j :: src.input[i] != tag[0])
    requires src.input[j] != tag[0]
    ensures var r := Search(src, e, tag); r.Some? ==> j < r.value.begin && |r.value.prelude| == r.value.begin - e
  {
    NothingInside(src, e, j + 1, tag);
  }

  /** The end of a value is found where it stands. */
  lemma EndFound(src: Source, form: Format, e: nat)
    requires e <= |src.input| && StreamFormat(form) && form.rawArgval == Some(false)
    requires EndsHere(src, form, SkipSpaces(src.input, e))
    ensures var j := SkipSpaces(src.input, e);
            var r := FindValEnd(src, form, e);
            && r.found.Some? && AllSpace(r.found.value.prelude)
            && match StopAt(src, form, j)
               case None => r.found.value.end - r.found.value.begin != r.size
               case Some(k) => r.found.value.end == k && k - r.found.value.begin == r.size
  {
    hide FindLiteral; hide FindClose; hide AllSpace; hide Sharp; hide AgreesAt; hide FindValEnd; hide IsSpace;
    JsonTags(form);
    var j := SkipSpaces(src.input, e);
    CommaIsNoSpace();
    SpacesBefore(src.input, e, ',');
    SpacesBefore(src.input, e, '}');
    ValEndIs(src, form, e);
    if form.lastValEnd.Some? { CloseByTool(src, form, e); }
    if Begins(src, form.valEnd, j) {
      BeginsWith(src, form.valEnd, j);
      FoundAt(src, e, j, form.valEnd);
      NoneBefore(src, e, j, form.toolEnd);
    } else {
      BeginsWith(src, form.toolEnd, j);
      FoundAt(src, e, j, form.toolEnd);
      NoneBefore(src, e, j, form.valEnd);
    }
  }

  lemma CommaIsNoSpace()
    ensures !IsSpace(',') && !IsSpace('}')
  {}

  lemma ValEndIs(src: Source, form: Format, e: nat)
    requires e <= |src.input|
    ensures form.lastValEnd.None? ==> FindValEnd(src, form, e) == Close(|form.valEnd|, Search(src, e, form.valEnd))
  {
    hide FindLiteral;
  }

  /** A value read as JSON, at whose end stands what ends it. */
  lemma JsonClosed(src: Source, form: Format, pos: nat)
    requires pos <= |src.input| && StreamFormat(form) && form.rawArgval == Some(false)
    requires JsonAt(src, pos).Read? && JsonAt(src, pos).marker == ""
    requires EndsHere(src, form, SkipSpaces(src.input, pos + JsonAt(src, pos).size))
    ensures PathOf(src, form, pos) ==
            match StopAt(src, form, SkipSpaces(src.input, pos + JsonAt(src, pos).size))
            case Some(k) => Closed(JsonAt(src, pos).value, k)
            case None => HeldBack
  {
    hide JsonAt; hide ScalarAhead; hide SkipSpaces; hide FindValEnd; hide AllSpace; hide StopAt; hide EndsHere;
    EndFound(src, form, pos + JsonAt(src, pos).size);
    EndsMeans(src, form, SkipSpaces(src.input, pos + JsonAt(src, pos).size));
  }

  lemma EndsMeans(src: Source, form: Format, j: nat)
    requires EndsHere(src, form, j)
    ensures j < |src.input|
  {}

  /** A value read as JSON up to the end of the text. */
  lemma JsonOpen(src: Source, form: Format, pos: nat)
    requires pos <= |src.input| && form.rawArgval == Some(false) && JsonAt(src, pos).Read?
    requires SkipSpaces(src.input, pos + JsonAt(src, pos).size) == |src.input|
    ensures PathOf(src, form, pos) ==
            if Structured(JsonAt(src, pos).value) then Open(JsonAt(src, pos)) else HeldBack
  {
    hide JsonAt; hide ScalarAhead; hide SkipSpaces; hide ClosedJson; hide Structured;
  }

  /** Where values must be JSON, one that may go on is held back exactly if it is a number, true, false or null; an
      object or an array is shown, as a string is. */
  lemma HeldExactly(src: Source, form: Format, pos: nat)
    requires pos <= |src.input| && form.rawArgval == Some(false) && JsonAt(src, pos).Read?
    requires SkipSpaces(src.input, pos + JsonAt(src, pos).size) == |src.input|
    requires var v := JsonAt(src, pos).value; v.NonString? ==> v.dump != "" && v.dump[0] in "{[-0123456789tfn"
    ensures var v := JsonAt(src, pos).value;
            PathOf(src, form, pos).HeldBack? <==> v.NonString? && v.dump[0] in "-0123456789tfn"
    ensures var v := JsonAt(src, pos).value;
            PathOf(src, form, pos).Open? <==> v.Str? || v.dump[0] in "{["
  {
    hide *;
    JsonOpen(src, form, pos);
    StructuredExactly(JsonAt(src, pos).value);
  }

  lemma StructuredExactly(v: Value)
    requires v.NonString? ==> v.dump != "" && v.dump[0] in "{[-0123456789tfn"
    ensures Structured(v) <==> v.Str? || v.dump[0] in "{["
    ensures Structured(v) <==> !(v.NonString? && v.dump[0] in "-0123456789tfn")
  {
    if v.NonString? {
      Leading(v.dump[0]);
    }
  }

  lemma Leading(c: char)
    ensures c in "{[" <==> c == '{' || c == '['
    ensures c in "{[-0123456789tfn" ==> (c in "-0123456789tfn" <==> !(c in "{["))
  {
    assert "{[-0123456789tfn" == "{[" + "-0123456789tfn";
    assert '{' !in "-0123456789tfn" && '[' !in "-0123456789tfn";
  }

  /** An end that has begun stays. */
  lemma EndStays(src: Source, src': Source, form: Format, j: nat)
    requires Grows(src, src') && j < |src.input| <= |src'.input| && EndsHere(src', form, j)
    ensures EndsHere(src, form, j)
    ensures StopAt(src, form, j).Some? ==> StopAt(src', form, j) == StopAt(src, form, j)
  {
    hide AgreesAt;
    AgreesInExtension(src.input, src'.input, form.valEnd, j);
    AgreesInExtension(src.input, src'.input, form.toolEnd, j);
  }

  // ------------------------------------------------------------ strings

  /** The reader of JSON knows strings as the shipped one does. */
  ghost predicate KnowsStrings(read: Reader) {
    exists marker :: ReadsStrings(read, marker)
  }

  /** What follows the opening quote. */
  function AfterQuote(src: Source, pos: nat): string
    requires pos <= |src.input| && SkipSpaces(src.input, pos) < |src.input|
  {
    src.input[SkipSpaces(src.input, pos) + 1..]
  }

  function SpacesAt(src: Source, pos: nat): string
    requires pos <= |src.input|
  {
    src.input[pos..SkipSpaces(src.input, pos)]
  }

  /** Where the string ends, up to its closing quote. */
  function StringEnd(src: Source, pos: nat): (e: nat)
    requires pos <= |src.input| && SkipSpaces(src.input, pos) < |src.input|
    ensures pos <= e <= |src.input|
  {
    SkipSpaces(src.input, pos) + 1 + |Taken(AfterQuote(src, pos))|
  }

  /** The value is a string written as `dump` writes it, without escapes of four digits; it goes on while the text
      does, and what ends the value, a single byte, follows it. */
  predicate StringValue(src: Source, form: Format, pos: nat)
    requires pos <= |src.input|
  {
    && |form.valEnd| == 1 && JsonSpaces(SpacesAt(src, pos)) && SkipSpaces(src.input, pos) < |src.input|
    && src.input[SkipSpaces(src.input, pos)] == '"'
    && var t := AfterQuote(src, pos);
       && PlainString(t) && Utf8.WellFormed(Inside(t))
       && (if Closes(t) then
             var j := SkipSpaces(src.input, StringEnd(src, pos)); j == |src.input| || EndsHere(src, form, j)
           else src.partial)
  }

  lemma QuotedIs(src: Source, pos: nat)
    requires pos <= |src.input| && SkipSpaces(src.input, pos) < |src.input|
    requires src.input[SkipSpaces(src.input, pos)] == '"'
    ensures src.input[pos..] == Quoted(SpacesAt(src, pos), AfterQuote(src, pos))
    ensures |src.input| == pos + |SpacesAt(src, pos)| + |AfterQuote(src, pos)| + 1
  {
    hide SkipSpaces;
    var j := SkipSpaces(src.input, pos);
    assert src.input[pos..] == src.input[pos..j] + ("\"" + src.input[j + 1..]);
  }

  lemma {:induction false} DigitsStay(s: string)
    requires forall i | 0 <= i < |s| :: '0' <= s[i] <= '9'
    ensures EscapeAll(s) == s
  {
    if s != "" {
      DigitsStay(s[1..]);
      assert EscapeChar(s[0]) == [s[0]];
    }
  }

  /** What completes an open string is found right after it. */
  lemma MarkerAfter(front: string, m: string)
    requires m != "" && m[|m| - 1] != '"'
    ensures FindLast(front + (m + "\""), m, |front + (m + "\"")|) == Some(|front|)
    ensures Contains(front + (m + "\""), m)
  {
    var s := front + (m + "\"");
    assert s[|front|..|front| + |m|] == m;
    assert OccursAt(s, m, |front|);
    ContainsMeans(s, m);
    forall i: nat | |front| < i <= |s| ensures !OccursAt(s, m, i) {
      if i + |m| == |s| { assert s[i..i + |m|][|m| - 1] == '"'; }
    }
    FindLastIs(s, m, |s|, |front|);
  }

  lemma QuoteWith(d: string, x: string)
    ensures Quote(d + x) == ("\"" + EscapeAll(d)) + (EscapeAll(x) + "\"")
  {
    hide EscapeAll;
    EscapeAllJoins(d, x);
  }

  lemma AttemptIs(src: Source, pos: nat)
    requires pos <= |src.input|
    ensures var r := src.readJson(src.input[pos..]);
            JsonAt(src, pos) == if r.Read? && r.marker != "" && !src.partial then NoJson else r
  {}

  /** How an open string is read: what completes it stands right after it in the dump. */
  predicate ReadOpen(r: Attempt, size: nat, t: string) {
    && r.Read? && r.value.Str? && r.size == size && r.marker != ""
    && r.dumpMarker != "" && '0' <= r.dumpMarker[|r.dumpMarker| - 1] <= '9'
    && DumpValue(r.value) == ("\"" + t) + (r.dumpMarker + "\"")
  }

  lemma ReadOpenIf(r: Attempt, v: string, size: nat, marker: string, x: string, t: string)
    requires r == Read(Str(v), size, marker, x) && marker != "" && x != "" && '0' <= x[|x| - 1] <= '9'
    requires Quote(v) == ("\"" + t) + (x + "\"")
    ensures ReadOpen(r, size, t)
  {
    hide Quote;
  }

  lemma SlashRead(read: Reader, marker: string, lead: string, t: string)
    requires ReadsStrings(read, marker) && JsonSpaces(lead)
    requires Utf8.WellFormed(t) && PlainString(t) && !Closes(t) && CutSlash(t)
    ensures ReadOpen(read(Quoted(lead, t)), |lead| + |t| + 1, t)
  {
    hide *;
    ReaderMeans(read, marker, lead, t);
    DigitsMean(marker);
    DigitsStay(marker);
    var d := ReadsSlash(read, marker, lead, t);
    var x := "\\" + marker;
    QuoteWith(d + "\\", marker);
    EscapeAllJoins(d, "\\");
    SlashEscapes();
    SlashBefore(EscapeAll(d), marker);
    EndsAlike("\\", marker);
    ReadOpenIf(read(Quoted(lead, t)), (d + "\\") + marker, |lead| + |t| + 1, marker, x, t);
  }

  lemma OpenRead(read: Reader, marker: string, lead: string, t: string)
    requires ReadsStrings(read, marker) && JsonSpaces(lead)
    requires Utf8.WellFormed(t) && PlainString(t) && !Closes(t) && !CutSlash(t)
    ensures ReadOpen(read(Quoted(lead, t)), |lead| + |t| + 1, t)
  {
    hide *;
    ReaderMeans(read, marker, lead, t);
    DigitsMean(marker);
    DigitsStay(marker);
    var d := ReadsOpen(read, marker, lead, t);
    QuoteWith(d, marker);
    ReadOpenIf(read(Quoted(lead, t)), d + marker, |lead| + |t| + 1, marker, marker, t);
  }

  lemma EndsAlike(a: string, b: string)
    requires b != ""
    ensures a + b != "" && (a + b)[|a + b| - 1] == b[|b| - 1]
  {}

  lemma CutRead(read: Reader, marker: string, lead: string, t: string)
    requires ReadsStrings(read, marker) && JsonSpaces(lead)
    requires Utf8.WellFormed(t) && PlainString(t) && !Closes(t)
    ensures ReadOpen(read(Quoted(lead, t)), |lead| + |t| + 1, t)
  {
    hide *;
    if CutSlash(t) { SlashRead(read, marker, lead, t); } else { OpenRead(read, marker, lead, t); }
  }

  lemma SlashBefore(e: string, marker: string)
    ensures "\"" + (e + ("\\" + "\\")) + (marker + "\"") == ("\"" + (e + "\\")) + (("\\" + marker) + "\"")
  {}

  lemma SlashEscapes()
    ensures EscapeAll("\\") == "\\" + "\\"
  {
    assert EscapeAll("\\") == EscapeChar('\\') + EscapeAll("");
  }

  lemma DigitsMean(m: string)
    requires Digits(m)
    ensures m != "" && '0' <= m[|m| - 1] <= '9' && forall i | 0 <= i < |m| :: '0' <= m[i] <= '9'
  {}

  lemma StringMeans(src: Source, form: Format, pos: nat)
    requires pos <= |src.input| && StringValue(src, form, pos)
    ensures |form.valEnd| == 1 && JsonSpaces(SpacesAt(src, pos)) && SkipSpaces(src.input, pos) < |src.input|
    ensures src.input[SkipSpaces(src.input, pos)] == '"'
    ensures var t := AfterQuote(src, pos);
            PlainString(t) && Utf8.WellFormed(Inside(t)) && (!Closes(t) ==> src.partial)
    ensures var j := SkipSpaces(src.input, StringEnd(src, pos));
            Closes(AfterQuote(src, pos)) ==> j == |src.input| || EndsHere(src, form, j)
  {
    hide SkipSpaces; hide Closes; hide Inside; hide Utf8.WellFormed; hide PlainString; hide EndsHere; hide SpacesAt;
    hide JsonSpaces; hide AfterQuote; hide StringEnd;
  }

  lemma {:induction false} OpenInside(t: string)
    requires !Closes(t)
    ensures Inside(t) == t && Taken(t) == t
    decreases |t|
  {
    hide Unit;
    if t != "" {
      OpenInside(t[Unit(t)..]);
      assert t == t[..Unit(t)] + t[Unit(t)..];
    }
  }

  lemma AllSkipped(s: string)
    ensures SkipSpaces(s, |s|) == |s|
  {}

  lemma MarkerOf(read: Reader) returns (marker: string)
    requires KnowsStrings(read)
    ensures ReadsStrings(read, marker)
  {
    hide ReadsStrings;
    marker :| ReadsStrings(read, marker);
  }

  /** What an open string shows. */
  lemma OpenString(src: Source, form: Format, pos: nat)
    requires pos <= |src.input| && form.rawArgval == Some(false) && StringValue(src, form, pos)
    requires KnowsStrings(src.readJson)
    requires SkipSpaces(src.input, pos) < |src.input| && !Closes(AfterQuote(src, pos))
    ensures var p := PathOf(src, form, pos);
            p.Open? && CutsDump(p.json) && OpenText(p.json) == "\"" + Taken(AfterQuote(src, pos))
  {
    hide *;
    var marker := MarkerOf(src.readJson);
    StringMeans(src, form, pos);
    QuotedIs(src, pos);
    AttemptIs(src, pos);
    var t := AfterQuote(src, pos);
    OpenInside(t);
    CutRead(src.readJson, marker, SpacesAt(src, pos), t);
    AllSkipped(src.input);
    ReadOpenShows(JsonAt(src, pos), |src.input| - pos, t);
    JsonOpen(src, form, pos);
  }

  lemma ReadOpenShows(r: Attempt, size: nat, t: string)
    requires ReadOpen(r, size, t)
    ensures r.Read? && r.size == size && Structured(r.value) && CutsDump(r) && OpenText(r) == "\"" + t
  {
    hide DumpValue; hide FindLast; hide Contains;
    MarkerAfter("\"" + t, r.dumpMarker);
    assert (("\"" + t) + (r.dumpMarker + "\""))[..|"\"" + t|] == "\"" + t;
  }

  lemma {:induction false} SkipInView(s: string, i: nat)
    requires i <= |s|
    ensures SkipSpaces(s[i..], 0) + i == SkipSpaces(s, i)
  {
    SkipsExactlySpaces(s, i);
    var k := SkipSpaces(s, i);
    SkipSpacesIs(s[i..], 0, k - i);
  }

  lemma SkipWithin(s: string, i: nat, e: nat)
    requires i <= |s| && i <= e <= SkipSpaces(s, i)
    ensures SkipSpaces(s, e) == SkipSpaces(s, i)
  {
    SkipsExactlySpaces(s, i);
    SkipSpacesIs(s, e, SkipSpaces(s, i));
  }

  lemma EndsByte(src: Source, form: Format, j: nat)
    requires StreamFormat(form) && form.rawArgval == Some(false) && EndsHere(src, form, j)
    ensures j < |src.input| && (src.input[j] == ',' || src.input[j] == '}')
  {
    hide AgreesAt; hide Sharp;
    JsonTags(form);
    if Begins(src, form.valEnd, j) { BeginsWith(src, form.valEnd, j); } else { BeginsWith(src, form.toolEnd, j); }
  }

  lemma AfterValueIs(s: string, e: nat)
    requires e <= |s|
    requires var j := SkipSpaces(s, e); j == |s| || s[j] == ',' || s[j] == '}'
    ensures AfterValue(s[e..])
  {
    hide SkipSpaces;
    SkipInView(s, e);
  }

  function ClosedText(t: string): string {
    match Decode(Inside(t))
    case Some(d) => d
    case None => ""
  }

  /** How a closed string is read. */
  lemma ClosedStringRead(src: Source, form: Format, pos: nat)
    requires pos <= |src.input| && form.rawArgval == Some(false) && StringValue(src, form, pos)
    requires StreamFormat(form) && KnowsStrings(src.readJson)
    requires SkipSpaces(src.input, pos) < |src.input| && Closes(AfterQuote(src, pos))
    ensures var json, e, j := JsonAt(src, pos), StringEnd(src, pos), SkipSpaces(src.input, StringEnd(src, pos));
            && json.Read? && json.value == Str(ClosedText(AfterQuote(src, pos)))
            && json.marker == "" && json.dumpMarker == ""
            && DumpValue(json.value) == "\"" + Taken(AfterQuote(src, pos))
            && e <= pos + json.size <= |src.input| && SkipSpaces(src.input, pos + json.size) == j
  {
    hide *;
    var marker := MarkerOf(src.readJson);
    StringMeans(src, form, pos);
    QuotedIs(src, pos);
    AttemptIs(src, pos);
    var t, e := AfterQuote(src, pos), StringEnd(src, pos);
    var j := SkipSpaces(src.input, e);
    StringEndIs(src, pos);
    if j < |src.input| { EndsByte(src, form, j); }
    AfterValueIs(src.input, e);
    SkipInView(src.input, e);
    var d := ReadsClosed(src.readJson, marker, SpacesAt(src, pos), t);
    ClosedReadMeans(src.readJson(src.input[pos..]), d, e - pos, t[|Taken(t)|..]);
    SkipWithin(src.input, e, pos + JsonAt(src, pos).size);
    ClosedTextIs(t);
    DumpStr(d);
    QuoteIs(d);
    assert ("\"" + EscapeAll(d)) + "\"" == "\"" + (EscapeAll(d) + "\"");
  }

  lemma ClosedTextIs(t: string)
    ensures Decode(Inside(t)).Some? ==> ClosedText(t) == Decode(Inside(t)).value
  {
    hide Decode; hide Inside;
  }

  lemma ClosedReadMeans(a: Attempt, text: string, size: nat, rest: string)
    requires ClosedRead(a, text, size, rest)
    ensures a.Read? && a.value == Str(text) && a.marker == "" && a.dumpMarker == ""
    ensures size <= a.size <= size + SkipSpaces(rest, 0)
  {
    hide SkipSpaces;
  }

  lemma StringEndIs(src: Source, pos: nat)
    requires pos <= |src.input| && SkipSpaces(src.input, pos) < |src.input|
    ensures var t, e := AfterQuote(src, pos), StringEnd(src, pos);
            && e == pos + |SpacesAt(src, pos)| + 1 + |Taken(t)| <= |src.input| && |Taken(t)| <= |t|
            && t[|Taken(t)|..] == src.input[e..]
  {
    hide SkipSpaces; hide Taken;
    var t, e, j := AfterQuote(src, pos), StringEnd(src, pos), SkipSpaces(src.input, pos);
    assert t[|Taken(t)|..] == src.input[j + 1..][|Taken(t)|..] == src.input[e..];
  }

  /** What a closed string shows, and when it is finished. */
  lemma ClosedString(src: Source, form: Format, pos: nat)
    requires pos <= |src.input| && form.rawArgval == Some(false) && StringValue(src, form, pos)
    requires StreamFormat(form) && KnowsStrings(src.readJson)
    requires SkipSpaces(src.input, pos) < |src.input| && Closes(AfterQuote(src, pos))
    ensures var p, j := PathOf(src, form, pos), SkipSpaces(src.input, StringEnd(src, pos));
            var text, value := "\"" + Taken(AfterQuote(src, pos)), Str(ClosedText(AfterQuote(src, pos)));
            && DumpValue(value) == text
            && if j == |src.input| then p.Open? && CutsDump(p.json) && OpenText(p.json) == text
               else
                 && EndsHere(src, form, j) && StopAt(src, form, j).Some?
                 && p == Closed(value, StopAt(src, form, j).value)
  {
    hide *;
    StringMeans(src, form, pos);
    ClosedStringRead(src, form, pos);
    var json, j := JsonAt(src, pos), SkipSpaces(src.input, StringEnd(src, pos));
    if j == |src.input| {
      JsonOpen(src, form, pos);
      OpenTextIs(json);
      NothingCompletes(json);
    } else {
      JsonClosed(src, form, pos);
      StopsAlways(src, form, j);
    }
  }

  lemma NothingCompletes(json: Attempt)
    requires json.Read? && json.dumpMarker == "" && json.value.Str?
    ensures CutsDump(json) && Structured(json.value)
  {}

  lemma StopsAlways(src: Source, form: Format, j: nat)
    requires |form.valEnd| == 1 && EndsHere(src, form, j)
    ensures j < |src.input| && StopAt(src, form, j).Some?
  {
    hide AgreesAt;
  }

  // ------------------------------------------------------------ numbers, true, false and null

  /** A number (section 6 of RFC 8259). */
  predicate JsonNumber(b: string) {
    var i := if b != "" && b[0] == '-' then 1 else 0;
    && i < |b| && '0' <= b[i] <= '9'
    && var whole := if b[i] == '0' then i + 1 else SkipDigits(b, i);
       var point := whole < |b| && b[whole] == '.';
       var fraction := if point then SkipDigits(b, whole + 1) else whole;
       && (point ==> whole + 1 < fraction)
       && (fraction < |b| ==>
             && (b[fraction] == 'e' || b[fraction] == 'E')
             && var sign := fraction + 1;
                var from := if sign < |b| && (b[sign] == '+' || b[sign] == '-') then sign + 1 else sign;
                from < |b| && SkipDigits(b, from) == |b|)
  }

  predicate Scalar(b: string) {
    b == "null" || b == "true" || b == "false" || JsonNumber(b)
  }

  lemma {:induction false} DigitRun(s: string, i: nat)
    requires i <= |s|
    ensures forall k | i <= k < SkipDigits(s, i) :: '0' <= s[k] <= '9'
    ensures SkipDigits(s, i) < |s| ==> !('0' <= s[SkipDigits(s, i)] <= '9')
    decreases |s| - i
  {
    if i < |s| && '0' <= s[i] <= '9' { DigitRun(s, i + 1); }
  }

  lemma DigitRunIs(s: string, i: nat, k: nat)
    requires i <= k <= |s| && (forall j | i <= j < k :: '0' <= s[j] <= '9')
    requires k < |s| ==> !('0' <= s[k] <= '9')
    ensures SkipDigits(s, i) == k
  {
    DigitRun(s, i);
  }

  /** The test for a scalar that may go on accepts every scalar, and so everything it begins with. */
  lemma ScalarIsHeld(b: string)
    requires Scalar(b)
    ensures ScalarText(b)
  {
    if JsonNumber(b) {
      hide SkipDigits;
      var i := if b[0] == '-' then 1 else 0;
      DigitRun(b, i);
      var whole := if b[i] == '0' then i + 1 else SkipDigits(b, i);
      DigitRunIs(b, 1, whole);
    }
  }

  /** What the reader makes of the end of a text that begins a scalar. */
  predicate ScalarOpen(a: Attempt, size: nat) {
    a.NoJson? || (a.Read? && a.size == size && a.marker == "" && a.dumpMarker == "" && !Structured(a.value))
  }

  predicate ScalarRead(a: Attempt, value: Value, size: nat, rest: string) {
    && a.Read? && a.value == value && !Structured(value) && a.marker == "" && a.dumpMarker == ""
    && size <= a.size <= size + SkipSpaces(rest, 0)
  }

  /** The value of a scalar. */
  function ReadAlone(read: Reader, b: string): Value {
    var a := read(b + ",");
    if a.Read? then a.value else Str("")
  }

  predicate ScalarEnds(rest: string) {
    rest != "" && (IsSpace(rest[0]) || rest[0] == ',' || rest[0] == '}') && AfterValue(rest)
  }

  /** The reader takes a whole scalar with some of the spaces after it, and never shows one. */
  ghost predicate KnowsScalars(read: Reader) {
    && (forall lead: string, b: string, whole: string | JsonSpaces(lead) && Scalar(whole) && b != "" && b <= whole ::
          ScalarOpen(read(lead + b), |lead| + |b|))
    && (forall lead: string, b: string, rest: string | JsonSpaces(lead) && Scalar(b) && ScalarEnds(rest) ::
          ScalarRead(read(lead + (b + rest)), ReadAlone(read, b), |lead| + |b|, rest))
  }

  lemma OpenScalarRead(read: Reader, lead: string, b: string, whole: string)
    requires KnowsScalars(read) && JsonSpaces(lead) && Scalar(whole) && b != "" && b <= whole
    ensures ScalarOpen(read(lead + b), |lead| + |b|)
  {
    hide JsonSpaces; hide Scalar; hide ScalarOpen; hide ScalarRead; hide ScalarEnds;
  }

  lemma ClosedScalarRead(read: Reader, lead: string, b: string, rest: string)
    requires KnowsScalars(read) && JsonSpaces(lead) && Scalar(b) && ScalarEnds(rest)
    ensures ScalarRead(read(lead + (b + rest)), ReadAlone(read, b), |lead| + |b|, rest)
  {
    hide JsonSpaces; hide Scalar; hide ScalarOpen; hide ScalarRead; hide ScalarEnds; hide ReadAlone;
  }

  /** Where a scalar that begins at `i` ends. */
  function BodyEnd(s: string, i: nat): (e: nat)
    requires i <= |s|
    ensures i <= e <= |s|
    decreases |s| - i
  {
    if i < |s| && !IsSpace(s[i]) && s[i] != ',' && s[i] != '}' then BodyEnd(s, i + 1) else i
  }

  function Body(src: Source, pos: nat): string
    requires pos <= |src.input|
  {
    var j := SkipSpaces(src.input, pos);
    src.input[j..BodyEnd(src.input, j)]
  }

  function ScalarStop(src: Source, pos: nat): (e: nat)
    requires pos <= |src.input|
    ensures SkipSpaces(src.input, pos) <= e <= |src.input|
  {
    BodyEnd(src.input, SkipSpaces(src.input, pos))
  }

  /** The value is a scalar, or what has arrived of one, and what ends it follows. */
  ghost predicate ScalarValue(src: Source, form: Format, pos: nat)
    requires pos <= |src.input|
  {
    && JsonSpaces(SpacesAt(src, pos)) && Body(src, pos) != ""
    && if ScalarStop(src, pos) == |src.input| then exists whole: string :: Scalar(whole) && Body(src, pos) <= whole
       else
         && Scalar(Body(src, pos))
         && var j := SkipSpaces(src.input, ScalarStop(src, pos)); j == |src.input| || EndsHere(src, form, j)
  }

  lemma BodyIs(src: Source, pos: nat)
    requires pos <= |src.input|
    ensures var j, e := SkipSpaces(src.input, pos), ScalarStop(src, pos);
            && Body(src, pos) == src.input[j..e] && |SpacesAt(src, pos)| + pos == j
            && src.input[pos..] == SpacesAt(src, pos) + (Body(src, pos) + src.input[e..])
  {
    hide SkipSpaces; hide BodyEnd;
    var j, e := SkipSpaces(src.input, pos), ScalarStop(src, pos);
    assert src.input[pos..] == src.input[pos..j] + (src.input[j..e] + src.input[e..]);
  }

  lemma HeldByTest(src: Source, form: Format, pos: nat, whole: string)
    requires pos <= |src.input| && form.rawArgval == Some(false) && JsonAt(src, pos).NoJson?
    requires Scalar(whole) && src.input[SkipSpaces(src.input, pos)..] <= whole
    ensures PathOf(src, form, pos).HeldBack?
  {
    hide JsonAt; hide SkipSpaces; hide ScalarText; hide Scalar; hide Utf8.TruncateSafe; hide ScalarAhead;
    ScalarIsHeld(whole);
    ScalarIs(src, pos);
    assert ScalarRest(src, pos) <= whole;
    ScalarBegins(ScalarRest(src, pos), whole);
  }

  /** Of a scalar that may go on nothing is shown. */
  lemma OpenScalar(src: Source, form: Format, pos: nat)
    requires pos <= |src.input| && form.rawArgval == Some(false) && ScalarValue(src, form, pos)
    requires KnowsScalars(src.readJson) && ScalarStop(src, pos) == |src.input|
    ensures PathOf(src, form, pos).HeldBack?
  {
    hide *;
    var whole := WholeScalar(src, form, pos);
    BodyIs(src, pos);
    AttemptIs(src, pos);
    var lead, b := SpacesAt(src, pos), Body(src, pos);
    assert b + src.input[|src.input|..] == b;
    OpenScalarRead(src.readJson, lead, b, whole);
    ScalarOpenMeans(src.readJson(lead + b), |lead| + |b|);
    if JsonAt(src, pos).NoJson? {
      HeldByTest(src, form, pos, whole);
    } else {
      AllSkipped(src.input);
      JsonOpen(src, form, pos);
    }
  }

  lemma ScalarOpenMeans(a: Attempt, size: nat)
    requires ScalarOpen(a, size)
    ensures a.NoJson? || (a.Read? && a.size == size && a.marker == "" && !Structured(a.value))
  {
    hide Structured;
  }

  lemma WholeScalar(src: Source, form: Format, pos: nat) returns (whole: string)
    requires pos <= |src.input| && ScalarValue(src, form, pos) && ScalarStop(src, pos) == |src.input|
    ensures Scalar(whole) && Body(src, pos) <= whole && Body(src, pos) != "" && JsonSpaces(SpacesAt(src, pos))
  {
    hide Scalar; hide Body; hide SkipSpaces; hide ScalarStop; hide SpacesAt;
    whole :| Scalar(whole) && Body(src, pos) <= whole;
  }

  lemma ScalarMeans(src: Source, form: Format, pos: nat)
    requires pos <= |src.input| && ScalarValue(src, form, pos) && ScalarStop(src, pos) < |src.input|
    ensures JsonSpaces(SpacesAt(src, pos)) && Scalar(Body(src, pos)) && Body(src, pos) != ""
    ensures var j := SkipSpaces(src.input, ScalarStop(src, pos)); j == |src.input| || EndsHere(src, form, j)
  {
    hide Scalar; hide Body; hide SkipSpaces; hide ScalarStop; hide EndsHere; hide SpacesAt; hide JsonSpaces;
  }

  lemma {:induction false} BodyStops(s: string, i: nat)
    requires i <= |s|
    ensures var e := BodyEnd(s, i);
            && (forall k | i <= k < e :: !IsSpace(s[k]) && s[k] != ',' && s[k] != '}')
            && (e < |s| ==> IsSpace(s[e]) || s[e] == ',' || s[e] == '}')
    decreases |s| - i
  {
    if i < |s| && !IsSpace(s[i]) && s[i] != ',' && s[i] != '}' { BodyStops(s, i + 1); }
  }

  lemma ScalarEndsIs(s: string, e: nat)
    requires e < |s| && (IsSpace(s[e]) || s[e] == ',' || s[e] == '}') && AfterValue(s[e..])
    ensures ScalarEnds(s[e..])
  {
    hide AfterValue;
  }

  /** A scalar that something follows. */
  lemma ClosedScalar(src: Source, form: Format, pos: nat)
    requires pos <= |src.input| && form.rawArgval == Some(false) && ScalarValue(src, form, pos)
    requires StreamFormat(form) && KnowsScalars(src.readJson) && ScalarStop(src, pos) < |src.input|
    ensures var p, j := PathOf(src, form, pos), SkipSpaces(src.input, ScalarStop(src, pos));
            if j == |src.input| then p.HeldBack?
            else
              EndsHere(src, form, j) && j < |src.input| &&
              p == match StopAt(src, form, j)
                   case Some(k) => Closed(ReadAlone(src.readJson, Body(src, pos)), k)
                   case None => HeldBack
  {
    hide *;
    ScalarMeans(src, form, pos);
    BodyIs(src, pos);
    AttemptIs(src, pos);
    var lead, b, e := SpacesAt(src, pos), Body(src, pos), ScalarStop(src, pos);
    var j := SkipSpaces(src.input, e);
    if j < |src.input| { EndsByte(src, form, j); }
    AfterValueIs(src.input, e);
    BodyStops(src.input, SkipSpaces(src.input, pos));
    StopIs(src, pos);
    ScalarEndsIs(src.input, e);
    ClosedScalarRead(src.readJson, lead, b, src.input[e..]);
    ScalarReadMeans(src.readJson(src.input[pos..]), ReadAlone(src.readJson, b), |lead| + |b|, src.input[e..]);
    SkipInView(src.input, e);
    SkipWithin(src.input, e, pos + JsonAt(src, pos).size);
    if j == |src.input| { JsonOpen(src, form, pos); } else { JsonClosed(src, form, pos); }
  }

  lemma StopIs(src: Source, pos: nat)
    requires pos <= |src.input|
    ensures ScalarStop(src, pos) == BodyEnd(src.input, SkipSpaces(src.input, pos))
  {
    hide SkipSpaces; hide BodyEnd;
  }

  lemma ScalarReadMeans(a: Attempt, value: Value, size: nat, rest: string)
    requires ScalarRead(a, value, size, rest)
    ensures a.Read? && a.value == value && !Structured(value) && a.marker == ""
    ensures size <= a.size <= size + SkipSpaces(rest, 0)
  {
    hide SkipSpaces; hide Structured;
  }

  // ------------------------------------------------------------ one value in a growing text

  /** The reader of JSON knows strings and scalars as the shipped one does. */
  ghost predicate KnowsJson(read: Reader) {
    KnowsStrings(read) && KnowsScalars(read)
  }

  /** A string or a scalar, or what has arrived of one. */
  ghost predicate JsonValue(src: Source, form: Format, pos: nat)
    requires pos <= |src.input|
  {
    && JsonSpaces(SpacesAt(src, pos))
    && (SkipSpaces(src.input, pos) == |src.input| || StringValue(src, form, pos) || ScalarValue(src, form, pos))
  }

  lemma JsonValueIs(src: Source, form: Format, pos: nat)
    requires pos <= |src.input|
    ensures JsonValue(src, form, pos) <==>
            && JsonSpaces(SpacesAt(src, pos))
            && (SkipSpaces(src.input, pos) == |src.input| || StringValue(src, form, pos) || ScalarValue(src, form, pos))
  {
    hide JsonSpaces; hide SpacesAt; hide SkipSpaces; hide StringValue; hide ScalarValue;
  }

  /** Of spaces alone nothing is shown. */
  lemma BlankHeld(src: Source, form: Format, pos: nat)
    requires pos <= |src.input| && form.rawArgval == Some(false) && KnowsStrings(src.readJson)
    requires JsonSpaces(SpacesAt(src, pos)) && SkipSpaces(src.input, pos) == |src.input|
    ensures PathOf(src, form, pos).HeldBack?
  {
    hide *;
    var marker := MarkerOf(src.readJson);
    EmptyIsWhole();
    ReaderMeans(src.readJson, marker, SpacesAt(src, pos), "");
    AttemptIs(src, pos);
    LeadIsAll(src, pos);
    NothingIsScalar(src, pos);
    HeldIf(src, form, pos);
  }

  lemma EmptyIsWhole()
    ensures Utf8.WellFormed("")
  {}

  lemma LeadIsAll(src: Source, pos: nat)
    requires pos <= |src.input| && SkipSpaces(src.input, pos) == |src.input|
    ensures SpacesAt(src, pos) == src.input[pos..]
  {
    hide SkipSpaces;
  }

  lemma NothingIsScalar(src: Source, pos: nat)
    requires pos <= |src.input| && SkipSpaces(src.input, pos) == |src.input|
    ensures ScalarAhead(src, pos)
  {
    hide SkipSpaces; hide Utf8.TruncateSafe; hide ScalarAhead;
    ScalarIs(src, pos);
    assert ScalarRest(src, pos) == "";
  }

  lemma HeldIf(src: Source, form: Format, pos: nat)
    requires pos <= |src.input| && form.rawArgval == Some(false) && JsonAt(src, pos).NoJson? && ScalarAhead(src, pos)
    ensures PathOf(src, form, pos).HeldBack?
  {
    hide JsonAt; hide ScalarAhead;
  }

  /** When a string is finished, and what is shown of it before. */
  lemma StringShows(src: Source, form: Format, pos: nat)
    requires pos <= |src.input| && form.rawArgval == Some(false) && StringValue(src, form, pos)
    requires StreamFormat(form) && KnowsStrings(src.readJson)
    ensures SkipSpaces(src.input, pos) < |src.input|
    ensures var p, t, j := PathOf(src, form, pos), AfterQuote(src, pos), SkipSpaces(src.input, StringEnd(src, pos));
            && (p.Open? || p.Closed?) && (p.Open? ==> CutsDump(p.json) && Begun(src, form, pos) == "\"" + Taken(t))
            && (Closes(t) ==> DumpValue(Str(ClosedText(t))) == "\"" + Taken(t))
            && (p.Closed? ==> Closes(t) && EndsHere(src, form, j) && j < |src.input| && StopAt(src, form, j).Some? &&
                              p == Closed(Str(ClosedText(t)), StopAt(src, form, j).value))
            && (p.Open? && Closes(t) ==> j == |src.input|)
  {
    hide *;
    StringMeans(src, form, pos);
    ByPath(src, form, pos);
    if Closes(AfterQuote(src, pos)) {
      ClosedString(src, form, pos);
      var j := SkipSpaces(src.input, StringEnd(src, pos));
      if j < |src.input| { EndsMeans(src, form, j); }
    } else {
      OpenString(src, form, pos);
    }
  }

  lemma ScalarShows(src: Source, form: Format, pos: nat)
    requires pos <= |src.input| && form.rawArgval == Some(false) && ScalarValue(src, form, pos)
    requires StreamFormat(form) && KnowsScalars(src.readJson)
    ensures var p, j := PathOf(src, form, pos), SkipSpaces(src.input, ScalarStop(src, pos));
            && (p.HeldBack? || p.Closed?)
            && (p.Closed? ==> ScalarStop(src, pos) < |src.input| && j < |src.input| && EndsHere(src, form, j) &&
                              StopAt(src, form, j).Some? &&
                              p == Closed(ReadAlone(src.readJson, Body(src, pos)), StopAt(src, form, j).value))
  {
    hide *;
    if ScalarStop(src, pos) == |src.input| { OpenScalar(src, form, pos); } else { ClosedScalar(src, form, pos); }
  }

  /** How such a value is read: never as text, and what is shown of it can be cut out of its dump. */
  lemma JsonPath(src: Source, form: Format, pos: nat)
    requires pos <= |src.input| && form.rawArgval == Some(false) && JsonValue(src, form, pos)
    requires StreamFormat(form) && KnowsJson(src.readJson)
    ensures var p := PathOf(src, form, pos); !p.AsText? && !p.Fails? && (p.Open? ==> CutsDump(p.json))
  {
    hide *;
    KnowsBoth(src.readJson);
    JsonValueIs(src, form, pos);
    if SkipSpaces(src.input, pos) == |src.input| {
      BlankHeld(src, form, pos);
    } else if StringValue(src, form, pos) {
      StringShows(src, form, pos);
    } else {
      ScalarShows(src, form, pos);
    }
  }

  lemma KnowsBoth(read: Reader)
    requires KnowsJson(read)
    ensures KnowsStrings(read) && KnowsScalars(read)
  {
    hide KnowsStrings; hide KnowsScalars;
  }

  // what starts a value decides how it is read

  lemma ScalarStarts(b: string)
    requires Scalar(b)
    ensures b != "" && b[0] != '"'
  {
    hide SkipDigits;
  }

  lemma NotQuoted(src: Source, form: Format, pos: nat)
    requires pos <= |src.input| && ScalarValue(src, form, pos)
    ensures var j := SkipSpaces(src.input, pos); j < |src.input| && src.input[j] != '"'
  {
    hide *;
    BodyIs(src, pos);
    if ScalarStop(src, pos) == |src.input| {
      var whole := WholeScalar(src, form, pos);
      ScalarStarts(whole);
    } else {
      ScalarMeans(src, form, pos);
      ScalarStarts(Body(src, pos));
    }
  }

  lemma StartStays(src: Source, src': Source, pos: nat)
    requires Grows(src, src') && pos <= |src.input| <= |src'.input| && SkipSpaces(src.input, pos) < |src.input|
    ensures SkipSpaces(src'.input, pos) == SkipSpaces(src.input, pos) && SpacesAt(src', pos) == SpacesAt(src, pos)
    ensures src'.input[SkipSpaces(src.input, pos)] == src.input[SkipSpaces(src.input, pos)]
  {
    SkipSpacesExtends(src.input, src'.input, pos);
    var j := SkipSpaces(src.input, pos);
    assert src.input[pos..j] == src'.input[pos..j];
  }

  lemma QuoteStays(src: Source, src': Source, pos: nat)
    requires Grows(src, src') && pos <= |src.input| <= |src'.input| && SkipSpaces(src.input, pos) < |src.input|
    ensures SkipSpaces(src'.input, pos) < |src'.input| && AfterQuote(src, pos) <= AfterQuote(src', pos)
  {
    hide SkipSpaces;
    StartStays(src, src', pos);
    var j := SkipSpaces(src.input, pos);
    assert src.input[j + 1..] == src'.input[j + 1..][..|src.input| - j - 1];
  }

  /** A string that is closed stays closed, at the same place. */
  lemma ClosedStays(src: Source, src': Source, pos: nat)
    requires Grows(src, src') && pos <= |src.input| <= |src'.input| && SkipSpaces(src.input, pos) < |src.input|
    requires Closes(AfterQuote(src, pos)) && PlainString(AfterQuote(src, pos))
    ensures SkipSpaces(src'.input, pos) < |src'.input| && PlainString(AfterQuote(src', pos)) ==>
              && Closes(AfterQuote(src', pos)) && StringEnd(src', pos) == StringEnd(src, pos)
              && Taken(AfterQuote(src', pos)) == Taken(AfterQuote(src, pos))
              && Inside(AfterQuote(src', pos)) == Inside(AfterQuote(src, pos))
  {
    hide *;
    QuoteStays(src, src', pos);
    StartStays(src, src', pos);
    var t, t' := AfterQuote(src, pos), AfterQuote(src', pos);
    TakenGrows(t, t');
    StringEndIs(src, pos);
    StringEndIs(src', pos);
    ClosedParts(t);
    if PlainString(t') {
      ClosedParts(t');
      SameInside(Inside(t), Inside(t'));
    }
  }

  lemma SameInside(a: string, b: string)
    requires a + "\"" == b + "\""
    ensures a == b
  {
    assert |a| == |b| && a == (a + "\"")[..|a|] && b == (b + "\"")[..|b|];
  }

  /** After a value that has ended a character starts. */
  lemma StopReads(src: Source, form: Format, pos: nat, j: nat, w: string)
    requires Reads(src, w, pos) && StreamFormat(form) && form.rawArgval == Some(false)
    requires pos <= j && EndsHere(src, form, j) && j < |src.input| && StopAt(src, form, j).Some?
    ensures Reads(src, w, StopAt(src, form, j).value)
  {
    hide AtChar; hide Utf8.WellFormed; hide Sharp; hide AgreesAt;
    JsonTags(form);
    EndsByte(src, form, j);
    if src.input[j] == ',' {
      CommaEnd(src, form, j);
      AfterAscii(w, pos, j + |form.valEnd| - 1);
    } else {
      AtAscii(w, pos, j);
    }
  }

  lemma CommaEnd(src: Source, form: Format, j: nat)
    requires StreamFormat(form) && form.rawArgval == Some(false) && EndsHere(src, form, j)
    requires j < |src.input| && src.input[j] == ',' && j + |form.valEnd| <= |src.input|
    ensures src.input[j + |form.valEnd| - 1] as int < 0x80
  {
    hide AgreesAt;
    JsonTags(form);
    if Begins(src, form.toolEnd, j) { BeginsWith(src, form.toolEnd, j); }
    AgreesWhole(src.input, form.valEnd, j);
  }

  lemma AgreesWhole(s: string, tag: string, j: nat)
    requires j + |tag| <= |s| && AgreesAt(s, tag, j) && tag != ""
    ensures s[j + |tag| - 1] == tag[|tag| - 1]
  {
    assert s[j..][|tag| - 1] == s[j + |tag| - 1];
  }

  /** The law for a string. */
  lemma StringGrows(src: Source, src': Source, form: Format, pos: nat, w: string)
    requires Grows(src, src') && Reads(src', w, pos) && pos <= |src.input| <= |src'.input|
    requires StreamFormat(form) && form.rawArgval == Some(false) && KnowsStrings(src.readJson)
    requires StringValue(src, form, pos) && StringValue(src', form, pos)
    ensures ValueGrows(src, src', form, pos, w)
  {
    hide *;
    SameReader(src, src');
    StringShows(src, form, pos);
    StringShows(src', form, pos);
    StringMeans(src, form, pos);
    StringMeans(src', form, pos);
    QuoteStays(src, src', pos);
    var t, t' := AfterQuote(src, pos), AfterQuote(src', pos);
    TakenGrows(t, t');
    JoinGrows("\"", Taken(t), Taken(t'));
    ByPath(src, form, pos);
    ByPath(src', form, pos);
    GrowsIf(src, src', form, pos, w);
    if PathOf(src, form, pos).Closed? {
      ClosedStays(src, src', pos);
      SameText(t, t');
      var e := StringEnd(src, pos);
      FollowsStays(src, src', e);
      var j := SkipSpaces(src.input, e);
      EndStays(src, src', form, j);
      EndLater(src, pos);
      StopReads(src', form, pos, j, w);
    }
  }

  lemma SameReader(src: Source, src': Source)
    requires Grows(src, src')
    ensures src'.readJson == src.readJson && src.partial && src.input <= src'.input
  {}

  lemma SameText(t: string, t': string)
    requires Inside(t) == Inside(t')
    ensures ClosedText(t) == ClosedText(t')
  {
    hide Inside; hide Decode;
  }

  lemma EndLater(src: Source, pos: nat)
    requires pos <= |src.input| && SkipSpaces(src.input, pos) < |src.input|
    ensures pos <= StringEnd(src, pos) <= SkipSpaces(src.input, StringEnd(src, pos))
  {}

  lemma {:induction false} BodyEndGrows(s: string, s': string, i: nat)
    requires s <= s' && i <= |s|
    ensures BodyEnd(s, i) <= BodyEnd(s', i)
    ensures BodyEnd(s, i) < |s| ==> BodyEnd(s', i) == BodyEnd(s, i)
    decreases |s| - i
  {
    if i < |s| && !IsSpace(s[i]) && s[i] != ',' && s[i] != '}' { BodyEndGrows(s, s', i + 1); }
  }

  lemma BodyGrows(src: Source, src': Source, pos: nat)
    requires Grows(src, src') && pos <= |src.input| <= |src'.input| && SkipSpaces(src.input, pos) < |src.input|
    ensures Body(src, pos) <= Body(src', pos)
    ensures ScalarStop(src, pos) < |src.input| ==>
              ScalarStop(src', pos) == ScalarStop(src, pos) && Body(src', pos) == Body(src, pos)
  {
    hide SkipSpaces; hide BodyEnd;
    StartStays(src, src', pos);
    var j := SkipSpaces(src.input, pos);
    BodyEndGrows(src.input, src'.input, j);
    var e, e' := BodyEnd(src.input, j), BodyEnd(src'.input, j);
    assert src.input[j..e] == src'.input[j..e] <= src'.input[j..e'];
  }

  /** The law for a scalar. */
  lemma ScalarGrows(src: Source, src': Source, form: Format, pos: nat, w: string)
    requires Grows(src, src') && Reads(src', w, pos) && pos <= |src.input| <= |src'.input|
    requires StreamFormat(form) && form.rawArgval == Some(false) && KnowsScalars(src.readJson)
    requires ScalarValue(src, form, pos) && ScalarValue(src', form, pos)
    ensures ValueGrows(src, src', form, pos, w)
  {
    hide *;
    SameReader(src, src');
    ScalarShows(src, form, pos);
    if PathOf(src, form, pos).HeldBack? {
      HeldGrows(src, src', form, pos, w);
    } else {
      NotQuoted(src, form, pos);
      BodyGrows(src, src', pos);
      var e := ScalarStop(src, pos);
      FollowsStays(src, src', e);
      var j := SkipSpaces(src.input, e);
      ScalarMeans(src', form, pos);
      EndStays(src, src', form, j);
      ClosedScalar(src', form, pos);
      ByPath(src, form, pos);
      ByPath(src', form, pos);
      StopLater(src, pos);
      StopReads(src', form, pos, j, w);
      GrowsIf(src, src', form, pos, w);
    }
  }

  lemma StopLater(src: Source, pos: nat)
    requires pos <= |src.input|
    ensures pos <= ScalarStop(src, pos) <= SkipSpaces(src.input, ScalarStop(src, pos))
  {}

  /** The law for a value that must be JSON. */
  lemma JsonGrows(src: Source, src': Source, form: Format, pos: nat, w: string)
    requires Grows(src, src') && Reads(src', w, pos) && pos <= |src.input| <= |src'.input|
    requires StreamFormat(form) && form.rawArgval == Some(false) && KnowsJson(src.readJson)
    requires JsonValue(src, form, pos) && JsonValue(src', form, pos)
    ensures ValueGrows(src, src', form, pos, w)
  {
    hide *;
    KnowsBoth(src.readJson);
    SameReader(src, src');
    JsonValueIs(src, form, pos);
    JsonValueIs(src', form, pos);
    if SkipSpaces(src.input, pos) == |src.input| {
      BlankHeld(src, form, pos);
      HeldGrows(src, src', form, pos, w);
    } else {
      StartStays(src, src', pos);
      QuoteStays(src, src', pos);
      SkipBound(src.input, pos);
      if StringValue(src, form, pos) {
        StringMeans(src, form, pos);
        if ScalarValue(src', form, pos) { NotQuoted(src', form, pos); }
        StringGrows(src, src', form, pos, w);
      } else {
        NotQuoted(src, form, pos);
        if StringValue(src', form, pos) { StringMeans(src', form, pos); }
        ScalarGrows(src, src', form, pos, w);
      }
    }
  }

  lemma SkipBound(s: string, i: nat)
    requires i <= |s|
    ensures SkipSpaces(s, i) <= |s|
  {}

  // ------------------------------------------------------------ what has arrived of a value

  lemma LeadShorter(src: Source, src': Source, pos: nat)
    requires Grows(src, src') && pos <= |src.input| <= |src'.input| && JsonSpaces(SpacesAt(src', pos))
    ensures JsonSpaces(SpacesAt(src, pos))
  {
    hide SkipSpaces;
    SkipSpacesExtends(src.input, src'.input, pos);
    var j, j' := SkipSpaces(src.input, pos), SkipSpaces(src'.input, pos);
    forall i | 0 <= i < j - pos ensures SpacesAt(src, pos)[i] == SpacesAt(src', pos)[i] {}
  }

  /** What has arrived of the body of a string is whole, if the text ends with a character. */
  lemma WholeInside(src: Source, pos: nat, w: string)
    requires Reads(src, w, pos) && Utf8.WellFormed(src.input) && SkipSpaces(src.input, pos) < |src.input|
    requires src.input[SkipSpaces(src.input, pos)] == '"' && PlainString(AfterQuote(src, pos))
    ensures Utf8.WellFormed(Inside(AfterQuote(src, pos)))
  {
    hide *;
    var t := AfterQuote(src, pos);
    WholeAfterQuote(src, pos, w);
    if Closes(t) {
      ClosedParts(t);
      UpToQuote(t, Inside(t));
    } else {
      OpenInside(t);
    }
  }

  lemma WholeAfterQuote(src: Source, pos: nat, w: string)
    requires Reads(src, w, pos) && Utf8.WellFormed(src.input) && SkipSpaces(src.input, pos) < |src.input|
    requires src.input[SkipSpaces(src.input, pos)] == '"'
    ensures Utf8.WellFormed(AfterQuote(src, pos))
  {
    hide Utf8.WellFormed; hide SkipSpaces; hide AtChar;
    var j := SkipSpaces(src.input, pos);
    assert w[j] == src.input[j];
    AfterAscii(w, pos, j);
    FromChar(src.input, w, j + 1);
  }

  lemma UpToQuote(t: string, b: string)
    requires Utf8.WellFormed(t) && |b| < |t| && t == b + ("\"" + t[|b| + 1..])
    ensures Utf8.WellFormed(b)
  {
    hide Utf8.WellFormed;
    assert t[|b|] == '"' && t[..|b|] == b;
    UpToAscii(t, |b|);
  }

  lemma StringShorter(src: Source, src': Source, form: Format, pos: nat, w: string)
    requires Grows(src, src') && Reads(src', w, pos) && pos <= |src.input| <= |src'.input|
    requires Utf8.WellFormed(src.input) && StringValue(src', form, pos) && SkipSpaces(src.input, pos) < |src.input|
    ensures StringValue(src, form, pos)
  {
    hide *;
    StringMeans(src', form, pos);
    StartStays(src, src', pos);
    QuoteStays(src, src', pos);
    SameReader(src, src');
    var t, t' := AfterQuote(src, pos), AfterQuote(src', pos);
    PlainBefore(t, t');
    ReadsBefore(src, src', w, pos);
    WholeInside(src, pos, w);
    if Closes(t) {
      ClosedStays(src, src', pos);
      var e := StringEnd(src, pos);
      if SkipSpaces(src.input, e) < |src.input| {
        FollowsStays(src, src', e);
        EndStays(src, src', form, SkipSpaces(src.input, e));
      } else {
        SkipBound(src.input, e);
      }
    }
    StringIf(src, form, pos);
  }

  lemma PlainBefore(t: string, t': string)
    requires t <= t' && PlainString(t')
    ensures PlainString(t)
  {
    PlainShorter(t, t');
  }

  lemma ReadsBefore(src: Source, src': Source, w: string, pos: nat)
    requires Grows(src, src') && Reads(src', w, pos) && pos <= |src.input|
    ensures Reads(src, w, pos)
  {
    hide AtChar; hide Utf8.WellFormed;
  }

  lemma StringIf(src: Source, form: Format, pos: nat)
    requires pos <= |src.input| && |form.valEnd| == 1 && JsonSpaces(SpacesAt(src, pos))
    requires SkipSpaces(src.input, pos) < |src.input| && src.input[SkipSpaces(src.input, pos)] == '"'
    requires var t := AfterQuote(src, pos);
             PlainString(t) && Utf8.WellFormed(Inside(t)) && (!Closes(t) ==> src.partial)
    requires var j := SkipSpaces(src.input, StringEnd(src, pos));
             Closes(AfterQuote(src, pos)) ==> j == |src.input| || EndsHere(src, form, j)
    ensures StringValue(src, form, pos)
  {
    hide SkipSpaces; hide Closes; hide Inside; hide Utf8.WellFormed; hide PlainString; hide EndsHere; hide SpacesAt;
    hide JsonSpaces; hide AfterQuote; hide StringEnd;
  }

  lemma ScalarShorter(src: Source, src': Source, form: Format, pos: nat)
    requires Grows(src, src') && pos <= |src.input| <= |src'.input|
    requires ScalarValue(src', form, pos) && SkipSpaces(src.input, pos) < |src.input|
    ensures ScalarValue(src, form, pos)
  {
    hide *;
    NotQuoted(src', form, pos);
    StartStays(src, src', pos);
    BodyGrows(src, src', pos);
    ScalarSpaces(src', form, pos);
    BodyBegins(src, src', pos);
    var e := ScalarStop(src, pos);
    if e < |src.input| {
      GrowsMeans(src, src');
      ScalarMeans(src', form, pos);
      if SkipSpaces(src.input, e) < |src.input| {
        FollowsStays(src, src', e);
        EndStays(src, src', form, SkipSpaces(src.input, e));
      } else {
        SkipBound(src.input, e);
      }
      ScalarIf(src, form, pos, "");
    } else {
      var whole: string;
      if ScalarStop(src', pos) == |src'.input| {
        whole := WholeScalar(src', form, pos);
      } else {
        StopBound(src', pos);
        ScalarMeans(src', form, pos);
        whole := Body(src', pos);
      }
      PrefixOf(Body(src, pos), Body(src', pos), whole);
      StopBound(src, pos);
      ScalarIf(src, form, pos, whole);
    }
  }

  lemma GrowsMeans(src: Source, src': Source)
    requires Grows(src, src')
    ensures |src.input| <= |src'.input|
  {}

  lemma StopBound(src: Source, pos: nat)
    requires pos <= |src.input|
    ensures ScalarStop(src, pos) <= |src.input|
  {}

  lemma ScalarSpaces(src: Source, form: Format, pos: nat)
    requires pos <= |src.input| && ScalarValue(src, form, pos)
    ensures JsonSpaces(SpacesAt(src, pos)) && Body(src, pos) != ""
  {
    hide Scalar; hide Body; hide SkipSpaces; hide ScalarStop; hide EndsHere; hide SpacesAt; hide JsonSpaces;
  }

  lemma BodyBegins(src: Source, src': Source, pos: nat)
    requires Grows(src, src') && pos <= |src.input| <= |src'.input| && SkipSpaces(src.input, pos) < |src.input|
    requires Body(src', pos) != ""
    ensures Body(src, pos) != ""
  {
    hide SkipSpaces;
    StartStays(src, src', pos);
  }

  lemma ScalarIf(src: Source, form: Format, pos: nat, whole: string)
    requires pos <= |src.input| && JsonSpaces(SpacesAt(src, pos)) && Body(src, pos) != ""
    requires if ScalarStop(src, pos) == |src.input| then Scalar(whole) && Body(src, pos) <= whole
             else
               && Scalar(Body(src, pos))
               && var j := SkipSpaces(src.input, ScalarStop(src, pos)); j == |src.input| || EndsHere(src, form, j)
    ensures ScalarValue(src, form, pos)
  {
    hide Scalar; hide Body; hide SkipSpaces; hide ScalarStop; hide EndsHere; hide SpacesAt; hide JsonSpaces;
  }

  /** What has arrived of such a value is one. */
  lemma JsonShorter(src: Source, src': Source, form: Format, pos: nat, w: string)
    requires Grows(src, src') && Reads(src', w, pos) && pos <= |src.input| <= |src'.input|
    requires Utf8.WellFormed(src.input) && JsonValue(src', form, pos)
    ensures JsonValue(src, form, pos)
  {
    hide *;
    JsonValueIs(src, form, pos);
    JsonValueIs(src', form, pos);
    LeadShorter(src, src', pos);
    SkipBound(src.input, pos);
    if SkipSpaces(src.input, pos) < |src.input| {
      StartStays(src, src', pos);
      QuoteStays(src, src', pos);
      if StringValue(src', form, pos) {
        StringShorter(src, src', form, pos, w);
      } else {
        ScalarShorter(src, src', form, pos);
      }
    }
  }

  // ------------------------------------------------------------ any value

  /** Where values are text, any text; where they may be JSON, any text that is read steadily; where they must be JSON,
      strings and scalars. */
  ghost predicate GoodValue(src: Source, form: Format, pos: nat)
    requires pos <= |src.input|
  {
    match form.rawArgval
    case Some(raw) => raw || (KnowsJson(src.readJson) && JsonValue(src, form, pos))
    case None => SteadyJson(src, pos)
  }

  /** Where values must be JSON, the text that has arrived ends with a whole character. */
  predicate EndsAtChar(src: Source, form: Format) {
    form.rawArgval == Some(false) ==> Utf8.WellFormed(src.input)
  }

  /** What the parse of a value returns: the finished value, or the call that shows its beginning. */
  lemma ValueShows(src: Source, form: Format, pos: nat, key: string, name: string, args: Members)
    requires pos <= |src.input| && StreamFormat(form) && GoodValue(src, form, pos) && !HasKey(args, key) && name != ""
    ensures ParseValue(src, form, pos, key, name, args) ==
            match Finished(src, form, pos)
            case Some(f) => Arg(key, f.value, f.end)
            case None => Showing(name, args, key, Begun(src, form, pos))
  {
    hide *;
    SharpEnd(form);
    GoodMeans(src, form, pos);
    if form.rawArgval.None? {
      SteadyNow(src, pos);
      PlainPath(src, form, pos);
    } else if form.rawArgval.value {
      TextPath(src, form, pos);
    } else {
      JsonPath(src, form, pos);
    }
    PathShows(src, form, pos, key, name, args);
  }

  lemma TextPath(src: Source, form: Format, pos: nat)
    requires pos <= |src.input| && form.rawArgval == Some(true)
    ensures PathOf(src, form, pos) == AsText
  {}

  lemma GoodMeans(src: Source, form: Format, pos: nat)
    requires pos <= |src.input|
    ensures GoodValue(src, form, pos) <==>
            match form.rawArgval
            case Some(raw) => raw || (KnowsJson(src.readJson) && JsonValue(src, form, pos))
            case None => SteadyJson(src, pos)
  {
    hide KnowsJson; hide JsonValue; hide SteadyJson;
  }

  lemma SteadyNow(src: Source, pos: nat)
    requires pos <= |src.input| && SteadyJson(src, pos)
    ensures !JsonAt(src, pos).Throws?
  {
    hide JsonAt; hide ScalarAhead; hide SkipSpaces;
    assert KeptJson(Upto(src, |src.input|), src, pos);
  }

  /** The law of values: what has arrived of a good value is one, more of it is shown as the text grows, up to what is
      printed for the finished value, and a finished value stays. */
  lemma GoodGrows(src: Source, src': Source, form: Format, pos: nat, w: string)
    requires Grows(src, src') && Reads(src', w, pos) && pos <= |src.input| <= |src'.input| && StreamFormat(form)
    requires GoodValue(src', form, pos) && EndsAtChar(src, form)
    ensures GoodValue(src, form, pos) && ValueGrows(src, src', form, pos, w)
  {
    hide *;
    SharpEnd(form);
    SameReader(src, src');
    GoodMeans(src, form, pos);
    GoodMeans(src', form, pos);
    if form.rawArgval == Some(true) {
      TextPath(src, form, pos);
      TextPath(src', form, pos);
      TextGrows(src, src', form, pos, w);
    } else if form.rawArgval == Some(false) {
      CharMeans(src, form);
      JsonShorter(src, src', form, pos, w);
      JsonGrows(src, src', form, pos, w);
    } else {
      SteadyShorter(src, src', pos);
      PlainValueGrows(src, src', form, pos, w);
    }
  }

  lemma CharMeans(src: Source, form: Format)
    requires EndsAtChar(src, form) && form.rawArgval == Some(false)
    ensures Utf8.WellFormed(src.input)
  {}
}
