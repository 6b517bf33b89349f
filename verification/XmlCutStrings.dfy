/** A string value cut anywhere: what is shown of it, and where that is taken back. */
module XmlCutStrings {
  import opened Wrappers
  import opened Text
  import opened LiteralSearch
  import opened Json
  import opened JsonHealing
  import opened JsonStrings
  import opened XmlSpec
  import opened XmlGrowth
  import opened XmlShown
  import opened XmlValues
  import opened XmlJsonValues
  import HealingLaws
  import Utf8

  // ------------------------------------------------------------ what is shown

  /** At `pos`, after spaces and a quote, the text ends with the body `r`. */
  predicate CutAt(src: Source, form: Format, pos: nat, lead: string, r: string) {
    && form.rawArgval == Some(false) && src.partial && pos <= |src.input|
    && JsonSpaces(lead) && Utf8.WellFormed(r) && src.input[pos..] == Quoted(lead, r)
  }

  lemma CutMeans(src: Source, form: Format, pos: nat, lead: string, r: string)
    requires CutAt(src, form, pos, lead, r)
    ensures form.rawArgval == Some(false) && src.partial && pos <= |src.input|
    ensures JsonSpaces(lead) && Utf8.WellFormed(r) && src.input[pos..] == Quoted(lead, r)
    ensures |src.input| == pos + |lead| + |r| + 1
  {
    hide JsonSpaces; hide Utf8.WellFormed;
  }

  lemma WholeBody(r: string)
    requires Decode(r).Some?
    ensures Rest(r) == "" && r[..WholeEnd(r)] == r
  {
    hide Decode; hide FirstPiece;
    HealingLaws.DecodeSplits(r, "");
    assert r + "" == r && Rest(r) + "" == Rest(r);
    if Rest(r) != "" { NothingOf(Rest(r)); }
  }

  lemma NothingOf(e: string)
    requires e != "" && FirstPiece(e).None?
    ensures Decode(e).None?
  {
    hide FirstPiece;
  }

  /** What follows a finished body is decoded for itself. */
  lemma DecodeAfter(r: string, x: string)
    requires Decode(r).Some?
    ensures Decode(r + x) ==
            match Decode(x) case None => None case Some(d) => Some(Decode(r).value + d)
  {
    hide Decode; hide WholeEnd;
    HealingLaws.DecodeSplits(r, x);
    WholeBody(r);
    assert "" + x == x;
  }

  /** What an open string shows, when the reader completed its body. */
  lemma ShowsCompleted(src: Source, form: Format, pos: nat, text: string, key: string, name: string, args: Members)
    requires pos <= |src.input| && form.rawArgval == Some(false) && src.partial && !HasKey(args, key) && name != ""
    requires ReadOpen(src.readJson(src.input[pos..]), |src.input| - pos, text)
    ensures ParseValue(src, form, pos, key, name, args) == Showing(name, args, key, "\"" + text)
  {
    hide *;
    AttemptIs(src, pos);
    ReadOpenShows(JsonAt(src, pos), |src.input| - pos, text);
    AllSkipped(src.input);
    JsonOpen(src, form, pos);
    ByPath(src, form, pos);
    PathShows(src, form, pos, key, name, args);
  }

  /** A string that is cut between its characters and escapes is shown as `dump` prints it, without the closing
      quote, whatever its escapes are. */
  lemma CutStringShows(src: Source, form: Format, pos: nat, lead: string, r: string, key: string, name: string,
                       args: Members)
    requires CutAt(src, form, pos, lead, r) && KnowsStrings(src.readJson) && Decode(r).Some?
    requires !HasKey(args, key) && name != ""
    ensures ParseValue(src, form, pos, key, name, args) ==
            Showing(name, args, key, "\"" + EscapeAll(Decode(r).value))
  {
    hide *;
    CutMeans(src, form, pos, lead, r);
    var marker := MarkerOf(src.readJson);
    ReaderMeans(src.readJson, marker, lead, r);
    DigitsMean(marker);
    DigitsStay(marker);
    var d := Decode(r).value;
    QuoteWith(d, marker);
    ReadOpenIf(src.readJson(Quoted(lead, r)), d + marker, |lead| + |r| + 1, marker, marker, EscapeAll(d));
    ShowsCompleted(src, form, pos, EscapeAll(d), key, name, args);
  }

  /** After a backslash the backslash is shown, too. */
  lemma CutSlashShows(src: Source, form: Format, pos: nat, lead: string, b: string, key: string, name: string,
                      args: Members)
    requires CutAt(src, form, pos, lead, b + "\\") && KnowsStrings(src.readJson) && Decode(b).Some?
    requires !HasKey(args, key) && name != ""
    ensures ParseValue(src, form, pos, key, name, args) ==
            Showing(name, args, key, "\"" + (EscapeAll(Decode(b).value) + "\\"))
  {
    hide *;
    var r := b + "\\";
    CutMeans(src, form, pos, lead, r);
    var marker := MarkerOf(src.readJson);
    LoneSlash();
    DecodeAfter(b, "\\");
    DecodeAfter(b, "\\\\");
    assert r + "\\" == b + "\\\\";
    ReaderMeans(src.readJson, marker, lead, r);
    DigitsMean(marker);
    DigitsStay(marker);
    var d := Decode(b).value;
    var x := "\\" + marker;
    QuoteWith(d + "\\", marker);
    EscapeAllJoins(d, "\\");
    SlashEscapes();
    var text := EscapeAll(d) + "\\";
    SlashBefore(EscapeAll(d), marker);
    ReadOpenIf(src.readJson(Quoted(lead, r)), (d + "\\") + marker, |lead| + |r| + 1, marker, x, text);
    ShowsCompleted(src, form, pos, text, key, name, args);
  }

  // ------------------------------------------------------------ what later text keeps

  lemma QuoteHas(a: string, b: string)
    ensures "\"" + EscapeAll(a) <= DumpValue(Str(a + b))
  {
    hide EscapeAll;
    QuoteWith(a, b);
    DumpStr(a + b);
    FrontPart("\"" + EscapeAll(a), EscapeAll(b) + "\"");
  }

  /** What is shown of a string cut between its characters and escapes begins what is printed for every string that
      it can become. */
  lemma CutStringExtends(r: string, more: string)
    requires Decode(r).Some? && Decode(r + more).Some?
    ensures "\"" + EscapeAll(Decode(r).value) <= DumpValue(Str(Decode(r + more).value))
  {
    hide *;
    DecodeAfter(r, more);
    QuoteHas(Decode(r).value, Decode(more).value);
  }

  lemma AfterSlash(c: char, more: string)
    requires Lettered(c) || c == '/'
    ensures var t := "\\" + ([c] + more);
            Decode(t) == match Decode(more) case None => None
                         case Some(d) => Some([if c == '/' then '/' else LetterOf(c)] + d)
  {
    var t := "\\" + ([c] + more);
    assert t[0] == '\\' && t[1] == c && t[2..] == more;
  }

  lemma EscapeOf(c: char, d: string)
    ensures EscapeAll([c] + d) == EscapeChar(c) + EscapeAll(d)
  {
    hide EscapeChar;
    assert ([c] + d)[1..] == d;
  }

  /** The backslash shown stays exactly when the letter after it is one that `dump` writes: a slash takes it back. */
  lemma SlashKeptExactly(b: string, c: char, more: string)
    requires Decode(b).Some? && (Lettered(c) || c == '/') && Decode(b + ("\\" + ([c] + more))).Some?
    ensures "\"" + (EscapeAll(Decode(b).value) + "\\") <= DumpValue(Str(Decode(b + ("\\" + ([c] + more))).value)) <==>
            Lettered(c)
  {
    hide *;
    AfterSlash(c, more);
    DecodeAfter(b, "\\" + ([c] + more));
    var d, rest := Decode(b).value, Decode(more).value;
    var x := if c == '/' then '/' else LetterOf(c);
    QuoteWith(d, [x] + rest);
    DumpStr(d + ([x] + rest));
    EscapeOf(x, rest);
    StartsEscape(c);
    SlashNext("\"" + EscapeAll(d), EscapeChar(x), EscapeAll(rest) + "\"");
    assert EscapeChar(x) + EscapeAll(rest) + "\"" == EscapeChar(x) + (EscapeAll(rest) + "\"");
    assert "\"" + (EscapeAll(d) + "\\") == ("\"" + EscapeAll(d)) + "\\";
  }

  lemma StartsEscape(c: char)
    requires Lettered(c) || c == '/'
    ensures EscapeChar(if c == '/' then '/' else LetterOf(c))[0] == '\\' <==> Lettered(c)
  {
    if Lettered(c) { LetterIsEscape(c); }
  }

  lemma SlashNext(a: string, e: string, rest: string)
    requires e != ""
    ensures a + "\\" <= a + (e + rest) <==> e[0] == '\\'
  {
    assert (a + (e + rest))[|a|] == e[0] && (a + "\\")[|a|] == '\\';
    if e[0] == '\\' { assert (a + (e + rest))[..|a| + 1] == a + "\\"; }
  }

  // ------------------------------------------------------------ where it is taken back

  /** Where the end of a value is longer than one byte, a pause inside it takes the whole string back: nothing of the
      value is shown. */
  lemma SplitEndTakesBack(src: Source, form: Format, pos: nat, lead: string, t: string, key: string, name: string,
                          args: Members)
    requires StreamFormat(form) && form.rawArgval == Some(false) && |form.valEnd| > 1
    requires src.partial && pos <= |src.input| && src.input[pos..] == Quoted(lead, t) && JsonSpaces(lead)
    requires KnowsStrings(src.readJson) && PlainString(t) && Closes(t) && Utf8.WellFormed(Inside(t))
    requires t == Taken(t) + "," && !HasKey(args, key) && name != ""
    ensures ParseValue(src, form, pos, key, name, args) == Showing(name, args, key, "")
  {
    hide *;
    var marker := MarkerOf(src.readJson);
    var n := |src.input|;
    CommaAfter(Taken(t));
    var d := ReadsClosed(src.readJson, marker, lead, t);
    ClosedReadMeans(src.readJson(src.input[pos..]), d, |lead| + |Taken(t)| + 1, ",");
    AttemptIs(src, pos);
    LastComma(src, form, pos, lead, t);
    JsonClosed(src, form, pos);
    ByPath(src, form, pos);
    PathShows(src, form, pos, key, name, args);
  }

  lemma CommaAfter(taken: string)
    ensures (taken + ",")[|taken|..] == "," && AfterValue(",") && SkipSpaces(",", 0) == 0
  {}

  lemma LastComma(src: Source, form: Format, pos: nat, lead: string, t: string)
    requires StreamFormat(form) && form.rawArgval == Some(false) && |form.valEnd| > 1 && src.partial
    requires pos <= |src.input| && src.input[pos..] == Quoted(lead, t) && t == Taken(t) + ","
    ensures var j := pos + |lead| + |Taken(t)| + 1;
            && j == |src.input| - 1 && SkipSpaces(src.input, j) == j && EndsHere(src, form, j)
            && StopAt(src, form, j).None?
  {
    hide Taken; hide Sharp; hide AgreesAt;
    JsonTags(form);
    var j, u := pos + |lead| + |Taken(t)| + 1, Quoted(lead, t);
    assert |u| == |lead| + |Taken(t)| + 2 && u[|u| - 1] == ',';
    assert src.input[j] == src.input[pos..][j - pos];
    assert src.input[j..] == ",";
    CommaIsNoSpace();
    CommaBegins(src.input, form.valEnd, j);
  }

  lemma CommaBegins(s: string, tag: string, j: nat)
    requires j <= |s| && s[j..] == "," && tag != "" && tag[0] == ','
    ensures AgreesAt(s, tag, j)
  {
    assert tag[..1] == ",";
  }

  lemma NoneAhead(src: Source, pos: nat, tag: string)
    requires pos <= |src.input| && Sharp(tag) && tag[0] !in src.input[pos..]
    ensures Search(src, pos, tag).None?
  {
    forall b | pos <= b < |src.input| ensures src.input[b] != tag[0] {
      assert src.input[b] == src.input[pos..][b - pos];
    }
    if Search(src, pos, tag).Some? { MatchByte(src, pos, tag); }
  }

  lemma NoEndAhead(src: Source, form: Format, pos: nat)
    requires pos <= |src.input| && StreamFormat(form) && form.rawArgval == Some(false)
    requires ',' !in src.input[pos..] && '}' !in src.input[pos..]
    ensures FindValEnd(src, form, pos).found.None?
  {
    hide FindLiteral; hide FindClose; hide FindValEnd; hide Sharp;
    JsonTags(form);
    NoneAhead(src, pos, form.valEnd);
    NoneAhead(src, pos, form.toolEnd);
    ValEndIs(src, form, pos);
    if form.lastValEnd.Some? { CloseByTool(src, form, pos); }
  }

  lemma TextSoFar(src: Source, form: Format, pos: nat, key: string, name: string, args: Members)
    requires pos <= |src.input| && FindValEnd(src, form, pos).found.None? && !form.trimRawArgval
    requires SafeRest(src, pos) == src.input[pos..]
    ensures ParseText(src, form, pos, key, name, args) ==
            ArgThrown(PartialError, PartialCall(name, Put(args, key, Str(src.input[pos..] + Flag))))
  {
    hide FindValEnd; hide PartialCall; hide Put; hide SafeRest;
  }

  lemma SafeToAscii(src: Source, pos: nat)
    requires pos < |src.input| && src.input[|src.input| - 1] as int < 0x80
    ensures SafeRest(src, pos) == src.input[pos..]
  {
    var rest := src.input[pos..];
    CutAfterAscii(rest, |rest| - 1);
  }

  lemma NoScalarQuote(src: Source, pos: nat)
    requires pos < |src.input| && src.input[pos] == '"' && src.input[|src.input| - 1] as int < 0x80
    ensures !ScalarAhead(src, pos)
  {
    hide ScalarAhead; hide Utf8.TruncateSafe;
    CutAfterAscii(src.input, |src.input| - 1);
    SkipSpacesIs(src.input, pos, pos);
    ScalarIs(src, pos);
    var rest := ScalarRest(src, pos);
    assert rest == src.input[pos..] && rest[0] == '"';
  }

  /** A string that the reader does not complete, as one cut in an escape of four digits, is shown as text, with its
      opening quote; and that begins no string but one whose first character is a quote. */
  lemma UnreadStringTakesBack(src: Source, form: Format, pos: nat, r: string, key: string, name: string,
                              args: Members, d: string)
    requires StreamFormat(form) && form.rawArgval == Some(false) && !form.trimRawArgval
    requires pos < |src.input| && src.input[pos..] == "\"" + r && JsonAt(src, pos).NoJson?
    requires ',' !in r && '}' !in r && src.input[|src.input| - 1] as int < 0x80
    requires !HasKey(args, key) && name != "" && r != "" && (d != "" ==> d[0] != '"')
    ensures ParseValue(src, form, pos, key, name, args) == Showing(name, args, key, BegunText("\"" + r))
    ensures !(BegunText("\"" + r) <= DumpValue(Str(d)))
  {
    hide *;
    var text := "\"" + r;
    assert src.input[pos] == src.input[pos..][0] == '"';
    NotInside(r);
    NoEndAhead(src, form, pos);
    SafeToAscii(src, pos);
    TextSoFar(src, form, pos, key, name, args);
    NoScalarQuote(src, pos);
    ValueSteps(src, form, pos, key, name, args);
    FlaggedTextShows(name, args, key, text);
    QuotedText(r);
    PlainStart(d);
    DumpStr(d);
    QuoteIs(d);
    BegunTextIs(text);
    SecondByte(BegunText(text), DumpValue(Str(d)));
  }

  lemma NotInside(r: string)
    ensures ',' !in r ==> ',' !in "\"" + r
    ensures '}' !in r ==> '}' !in "\"" + r
  {}

  lemma QuotedText(r: string)
    requires r != ""
    ensures var x := DropQuote("\"" + EscapeAll("\"" + r)); |x| >= 3 && x[1] == '\\' && x[2] == '"'
  {
    assert ("\"" + r)[1..] == r;
    assert EscapeAll("\"" + r) == "\\\"" + EscapeAll(r);
    EscapesSome(r);
  }

  lemma EscapesSome(r: string)
    requires r != ""
    ensures EscapeAll(r) != ""
  {
    hide EscapeChar;
  }

  lemma PlainStart(d: string)
    requires d != "" ==> d[0] != '"'
    ensures var v := "\"" + EscapeAll(d) + "\""; !(|v| >= 3 && v[1] == '\\' && v[2] == '"')
  {
    if d != "" { StartsOther(d[0]); }
  }

  lemma StartsOther(c: char)
    requires c != '"'
    ensures var e := EscapeChar(c); !(|e| >= 2 && e[0] == '\\' && e[1] == '"') && (|e| == 1 ==> e[0] != '\\')
  {}

  lemma SecondByte(x: string, v: string)
    requires |x| >= 3 && x[1] == '\\' && x[2] == '"' && !(|v| >= 3 && v[1] == '\\' && v[2] == '"')
    ensures !(x <= v)
  {}
}
