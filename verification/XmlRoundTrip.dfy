/** Parsing undoes printing: the text of any list of calls parses to exactly these calls. */
module XmlRoundTrip {
  import opened Wrappers
  import opened Text
  import opened ChatTypes
  import opened LiteralSearch
  import opened Json
  import opened XmlSpec
  import opened XmlFormats

  /** An argument, whose value is written as `text`, a call, and the spaces before the parts of them that spaces
      may precede. */
  datatype Param = Param(gap: string, key: string, mid: string, text: string, value: Value)
  datatype Call = Call(gap: string, tool: string, params: seq<Param>, endGap: string)

  /** The second separator and the spaces before it, if the format has one. */
  function SecondSeparator(form: Format, p: Param): string {
    if form.keyValSep2.Some? then p.mid + form.keyValSep2.value else ""
  }

  /** What is printed after a value: the alternative end after the last one, if the format has one. */
  function ValueEnd(form: Format, last: bool): string {
    if last && form.lastValEnd.Some? then form.lastValEnd.value else form.valEnd
  }

  function PrintPair(form: Format, p: Param, last: bool): string {
    p.key + (form.keyValSep + (SecondSeparator(form, p) + (p.text + ValueEnd(form, last))))
  }

  function PrintArg(form: Format, p: Param, last: bool): string {
    p.gap + (form.keyStart + PrintPair(form, p, last))
  }

  function PrintArgs(form: Format, ps: seq<Param>): string {
    if ps == [] then "" else PrintArg(form, ps[0], |ps| == 1) + PrintArgs(form, ps[1..])
  }

  /** What follows the name. */
  function PrintBody(form: Format, ps: seq<Param>, endGap: string): string {
    PrintArgs(form, ps) + (endGap + form.toolEnd)
  }

  function PrintCall(form: Format, call: Call): string {
    call.gap + (form.toolStart + ((call.tool + form.toolSep) + PrintBody(form, call.params, call.endGap)))
  }

  function PrintCalls(form: Format, calls: seq<Call>): string {
    if calls == [] then "" else PrintCall(form, calls[0]) + PrintCalls(form, calls[1..])
  }

  function PrintScope(form: Format, calls: seq<Call>, endGap: string): string {
    form.scopeStart + (PrintCalls(form, calls) + (endGap + form.scopeEnd))
  }

  function Pairs(ps: seq<Param>): (args: Members)
    ensures |args| == |ps|
  {
    seq(|ps|, k requires 0 <= k < |ps| => (ps[k].key, ps[k].value))
  }

  function NameOf(src: Source, tool: string): string {
    if src.kimiK2 then KimiName(tool) else tool
  }

  function Result(src: Source, call: Call): ToolCall {
    ToolCall(NameOf(src, call.tool), Dump(Pairs(call.params)), "")
  }

  function Parsed(src: Source, calls: seq<Call>): seq<ToolCall> {
    if calls == [] then [] else [Result(src, calls[0])] + Parsed(src, calls[1..])
  }

  // ------------------------------------------------------------ the hypotheses

  /** Text that begins with `d` holds something other than spaces before any match of `literal`. */
  predicate Blocks(d: string, literal: string) {
    var n := SkipSpaces(d, 0);
    n < |d| && forall i: nat | i <= n :: !AgreesAt(d, literal, i)
  }

  predicate NeverAgrees(text: string, literal: string) {
    forall i: nat | i < |text| :: !AgreesAt(text, literal, i)
  }

  predicate PrintableFormat(form: Format) {
    && form.lastToolEnd.None?
    && (form.lastValEnd.Some? ==> form.lastValEnd.value == "" && !AgreesAt(form.toolEnd, form.valEnd, 0))
    && Blocks(form.toolEnd, form.keyStart)
  }

  /** Spaces in which the delimiter after them does not begin early. */
  predicate Gap(gap: string, tag: string) {
    AllSpace(gap) && FirstAt(gap, tag)
  }

  /** No attempt at JSON is made at `pos`, or none succeeds there, or the end of the value does not follow it. */
  predicate GivesWay(src: Source, form: Format, pos: nat)
    requires pos <= |src.input|
  {
    || form.rawArgval == Some(true)
    || match JsonAt(src, pos)
       case Throws => false
       case NoJson => !ScalarAhead(src, pos)
       case Read(_, size, marker, _) =>
         SkipSpaces(src.input, pos + size) < |src.input| && ClosedJson(src, form, pos + size, marker).found.None?
  }

  /** With the end of the value after it, `text` stands for `value` at `pos`: as plain text where the attempt at
      JSON gives way, and where it does not, because exactly this text is read as this value. */
  predicate StandsFor(src: Source, form: Format, pos: nat, text: string, value: Value, last: bool)
    requires pos <= |src.input|
  {
    if GivesWay(src, form, pos) then
      form.lastValEnd.None? && FirstAt(text, form.valEnd) && value == Str(TrimValue(form, text))
    else !AllSpace(Closing(form, last)) && JsonAt(src, pos) == Read(value, |text|, "", "")
  }

  /** What closes a value: its end, or the end of the tool when the end of the last value is empty. */
  function Closing(form: Format, last: bool): string {
    if last && form.lastValEnd.Some? then form.toolEnd else form.valEnd
  }

  ghost predicate ReadsBack(src: Source, form: Format, p: Param, last: bool) {
    forall i: nat | OccursAt(src.input, p.text + Closing(form, last), i) ::
      StandsFor(src, form, i, p.text, p.value, last)
  }

  ghost predicate PrintableArg(src: Source, form: Format, p: Param, last: bool) {
    && Gap(p.gap, form.keyStart) && FirstAt(p.key, form.keyValSep) && ReadsBack(src, form, p, last)
    && MidGap(form, p)
  }

  predicate MidGap(form: Format, p: Param) {
    form.keyValSep2.Some? ==> Gap(p.mid, form.keyValSep2.value)
  }

  predicate DistinctKeys(args: Members) {
    forall i, j | 0 <= i < j < |args| :: args[i].0 != args[j].0
  }

  ghost predicate PrintableArgs(src: Source, form: Format, ps: seq<Param>) {
    forall k | 0 <= k < |ps| :: PrintableArg(src, form, ps[k], k == |ps| - 1)
  }

  ghost predicate PrintableBody(src: Source, form: Format, ps: seq<Param>, endGap: string) {
    && DistinctKeys(Pairs(ps)) && PrintableArgs(src, form, ps)
    && Gap(endGap, form.toolEnd) && Blocks(endGap + form.toolEnd, form.keyStart)
    && (form.lastValEnd.Some? && ps != [] ==> endGap == "")
  }

  /** The spaces that directly follow the name. */
  function Lead(call: Call): string {
    if call.params == [] then call.endGap else call.params[0].gap
  }

  ghost predicate PrintableCall(src: Source, form: Format, call: Call) {
    && NameOf(src, call.tool) != "" && Stripped(call.tool)
    && Gap(call.gap, form.toolStart) && PrintableBody(src, form, call.params, call.endGap)
    && if AllSpace(form.toolSep) then
         var name := (call.tool + form.toolSep) + Lead(call);
         FirstAt(name, form.toolEnd) &&
         if call.params == [] then NeverAgrees(name + form.toolEnd, form.keyStart) else FirstAt(name, form.keyStart)
       else FirstAt(call.tool, form.toolSep) && !Contains(call.tool, form.toolEnd)
  }

  /** No further call is opened at `pos`. */
  predicate NoCallAt(src: Source, form: Format, pos: nat)
    requires pos <= |src.input|
  {
    var r := FindLiteral(src.input, src.partial, pos, form.toolStart);
    r.None? || !AllSpace(r.value.prelude)
  }

  // ------------------------------------------------------------ searches in printed text

  lemma Splits(input: string, a: string, b: string, i: nat)
    requires OccursAt(input, a + b, i)
    ensures OccursAt(input, a, i) && OccursAt(input, b, i + |a|)
  {
    assert input[i..i + |a|] == input[i..i + |a + b|][..|a|];
    assert input[i + |a|..i + |a| + |b|] == input[i..i + |a + b|][|a|..];
  }

  lemma Joins(input: string, a: string, b: string, i: nat)
    requires OccursAt(input, a, i) && OccursAt(input, b, i + |a|)
    ensures OccursAt(input, a + b, i)
  {
    assert input[i..i + |a + b|] == input[i..i + |a|] + input[i + |a|..i + |a| + |b|];
  }

  lemma NotEarlier(input: string, i: nat, text: string, tag: string, j: nat)
    requires OccursAt(input, text + tag, i) && i <= j < i + |text| && FirstAt(text, tag)
    ensures !OccursAt(input, tag, j)
  {
    assert !OccursAt(text + tag, tag, j - i);
    if j + |tag| <= i + |text + tag| {
      SliceOfSlice(input, i, i + |text + tag|, j - i, j - i + |tag|);
    }
  }

  lemma FoundInPlace(src: Source, i: nat, text: string, tag: string)
    requires OccursAt(src.input, text, i) && OccursAt(src.input, tag, i + |text|) && FirstAt(text, tag)
    ensures FindLiteral(src.input, src.partial, i, tag) == Some(Match(text, i + |text|, i + |text| + |tag|))
  {
    hide *;
    Joins(src.input, text, tag, i);
    forall j: nat | i <= j < i + |text| ensures !OccursAt(src.input, tag, j) {
      NotEarlier(src.input, i, text, tag, j);
    }
    Between(src.input, text, i);
    FoundFirst(src, tag, i, i + |text|);
  }

  lemma Between(s: string, t: string, i: nat)
    requires OccursAt(s, t, i)
    ensures i + |t| <= |s| && s[i..i + |t|] == t
  {}

  lemma FoundFirst(src: Source, tag: string, i: nat, k: nat)
    requires i <= k <= |src.input| && OccursAt(src.input, tag, k)
    requires forall j: nat | i <= j < k :: !OccursAt(src.input, tag, j)
    ensures FindLiteral(src.input, src.partial, i, tag) == Some(Match(src.input[i..k], k, k + |tag|))
  {
    FindIs(src.input, tag, i, k);
  }

  lemma FoundHere(src: Source, i: nat, tag: string)
    requires OccursAt(src.input, tag, i)
    ensures FindLiteral(src.input, src.partial, i, tag) == Some(Match("", i, i + |tag|))
  {
    assert src.input[i..i] == "";
    FoundInPlace(src, i, "", tag);
  }

  lemma NothingBefore(tag: string)
    ensures FirstAt("", tag)
  {}

  lemma PrefixesAgree(a: string, b: string, whole: string)
    requires a <= whole && b <= whole
    ensures a <= b || b <= a
  {}

  /** Where a match of `literal` begins inside `text`, the two agree there. */
  lemma MatchAgrees(src: Source, i: nat, text: string, literal: string)
    requires OccursAt(src.input, text, i)
    requires FindLiteral(src.input, src.partial, i, literal).Some?
    ensures var k := FindLiteral(src.input, src.partial, i, literal).value.begin;
            k < i + |text| ==> AgreesAt(text, literal, k - i)
  {
    hide FindLiteral;
    var r := FindLiteral(src.input, src.partial, i, literal).value;
    var k := r.begin;
    ConsumesPreludeAndMatch(src.input, src.partial, i, literal);
    if k < i + |text| {
      assert text[k - i..] == src.input[k..][..i + |text| - k];
      if src.input[k..r.end] == literal {
        assert src.input[k..][..|literal|] == literal;
        PrefixesAgree(literal, text[k - i..], src.input[k..]);
      } else {
        PrefixesAgree(text[k - i..], literal, literal);
      }
    }
  }

  lemma BlockedSearch(src: Source, i: nat, d: string, literal: string)
    requires OccursAt(src.input, d, i) && Blocks(d, literal)
    ensures var r := FindLiteral(src.input, src.partial, i, literal);
            r.None? || !AllSpace(r.value.prelude)
  {
    var r := FindLiteral(src.input, src.partial, i, literal);
    if r.Some? {
      MatchAgrees(src, i, d, literal);
      SkipsExactlySpaces(d, 0);
      var n := SkipSpaces(d, 0);
      assert src.input[i + n] == src.input[i..i + |d|][n];
      assert r.value.prelude[n] == d[n];
    }
  }

  // ------------------------------------------------------------ one argument

  lemma ReadsAsText(src: Source, form: Format, pos: nat, key: string, name: string, args: Members)
    requires pos <= |src.input| && GivesWay(src, form, pos)
    ensures ParseValue(src, form, pos, key, name, args) == ParseText(src, form, pos, key, name, args)
  {
    hide *;
    ValueSteps(src, form, pos, key, name, args);
    GivesWayMeans(src, form, pos);
    var json := JsonAt(src, pos);
    if form.rawArgval != Some(true) && json.Read? {
      JsonSteps(src, form, pos, json, key, name, args);
    }
  }

  lemma GivesWayMeans(src: Source, form: Format, pos: nat)
    requires pos <= |src.input|
    ensures GivesWay(src, form, pos) <==>
            || form.rawArgval == Some(true)
            || (JsonAt(src, pos).NoJson? && !ScalarAhead(src, pos))
            || (&& JsonAt(src, pos).Read?
                && var end := pos + JsonAt(src, pos).size;
                   SkipSpaces(src.input, end) < |src.input| &&
                   ClosedJson(src, form, end, JsonAt(src, pos).marker).found.None?)
  {
    hide JsonAt; hide ScalarAhead; hide SkipSpaces; hide ClosedJson;
  }

  lemma ParsesText(src: Source, form: Format, i: nat, key: string, text: string, name: string, args: Members)
    requires OccursAt(src.input, text + form.valEnd, i) && FirstAt(text, form.valEnd) && form.lastValEnd.None?
    ensures ParseText(src, form, i, key, name, args) ==
            Arg(key, Str(TrimValue(form, text)), i + |text| + |form.valEnd|)
  {
    hide FindLiteral; hide TrimValue;
    Splits(src.input, text, form.valEnd, i);
    FoundInPlace(src, i, text, form.valEnd);
  }

  lemma SomethingLeft(s: string, d: string, i: nat)
    requires OccursAt(s, d, i) && !AllSpace(d)
    ensures SkipSpaces(s, i) < |s|
  {
    SkipsExactlySpaces(s, i);
    var k :| 0 <= k < |d| && !IsSpace(d[k]);
    assert s[i + k] == s[i..i + |d|][k];
  }

  lemma ParsesJson(src: Source, form: Format, i: nat, p: Param, last: bool, name: string, args: Members)
    requires OccursAt(src.input, p.text + Closing(form, last), i) && PrintableFormat(form)
    requires !GivesWay(src, form, i) && StandsFor(src, form, i, p.text, p.value, last)
    ensures ParseValue(src, form, i, p.key, name, args) ==
            Arg(p.key, p.value, i + |p.text| + |ValueEnd(form, last)|)
  {
    hide *;
    var closing := Closing(form, last);
    OccursFits(src.input, p.text + closing, i);
    ReadsHere(src, form, i, p.text, p.value, last);
    Splits(src.input, p.text, closing, i);
    SomethingLeft(src.input, closing, i + |p.text|);
    ValueSteps(src, form, i, p.key, name, args);
    ClosesHere(src, form, i + |p.text|, last);
    JsonSteps(src, form, i, JsonAt(src, i), p.key, name, args);
  }

  lemma ReadsHere(src: Source, form: Format, i: nat, text: string, value: Value, last: bool)
    requires i <= |src.input| && !GivesWay(src, form, i) && StandsFor(src, form, i, text, value, last)
    ensures form.rawArgval != Some(true) && !AllSpace(Closing(form, last))
    ensures JsonAt(src, i) == Read(value, |text|, "", "")
  {
    hide JsonAt; hide ScalarAhead; hide SkipSpaces; hide ClosedJson; hide AllSpace;
  }

  /** After a value that was read, its end is found at once, and no alternative before it. */
  lemma ClosesHere(src: Source, form: Format, i: nat, last: bool)
    requires OccursAt(src.input, Closing(form, last), i) && PrintableFormat(form)
    ensures ClosedJson(src, form, i, "") ==
            Close(|ValueEnd(form, last)|, Some(Match("", i, i + |ValueEnd(form, last)|)))
  {
    hide FindLiteral; hide OccursAt; hide Blocks; hide FirstAt; hide FindTwoFrom; hide AgreesAt;
    OccursFits(src.input, Closing(form, last), i);
    FoundHere(src, i, Closing(form, last));
    if last && form.lastValEnd.Some? { NotAtToolEnd(src, form, i); }
  }

  lemma NotAtToolEnd(src: Source, form: Format, i: nat)
    requires OccursAt(src.input, form.toolEnd, i) && !AgreesAt(form.toolEnd, form.valEnd, 0)
    ensures var r := FindLiteral(src.input, src.partial, i, form.valEnd); r.Some? ==> |r.value.prelude| > 0
  {
    hide AgreesAt; hide OccursAt;
    OccursFits(src.input, form.toolEnd, i);
    if FindLiteral(src.input, src.partial, i, form.valEnd).Some? {
      MatchAgrees(src, i, form.toolEnd, form.valEnd);
    }
    hide FindLiteral;
  }

  lemma ParsesValue(src: Source, form: Format, i: nat, p: Param, last: bool, name: string, args: Members)
    requires OccursAt(src.input, p.text + Closing(form, last), i)
    requires PrintableFormat(form) && ReadsBack(src, form, p, last)
    ensures ParseValue(src, form, i, p.key, name, args) ==
            Arg(p.key, p.value, i + |p.text| + |ValueEnd(form, last)|)
  {
    hide ParseValue; hide ParseText; hide GivesWay; hide TrimValue; hide OccursAt; hide FirstAt; hide PrintableFormat;
    OccursFits(src.input, p.text + Closing(form, last), i);
    assert StandsFor(src, form, i, p.text, p.value, last);
    if GivesWay(src, form, i) {
      ReadsAsText(src, form, i, p.key, name, args);
      ParsesText(src, form, i, p.key, p.text, name, args);
    } else {
      ParsesJson(src, form, i, p, last, name, args);
    }
  }

  lemma SecondFound(src: Source, form: Format, n: nat, p: Param)
    requires MidGap(form, p) && form.keyValSep2.Some? && OccursAt(src.input, SecondSeparator(form, p), n)
    ensures FindLiteral(src.input, src.partial, n, form.keyValSep2.value) ==
            Some(Match(p.mid, n + |p.mid|, n + |SecondSeparator(form, p)|))
    ensures AllSpace(p.mid)
  {
    hide FindLiteral; hide OccursAt; hide FirstAt;
    Splits(src.input, p.mid, form.keyValSep2.value, n);
    FoundInPlace(src, n, p.mid, form.keyValSep2.value);
  }

  lemma ParsesAfterKey(src: Source, form: Format, i: nat, p: Param, last: bool, name: string, args: Members)
    requires OccursAt(src.input, SecondSeparator(form, p) + (p.text + Closing(form, last)), i)
    requires PrintableFormat(form) && ReadsBack(src, form, p, last) && MidGap(form, p)
    ensures ParseAfterKey(src, form, i, p.key, name, args) ==
            Arg(p.key, p.value, i + |SecondSeparator(form, p)| + |p.text| + |ValueEnd(form, last)|)
  {
    hide *;
    var gap, rest := SecondSeparator(form, p), p.text + Closing(form, last);
    OccursFits(src.input, gap + rest, i);
    Splits(src.input, gap, rest, i);
    AfterKeySteps(src, form, i, p.key, name, args);
    ParsesValue(src, form, i + |gap|, p, last, name, args);
    if form.keyValSep2.Some? {
      SecondFound(src, form, i, p);
      SecondLength(form, p);
    } else {
      NoSecond(form, p);
    }
  }

  lemma SecondLength(form: Format, p: Param)
    requires form.keyValSep2.Some?
    ensures |SecondSeparator(form, p)| == |p.mid| + |form.keyValSep2.value|
  {}

  lemma NoSecond(form: Format, p: Param)
    requires form.keyValSep2.None?
    ensures SecondSeparator(form, p) == ""
  {}

  /** What stands after an argument, if its value needs it to be closed. */
  function After(form: Format, last: bool): string {
    if last && form.lastValEnd.Some? then form.toolEnd else ""
  }

  /** A printed pair, and what closes its value. */
  lemma PairStands(src: Source, form: Format, i: nat, p: Param, last: bool)
    requires OccursAt(src.input, PrintPair(form, p, last), i) && PrintableFormat(form)
    requires OccursAt(src.input, After(form, last), i + |PrintPair(form, p, last)|)
    ensures OccursAt(src.input,
                     p.key + (form.keyValSep + (SecondSeparator(form, p) + (p.text + Closing(form, last)))), i)
    ensures |PrintPair(form, p, last)| ==
            |p.key| + |form.keyValSep| + |SecondSeparator(form, p)| + |p.text| + |ValueEnd(form, last)|
  {
    hide *;
    var second, end, after := SecondSeparator(form, p), ValueEnd(form, last), After(form, last);
    EndsClose(form, last);
    PairParts(form, p, last);
    Joins(src.input, PrintPair(form, p, last), after, i);
    FiveAndOne(p.key, form.keyValSep, second, p.text, end, after);
  }

  lemma EndsClose(form: Format, last: bool)
    requires PrintableFormat(form)
    ensures ValueEnd(form, last) + After(form, last) == Closing(form, last)
  {}

  lemma PairParts(form: Format, p: Param, last: bool)
    ensures PrintPair(form, p, last) ==
            p.key + (form.keyValSep + (SecondSeparator(form, p) + (p.text + ValueEnd(form, last))))
  {}

  lemma FiveAndOne(a: string, b: string, c: string, d: string, e: string, f: string)
    ensures (a + (b + (c + (d + e)))) + f == a + (b + (c + (d + (e + f))))
  {}

  lemma ParsesKeyAndValue(src: Source, form: Format, i: nat, p: Param, last: bool, name: string, args: Members)
    requires OccursAt(src.input, PrintPair(form, p, last), i)
    requires OccursAt(src.input, After(form, last), i + |PrintPair(form, p, last)|)
    requires PrintableFormat(form) && FirstAt(p.key, form.keyValSep) && ReadsBack(src, form, p, last)
    requires MidGap(form, p)
    ensures ParseKeyAndValue(src, form, i, name, args) == Arg(p.key, p.value, i + |PrintPair(form, p, last)|)
  {
    hide *;
    PairStands(src, form, i, p, last);
    var rest := SecondSeparator(form, p) + (p.text + Closing(form, last));
    OccursFits(src.input, p.key + (form.keyValSep + rest), i);
    Splits(src.input, p.key, form.keyValSep + rest, i);
    Splits(src.input, form.keyValSep, rest, i + |p.key|);
    FoundInPlace(src, i, p.key, form.keyValSep);
    KeySteps(src, form, i, name, args);
    ParsesAfterKey(src, form, i + |p.key| + |form.keyValSep|, p, last, name, args);
  }

  // ------------------------------------------------------------ all arguments of a call

  lemma ParsesFirstArg(src: Source, form: Format, i: nat, p: Param, last: bool, name: string, done: Members,
                       recovery: bool)
    requires OccursAt(src.input, PrintArg(form, p, last), i)
    requires OccursAt(src.input, After(form, last), i + |PrintArg(form, p, last)|)
    requires PrintableFormat(form) && PrintableArg(src, form, p, last) && !HasKey(done, p.key)
    ensures ParseArgs(src, form, i, name, done, recovery) ==
            ParseArgs(src, form, i + |PrintArg(form, p, last)|, name, done + [(p.key, p.value)], false)
  {
    hide *;
    ArgText(src, form, p, last);
    var pair := PrintPair(form, p, last);
    OccursFits(src.input, PrintArg(form, p, last), i);
    Splits(src.input, p.gap, form.keyStart + pair, i);
    Splits(src.input, form.keyStart, pair, i + |p.gap|);
    FoundInPlace(src, i, p.gap, form.keyStart);
    ParsesKeyAndValue(src, form, i + |p.gap| + |form.keyStart|, p, last, name, done);
    ArgsSteps(src, form, i, name, done, recovery);
    PutNewKey(done, p.key, p.value);
  }

  lemma ArgText(src: Source, form: Format, p: Param, last: bool)
    requires PrintableArg(src, form, p, last)
    ensures AllSpace(p.gap) && FirstAt(p.gap, form.keyStart) && FirstAt(p.key, form.keyValSep)
    ensures ReadsBack(src, form, p, last) && MidGap(form, p)
    ensures PrintArg(form, p, last) == p.gap + (form.keyStart + PrintPair(form, p, last))
  {
    hide FirstAt; hide ReadsBack; hide PrintPair;
  }

  lemma {:induction false} ParsesArgs(src: Source, form: Format, i: nat, ps: seq<Param>, endGap: string,
                                      name: string, done: Members, recovery: bool)
    requires OccursAt(src.input, PrintBody(form, ps, endGap), i)
    requires PrintableFormat(form) && DistinctKeys(done + Pairs(ps)) && PrintableArgs(src, form, ps)
    requires Blocks(endGap + form.toolEnd, form.keyStart) && (form.lastValEnd.Some? && ps != [] ==> endGap == "")
    ensures ParseArgs(src, form, i, name, done, recovery) ==
            ArgsDone(i + |PrintArgs(form, ps)|, done + Pairs(ps), recovery && ps == [])
    decreases |ps|
  {
    hide *;
    if ps == [] {
      BodyWithoutArgs(form, endGap);
      assert done + Pairs(ps) == done;
      ParsesNoArgs(src, form, i, endGap, name, done, recovery);
    } else {
      var p, last, first := ps[0], |ps| == 1, PrintArg(form, ps[0], |ps| == 1);
      BodyCons(form, ps, endGap);
      OccursFits(src.input, PrintBody(form, ps, endGap), i);
      Splits(src.input, first, PrintBody(form, ps[1..], endGap), i);
      AfterStands(src, form, i + |first|, ps, endGap);
      NewKey(done, ps);
      RestPrintable(src, form, ps);
      ParsesFirstArg(src, form, i, p, last, name, done, recovery);
      PairsCons(done, ps);
      ParsesArgs(src, form, i + |first|, ps[1..], endGap, name, done + [(p.key, p.value)], false);
    }
  }

  /** The last argument is followed by the end of the tool, any other by one more argument. */
  lemma AfterStands(src: Source, form: Format, i: nat, ps: seq<Param>, endGap: string)
    requires ps != [] && OccursAt(src.input, PrintBody(form, ps[1..], endGap), i)
    requires form.lastValEnd.Some? ==> endGap == ""
    ensures OccursAt(src.input, After(form, |ps| == 1), i)
  {
    if |ps| == 1 && form.lastValEnd.Some? {
      assert ps[1..] == [];
      BodyWithoutArgs(form, endGap);
      assert "" + form.toolEnd == form.toolEnd;
    } else {
      assert src.input[i..i] == "";
    }
  }

  lemma BodyWithoutArgs(form: Format, endGap: string)
    ensures PrintBody(form, [], endGap) == endGap + form.toolEnd && PrintArgs(form, []) == ""
  {}

  lemma BodyCons(form: Format, ps: seq<Param>, endGap: string)
    requires ps != []
    ensures PrintArgs(form, ps) == PrintArg(form, ps[0], |ps| == 1) + PrintArgs(form, ps[1..])
    ensures PrintBody(form, ps, endGap) == PrintArg(form, ps[0], |ps| == 1) + PrintBody(form, ps[1..], endGap)
  {
    hide PrintArg;
    Regroup(PrintArg(form, ps[0], |ps| == 1), PrintArgs(form, ps[1..]), endGap + form.toolEnd);
  }

  lemma Regroup(a: string, b: string, c: string)
    ensures (a + b) + c == a + (b + c)
  {}

  lemma PairsCons(done: Members, ps: seq<Param>)
    requires ps != []
    ensures done + [(ps[0].key, ps[0].value)] + Pairs(ps[1..]) == done + Pairs(ps)
  {
    assert Pairs(ps) == [(ps[0].key, ps[0].value)] + Pairs(ps[1..]);
  }

  lemma RestPrintable(src: Source, form: Format, ps: seq<Param>)
    requires ps != [] && PrintableArgs(src, form, ps)
    ensures PrintableArg(src, form, ps[0], |ps| == 1) && PrintableArgs(src, form, ps[1..])
  {
    hide PrintableArg;
    assert forall k | 0 <= k < |ps| - 1 :: ps[1..][k] == ps[k + 1];
  }

  lemma ParsesNoArgs(src: Source, form: Format, i: nat, endGap: string, name: string, done: Members, recovery: bool)
    requires OccursAt(src.input, endGap + form.toolEnd, i) && Blocks(endGap + form.toolEnd, form.keyStart)
    ensures i <= |src.input| && ParseArgs(src, form, i, name, done, recovery) == ArgsDone(i, done, recovery)
  {
    hide ParseKeyAndValue; hide FindLiteral; hide Blocks;
    BlockedSearch(src, i, endGap + form.toolEnd, form.keyStart);
  }

  lemma NewKey(done: Members, ps: seq<Param>)
    requires ps != [] && DistinctKeys(done + Pairs(ps))
    ensures !HasKey(done, ps[0].key)
  {
    var all := done + Pairs(ps);
    assert all[|done|] == Pairs(ps)[0];
    forall k | 0 <= k < |done| ensures done[k].0 != ps[0].key {
      assert all[k] == done[k];
    }
  }

  // ------------------------------------------------------------ the tool name

  lemma NoToolEndInName(name: string, toolEnd: string)
    requires FirstAt(name, toolEnd) && toolEnd != ""
    ensures !Contains(name, toolEnd)
  {
    FindIsFirst(name, toolEnd, 0);
    if Contains(name, toolEnd) {
      var k := Find(name, toolEnd, 0).value;
      assert (name + toolEnd)[k..k + |toolEnd|] == name[k..k + |toolEnd|];
      assert OccursAt(name + toolEnd, toolEnd, k);
    }
  }

  lemma NameStripped(src: Source, tool: string, sep: string)
    requires Stripped(tool) && AllSpace(sep)
    ensures ToolName(src, tool + sep) == NameOf(src, tool)
  {
    StripPadded("", tool, sep);
    assert "" + tool + sep == tool + sep;
  }

  /** With a separator that is not just spaces, the name ends at the separator. */
  lemma NameEndsAtSeparator(src: Source, form: Format, i: nat, call: Call)
    requires OccursAt(src.input, call.tool + form.toolSep, i)
    requires PrintableFormat(form) && PrintableCall(src, form, call) && !AllSpace(form.toolSep)
    ensures FindNameEnd(src, form, i) ==
            MatchAt(Match(call.tool, i + |call.tool|, i + |call.tool| + |form.toolSep|))
  {
    Splits(src.input, call.tool, form.toolSep, i);
    FoundInPlace(src, i, call.tool, form.toolSep);
  }

  /** With a separator of spaces, it ends at the first key. */
  lemma NameEndsAtKey(src: Source, form: Format, i: nat, name: string)
    requires OccursAt(src.input, name, i) && OccursAt(src.input, form.keyStart, i + |name|)
    requires AllSpace(form.toolSep) && form.lastToolEnd.None?
    requires FirstAt(name, form.toolEnd) && FirstAt(name, form.keyStart)
    ensures FindNameEnd(src, form, i) == MatchAt(Match(name, i + |name|, i + |name| + |form.keyStart|))
  {
    FoundInPlace(src, i, name, form.keyStart);
    NoToolEndInName(name, form.toolEnd);
  }

  lemma HoldsIfSpanned(input: string, i: nat, a: string, t: string, k: nat)
    requires OccursAt(input, a + t, i) && i + |a + t| <= k <= |input|
    ensures Contains(input[i..k], t)
  {
    var p := input[i..k];
    FindIsFirst(p, t, 0);
    Splits(input, a, t, i);
    forall j | 0 <= j < |t| ensures p[|a| + j] == t[j] {
      assert input[i + |a|..i + |a| + |t|][j] == input[i + |a| + j];
    }
    assert OccursAt(p, t, |a|);
  }

  /** Without arguments, a key found in a later call does not mislead the parser. */
  lemma NameEndsAtToolEnd(src: Source, form: Format, i: nat, name: string)
    requires OccursAt(src.input, name + form.toolEnd, i)
    requires AllSpace(form.toolSep) && form.lastToolEnd.None? && FirstAt(name, form.toolEnd)
    requires NeverAgrees(name + form.toolEnd, form.keyStart)
    ensures FindNameEnd(src, form, i) == MatchAt(Match(name, i + |name|, i + |name| + |form.toolEnd|))
  {
    Splits(src.input, name, form.toolEnd, i);
    FoundInPlace(src, i, name, form.toolEnd);
    NoToolEndInName(name, form.toolEnd);
    var sep := FindLiteral(src.input, src.partial, i, form.keyStart);
    if sep.Some? {
      MatchAgrees(src, i, name + form.toolEnd, form.keyStart);
      HoldsIfSpanned(src.input, i, name, form.toolEnd, sep.value.begin);
    }
  }

  /** The name, with the spaces after it when the separator is only spaces. */
  function NameText(form: Format, call: Call): string {
    if AllSpace(form.toolSep) then (call.tool + form.toolSep) + Lead(call) else call.tool + form.toolSep
  }

  /** The arguments and closing spaces that are left after that. */
  function Left(form: Format, call: Call): (seq<Param>, string) {
    if !AllSpace(form.toolSep) then (call.params, call.endGap)
    else if call.params == [] then ([], "")
    else ([call.params[0].(gap := "")] + call.params[1..], call.endGap)
  }

  lemma WithoutGap(form: Format, p: Param, last: bool)
    ensures PrintArg(form, p.(gap := ""), last) == form.keyStart + PrintPair(form, p, last)
  {
    assert "" + (form.keyStart + PrintPair(form, p, last)) == form.keyStart + PrintPair(form, p, last);
  }

  lemma NameAndLeft(form: Format, call: Call)
    ensures var (ps, endGap) := Left(form, call);
            (call.tool + form.toolSep) + PrintBody(form, call.params, call.endGap) ==
            NameText(form, call) + PrintBody(form, ps, endGap)
  {
    hide PrintPair;
    var (ps, endGap) := Left(form, call);
    if AllSpace(form.toolSep) {
      if call.params == [] {
        BodyWithoutArgs(form, call.endGap);
        BodyWithoutArgs(form, "");
        assert "" + form.toolEnd == form.toolEnd;
        Regroup(call.tool + form.toolSep, call.endGap, form.toolEnd);
      } else {
        var p := call.params[0];
        BodyCons(form, call.params, endGap);
        BodyCons(form, ps, endGap);
        assert ps[1..] == call.params[1..];
        var rest := PrintBody(form, ps[1..], endGap);
        var last := |call.params| == 1;
        var text := form.keyStart + PrintPair(form, p, last);
        WithoutGap(form, p, last);
        Regroup(p.gap, text, rest);
        Regroup(call.tool + form.toolSep, p.gap, text + rest);
      }
    }
  }

  lemma LeftIsPrintable(src: Source, form: Format, call: Call)
    requires PrintableFormat(form) && PrintableCall(src, form, call)
    ensures var (ps, endGap) := Left(form, call);
            PrintableBody(src, form, ps, endGap) && Pairs(ps) == Pairs(call.params)
  {
    hide Blocks; hide FirstAt; hide NameOf;
    NothingBefore(form.keyStart);
    NothingBefore(form.toolEnd);
    assert "" + form.toolEnd == form.toolEnd;
    var (ps, endGap) := Left(form, call);
    forall k | 0 <= k < |ps| 
      ensures PrintableArg(src, form, ps[k], k == |ps| - 1) && Pairs(ps)[k] == Pairs(call.params)[k]
    {
      assert PrintableArg(src, form, call.params[k], k == |call.params| - 1);
    }
    assert Pairs(ps) == Pairs(call.params);
  }

  lemma AllSpaceJoin(a: string, b: string)
    requires AllSpace(a) && AllSpace(b)
    ensures AllSpace(a + b)
  {}

  lemma LeadIsSpace(src: Source, form: Format, call: Call)
    requires PrintableCall(src, form, call)
    ensures AllSpace(Lead(call))
  {
    hide Blocks; hide FirstAt; hide NameOf;
    if call.params != [] { assert PrintableArg(src, form, call.params[0], 0 == |call.params| - 1); }
  }

  lemma ParsesName(src: Source, form: Format, i: nat, call: Call)
    requires OccursAt(src.input, (call.tool + form.toolSep) + PrintBody(form, call.params, call.endGap), i)
    requires PrintableFormat(form) && PrintableCall(src, form, call)
    ensures FindName(src, form, i) == Named(NameOf(src, call.tool), i + |NameText(form, call)|)
  {
    hide FindLiteral; hide FindNameEnd; hide OccursAt; hide ToolName; hide PrintBody; hide Blocks; hide FirstAt;
    hide NameOf; hide PrintableBody; hide NeverAgrees; hide Contains;
    NameAndLeft(form, call);
    var (ps, endGap) := Left(form, call);
    var name := NameText(form, call);
    Splits(src.input, name, PrintBody(form, ps, endGap), i);
    if !AllSpace(form.toolSep) {
      NameStripped(src, call.tool, "");
      assert call.tool + "" == call.tool;
      NameEndsAtSeparator(src, form, i, call);
    } else {
      LeadIsSpace(src, form, call);
      AllSpaceJoin(form.toolSep, Lead(call));
      NameStripped(src, call.tool, form.toolSep + Lead(call));
      Regroup(call.tool, form.toolSep, Lead(call));
      if call.params == [] {
        BodyWithoutArgs(form, "");
        assert "" + form.toolEnd == form.toolEnd;
        Joins(src.input, name, form.toolEnd, i);
        NameEndsAtToolEnd(src, form, i, name);
      } else {
        BodyStartsWithKey(form, ps, endGap);
        Splits(src.input, form.keyStart, PrintBody(form, ps, endGap)[|form.keyStart|..], i + |name|);
        NameEndsAtKey(src, form, i, name);
      }
    }
  }

  lemma BodyStartsWithKey(form: Format, ps: seq<Param>, endGap: string)
    requires ps != [] && ps[0].gap == ""
    ensures form.keyStart <= PrintBody(form, ps, endGap)
    ensures PrintBody(form, ps, endGap) == form.keyStart + PrintBody(form, ps, endGap)[|form.keyStart|..]
  {
    hide *;
    BodyCons(form, ps, endGap);
    var pair := PrintPair(form, ps[0], |ps| == 1);
    WithoutGap(form, ps[0], |ps| == 1);
    assert ps[0].(gap := "") == ps[0];
    Regroup(form.keyStart, pair, PrintBody(form, ps[1..], endGap));
    TailAfter(form.keyStart, pair + PrintBody(form, ps[1..], endGap));
  }

  lemma TailAfter(a: string, b: string)
    ensures a <= a + b && a + b == a + (a + b)[|a|..]
  {}

  // ------------------------------------------------------------ calls

  lemma ParsesCall(src: Source, form: Format, i: nat, call: Call, recovery: bool)
    requires OccursAt(src.input, (call.tool + form.toolSep) + PrintBody(form, call.params, call.endGap), i)
    requires PrintableFormat(form) && PrintableCall(src, form, call)
    ensures var printed := (call.tool + form.toolSep) + PrintBody(form, call.params, call.endGap);
            ParseCall(src, form, i, recovery) == CallParsed(Result(src, call), i + |printed|)
  {
    hide *;
    ParsesName(src, form, i, call);
    NameAndLeft(form, call);
    LeftIsPrintable(src, form, call);
    var (ps, endGap) := Left(form, call);
    var name, args, tool := NameText(form, call), PrintArgs(form, ps), NameOf(src, call.tool);
    var j := i + |name|;
    OccursFits(src.input, (call.tool + form.toolSep) + PrintBody(form, call.params, call.endGap), i);
    Splits(src.input, name, PrintBody(form, ps, endGap), i);
    assert [] + Pairs(ps) == Pairs(ps);
    BodyParts(src, form, ps, endGap);
    ParsesArgs(src, form, j, ps, endGap, tool, [], recovery);
    Splits(src.input, args, endGap + form.toolEnd, j);
    CallSteps(src, form, i, recovery);
    CallNamed(src, form, call);
    ParsesToolEnd(src, form, j + |args|, endGap, tool, Pairs(ps), recovery && ps == []);
  }

  lemma BodyParts(src: Source, form: Format, ps: seq<Param>, endGap: string)
    requires PrintableFormat(form) && PrintableBody(src, form, ps, endGap)
    ensures DistinctKeys(Pairs(ps)) && PrintableArgs(src, form, ps) && Gap(endGap, form.toolEnd)
    ensures Blocks(endGap + form.toolEnd, form.keyStart) && form.lastToolEnd.None?
    ensures form.lastValEnd.Some? && ps != [] ==> endGap == ""
    ensures PrintBody(form, ps, endGap) == PrintArgs(form, ps) + (endGap + form.toolEnd)
  {}

  lemma CallNamed(src: Source, form: Format, call: Call)
    requires PrintableCall(src, form, call)
    ensures NameOf(src, call.tool) != ""
    ensures Result(src, call) == ToolCall(NameOf(src, call.tool), Dump(Pairs(call.params)), "")
  {
    hide NameOf; hide Dump; hide Pairs;
  }

  lemma ParsesToolEnd(src: Source, form: Format, i: nat, gap: string, name: string, args: Members, recovery: bool)
    requires OccursAt(src.input, gap + form.toolEnd, i) && Gap(gap, form.toolEnd)
    requires form.lastToolEnd.None? && name != ""
    ensures i <= |src.input|
    ensures ParseToolEnd(src, form, i, name, args, recovery) ==
            CallParsed(ToolCall(name, Dump(args), ""), i + |gap + form.toolEnd|)
  {
    hide FindLiteral; hide OccursAt; hide FirstAt; hide Dump; hide NamedCall; hide OpenDump;
    OccursFits(src.input, gap + form.toolEnd, i);
    Splits(src.input, gap, form.toolEnd, i);
    FoundInPlace(src, i, gap, form.toolEnd);
  }

  lemma ParsesFirstCall(src: Source, form: Format, start: nat, i: nat, call: Call,
                        done: seq<ToolCall>, recovery: bool)
    requires OccursAt(src.input, PrintCall(form, call), i)
    requires PrintableFormat(form) && PrintableCall(src, form, call)
    ensures ParseCalls(src, form, start, i, done, recovery) ==
            ParseCalls(src, form, start, i + |PrintCall(form, call)|, done + [Result(src, call)], false)
  {
    hide *;
    var text := (call.tool + form.toolSep) + PrintBody(form, call.params, call.endGap);
    CallText(src, form, call);
    OccursFits(src.input, PrintCall(form, call), i);
    Splits(src.input, call.gap, form.toolStart + text, i);
    Splits(src.input, form.toolStart, text, i + |call.gap|);
    FoundInPlace(src, i, call.gap, form.toolStart);
    ParsesCall(src, form, i + |call.gap| + |form.toolStart|, call, recovery);
    CallsSteps(src, form, start, i, done, recovery);
  }

  lemma CallText(src: Source, form: Format, call: Call)
    requires PrintableCall(src, form, call)
    ensures AllSpace(call.gap) && FirstAt(call.gap, form.toolStart)
    ensures PrintCall(form, call) ==
            call.gap + (form.toolStart + ((call.tool + form.toolSep) + PrintBody(form, call.params, call.endGap)))
  {
    hide FirstAt; hide PrintableBody; hide PrintBody; hide NameOf;
  }

  lemma ParsesEnd(src: Source, form: Format, start: nat, i: nat, gap: string, done: seq<ToolCall>, recovery: bool)
    requires OccursAt(src.input, gap + form.scopeEnd, i)
    requires Gap(gap, form.scopeEnd) && NoCallAt(src, form, i)
    ensures ParseCalls(src, form, start, i, done, recovery) ==
            Outcome(ReturnTrue, i + |gap| + |form.scopeEnd|, done)
  {
    Splits(src.input, gap, form.scopeEnd, i);
    FoundInPlace(src, i, gap, form.scopeEnd);
  }

  ghost predicate PrintableCalls(src: Source, form: Format, calls: seq<Call>) {
    forall k | 0 <= k < |calls| :: PrintableCall(src, form, calls[k])
  }

  lemma CallsCons(src: Source, form: Format, calls: seq<Call>, tail: string)
    requires calls != [] && PrintableCalls(src, form, calls)
    ensures PrintableCall(src, form, calls[0]) && PrintableCalls(src, form, calls[1..])
    ensures PrintCalls(form, calls) == PrintCall(form, calls[0]) + PrintCalls(form, calls[1..])
    ensures PrintCalls(form, calls) + tail == PrintCall(form, calls[0]) + (PrintCalls(form, calls[1..]) + tail)
    ensures Parsed(src, calls) == [Result(src, calls[0])] + Parsed(src, calls[1..])
  {
    hide PrintableCall; hide PrintCall; hide Result;
    assert forall k | 0 <= k < |calls| - 1 :: calls[1..][k] == calls[k + 1];
    Regroup(PrintCall(form, calls[0]), PrintCalls(form, calls[1..]), tail);
  }

  lemma NoCalls(src: Source, form: Format, tail: string)
    ensures PrintCalls(form, []) == "" && PrintCalls(form, []) + tail == tail && Parsed(src, []) == []
  {}

  /** The calls loop consumes a printed list and its closing tag. */
  lemma {:induction false} ParsesCalls(src: Source, form: Format, start: nat, i: nat, calls: seq<Call>,
                                       endGap: string, done: seq<ToolCall>, recovery: bool)
    requires OccursAt(src.input, PrintCalls(form, calls) + (endGap + form.scopeEnd), i)
    requires PrintableFormat(form) && PrintableCalls(src, form, calls) && Gap(endGap, form.scopeEnd)
    requires i + |PrintCalls(form, calls)| <= |src.input| && NoCallAt(src, form, i + |PrintCalls(form, calls)|)
    ensures ParseCalls(src, form, start, i, done, recovery) ==
            Outcome(ReturnTrue, i + |PrintCalls(form, calls)| + |endGap + form.scopeEnd|, done + Parsed(src, calls))
    decreases |calls|
  {
    hide *;
    var tail := endGap + form.scopeEnd;
    if calls == [] {
      NoCalls(src, form, tail);
      assert done + [] == done;
      ParsesEnd(src, form, start, i, endGap, done, recovery);
    } else {
      CallsCons(src, form, calls, tail);
      var first := PrintCall(form, calls[0]);
      Splits(src.input, first, PrintCalls(form, calls[1..]) + tail, i);
      ParsesFirstCall(src, form, start, i, calls[0], done, recovery);
      ParsesCalls(src, form, start, i + |first|, calls[1..], endGap, done + [Result(src, calls[0])], false);
      assert done + [Result(src, calls[0])] + Parsed(src, calls[1..]) ==
             done + ([Result(src, calls[0])] + Parsed(src, calls[1..]));
    }
  }

  // ------------------------------------------------------------ the whole scope

  /** A scope tag of spaces alone belongs to the spaces that follow it. */
  function Absorbed(form: Format, calls: seq<Call>): seq<Call> {
    if AllSpace(form.scopeStart) && calls != [] then
      [calls[0].(gap := form.scopeStart + calls[0].gap)] + calls[1..]
    else calls
  }

  function AbsorbedEnd(form: Format, calls: seq<Call>, endGap: string): string {
    if AllSpace(form.scopeStart) && calls == [] then form.scopeStart + endGap else endGap
  }

  lemma AbsorbedText(src: Source, form: Format, calls: seq<Call>, endGap: string)
    requires AllSpace(form.scopeStart)
    ensures PrintScope(form, calls, endGap) ==
            PrintCalls(form, Absorbed(form, calls)) + (AbsorbedEnd(form, calls, endGap) + form.scopeEnd)
    ensures Parsed(src, Absorbed(form, calls)) == Parsed(src, calls)
  {
    hide PrintBody; hide Dump; hide NameOf; hide Pairs;
    if calls == [] {
      Regroup(form.scopeStart, endGap, form.scopeEnd);
      assert "" + (endGap + form.scopeEnd) == endGap + form.scopeEnd;
      NoCalls(src, form, (form.scopeStart + endGap) + form.scopeEnd);
    } else {
      var c, ds, tail := calls[0], Absorbed(form, calls), endGap + form.scopeEnd;
      assert ds[1..] == calls[1..];
      var text := form.toolStart + ((c.tool + form.toolSep) + PrintBody(form, c.params, c.endGap));
      Regroup(form.scopeStart, c.gap, text);
      var rest := PrintCalls(form, calls[1..]);
      assert PrintCalls(form, calls) == (c.gap + text) + rest;
      assert PrintCalls(form, ds) == (form.scopeStart + (c.gap + text)) + rest;
      Regroup(form.scopeStart, c.gap + text, rest);
      Regroup(form.scopeStart, (c.gap + text) + rest, tail);
    }
  }

  /** Round trip: under the stated conditions on the delimiters, the printed form of any list of calls, with
      any spaces where the parser skips them, wherever it stands in the input, parses to exactly these calls,
      in order, after those already there, and the cursor ends just after the scope. */
  lemma ParseUndoesPrint(src: Source, form: Format, pos: nat, calls: seq<Call>, endGap: string, done: seq<ToolCall>)
    requires OccursAt(src.input, PrintScope(form, calls, endGap), pos)
    requires PrintableFormat(form) && PrintableCalls(src, form, Absorbed(form, calls))
    requires Gap(AbsorbedEnd(form, calls, endGap), form.scopeEnd)
    requires NoCallAt(src, form, if calls == [] && AllSpace(form.scopeStart) then pos
                                 else pos + |form.scopeStart| + |PrintCalls(form, calls)|)
    ensures TryConsume(src, form, pos, done) ==
            Outcome(ReturnTrue, pos + |PrintScope(form, calls, endGap)|, done + Parsed(src, calls))
  {
    hide *;
    var body := PrintCalls(form, calls) + (endGap + form.scopeEnd);
    ScopeText(form, calls, endGap);
    OccursFits(src.input, PrintScope(form, calls, endGap), pos);
    if AllSpace(form.scopeStart) {
      AbsorbedText(src, form, calls, endGap);
      AbsorbedLength(src, form, calls);
      NoScope(src, form, pos, done);
      ParsesCalls(src, form, pos, pos, Absorbed(form, calls), AbsorbedEnd(form, calls, endGap), done, true);
    } else {
      NothingAbsorbed(form, calls, endGap);
      Splits(src.input, form.scopeStart, body, pos);
      FoundHere(src, pos, form.scopeStart);
      ScopeOpened(src, form, pos, done, pos + |form.scopeStart|);
      ParsesCalls(src, form, pos, pos + |form.scopeStart|, calls, endGap, done, true);
    }
  }

  lemma ScopeText(form: Format, calls: seq<Call>, endGap: string)
    ensures PrintScope(form, calls, endGap) == form.scopeStart + (PrintCalls(form, calls) + (endGap + form.scopeEnd))
  {}

  lemma NothingAbsorbed(form: Format, calls: seq<Call>, endGap: string)
    requires !AllSpace(form.scopeStart)
    ensures Absorbed(form, calls) == calls && AbsorbedEnd(form, calls, endGap) == endGap
  {}

  lemma OccursFits(s: string, t: string, i: nat)
    requires OccursAt(s, t, i)
    ensures i + |t| <= |s|
  {}

  lemma AbsorbedLength(src: Source, form: Format, calls: seq<Call>)
    requires AllSpace(form.scopeStart)
    ensures |PrintCalls(form, Absorbed(form, calls))| ==
            if calls == [] then 0 else |form.scopeStart| + |PrintCalls(form, calls)|
  {
    AbsorbedText(src, form, calls, "");
    assert "" + form.scopeEnd == form.scopeEnd;
  }

  /** Kimi-K2 names: the parser recovers the name from `functions.NAME:INDEX`. */
  lemma KimiNameRecovered(name: string, index: string)
    requires index != "" && DigitsFrom(index, 0)
    ensures KimiName("functions." + name + ":" + index) == name
  {
    var s := "functions." + name + ":" + index;
    var k := 10 + |name|;
    assert s[k..k + 1] == ":";
    LastIs(s, ":", |s|, k, index);
    assert s[10..k] == name;
    assert forall i | k + 1 <= i < |s| :: s[i] == index[i - k - 1];
  }

  lemma {:induction false} LastIs(s: string, t: string, from: nat, k: nat, index: string)
    requires k <= from <= |s| && t == ":" && OccursAt(s, t, k) && |s| == k + 1 + |index|
    requires DigitsFrom(index, 0) && forall i | k + 1 <= i < |s| :: s[i] == index[i - k - 1]
    ensures FindLast(s, t, from) == Some(k)
    decreases from
  {
    if from > k {
      assert from < |s| ==> s[from..from + 1][0] == index[from - k - 1];
      LastIs(s, t, from - 1, k, index);
    }
  }

  // ------------------------------------------------------------ formats in use

  lemma StartsApart(end: string, start: string)
    requires end != "" && start != "" && !IsSpace(end[0]) && end[0] != start[0]
    ensures Blocks(end, start) && !AgreesAt(end, start, 0) && !AllSpace(end)
  {
    assert end[0..][0] == end[0];
  }

  lemma TagsDiffer(end: string, start: string)
    requires |end| > 1 && |start| > 1 && end[0] == start[0] == '<' && end[1] != start[1]
    ensures Blocks(end, start)
  {
    assert end[0..][1] == end[1];
    assert !AgreesAt(end, start, 0);
  }

  lemma TagsPrintable(form: Format)
    requires form in {QWEN3_CODER, MINIMAX_M2, GLM_4_5, SEED_OSS}
    ensures PrintableFormat(form) && !AllSpace(form.valEnd) && !AllSpace(form.toolEnd)
  {
    TagsDiffer(form.toolEnd, form.keyStart);
    assert form.valEnd[0] == form.toolEnd[0] == '<' && !IsSpace('<');
  }

  lemma ObjectsPrintable(form: Format)
    requires form in {KIMI_K2, XIAOMI_MIMO}
    ensures PrintableFormat(form) && !AllSpace(form.valEnd) && !AllSpace(form.toolEnd)
  {
    StartsApart(form.toolEnd, form.keyStart);
    StartsApart(form.toolEnd, form.valEnd);
    assert form.valEnd[0] == ',' && !IsSpace(',');
  }

  /** The delimiters of every format in use with one kind of tool end meet the hypotheses of the round trip, and
      what closes their values is not only spaces. */
  lemma FormatsPrintable(form: Format)
    requires form in {QWEN3_CODER, MINIMAX_M2, GLM_4_5, SEED_OSS, KIMI_K2, XIAOMI_MIMO}
    ensures PrintableFormat(form) && !AllSpace(form.valEnd) && !AllSpace(form.toolEnd)
  {
    if form in {KIMI_K2, XIAOMI_MIMO} { ObjectsPrintable(form); } else { TagsPrintable(form); }
  }
}
