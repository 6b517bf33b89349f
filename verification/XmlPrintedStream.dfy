/** A printed list of calls streams: its client gets exactly these calls. */
module XmlPrintedStream {
  import opened Wrappers
  import opened Text
  import opened ChatTypes
  import opened LiteralSearch
  import opened Json
  import opened ServerStream
  import opened XmlSpec
  import opened XmlFormats
  import opened XmlRoundTrip
  import opened XmlGrowth
  import opened XmlValues
  import opened XmlJsonValues
  import opened XmlStream
  import opened XmlCallStream
  import opened XmlScopeStream
  import opened XmlClientStream
  import Utf8

  // ------------------------------------------------------------ the arguments

  /** Wherever the text of the value stands, with its end after it, it is a good value. */
  ghost predicate GoodParam(src: Source, form: Format, p: Param, last: bool) {
    forall i: nat | OccursAt(src.input, p.text + Closing(form, last), i) :: GoodValue(src, form, i)
  }

  ghost predicate GoodParams(src: Source, form: Format, ps: seq<Param>) {
    forall k | 0 <= k < |ps| :: GoodParam(src, form, ps[k], k == |ps| - 1)
  }

  /** A printed value is finished where its text ends. */
  lemma PrintedValue(src: Source, form: Format, i: nat, p: Param, last: bool)
    requires OccursAt(src.input, p.text + Closing(form, last), i) && StreamFormat(form) && PrintableFormat(form)
    requires ReadsBack(src, form, p, last) && GoodParam(src, form, p, last)
    ensures i <= |src.input| && GoodValue(src, form, i)
    ensures Finished(src, form, i) == Some(Finish(p.value, i + |p.text| + |ValueEnd(form, last)|))
  {
    hide *;
    OccursFits(src.input, p.text + Closing(form, last), i);
    GoodHere(src, form, i, p, last);
    NoKeyYet(p.key);
    ParsesValue(src, form, i, p, last, "f", []);
    ValueShows(src, form, i, p.key, "f", []);
    if Finished(src, form, i).None? { ShowingIs("f", [], p.key, Begun(src, form, i)); }
  }

  lemma GoodHere(src: Source, form: Format, i: nat, p: Param, last: bool)
    requires OccursAt(src.input, p.text + Closing(form, last), i) && i <= |src.input| && GoodParam(src, form, p, last)
    ensures GoodValue(src, form, i)
  {
    hide OccursAt; hide Closing; hide GoodValue;
  }

  /** So is what follows a printed key. */
  lemma PrintedPair(src: Source, form: Format, i: nat, p: Param, last: bool)
    requires OccursAt(src.input, SecondSeparator(form, p) + (p.text + Closing(form, last)), i)
    requires StreamFormat(form) && PrintableFormat(form)
    requires ReadsBack(src, form, p, last) && GoodParam(src, form, p, last) && MidGap(form, p)
    ensures i <= |src.input| && GoodPair(src, form, i)
    ensures PairFinish(src, form, i) ==
            Some(Finish(p.value, i + |SecondSeparator(form, p)| + |p.text| + |ValueEnd(form, last)|))
  {
    hide OccursAt; hide FindLiteral; hide Finished; hide ReadsBack; hide GoodParam; hide GoodValue; hide StreamFormat;
    hide FirstAt; hide PrintableFormat; hide Closing; hide ValueEnd;
    var second, rest := SecondSeparator(form, p), p.text + Closing(form, last);
    OccursFits(src.input, second + rest, i);
    Splits(src.input, second, rest, i);
    PrintedValue(src, form, i + |second|, p, last);
    if form.keyValSep2.Some? {
      SecondFound(src, form, i, p);
      SecondLength(form, p);
    } else {
      NoSecond(form, p);
    }
  }

  lemma {:induction false} PrintedArgsGood(src: Source, form: Format, i: nat, ps: seq<Param>, endGap: string,
                                           done: Members)
    requires OccursAt(src.input, PrintBody(form, ps, endGap), i) && StreamFormat(form) && PrintableFormat(form)
    requires DistinctKeys(done + Pairs(ps)) && PrintableArgs(src, form, ps) && GoodParams(src, form, ps)
    requires Blocks(endGap + form.toolEnd, form.keyStart) && (form.lastValEnd.Some? && ps != [] ==> endGap == "")
    ensures i <= |src.input| && GoodArgs(src, form, i, done)
    decreases |ps|
  {
    hide *;
    OccursFits(src.input, PrintBody(form, ps, endGap), i);
    SearchIs(src, i, form.keyStart);
    if ps == [] {
      BodyWithoutArgs(form, endGap);
      BlockedSearch(src, i, endGap + form.toolEnd, form.keyStart);
      NotOpen(src, form, i, done);
    } else {
      var p, last, first := ps[0], |ps| == 1, PrintArg(form, ps[0], |ps| == 1);
      BodyCons(form, ps, endGap);
      Splits(src.input, first, PrintBody(form, ps[1..], endGap), i);
      AfterStands(src, form, i + |first|, ps, endGap);
      NewKey(done, ps);
      RestPrintable(src, form, ps);
      RestGood(src, form, ps);
      PairsCons(done, ps);
      PrintedArgsGood(src, form, i + |first|, ps[1..], endGap, done + [(p.key, p.value)]);
      FirstArgGood(src, form, i, p, last, done);
    }
  }

  lemma RestGood(src: Source, form: Format, ps: seq<Param>)
    requires ps != [] && GoodParams(src, form, ps)
    ensures GoodParam(src, form, ps[0], |ps| == 1) && GoodParams(src, form, ps[1..])
  {
    hide GoodParam;
    assert forall k | 0 <= k < |ps| - 1 :: ps[1..][k] == ps[k + 1];
  }

  lemma NotOpen(src: Source, form: Format, pos: nat, args: Members)
    requires pos <= |src.input|
    requires var m := FindLiteral(src.input, src.partial, pos, form.keyStart); m.None? || !AllSpace(m.value.prelude)
    ensures GoodArgs(src, form, pos, args)
  {
    hide FindLiteral; hide AllSpace;
  }

  lemma FirstArgGood(src: Source, form: Format, i: nat, p: Param, last: bool, done: Members)
    requires OccursAt(src.input, PrintArg(form, p, last), i)
    requires OccursAt(src.input, After(form, last), i + |PrintArg(form, p, last)|)
    requires StreamFormat(form) && PrintableFormat(form)
    requires PrintableArg(src, form, p, last) && GoodParam(src, form, p, last) && !HasKey(done, p.key)
    requires i + |PrintArg(form, p, last)| <= |src.input|
    requires GoodArgs(src, form, i + |PrintArg(form, p, last)|, done + [(p.key, p.value)])
    ensures i <= |src.input| && GoodArgs(src, form, i, done)
  {
    hide *;
    var j := i + |p.gap| + |form.keyStart|;
    var q := j + |p.key| + |form.keyValSep|;
    FirstKeyFound(src, form, i, p, last);
    PrintedPair(src, form, q, p, last);
    OneMoreArg(src, form, i, p.gap, j, p.key, q, done, p.value, i + |PrintArg(form, p, last)|);
  }

  lemma FirstKeyFound(src: Source, form: Format, i: nat, p: Param, last: bool)
    requires OccursAt(src.input, PrintArg(form, p, last), i) && PrintableFormat(form)
    requires OccursAt(src.input, After(form, last), i + |PrintArg(form, p, last)|)
    requires PrintableArg(src, form, p, last)
    ensures var second, rest := SecondSeparator(form, p), p.text + Closing(form, last);
            var j := i + |p.gap| + |form.keyStart|;
            var q := j + |p.key| + |form.keyValSep|;
            && i <= j <= q <= |src.input| && OccursAt(src.input, second + rest, q)
            && Search(src, i, form.keyStart) == Some(Match(p.gap, i + |p.gap|, j))
            && Search(src, j, form.keyValSep) == Some(Match(p.key, j + |p.key|, q))
            && i + |PrintArg(form, p, last)| == q + |second| + |p.text| + |ValueEnd(form, last)|
            && ReadsBack(src, form, p, last) && MidGap(form, p)
  {
    hide *;
    ArgText(src, form, p, last);
    var pair := PrintPair(form, p, last);
    var second, rest := SecondSeparator(form, p), p.text + Closing(form, last);
    FoundBefore(src, i, p.gap, form.keyStart, pair);
    PairStands(src, form, i + |p.gap| + |form.keyStart|, p, last);
    FoundBefore(src, i + |p.gap| + |form.keyStart|, p.key, form.keyValSep, second + rest);
  }

  lemma FoundBefore(src: Source, i: nat, text: string, tag: string, rest: string)
    requires OccursAt(src.input, text + (tag + rest), i) && FirstAt(text, tag)
    ensures var j := i + |text| + |tag|;
            i <= j <= |src.input| && OccursAt(src.input, rest, j) &&
            Search(src, i, tag) == Some(Match(text, i + |text|, j))
  {
    hide *;
    OccursFits(src.input, text + (tag + rest), i);
    Splits(src.input, text, tag + rest, i);
    Splits(src.input, tag, rest, i + |text|);
    FoundInPlace(src, i, text, tag);
    SearchIs(src, i, tag);
  }

  lemma OneMoreArg(src: Source, form: Format, i: nat, gap: string, j: nat, key: string, q: nat, done: Members,
                   value: Value, end: nat)
    requires i + |gap| + |form.keyStart| == j && j + |key| + |form.keyValSep| == q <= |src.input|
    requires Search(src, i, form.keyStart) == Some(Match(gap, i + |gap|, j))
    requires Search(src, j, form.keyValSep) == Some(Match(key, j + |key|, q))
    requires !HasKey(done, key) && GoodPair(src, form, q) && end <= |src.input|
    requires PairFinish(src, form, q) == Some(Finish(value, end)) && GoodArgs(src, form, end, done + [(key, value)])
    ensures GoodArgs(src, form, i, done)
  {
    hide Search; hide GoodPair; hide PairFinish; hide HasKey; hide AllSpace; hide MidBroken;
  }

  // ------------------------------------------------------------ a call

  /** A name in which no delimiter begins, and good values. */
  ghost predicate GoodPrint(src: Source, form: Format, call: Call) {
    && NameTag(form) != "" && NameTag(form)[0] !in call.tool && form.toolEnd[0] !in call.tool
    && GoodParams(src, form, call.params)
  }

  lemma {:induction false} NameEndIs(src: Source, form: Format, pos: nat, e: nat)
    requires pos <= e < |src.input| && NameTag(form) != ""
    requires forall i | pos <= i < e :: src.input[i] != NameTag(form)[0] && src.input[i] != form.toolEnd[0]
    requires src.input[e] == NameTag(form)[0] || src.input[e] == form.toolEnd[0]
    ensures NameEnd(src, form, pos) == e
    decreases e - pos
  {
    hide NameTag;
    if pos < e { NameEndIs(src, form, pos + 1, e); }
  }

  lemma OccursBegins(src: Source, tag: string, e: nat)
    requires OccursAt(src.input, tag, e) && tag != ""
    ensures e < |src.input| && Begins(src, tag, e) && src.input[e] == tag[0]
  {
    assert src.input[e..][..|tag|] == src.input[e..e + |tag|];
    assert src.input[e] == src.input[e..e + |tag|][0];
  }

  lemma LacksHere(s: string, text: string, i: nat, c: char)
    requires OccursAt(s, text, i) && c !in text
    ensures i + |text| <= |s| && forall k | i <= k < i + |text| :: s[k] != c
  {
    forall k | i <= k < i + |text| ensures s[k] != c {
      assert s[k] == s[i..i + |text|][k - i];
    }
  }

  lemma NotInSpaces(a: string, b: string, c: string, x: char)
    requires x !in a && AllSpace(b) && AllSpace(c) && !IsSpace(x)
    ensures x !in (a + b) + c
  {}

  /** The text up to the arguments, without a separator that is not spaces. */
  function NameOnly(form: Format, call: Call): string {
    if AllSpace(form.toolSep) then NameText(form, call) else call.tool
  }

  lemma NameLacks(src: Source, form: Format, call: Call)
    requires ScopeFormat(form) && PrintableCall(src, form, call) && GoodPrint(src, form, call)
    ensures NameTag(form)[0] !in NameOnly(form, call) && form.toolEnd[0] !in NameOnly(form, call)
  {
    hide PrintableCall; hide GoodParams; hide Blocks;
    LeadIsSpace(src, form, call);
    TagsAreNoSpace(form);
    if AllSpace(form.toolSep) {
      NotInSpaces(call.tool, form.toolSep, Lead(call), NameTag(form)[0]);
      NotInSpaces(call.tool, form.toolSep, Lead(call), form.toolEnd[0]);
    }
  }

  lemma TagsAreNoSpace(form: Format)
    requires ScopeFormat(form)
    ensures NameTag(form) != "" && form.toolEnd != "" && !IsSpace(NameTag(form)[0]) && !IsSpace(form.toolEnd[0])
  {
    hide AllSpace; hide IsSpace;
  }

  /** After the printed name stands the separator, or the first key, or the end of the tool. */
  lemma TagAfterName(src: Source, form: Format, i: nat, call: Call)
    requires OccursAt(src.input, (call.tool + form.toolSep) + PrintBody(form, call.params, call.endGap), i)
    requires ScopeFormat(form)
    ensures OccursAt(src.input, NameOnly(form, call), i)
    ensures var e := i + |NameOnly(form, call)|;
            OccursAt(src.input, NameTag(form), e) || (AllSpace(form.toolSep) && OccursAt(src.input, form.toolEnd, e))
  {
    hide *;
    NameOnlyIs(form, call);
    if AllSpace(form.toolSep) {
      TagAfterSpaces(src, form, i, call);
    } else {
      Splits(src.input, call.tool + form.toolSep, PrintBody(form, call.params, call.endGap), i);
      Splits(src.input, call.tool, form.toolSep, i);
    }
  }

  lemma NameOnlyIs(form: Format, call: Call)
    ensures NameOnly(form, call) == if AllSpace(form.toolSep) then NameText(form, call) else call.tool
    ensures NameTag(form) == if AllSpace(form.toolSep) then form.keyStart else form.toolSep
  {
    hide AllSpace; hide NameText;
  }

  lemma TagAfterSpaces(src: Source, form: Format, i: nat, call: Call)
    requires OccursAt(src.input, (call.tool + form.toolSep) + PrintBody(form, call.params, call.endGap), i)
    requires AllSpace(form.toolSep)
    ensures OccursAt(src.input, NameText(form, call), i)
    ensures var e := i + |NameText(form, call)|;
            OccursAt(src.input, form.keyStart, e) || OccursAt(src.input, form.toolEnd, e)
  {
    hide *;
    var (ps, endGap) := Left(form, call);
    NameAndLeft(form, call);
    LeftIs(form, call);
    Splits(src.input, NameText(form, call), PrintBody(form, ps, endGap), i);
    if ps == [] {
      BodyWithoutArgs(form, "");
      assert "" + form.toolEnd == form.toolEnd;
    } else {
      BodyStartsWithKey(form, ps, endGap);
      Splits(src.input, form.keyStart, PrintBody(form, ps, endGap)[|form.keyStart|..], i + |NameText(form, call)|);
    }
  }

  lemma LeftIs(form: Format, call: Call)
    requires AllSpace(form.toolSep)
    ensures var (ps, endGap) := Left(form, call);
            if ps == [] then endGap == "" else ps[0].gap == ""
  {
    hide AllSpace;
  }

  lemma NameStands(src: Source, form: Format, i: nat, call: Call)
    requires OccursAt(src.input, (call.tool + form.toolSep) + PrintBody(form, call.params, call.endGap), i)
    requires ScopeFormat(form) && PrintableCall(src, form, call) && GoodPrint(src, form, call)
    ensures NameTag(form) != ""
    ensures var e := i + |NameOnly(form, call)|;
            e < |src.input| && NameEnd(src, form, i) == e && NameEndsAt(src, form, i, e)
  {
    hide *;
    TagsAreNoSpace(form);
    NameLacks(src, form, call);
    TagAfterName(src, form, i, call);
    var name := NameOnly(form, call);
    var e := i + |name|;
    LacksHere(src.input, name, i, NameTag(form)[0]);
    LacksHere(src.input, name, i, form.toolEnd[0]);
    if OccursAt(src.input, NameTag(form), e) {
      OccursBegins(src, NameTag(form), e);
    } else {
      OccursBegins(src, form.toolEnd, e);
    }
    NameEndIs(src, form, i, e);
    EndsAtIs(src, form, i, e);
  }

  lemma EndsAtIs(src: Source, form: Format, pos: nat, e: nat)
    requires pos <= e < |src.input| && NameTag(form) != ""
    requires forall i | pos <= i < e :: src.input[i] != NameTag(form)[0] && src.input[i] != form.toolEnd[0]
    requires Begins(src, NameTag(form), e) || (AllSpace(form.toolSep) && Begins(src, form.toolEnd, e))
    ensures NameEndsAt(src, form, pos, e)
  {
    hide NameTag; hide Begins; hide AllSpace;
  }

  lemma LeftIsGood(src: Source, form: Format, call: Call)
    requires GoodPrint(src, form, call)
    ensures GoodParams(src, form, Left(form, call).0)
  {
    hide AllSpace; hide NameTag; hide Lead;
    var ps := Left(form, call).0;
    forall k | 0 <= k < |ps| ensures GoodParam(src, form, ps[k], k == |ps| - 1) {
      assert GoodParam(src, form, call.params[k], k == |call.params| - 1);
      assert ps[k].text == call.params[k].text;
    }
  }

  /** A printed call is a good one. */
  lemma PrintedCallGood(src: Source, form: Format, i: nat, call: Call)
    requires OccursAt(src.input, (call.tool + form.toolSep) + PrintBody(form, call.params, call.endGap), i)
    requires ScopeFormat(form) && PrintableFormat(form) && PrintableCall(src, form, call)
    requires GoodPrint(src, form, call) && !Contains(src.input, Flag)
    ensures i <= |src.input| && GoodCall(src, form, i)
  {
    hide *;
    FormatStreams(form);
    OccursFits(src.input, (call.tool + form.toolSep) + PrintBody(form, call.params, call.endGap), i);
    NameStands(src, form, i, call);
    ParsesName(src, form, i, call);
    var e := NameEnd(src, form, i);
    NameShows(src, form, i, e);
    NameIs(src, form, i);
    CallNamed(src, form, call);
    NameAndLeft(form, call);
    LeftIsPrintable(src, form, call);
    LeftIsGood(src, form, call);
    var (ps, endGap) := Left(form, call);
    var p, name := NamePos(src, form, e), NameOf(src, call.tool);
    Splits(src.input, NameText(form, call), PrintBody(form, ps, endGap), i);
    BodyParts(src, form, ps, endGap);
    assert [] + Pairs(ps) == Pairs(ps);
    PrintedArgsGood(src, form, p, ps, endGap, []);
    StreamsFrom(src, form, p, name);
    GoodCallIs(src, form, i);
  }

  lemma StreamsFrom(src: Source, form: Format, pos: nat, name: string)
    requires pos <= |src.input| && StreamFormat(form) && name != "" && !Contains(src.input, Flag)
    requires GoodArgs(src, form, pos, [])
    ensures Streams(src, form, pos, name, [])
  {
    hide StreamFormat; hide Contains; hide Flag; hide GoodArgs;
  }

  // ------------------------------------------------------------ the list of calls

  ghost predicate GoodPrints(src: Source, form: Format, calls: seq<Call>) {
    forall k | 0 <= k < |calls| :: GoodPrint(src, form, calls[k])
  }

  lemma RestPrints(src: Source, form: Format, calls: seq<Call>)
    requires calls != [] && GoodPrints(src, form, calls)
    ensures GoodPrint(src, form, calls[0]) && GoodPrints(src, form, calls[1..])
  {
    hide GoodPrint;
    assert forall k | 0 <= k < |calls| - 1 :: calls[1..][k] == calls[k + 1];
  }

  lemma {:induction false} PrintedCallsGood(src: Source, form: Format, i: nat, calls: seq<Call>, endGap: string,
                                             recovery: bool)
    requires OccursAt(src.input, PrintCalls(form, calls) + (endGap + form.scopeEnd), i)
    requires ScopeFormat(form) && PrintableFormat(form) && PrintableCalls(src, form, calls)
    requires GoodPrints(src, form, calls) && !Contains(src.input, Flag)
    requires i + |PrintCalls(form, calls)| <= |src.input| && NoCallAt(src, form, i + |PrintCalls(form, calls)|)
    ensures i <= |src.input| && GoodCalls(src, form, i, recovery)
    decreases |calls|
  {
    hide *;
    var tail := endGap + form.scopeEnd;
    GoodCallsIs(src, form, i, recovery);
    if calls == [] {
      XmlRoundTrip.NoCalls(src, form, tail);
      NoneOpens(src, form, i);
    } else {
      CallsCons(src, form, calls, tail);
      RestPrints(src, form, calls);
      var first := PrintCall(form, calls[0]);
      Splits(src.input, first, PrintCalls(form, calls[1..]) + tail, i);
      FirstCallGood(src, form, i, calls[0], recovery);
      PrintedCallsGood(src, form, i + |first|, calls[1..], endGap, false);
    }
  }

  /** The first printed call opens, is a good one, and is followed by the rest. */
  lemma FirstCallGood(src: Source, form: Format, i: nat, call: Call, recovery: bool)
    requires OccursAt(src.input, PrintCall(form, call), i)
    requires ScopeFormat(form) && PrintableFormat(form) && PrintableCall(src, form, call)
    requires GoodPrint(src, form, call) && !Contains(src.input, Flag)
    ensures var p := i + |call.gap| + |form.toolStart|;
            && i <= p <= |src.input| && Search(src, i, form.toolStart) == Some(Match(call.gap, i + |call.gap|, p))
            && GoodCall(src, form, p)
            && ParseCall(src, form, p, recovery) ==
               CallParsed(XmlRoundTrip.Result(src, call), i + |PrintCall(form, call)|)
  {
    hide *;
    var text := (call.tool + form.toolSep) + PrintBody(form, call.params, call.endGap);
    var p := i + |call.gap| + |form.toolStart|;
    CallText(src, form, call);
    FoundBefore(src, i, call.gap, form.toolStart, text);
    PrintedCallGood(src, form, p, call);
    ParsesCall(src, form, p, call, recovery);
  }

  lemma NoneOpens(src: Source, form: Format, pos: nat)
    requires pos <= |src.input| && NoCallAt(src, form, pos)
    ensures !Opens(Search(src, pos, form.toolStart))
  {
    hide FindLiteral; hide AllSpace;
  }

  // ------------------------------------------------------------ the whole scope

  /** The printed form of a list of calls with good values, and nothing else, in a finished text. */
  ghost predicate PrintedWell(src: Source, form: Format, calls: seq<Call>, endGap: string) {
    && src.input == PrintScope(form, calls, endGap)
    && PrintableFormat(form) && PrintableCalls(src, form, Absorbed(form, calls))
    && Gap(AbsorbedEnd(form, calls, endGap), form.scopeEnd)
    && |form.scopeStart| + |PrintCalls(form, calls)| <= |src.input|
    && NoCallAt(src, form, if calls == [] && AllSpace(form.scopeStart) then 0
                           else |form.scopeStart| + |PrintCalls(form, calls)|)
    && GoodPrints(src, form, Absorbed(form, calls)) && !Contains(src.input, Flag)
  }

  lemma PrintedScopeGood(src: Source, form: Format, calls: seq<Call>, endGap: string)
    requires ScopeFormat(form) && PrintedWell(src, form, calls, endGap)
    ensures GoodScope(src, form, 0)
  {
    hide *;
    PrintedMeans(src, form, calls, endGap);
    GoodScopeMeans(src, form, 0);
    ScopeText(form, calls, endGap);
    var body := PrintCalls(form, calls) + (endGap + form.scopeEnd);
    if AllSpace(form.scopeStart) {
      AbsorbedText(src, form, calls, endGap);
      AbsorbedLength(src, form, calls);
      SpaceScope(src, form);
      PrintedCallsGood(src, form, 0, Absorbed(form, calls), AbsorbedEnd(form, calls, endGap), true);
    } else {
      NothingAbsorbed(form, calls, endGap);
      Splits(src.input, form.scopeStart, body, 0);
      FoundHere(src, 0, form.scopeStart);
      TagScope(src, form);
      PrintedCallsGood(src, form, |form.scopeStart|, calls, endGap, true);
    }
  }

  lemma PrintedMeans(src: Source, form: Format, calls: seq<Call>, endGap: string)
    requires PrintedWell(src, form, calls, endGap)
    ensures OccursAt(src.input, PrintScope(form, calls, endGap), 0) && !Contains(src.input, Flag)
    ensures PrintableFormat(form) && PrintableCalls(src, form, Absorbed(form, calls))
    ensures Gap(AbsorbedEnd(form, calls, endGap), form.scopeEnd)
    ensures |form.scopeStart| + |PrintCalls(form, calls)| <= |src.input|
    ensures NoCallAt(src, form, if calls == [] && AllSpace(form.scopeStart) then 0
                                else |form.scopeStart| + |PrintCalls(form, calls)|)
    ensures GoodPrints(src, form, Absorbed(form, calls))
  {
    hide PrintableFormat; hide PrintableCalls; hide Gap; hide NoCallAt; hide GoodPrints; hide PrintScope;
    hide Contains; hide AllSpace; hide Absorbed; hide AbsorbedEnd; hide PrintCalls;
    assert src.input[0..|src.input|] == src.input;
  }

  lemma SpaceScope(src: Source, form: Format)
    requires AllSpace(form.scopeStart)
    ensures CallsPos(src, form, 0) == Some(0)
  {
    hide AllSpace;
  }

  lemma TagScope(src: Source, form: Format)
    requires !AllSpace(form.scopeStart) && |form.scopeStart| <= |src.input|
    requires FindLiteral(src.input, src.partial, 0, form.scopeStart) == Some(Match("", 0, |form.scopeStart|))
    ensures CallsPos(src, form, 0) == Some(|form.scopeStart|)
  {
    hide FindLiteral; hide IsSpace;
  }

  /** End to end: however the printed form of a list of calls is cut into chunks, the server never fails, and
      the client ends with exactly these calls, in order. */
  lemma ClientGetsPrintedCalls(src: Source, form: Format, calls: seq<Call>, endGap: string, chunks: seq<string>,
                               gen: nat -> string)
    requires SharpScope(form) && PrintedWell(src, form, calls, endGap) && Utf8.WellFormed(src.input)
    requires Total("", chunks, "") <= src.input && WholeChunks(form, chunks)
    ensures var r := Run(Start, EmptyMsg, CallParses(src, form, "", chunks), gen);
            && r.Some? && r.value.1 == r.value.0.msg
            && SameButIds(r.value.1, ChatMsg("", "", Parsed(src, calls)))
  {
    hide *;
    SharpMeans(form);
    PrintedScopeGood(src, form, calls, endGap);
    PrintedMeans(src, form, calls, endGap);
    ParseUndoesPrint(src, form, 0, calls, endGap, []);
    assert [] + Parsed(src, calls) == Parsed(src, calls);
    StreamedIs(src, form);
    ClientGetsCalls(src, form, chunks, gen);
  }

  lemma StreamedIs(src: Source, form: Format)
    requires SharpScope(form) && ScopeFormat(form) && Utf8.WellFormed(src.input) && GoodScope(src, form, 0)
    requires TryConsume(src, form, 0, []).ending.ReturnTrue?
    ensures Streamed(src, form)
  {
    hide SharpScope; hide ScopeFormat; hide Utf8.WellFormed; hide GoodScope; hide TryConsume;
  }

  // ------------------------------------------------------------ formats in use

  lemma SharpParts(form: Format)
    requires form.lastValEnd.None? && form.lastToolEnd.None? && form.rawArgval != Some(false)
    requires Sharp(form.toolStart) && Sharp(form.keyStart) && Sharp(form.valEnd) && Sharp(form.toolEnd)
    requires Sharp(form.keyValSep) && (form.keyValSep2.Some? ==> Sharp(form.keyValSep2.value))
    requires form.toolSep == "" || Sharp(form.toolSep)
    requires form.scopeStart == "" || Sharp(form.scopeStart)
    requires form.scopeEnd == "" || Sharp(form.scopeEnd)
    requires |form.keyStart| > 1 && |form.toolEnd| > 1 && form.keyStart[0] == form.toolEnd[0]
    requires form.keyStart[1] != form.toolEnd[1]
    ensures SharpScope(form)
  {
    assert form.toolEnd[0..] == form.toolEnd;
    assert form.keyStart[0] !in form.toolEnd[1..] by {
      forall i | 0 <= i < |form.toolEnd| - 1 ensures form.toolEnd[1..][i] != form.keyStart[0] {
        assert form.toolEnd[1..][i] == form.toolEnd[i + 1];
      }
    }
    hide Sharp;
  }

  lemma CommonTags()
    ensures Sharp(">")
    ensures Sharp("</parameter>")
    ensures Sharp("</function>")
    ensures Sharp("<function=")
    ensures Sharp("<parameter=")
    ensures Sharp("<tool_call>")
    ensures Sharp("</tool_call>")
  {}

  lemma QwenSharp()
    ensures SharpScope(QWEN3_CODER)
  {
    CommonTags();
    hide Sharp; hide SharpScope;
    SharpParts(QWEN3_CODER);
  }

  lemma MinimaxTags()
    ensures Sharp("<minimax:tool_call>")
    ensures Sharp("<invoke name=\"")
    ensures Sharp("\">")
    ensures Sharp("<parameter name=\"")
    ensures Sharp("</invoke>")
    ensures Sharp("</minimax:tool_call>")
  {}

  lemma MinimaxSharp()
    ensures SharpScope(MINIMAX_M2)
  {
    MinimaxTags();
    CommonTags();
    hide Sharp; hide SharpScope;
    SharpParts(MINIMAX_M2);
  }

  lemma GlmTags()
    ensures Sharp("<arg_key>")
    ensures Sharp("</arg_key>")
    ensures Sharp("<arg_value>")
    ensures Sharp("</arg_value>")
  {}

  lemma GlmSharp()
    ensures SharpScope(GLM_4_5)
  {
    GlmTags();
    CommonTags();
    hide Sharp; hide SharpScope;
    SharpParts(GLM_4_5);
  }

  lemma SeedTags()
    ensures Sharp("<seed:tool_call>")
    ensures Sharp("</seed:tool_call>")
  {}

  lemma SeedSharp()
    ensures SharpScope(SEED_OSS)
  {
    SeedTags();
    CommonTags();
    hide Sharp; hide SharpScope;
    SharpParts(SEED_OSS);
  }

  lemma KimiTags()
    ensures Sharp("<|tool_calls_section_begin|>")
    ensures Sharp("<|tool_calls_section_end|>")
    ensures Sharp("<|tool_call_begin|>")
    ensures Sharp("<|tool_call_argument_begin|>{")
    ensures Sharp("}<|tool_call_end|>")
    ensures Sharp("\"") && Sharp("\":") && Sharp(",")
  {}

  /** The parts of a format whose values must be JSON. */
  lemma JsonSharpParts(form: Format)
    requires form.lastValEnd == Some("") && form.lastToolEnd.None? && form.rawArgval == Some(false)
    requires Sharp(form.toolStart) && Sharp(form.toolSep) && Sharp(form.keyStart) && Sharp(form.keyValSep)
    requires Sharp(form.valEnd) && Sharp(form.toolEnd) && form.keyValSep2.None?
    requires Sharp(form.scopeStart) && Sharp(form.scopeEnd)
    requires form.valEnd[0] == ',' && form.toolEnd[0] == '}' && form.keyStart[0] !in form.toolEnd
    ensures SharpScope(form)
  {
    assert form.toolEnd[0..] == form.toolEnd;
    hide Sharp;
  }

  lemma KimiSharp()
    ensures SharpScope(KIMI_K2)
  {
    KimiTags();
    KimiKey();
    hide Sharp; hide SharpScope;
    JsonSharpParts(KIMI_K2);
  }

  lemma KimiKey()
    ensures '"' !in "}<|tool_call_end|>"
  {}

  /** The delimiters of every format in use that writes values as text, and those of Kimi-K2, meet the hypotheses. */
  lemma FormatsSharp(form: Format)
    requires form in {QWEN3_CODER, MINIMAX_M2, GLM_4_5, SEED_OSS, KIMI_K2}
    ensures SharpScope(form)
  {
    hide SharpScope;
    QwenSharp();
    MinimaxSharp();
    GlmSharp();
    SeedSharp();
    KimiSharp();
  }
}
