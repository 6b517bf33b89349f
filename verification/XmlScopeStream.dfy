/** While a list of calls streams in, the calls that are shown only grow. */
module XmlScopeStream {
  import opened Wrappers
  import opened Text
  import opened ChatTypes
  import opened LiteralSearch
  import opened Json
  import opened XmlSpec
  import opened XmlGrowth
  import opened XmlShown
  import opened XmlValues
  import opened XmlJsonValues
  import opened XmlStream
  import opened XmlCallStream
  import opened ServerStream
  import Utf8

  // ------------------------------------------------------------ a list of calls

  /** The calls of a parse, as the server compares them. */
  ghost predicate CallsExtend(a: seq<ToolCall>, b: seq<ToolCall>) {
    ParseExtends(ChatMsg("", "", a), ChatMsg("", "", b))
  }

  predicate HaveNames(calls: seq<ToolCall>) {
    forall i | 0 <= i < |calls| :: calls[i].name != ""
  }

  /** The attempt is undone, with the calls it has shown. */
  predicate TakesBack(out: Outcome) {
    out.ending.ReturnFalse? || out.ending.SyntaxError?
  }

  /** A list of plain calls, as far as it has arrived. */
  ghost predicate GoodCalls(src: Source, form: Format, pos: nat, recovery: bool)
    requires pos <= |src.input| && ScopeFormat(form)
    decreases |src.input| - pos
  {
    var t := Search(src, pos, form.toolStart);
    Opens(t) && Whole(t, form.toolStart) ==>
      var r := ParseCall(src, form, t.value.end, recovery);
      && GoodCall(src, form, t.value.end)
      && (r.CallParsed? && r.pos > pos ==> GoodCalls(src, form, r.pos, false))
  }

  lemma CallsLoop(src: Source, form: Format, start: nat, pos: nat, calls: seq<ToolCall>, recovery: bool)
    requires pos <= |src.input|
    ensures var r, t := ParseCalls(src, form, start, pos, calls, recovery), Search(src, pos, form.toolStart);
            if !Opens(t) then r.calls == calls
            else
              var step := ParseCall(src, form, t.value.end, recovery);
              if step.CallThrown? then r == Outcome(step.ending, 0, calls + step.extra)
              else if step.CallRefused? then TakesBack(r)
              else step.pos > pos && r == ParseCalls(src, form, start, step.pos, calls + [step.call], false)
  {
    hide FindLiteral; hide ParseCall; hide AllSpace; hide ParseCalls; hide ParseScopeEnd;
    CallsSteps(src, form, start, pos, calls, recovery);
  }

  lemma GoodLoop(src: Source, form: Format, pos: nat, recovery: bool)
    requires pos <= |src.input| && ScopeFormat(form) && GoodCalls(src, form, pos, recovery)
    ensures var t := Search(src, pos, form.toolStart);
            Opens(t) && Whole(t, form.toolStart) ==>
              var r := ParseCall(src, form, t.value.end, recovery);
              && t.value.end > pos && GoodCall(src, form, t.value.end)
              && (r.CallParsed? ==> r.pos > pos && GoodCalls(src, form, r.pos, false))
  {
    hide Search; hide ParseCall; hide GoodCall; hide ScopeFormat; hide AllSpace;
    assert form.toolStart != "";
  }

  lemma NamedOne(calls: seq<ToolCall>, r: CallStep, name: string)
    requires HaveNames(calls) && name != "" && Shows(r, name)
    ensures r.CallThrown? ==> HaveNames(calls + r.extra)
    ensures r.CallParsed? ==> HaveNames(calls + [r.call])
  {}

  /** A call whose opening has not arrived whole shows nothing. */
  lemma OpeningCall(src: Source, form: Format, pos: nat, recovery: bool)
    requires pos <= |src.input| && ScopeFormat(form)
    requires var t := Search(src, pos, form.toolStart); Opens(t) && !Whole(t, form.toolStart)
    ensures ParseCall(src, form, Search(src, pos, form.toolStart).value.end, recovery) == CallThrown(PartialError, [])
  {
    hide ParseCall; hide FindName; hide Sharp; hide AgreesAt; hide AllSpace; hide FindNameEnd;
    ConsumesPreludeAndMatch(src.input, src.partial, pos, form.toolStart);
    var n := |src.input|;
    assert Search(src, pos, form.toolStart).value.end == n;
    CallIs(src, form, n, recovery);
    NameShows(src, form, n, n);
  }

  lemma {:induction false} CallsAreNamed(src: Source, form: Format, start: nat, pos: nat, calls: seq<ToolCall>,
                                         recovery: bool)
    requires pos <= |src.input| && ScopeFormat(form) && GoodCalls(src, form, pos, recovery) && HaveNames(calls)
    ensures var r := ParseCalls(src, form, start, pos, calls, recovery); TakesBack(r) || HaveNames(r.calls)
    decreases |src.input| - pos
  {
    hide *;
    CallsLoop(src, form, start, pos, calls, recovery);
    GoodLoop(src, form, pos, recovery);
    var t := Search(src, pos, form.toolStart);
    if Opens(t) {
      OpensSome(t);
      var p := t.value.end;
      var step := ParseCall(src, form, p, recovery);
      assert calls + [] == calls;
      if !Whole(t, form.toolStart) {
        OpeningCall(src, form, pos, recovery);
      } else {
        CallShows(src, form, p, recovery);
        BackIs(step, start, calls);
        if !Retracts(step) && step != CallThrown(PartialError, []) {
          NamedOne(calls, step, CallName(src, form, p));
          ShownSteps(step, CallName(src, form, p));
          if step.CallParsed? {
            CallsAreNamed(src, form, start, step.pos, calls + [step.call], false);
          }
        }
      }
    }
  }

  lemma OpensSome(t: Option<Match>)
    requires Opens(t)
    ensures t.Some?
  {}

  lemma BackIs(step: CallStep, start: nat, calls: seq<ToolCall>)
    ensures Retracts(step) && step.CallThrown? ==> TakesBack(Outcome(step.ending, 0, calls + step.extra))
    ensures Retracts(step) ==> !step.CallParsed?
  {}

  lemma ShownSteps(step: CallStep, name: string)
    requires Shows(step, name)
    ensures !step.CallRefused? && (step.CallThrown? ==> step.ending.PartialError?)
  {}

  lemma ExtendByNames(a: seq<ToolCall>, b: seq<ToolCall>)
    requires a <= b && HaveNames(b)
    ensures CallsExtend(a, b)
  {
    assert b == a + b[|a|..];
  }

  /** The last call shown may go on; what follows it in the later parse has names. */
  lemma ExtendLast(calls: seq<ToolCall>, a: CallStep, b: CallStep, name: string, later: seq<ToolCall>)
    requires a.CallThrown? && Shows(a, name) && Shows(b, name) && ShownText(a) <= ShownText(b)
    requires b.CallThrown? ==> later == calls + b.extra
    requires b.CallParsed? ==> calls + [b.call] <= later && HaveNames(later)
    ensures CallsExtend(calls + a.extra, later)
  {
    var last := if b.CallThrown? then b.extra[0] else b.call;
    assert calls + [last] <= later by { if b.CallThrown? { assert b.extra == [last]; } }
    assert later[..|calls| + 1] == calls + [last];
    assert later[|calls|] == last;
    forall i | 0 <= i < |calls| ensures later[i] == calls[i] {}
  }

  lemma KeepsCalls(src: Source, form: Format, start: nat, pos: nat, calls: seq<ToolCall>, recovery: bool)
    requires pos <= |src.input|
    ensures calls <= ParseCalls(src, form, start, pos, calls, recovery).calls
  {
    hide FindLiteral; hide ParseCalls;
  }

  /** A finished call ends with the end of the tool. */
  lemma {:induction false} ParsedEnds(src: Source, form: Format, pos: nat, name: string, args: Members, recovery: bool)
    requires pos <= |src.input| && StreamFormat(form) && name != ""
    ensures var r := AfterName(src, form, pos, name, args, recovery);
            r.CallParsed? ==> pos < r.pos <= |src.input| && src.input[r.pos - 1] as int < 0x80
    decreases |src.input| - pos
  {
    hide Search; hide ParseKeyAndValue; hide AfterName; hide AllSpace; hide ParseToolEnd; hide Put; hide AgreesAt;
    hide NamedCall; hide OpenDump; hide Dump; hide Sharp;
    AfterNameSteps(src, form, pos, name, args, recovery);
    ToolEndShows(src, form, pos, name, args, recovery);
    EndsWithAscii(src, pos, form.toolEnd);
    KeyIsSome(form);
    var m := Search(src, pos, form.keyStart);
    if Opens(m) && Whole(m, form.keyStart) {
      var step := ParseKeyAndValue(src, form, m.value.end, name, args);
      if step.Arg? { ParsedEnds(src, form, step.pos, name, Put(args, step.key, step.value), false); }
    }
  }

  lemma EndsWithAscii(src: Source, pos: nat, tag: string)
    requires pos <= |src.input| && Sharp(tag)
    ensures var t := Search(src, pos, tag);
            Whole(t, tag) ==> pos < t.value.end && src.input[t.value.end - 1] as int < 0x80
  {
    hide FindLiteral;
    if Whole(Search(src, pos, tag), tag) {
      WholeOccurs(src, pos, tag);
      var r := Search(src, pos, tag).value;
      assert src.input[r.end - 1] == src.input[r.begin..r.end][|tag| - 1];
    }
  }

  /** After a finished plain call a character starts. */
  lemma ReadsNext(src: Source, form: Format, pos: nat, recovery: bool, w: string)
    requires Reads(src, w, pos) && ScopeFormat(form) && GoodCall(src, form, pos)
    requires ParseCall(src, form, pos, recovery).CallParsed?
    ensures var r := ParseCall(src, form, pos, recovery); r.pos <= |src.input| && Reads(src, w, r.pos)
  {
    hide *;
    ReadsMeans(src, w, pos);
    GoodCallMeans(src, form, pos);
    var e, name := NameEnd(src, form, pos), CallName(src, form, pos);
    CallIs(src, form, pos, recovery);
    NameShows(src, form, pos, e);
    var p := NamePos(src, form, e);
    StreamsMeans(src, form, p, name, []);
    ParsedEnds(src, form, p, name, [], recovery);
    var r := ParseCall(src, form, pos, recovery);
    AfterAscii(w, pos, r.pos - 1);
    ReadsMeans(src, w, r.pos);
  }

  lemma ReadsMeans(src: Source, w: string, pos: nat)
    ensures Reads(src, w, pos) ==> pos <= |src.input| && src.input <= w
    ensures Reads(src, w, pos) <==> src.input <= w && Utf8.WellFormed(w) && pos <= |src.input| && AtChar(w, pos)
  {
    hide Utf8.WellFormed; hide AtChar;
  }

  /** While a list of plain calls grows, the calls that are shown only grow, unless they are taken back. */
  lemma {:induction false} CallsStream(src: Source, src': Source, form: Format, start: nat, pos: nat,
                                       calls: seq<ToolCall>, recovery: bool, w: string)
    requires Grows(src, src') && Reads(src', w, pos) && pos <= |src.input| && ScopeFormat(form)
    requires GoodCalls(src', form, pos, recovery) && HaveNames(calls) && EndsAtChar(src, form)
    ensures var a := ParseCalls(src, form, start, pos, calls, recovery);
            var b := ParseCalls(src', form, start, pos, calls, recovery);
            TakesBack(a) || TakesBack(b) || CallsExtend(a.calls, b.calls)
    decreases |src.input| - pos
  {
    hide *;
    GrowsMeans(src, src');
    CallsLoop(src, form, start, pos, calls, recovery);
    CallsAreNamed(src', form, start, pos, calls, recovery);
    KeepsCalls(src', form, start, pos, calls, recovery);
    var b := ParseCalls(src', form, start, pos, calls, recovery);
    var t := Search(src, pos, form.toolStart);
    assert calls + [] == calls;
    if !TakesBack(b) {
      ExtendByNames(calls, b.calls);
      if Opens(t) {
        OpensSome(t);
        if !Whole(t, form.toolStart) {
          OpeningCall(src, form, pos, recovery);
        } else {
          NextCallStreams(src, src', form, start, pos, calls, recovery, w);
        }
      }
    }
  }

  lemma StartStays(src: Source, src': Source, form: Format, pos: nat, w: string)
    requires Grows(src, src') && Reads(src', w, pos) && pos <= |src.input| && ScopeFormat(form)
    requires Whole(Search(src, pos, form.toolStart), form.toolStart)
    ensures var t := Search(src, pos, form.toolStart);
            t.Some? && t.value.end <= |src.input| &&
            Search(src', pos, form.toolStart) == t && Reads(src', w, t.value.end)
  {
    hide Search; hide Reads; hide Sharp; hide AgreesAt; hide AllSpace;
    BoundGrows(src, src', pos, form.toolStart);
    AfterWhole(src', w, pos, form.toolStart);
  }

  lemma NextCallStreams(src: Source, src': Source, form: Format, start: nat, pos: nat, calls: seq<ToolCall>,
                        recovery: bool, w: string)
    requires Grows(src, src') && Reads(src', w, pos) && pos <= |src.input| && ScopeFormat(form)
    requires GoodCalls(src', form, pos, recovery) && HaveNames(calls) && EndsAtChar(src, form)
    requires var t := Search(src, pos, form.toolStart); Opens(t) && Whole(t, form.toolStart)
    ensures var a := ParseCalls(src, form, start, pos, calls, recovery);
            var b := ParseCalls(src', form, start, pos, calls, recovery);
            TakesBack(a) || TakesBack(b) || CallsExtend(a.calls, b.calls)
    decreases |src.input| - pos, 0
  {
    hide *;
    GrowsMeans(src, src');
    CallsLoop(src, form, start, pos, calls, recovery);
    CallsLoop(src', form, start, pos, calls, recovery);
    CallsAreNamed(src', form, start, pos, calls, recovery);
    KeepsCalls(src', form, start, pos, calls, recovery);
    var t := Search(src, pos, form.toolStart);
    StartStays(src, src', form, pos, w);
    GoodLoop(src', form, pos, recovery);
    var p := t.value.end;
    OneCallStreams(src, src', form, p, recovery, w);
    var a1, b1, name := ParseCall(src, form, p, recovery), ParseCall(src', form, p, recovery), CallName(src', form, p);
    var b := ParseCalls(src', form, start, pos, calls, recovery);
    GrowsIs(a1, b1, name);
    BackIs(a1, start, calls);
    BackIs(b1, start, calls);
    assert calls + [] == calls;
    if !TakesBack(b) && !Retracts(a1) {
      if a1 == CallThrown(PartialError, []) {
        ExtendByNames(calls, b.calls);
      } else {
        ShownSteps(a1, name);
        if a1.CallParsed? {
          NamedOne(calls, a1, name);
          ReadsNext(src', form, p, recovery, w);
          CallsStream(src, src', form, start, a1.pos, calls + [a1.call], false, w);
        } else {
          MoreMeans(b1, name, ShownText(a1));
          if !Retracts(b1) {
            if b1.CallParsed? { KeepsCalls(src', form, start, b1.pos, calls + [b1.call], false); }
            ExtendLast(calls, a1, b1, name, b.calls);
          }
        }
      }
    }
  }

  // ------------------------------------------------------------ what has arrived so far

  lemma {:induction false} NameEndShorter(src: Source, src': Source, form: Format, pos: nat)
    requires Grows(src, src') && pos <= |src.input| <= |src'.input| && NameTag(form) != ""
    ensures NameEnd(src, form, pos) ==
            if NameEnd(src', form, pos) < |src.input| then NameEnd(src', form, pos) else |src.input|
    decreases |src.input| - pos
  {
    hide NameTag;
    if pos < |src.input| {
      assert src.input[pos] == src'.input[pos];
      if src.input[pos] != NameTag(form)[0] && src.input[pos] != form.toolEnd[0] {
        NameEndShorter(src, src', form, pos + 1);
      }
    }
  }

  lemma StreamsAtEnd(src: Source, form: Format, name: string)
    requires StreamFormat(form) && name != "" && !Contains(src.input, Flag)
    ensures Streams(src, form, |src.input|, name, [])
  {
    hide Contains; hide Flag; hide Search; hide Sharp; hide AgreesAt;
    NothingAtEnd(src, form.keyStart);
  }

  /** What has arrived of a plain call is plain. */
  lemma GoodCallShorter(src: Source, src': Source, form: Format, pos: nat, w: string)
    requires Grows(src, src') && Reads(src', w, pos) && pos <= |src.input| && ScopeFormat(form)
    requires GoodCall(src', form, pos) && EndsAtChar(src, form)
    ensures GoodCall(src, form, pos)
  {
    hide *;
    GrowsMeans(src, src');
    GoodCallMeans(src', form, pos);
    var e' := NameEnd(src', form, pos);
    NameShorter(src, src', form, pos, e');
    NameEndShorter(src, src', form, pos);
    var e := NameEnd(src, form, pos);
    if e < |src.input| {
      var p, p', name := NamePos(src, form, e), NamePos(src', form, e), CallName(src', form, pos);
      PosGrows(src, src', form, e);
      SameName(src, src', pos, e);
      NameIs(src, form, pos);
      StreamsMeans(src', form, p', name, []);
      NoFlagBefore(src, src');
      if p == |src.input| {
        StreamsAtEnd(src, form, name);
      } else {
        ReadsArgs(src', form, pos, e, w);
        StreamsShorter(src, src', form, p, name, [], w);
      }
    }
    GoodCallIs(src, form, pos);
  }

  lemma NameIs(src: Source, form: Format, pos: nat)
    requires pos <= |src.input| && NameTag(form) != ""
    ensures CallName(src, form, pos) == ToolName(src, src.input[pos..NameEnd(src, form, pos)])
  {
    hide ToolName; hide NameTag;
  }

  lemma GoodCallIs(src: Source, form: Format, pos: nat)
    requires pos <= |src.input| && ScopeFormat(form) && NameTag(form) != ""
    requires NameEndsAt(src, form, pos, NameEnd(src, form, pos))
    requires var e := NameEnd(src, form, pos);
             e < |src.input| ==> Streams(src, form, NamePos(src, form, e), CallName(src, form, pos), [])
    ensures GoodCall(src, form, pos)
  {
    hide NameEndsAt; hide NameTag; hide ScopeFormat; hide CallName; hide NamePos; hide Streams; hide NameEnd;
  }

  lemma {:induction false} GoodCallsShorter(src: Source, src': Source, form: Format, pos: nat, recovery: bool,
                                             w: string)
    requires Grows(src, src') && Reads(src', w, pos) && pos <= |src.input| && ScopeFormat(form)
    requires GoodCalls(src', form, pos, recovery) && EndsAtChar(src, form)
    ensures GoodCalls(src, form, pos, recovery)
    decreases |src.input| - pos
  {
    hide *;
    GrowsMeans(src, src');
    GoodCallsIs(src, form, pos, recovery);
    var t := Search(src, pos, form.toolStart);
    if Opens(t) && Whole(t, form.toolStart) {
      StartStays(src, src', form, pos, w);
      GoodLoop(src', form, pos, recovery);
      var p := t.value.end;
      GoodCallShorter(src, src', form, p, w);
      var a, b := ParseCall(src, form, p, recovery), ParseCall(src', form, p, recovery);
      if a.CallParsed? {
        OneCallStreams(src, src', form, p, recovery, w);
        GrowsIs(a, b, CallName(src', form, p));
        ParsedIs(a);
        ReadsNext(src', form, p, recovery, w);
        GoodCallsShorter(src, src', form, a.pos, false, w);
      }
    }
  }

  lemma ParsedIs(a: CallStep)
    requires a.CallParsed?
    ensures !Retracts(a)
  {}

  lemma GoodCallsIs(src: Source, form: Format, pos: nat, recovery: bool)
    requires pos <= |src.input| && ScopeFormat(form)
    ensures var t := Search(src, pos, form.toolStart);
            Opens(t) ==> t.Some?
    ensures GoodCalls(src, form, pos, recovery) <==>
            var t := Search(src, pos, form.toolStart);
            Opens(t) && Whole(t, form.toolStart) ==>
              var r := ParseCall(src, form, t.value.end, recovery);
              && GoodCall(src, form, t.value.end)
              && (r.CallParsed? && r.pos > pos ==> GoodCalls(src, form, r.pos, false))
  {
    hide Search; hide AllSpace; hide Whole; hide ParseCall; hide GoodCall; hide ScopeFormat;
  }

  // ------------------------------------------------------------ what is taken back is never finished

  /** A character before the bound of a delimiter that is no space. */
  predicate Blocked(src: Source, pos: nat, tag: string) {
    && pos <= |src.input|
    && exists x :: pos <= x < Bound(src, pos, tag) && !IsSpace(src.input[x])
  }

  lemma BlockedStays(src: Source, src': Source, pos: nat, tag: string)
    requires Grows(src, src') && Sharp(tag) && Blocked(src, pos, tag)
    ensures Blocked(src', pos, tag) && !Opens(Search(src', pos, tag))
  {
    BoundGrows(src, src', pos, tag);
    hide Sharp; hide FindLiteral;
    var x :| pos <= x < Bound(src, pos, tag) && !IsSpace(src.input[x]);
    assert src.input[x] == src'.input[x];
    var r' := Search(src', pos, tag);
    if r'.Some? {
      assert r'.value.prelude[x - pos] == src'.input[x];
    }
  }

  /** What does not open a delimiter, before a character that is no space, is blocked. */
  lemma NotOpening(src: Source, pos: nat, tag: string, x: nat)
    requires pos <= x < |src.input| && !IsSpace(src.input[x]) && !Opens(Search(src, pos, tag))
    ensures Blocked(src, pos, tag)
  {
    hide FindLiteral; hide IsSpace;
    var r := Search(src, pos, tag);
    if r.Some? {
      var k :| 0 <= k < |r.value.prelude| && !IsSpace(r.value.prelude[k]);
      assert src.input[pos + k] == r.value.prelude[k];
    }
  }

  lemma NonSpaceIn(src: Source, pos: nat, tag: string) returns (x: nat)
    requires pos <= |src.input| && Search(src, pos, tag).Some? && !Opens(Search(src, pos, tag))
    ensures pos <= x < Search(src, pos, tag).value.begin && !IsSpace(src.input[x])
  {
    hide FindLiteral; hide IsSpace;
    var r := Search(src, pos, tag).value;
    var k :| 0 <= k < |r.prelude| && !IsSpace(r.prelude[k]);
    assert src.input[pos + k] == r.prelude[k];
    x := pos + k;
  }

  lemma MidStaysBroken(src: Source, src': Source, form: Format, pos: nat)
    requires Grows(src, src') && pos <= |src.input| <= |src'.input| && StreamFormat(form) && MidBroken(src, form, pos)
    ensures MidBroken(src', form, pos) || !PairDone(src', form, pos)
  {
    hide FindLiteral; hide Sharp; hide AgreesAt; hide Finished; hide IsSpace;
    var tag := form.keyValSep2.value;
    var x := NonSpaceIn(src, pos, tag);
    NotOpening(src, pos, tag, x);
    BlockedStays(src, src', pos, tag);
  }

  /** A call that is refused is never finished. */
  lemma {:induction false} RefusedStays(src: Source, src': Source, form: Format, pos: nat, name: string, args: Members,
                                        recovery: bool, recovery': bool, w: string)
    requires Grows(src, src') && Reads(src', w, pos) && pos <= |src.input| && Streams(src', form, pos, name, args)
    requires Retracts(AfterName(src, form, pos, name, args, recovery)) && EndsAtChar(src, form)
    ensures !AfterName(src', form, pos, name, args, recovery').CallParsed?
    decreases |src.input| - pos
  {
    hide *;
    GrowsMeans(src, src');
    StreamsShorter(src, src', form, pos, name, args, w);
    StreamsMeans(src', form, pos, name, args);
    if !KeyOpens(src, form, pos) {
      RefusedEnd(src, src', form, pos, name, args, recovery, recovery');
    } else {
      KeyStays(src, src', form, pos, w);
      PairStep(src, form, pos, name, args, recovery);
      PairIs(src, form, pos, name, args);
      PairStep(src', form, pos, name, args, recovery');
      PairIs(src', form, pos, name, args);
      FreshKey(src, form, pos, name, args);
      FreshKey(src', form, pos, name, args);
      var p := KeyPos(src, form, pos);
      var k := Search(src, p, form.keyValSep);
      if !Whole(k, form.keyValSep) {
        PartialIsKept(name, DropQuote(KeyText(args, SeenText(src, p, form.keyValSep))));
      } else {
        WholeIs(k, form.keyValSep);
        SepStays(src, src', form, p, w);
        var key, q := k.value.prelude, k.value.end;
        if MidBroken(src, form, q) {
          MidStaysBroken(src, src', form, q);
        } else if PairDone(src, form, q) {
          PairGrows(src, src', form, q, w);
          MidStays(src, src', form, q);
          RefusedStays(src, src', form, PairEnd(src, form, q), name, args + [(key, PairValue(src, form, q))],
                       false, false, w);
        } else {
          PartialIsKept(name, ShownArg(args, key, PairBegun(src, form, q)));
        }
      }
    }
  }

  lemma PartialIsKept(name: string, text: string)
    ensures !Retracts(CallThrown(PartialError, [ToolCall(name, text, "")]))
  {}

  lemma RefusedEnd(src: Source, src': Source, form: Format, pos: nat, name: string, args: Members,
                   recovery: bool, recovery': bool)
    requires Grows(src, src') && pos <= |src.input| <= |src'.input| && StreamFormat(form) && name != ""
    requires !KeyOpens(src, form, pos) && Retracts(AfterName(src, form, pos, name, args, recovery))
    ensures !AfterName(src', form, pos, name, args, recovery').CallParsed?
  {
    hide *;
    FormatMeans(form);
    AfterNameSteps(src, form, pos, name, args, recovery);
    ToolEndShows(src, form, pos, name, args, recovery);
    NamedIs(name, OpenDump(args));
    PartialIsKept(name, OpenDump(args));
    KeyOpensIs(src, form, pos);
    WholeIs(Search(src, pos, form.toolEnd), form.toolEnd);
    BackIs(AfterName(src, form, pos, name, args, recovery), 0, []);
    var x := NonSpaceIn(src, pos, form.toolEnd);
    NotOpening(src, pos, form.toolEnd, x);
    NotOpening(src, pos, form.keyStart, x);
    BlockedStays(src, src', pos, form.toolEnd);
    BlockedStays(src, src', pos, form.keyStart);
    AfterNameSteps(src', form, pos, name, args, recovery');
    ToolEndShows(src', form, pos, name, args, recovery');
    WholeIs(Search(src', pos, form.toolEnd), form.toolEnd);
  }

  lemma RefusedCall(src: Source, src': Source, form: Format, pos: nat, recovery: bool, w: string)
    requires Grows(src, src') && Reads(src', w, pos) && pos <= |src.input| && ScopeFormat(form)
    requires GoodCall(src', form, pos) && Retracts(ParseCall(src, form, pos, recovery)) && EndsAtChar(src, form)
    ensures !ParseCall(src', form, pos, recovery).CallParsed?
  {
    hide *;
    GrowsMeans(src, src');
    GoodCallMeans(src', form, pos);
    var e := NameEnd(src', form, pos);
    NameShorter(src, src', form, pos, e);
    CallIs(src, form, pos, recovery);
    CallIs(src', form, pos, recovery);
    NameShows(src', form, pos, e);
    if e < |src.input| {
      NameShows(src, form, pos, e);
      SameName(src, src', pos, e);
      var p, name := NamePos(src, form, e), CallName(src', form, pos);
      PosGrows(src, src', form, e);
      FormatStreams(form);
      NothingMore(src, form, name, [], recovery);
      PartialIsKept(name, OpenDump([]));
      if p < |src.input| {
        ReadsArgs(src', form, pos, e, w);
        RefusedStays(src, src', form, p, name, [], recovery, recovery, w);
      }
    } else {
      NameShows(src, form, pos, |src.input|);
      NothingIsKept();
    }
  }

  lemma NothingIsKept()
    ensures !Retracts(CallThrown(PartialError, []))
  {}

  /** Delimiters of a scope: empty or of spaces, or sharp. */
  predicate SharpScope(form: Format) {
    && ScopeFormat(form) && (AllSpace(form.scopeStart) || Sharp(form.scopeStart))
    && (form.scopeEnd == "" || Sharp(form.scopeEnd))
  }

  lemma ScopeEndSteps(src: Source, form: Format, start: nat, pos: nat, calls: seq<ToolCall>, recovery: bool)
    requires pos <= |src.input| && Sharp(form.scopeEnd)
    ensures var r, m := ParseScopeEnd(src, form, start, pos, calls, recovery), Search(src, pos, form.scopeEnd);
            r.ending.ReturnTrue? || TakesBack(r) || r.ending.PartialError?
    ensures var r, m := ParseScopeEnd(src, form, start, pos, calls, recovery), Search(src, pos, form.scopeEnd);
            if m.Some? then TakesBack(r) <==> !Opens(m)
            else !r.ending.ReturnTrue? && (TakesBack(r) <==> SkipSpaces(src.input, pos) != |src.input|)
  {
    hide FindLiteral; hide SkipSpaces;
    assert !AllSpace(form.scopeEnd) by { assert !IsSpace(form.scopeEnd[0]); }
  }

  /** A scope end that is refused stays refused, and no call is opened there. */
  lemma ScopeEndRefused(src: Source, src': Source, form: Format, start: nat, pos: nat, calls: seq<ToolCall>,
                        recovery: bool)
    requires Grows(src, src') && pos <= |src.input| <= |src'.input| && SharpScope(form)
    requires !Opens(Search(src, pos, form.toolStart))
    requires TakesBack(ParseScopeEnd(src, form, start, pos, calls, recovery))
    ensures !Opens(Search(src', pos, form.toolStart))
    ensures !ParseScopeEnd(src', form, start, pos, calls, recovery).ending.ReturnTrue?
  {
    hide Search; hide Sharp; hide AgreesAt; hide AllSpace; hide ParseScopeEnd; hide Opens; hide IsSpace;
    if form.scopeEnd == "" {
      EmptyScopeEnd(src, form, start, pos, calls, recovery);
    } else {
      ScopeEndSteps(src, form, start, pos, calls, recovery);
      ScopeEndSteps(src', form, start, pos, calls, recovery);
      var x := RefusedAt(src, form, start, pos, calls, recovery);
      NotOpening(src, pos, form.toolStart, x);
      NotOpening(src, pos, form.scopeEnd, x);
      BlockedStays(src, src', pos, form.toolStart);
      BlockedStays(src, src', pos, form.scopeEnd);
    }
  }

  lemma EmptyScopeEnd(src: Source, form: Format, start: nat, pos: nat, calls: seq<ToolCall>, recovery: bool)
    requires pos <= |src.input| && form.scopeEnd == ""
    ensures !TakesBack(ParseScopeEnd(src, form, start, pos, calls, recovery))
  {
    FindIs(src.input, "", pos, pos);
  }

  lemma RefusedAt(src: Source, form: Format, start: nat, pos: nat, calls: seq<ToolCall>, recovery: bool)
    returns (x: nat)
    requires pos <= |src.input| && Sharp(form.scopeEnd)
    requires TakesBack(ParseScopeEnd(src, form, start, pos, calls, recovery))
    ensures pos <= x < |src.input| && !IsSpace(src.input[x]) && !Opens(Search(src, pos, form.scopeEnd))
  {
    hide Search; hide Sharp; hide AllSpace; hide ParseScopeEnd; hide IsSpace; hide SkipSpaces; hide TakesBack;
    ScopeEndSteps(src, form, start, pos, calls, recovery);
    if Search(src, pos, form.scopeEnd).Some? {
      x := NonSpaceIn(src, pos, form.scopeEnd);
    } else {
      SkipsExactlySpaces(src.input, pos);
      x := SkipSpaces(src.input, pos);
    }
  }

  lemma NoCallNext(src: Source, form: Format, start: nat, pos: nat, calls: seq<ToolCall>, recovery: bool)
    requires pos <= |src.input| && !Opens(Search(src, pos, form.toolStart))
    ensures ParseCalls(src, form, start, pos, calls, recovery) == ParseScopeEnd(src, form, start, pos, calls, recovery)
  {
    hide FindLiteral; hide ParseCall; hide AllSpace; hide ParseCalls; hide ParseScopeEnd;
    CallsSteps(src, form, start, pos, calls, recovery);
  }

  lemma BackMeans(out: Outcome)
    ensures TakesBack(out) <==> out.ending.ReturnFalse? || out.ending.SyntaxError?
  {}

  /** A list of calls that is taken back is never finished. */
  lemma {:induction false} CallsRefused(src: Source, src': Source, form: Format, start: nat, pos: nat,
                                        calls: seq<ToolCall>, recovery: bool, w: string)
    requires Grows(src, src') && Reads(src', w, pos) && pos <= |src.input| && SharpScope(form)
    requires ScopeFormat(form) && GoodCalls(src', form, pos, recovery) && EndsAtChar(src, form)
    requires TakesBack(ParseCalls(src, form, start, pos, calls, recovery))
    ensures !ParseCalls(src', form, start, pos, calls, recovery).ending.ReturnTrue?
    decreases |src.input| - pos
  {
    hide *;
    GrowsMeans(src, src');
    CallsLoop(src, form, start, pos, calls, recovery);
    CallsLoop(src', form, start, pos, calls, recovery);
    var t := Search(src, pos, form.toolStart);
    if !Opens(t) {
      NoCallNext(src, form, start, pos, calls, recovery);
      ScopeEndRefused(src, src', form, start, pos, calls, recovery);
      NoCallNext(src', form, start, pos, calls, recovery);
    } else {
      OpensSome(t);
      if !Whole(t, form.toolStart) {
        OpeningCall(src, form, pos, recovery);
        BackMeans(ParseCalls(src, form, start, pos, calls, recovery));
      } else {
        StartStays(src, src', form, pos, w);
        GoodLoop(src', form, pos, recovery);
        CallRefusedOrNext(src, src', form, start, pos, calls, recovery, w);
      }
    }
  }

  lemma CallRefusedOrNext(src: Source, src': Source, form: Format, start: nat, pos: nat, calls: seq<ToolCall>,
                          recovery: bool, w: string)
    requires Grows(src, src') && Reads(src', w, pos) && pos <= |src.input| && SharpScope(form)
    requires ScopeFormat(form) && GoodCalls(src', form, pos, recovery) && EndsAtChar(src, form)
    requires TakesBack(ParseCalls(src, form, start, pos, calls, recovery))
    requires var t := Search(src, pos, form.toolStart); Opens(t) && Whole(t, form.toolStart)
    ensures !ParseCalls(src', form, start, pos, calls, recovery).ending.ReturnTrue?
    decreases |src.input| - pos, 0
  {
    hide *;
    GrowsMeans(src, src');
    var t, b := Search(src, pos, form.toolStart), ParseCalls(src', form, start, pos, calls, recovery);
    StartStays(src, src', form, pos, w);
    GoodLoop(src', form, pos, recovery);
    CallsLoop(src, form, start, pos, calls, recovery);
    CallsLoop(src', form, start, pos, calls, recovery);
    BackMeans(ParseCalls(src, form, start, pos, calls, recovery));
    BackMeans(b);
    var p := t.value.end;
    var a1, b1 := ParseCall(src, form, p, recovery), ParseCall(src', form, p, recovery);
    BackIs(a1, start, calls);
    if Retracts(a1) {
      RefusedCall(src, src', form, p, recovery, w);
    } else {
      OneCallStreams(src, src', form, p, recovery, w);
      GrowsIs(a1, b1, CallName(src', form, p));
      if a1 != CallThrown(PartialError, []) {
        ShownSteps(a1, CallName(src', form, p));
        if a1.CallParsed? {
          ReadsNext(src', form, p, recovery, w);
          CallsRefused(src, src', form, start, a1.pos, calls + [a1.call], false, w);
        }
      }
    }
  }

  // ------------------------------------------------------------ the whole attempt

  /** After its opening, a scope of plain calls. */
  ghost predicate GoodScope(src: Source, form: Format, pos: nat)
    requires pos <= |src.input| && ScopeFormat(form)
  {
    if AllSpace(form.scopeStart) then GoodCalls(src, form, pos, true)
    else
      var m := Search(src, pos, form.scopeStart);
      Opens(m) && Whole(m, form.scopeStart) ==> GoodCalls(src, form, m.value.end, true)
  }

  /** Where the calls begin, once the opening of the scope has arrived whole. */
  function CallsPos(src: Source, form: Format, pos: nat): (p: Option<nat>)
    requires pos <= |src.input|
    ensures p.Some? ==> pos <= p.value <= |src.input|
  {
    if AllSpace(form.scopeStart) then Some(pos)
    else
      var m := Search(src, pos, form.scopeStart);
      if Opens(m) && Whole(m, form.scopeStart) then Some(m.value.end) else None
  }

  lemma TrySteps(src: Source, form: Format, pos: nat, done: seq<ToolCall>)
    requires pos <= |src.input|
    ensures var r, p := TryConsume(src, form, pos, done), CallsPos(src, form, pos);
            if p.None? then r.calls == done && !r.ending.ReturnTrue?
            else
              var out := ParseCalls(src, form, pos, p.value, done, true);
              if TakesBack(out) then r == Outcome(ReturnFalse, pos, done) else r == out
  {
    hide FindLiteral; hide ParseCalls; hide AllSpace;
  }

  lemma GoodScopeMeans(src: Source, form: Format, pos: nat)
    requires pos <= |src.input| && ScopeFormat(form)
    ensures GoodScope(src, form, pos) <==>
            (CallsPos(src, form, pos).Some? ==> GoodCalls(src, form, CallsPos(src, form, pos).value, true))
  {
    hide FindLiteral; hide GoodCalls; hide AllSpace; hide ScopeFormat;
  }

  lemma CallsPosStays(src: Source, src': Source, form: Format, pos: nat, w: string)
    requires Grows(src, src') && Reads(src', w, pos) && pos <= |src.input| && SharpScope(form)
    requires CallsPos(src, form, pos).Some?
    ensures CallsPos(src', form, pos) == CallsPos(src, form, pos) && Reads(src', w, CallsPos(src, form, pos).value)
  {
    hide Search; hide Reads; hide Sharp; hide ScopeFormat; hide AllSpace;
    if !AllSpace(form.scopeStart) {
      BoundGrows(src, src', pos, form.scopeStart);
      AfterWhole(src', w, pos, form.scopeStart);
    }
  }

  lemma SharpMeans(form: Format)
    requires SharpScope(form)
    ensures ScopeFormat(form)
  {}

  /** While a scope of plain calls grows, what the attempt shows extends, as the server compares messages, what it
      has shown before, unless it takes everything back. */
  lemma ScopeStreams(src: Source, src': Source, form: Format, pos: nat, done: seq<ToolCall>, w: string)
    requires Grows(src, src') && Reads(src', w, pos) && pos <= |src.input| && SharpScope(form)
    requires ScopeFormat(form) && GoodScope(src', form, pos) && HaveNames(done) && EndsAtChar(src, form)
    ensures var a, b := TryConsume(src, form, pos, done), TryConsume(src', form, pos, done);
            b.ending.ReturnFalse? || CallsExtend(a.calls, b.calls)
  {
    hide *;
    GrowsMeans(src, src');
    TrySteps(src, form, pos, done);
    TrySteps(src', form, pos, done);
    GoodScopeMeans(src', form, pos);
    ExtendByNames(done, done);
    var p, p' := CallsPos(src, form, pos), CallsPos(src', form, pos);
    if p'.Some? {
      CallsAreNamed(src', form, pos, p'.value, done, true);
      KeepsCalls(src', form, pos, p'.value, done, true);
      var b := ParseCalls(src', form, pos, p'.value, done, true);
      if !TakesBack(b) {
        ExtendByNames(done, b.calls);
        if p.Some? {
          CallsPosStays(src, src', form, pos, w);
          CallsStream(src, src', form, pos, p.value, done, true, w);
        }
      }
    } else if p.Some? {
      CallsPosStays(src, src', form, pos, w);
    }
  }

  /** Streaming law for finished scopes: whatever has arrived of a text that parses to plain calls, what is shown of
      the calls is extended, as the server compares messages, by what is shown of any longer beginning and of the
      whole text; nothing is taken back. */
  lemma FinishedScopeStreams(src: Source, src': Source, whole: Source, form: Format, pos: nat, done: seq<ToolCall>)
    requires Grows(src, src') && (src' == whole || Grows(src', whole)) && pos <= |src.input|
    requires AtChar(whole.input, pos) && Utf8.WellFormed(whole.input) && SharpScope(form)
    requires pos <= |whole.input| && ScopeFormat(form) && GoodScope(whole, form, pos) && HaveNames(done)
    requires EndsAtChar(src, form) && EndsAtChar(src', form)
    requires TryConsume(whole, form, pos, done).ending.ReturnTrue?
    ensures CallsExtend(TryConsume(src, form, pos, done).calls, TryConsume(src', form, pos, done).calls)
  {
    hide *;
    var w := whole.input;
    GrowsMeans(src, src');
    WholeReads(src, src', whole, pos);
    if src' != whole {
      GrowsMeans(src', whole);
      ScopeShorter(src', whole, form, pos, w);
      if TryConsume(src', form, pos, done).ending.ReturnFalse? {
        NothingYet(src', whole, form, pos, done, w);
        NothingBefore(src, src', form, pos, done, w);
      }
    }
    ExtendByNames(done, done);
    ScopeStreams(src, src', form, pos, done, w);
  }

  lemma WholeReads(src: Source, src': Source, whole: Source, pos: nat)
    requires Grows(src, src') && (src' == whole || Grows(src', whole)) && pos <= |src.input|
    requires AtChar(whole.input, pos) && Utf8.WellFormed(whole.input)
    ensures Reads(whole, whole.input, pos) && Reads(src', whole.input, pos)
  {
    hide AtChar; hide Utf8.WellFormed;
  }

  lemma ScopeShorter(src: Source, src': Source, form: Format, pos: nat, w: string)
    requires Grows(src, src') && Reads(src', w, pos) && pos <= |src.input| && SharpScope(form)
    requires ScopeFormat(form) && pos <= |src'.input| && GoodScope(src', form, pos) && EndsAtChar(src, form)
    ensures GoodScope(src, form, pos)
  {
    hide *;
    GoodScopeMeans(src, form, pos);
    GoodScopeMeans(src', form, pos);
    if CallsPos(src, form, pos).Some? {
      CallsPosStays(src, src', form, pos, w);
      GoodCallsShorter(src, src', form, CallsPos(src, form, pos).value, true, w);
    }
  }

  /** If the whole text parses, an attempt that returns false has not seen the opening of the scope. */
  lemma NothingYet(src: Source, whole: Source, form: Format, pos: nat, done: seq<ToolCall>, w: string)
    requires Grows(src, whole) && Reads(whole, w, pos) && pos <= |src.input| && SharpScope(form)
    requires ScopeFormat(form) && pos <= |whole.input| && GoodScope(whole, form, pos)
    requires TryConsume(whole, form, pos, done).ending.ReturnTrue?
    requires TryConsume(src, form, pos, done).ending.ReturnFalse? && EndsAtChar(src, form)
    ensures CallsPos(src, form, pos).None?
  {
    hide *;
    TrySteps(src, form, pos, done);
    TrySteps(whole, form, pos, done);
    GoodScopeMeans(whole, form, pos);
    var p := CallsPos(src, form, pos);
    if p.Some? {
      CallsPosStays(src, whole, form, pos, w);
      BackMeans(ParseCalls(src, form, pos, p.value, done, true));
      BackMeans(ParseCalls(whole, form, pos, p.value, done, true));
      CallsRefused(src, whole, form, pos, p.value, done, true, w);
    }
  }

  lemma NothingBefore(src: Source, src': Source, form: Format, pos: nat, done: seq<ToolCall>, w: string)
    requires Grows(src, src') && Reads(src', w, pos) && pos <= |src.input| && SharpScope(form)
    requires pos <= |src'.input| && CallsPos(src', form, pos).None?
    ensures TryConsume(src, form, pos, done).calls == done && TryConsume(src', form, pos, done).calls == done
  {
    hide *;
    TrySteps(src, form, pos, done);
    TrySteps(src', form, pos, done);
    if CallsPos(src, form, pos).Some? { CallsPosStays(src, src', form, pos, w); }
  }
}
