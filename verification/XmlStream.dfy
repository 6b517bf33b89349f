/** While the arguments of a call stream in, what is shown of them only grows. */
module XmlStream {
  import opened Wrappers
  import opened Text
  import opened ChatTypes
  import opened LiteralSearch
  import opened Json
  import opened XmlSpec
  import opened XmlGrowth
  import opened XmlShown
  import opened XmlValues
  import opened XmlJsonValues

  // ------------------------------------------------------------ a key and its value

  /** Something other than spaces stands before the second separator. */
  predicate MidBroken(src: Source, form: Format, pos: nat)
    requires pos <= |src.input|
  {
    form.keyValSep2.Some? &&
    var r := Search(src, pos, form.keyValSep2.value);
    r.Some? && !AllSpace(r.value.prelude)
  }

  /** Where the value begins, once everything before it has arrived. */
  function ValuePos(src: Source, form: Format, pos: nat): (p: Option<nat>)
    requires pos <= |src.input|
    ensures p.Some? ==> pos <= p.value <= |src.input|
  {
    if form.keyValSep2.None? then Some(pos)
    else
      var r := Search(src, pos, form.keyValSep2.value);
      if Whole(r, form.keyValSep2.value) then Some(r.value.end) else None
  }

  /** What is shown of the dump of the value that follows the key. */
  function PairBegun(src: Source, form: Format, pos: nat): string
    requires pos <= |src.input|
  {
    if ValuePos(src, form, pos).None? then "" else Begun(src, form, ValuePos(src, form, pos).value)
  }

  /** The value that follows the key, once it is finished. */
  function PairFinish(src: Source, form: Format, pos: nat): (f: Option<Finish>)
    requires pos <= |src.input|
    ensures f.Some? ==> pos <= f.value.end <= |src.input|
  {
    if ValuePos(src, form, pos).None? then None else Finished(src, form, ValuePos(src, form, pos).value)
  }

  predicate PairDone(src: Source, form: Format, pos: nat)
    requires pos <= |src.input|
  {
    PairFinish(src, form, pos).Some?
  }

  function PairValue(src: Source, form: Format, pos: nat): Value
    requires pos <= |src.input| && PairDone(src, form, pos)
  {
    PairFinish(src, form, pos).value.value
  }

  function PairEnd(src: Source, form: Format, pos: nat): (end: nat)
    requires pos <= |src.input| && PairDone(src, form, pos)
    ensures pos <= end <= |src.input|
  {
    PairFinish(src, form, pos).value.end
  }

  ghost predicate GoodPair(src: Source, form: Format, pos: nat)
    requires pos <= |src.input|
  {
    ValuePos(src, form, pos).Some? ==> GoodValue(src, form, ValuePos(src, form, pos).value)
  }

  lemma AfterKeyShows(src: Source, form: Format, pos: nat, key: string, name: string, args: Members)
    requires pos <= |src.input| && StreamFormat(form) && GoodPair(src, form, pos) && !HasKey(args, key) && name != ""
    ensures var r := ParseAfterKey(src, form, pos, key, name, args);
            if MidBroken(src, form, pos) then r == ArgThrown(SyntaxError, [])
            else if PairDone(src, form, pos) then r == Arg(key, PairValue(src, form, pos), PairEnd(src, form, pos))
            else r == Showing(name, args, key, PairBegun(src, form, pos))
  {
    hide ParseAfterKey; hide ParseValue; hide FlaggedStep; hide Begun; hide Finished; hide HasKey; hide Showing;
    hide StreamFormat; hide GoodValue; hide AllSpace; hide FindLiteral;
    AfterKeySteps(src, form, pos, key, name, args);
    HeldShows(name, args, key);
    var p := ValuePos(src, form, pos);
    if p.Some? { ValueShows(src, form, p.value, key, name, args); }
  }

  lemma ValuePosStays(src: Source, src': Source, form: Format, pos: nat, w: string)
    requires Grows(src, src') && Reads(src', w, pos) && pos <= |src.input| <= |src'.input| && StreamFormat(form)
    requires ValuePos(src, form, pos).Some?
    ensures ValuePos(src', form, pos) == ValuePos(src, form, pos) && Reads(src', w, ValuePos(src, form, pos).value)
  {
    hide FindLiteral; hide Sharp; hide AgreesAt; hide Reads;
    if form.keyValSep2.Some? {
      BoundGrows(src, src', pos, form.keyValSep2.value);
      AfterWhole(src', w, pos, form.keyValSep2.value);
    }
  }

  /** The law of values, after a key. */
  lemma PairGrows(src: Source, src': Source, form: Format, pos: nat, w: string)
    requires Grows(src, src') && Reads(src', w, pos) && pos <= |src.input| <= |src'.input| && StreamFormat(form)
    requires GoodPair(src', form, pos) && EndsAtChar(src, form)
    ensures GoodPair(src, form, pos)
    ensures PairDone(src, form, pos) ==>
              && PairDone(src', form, pos) && PairEnd(src', form, pos) == PairEnd(src, form, pos)
              && PairValue(src', form, pos) == PairValue(src, form, pos) && Reads(src', w, PairEnd(src, form, pos))
    ensures !PairDone(src, form, pos) ==>
              if PairDone(src', form, pos) then PairBegun(src, form, pos) <= DumpValue(PairValue(src', form, pos))
              else PairBegun(src, form, pos) <= PairBegun(src', form, pos)
  {
    hide Begun; hide Finished; hide FindLiteral; hide Sharp; hide AgreesAt; hide Reads; hide GoodValue; hide ValuePos;
    hide EndsAtChar; hide DumpValue; hide StreamFormat;
    if ValuePos(src, form, pos).Some? {
      ValuePosStays(src, src', form, pos, w);
      GoodGrows(src, src', form, ValuePos(src, form, pos).value, w);
    } else {
      EmptyBegins(PairBegun(src', form, pos));
      if PairDone(src', form, pos) { EmptyBegins(DumpValue(PairValue(src', form, pos))); }
    }
  }

  /** Neither the text nor the keys read so far hold the flag. */
  predicate Unflagged(args: Members) {
    forall i | 0 <= i < |args| :: !Contains(args[i].0, Flag)
  }

  lemma NoFlaggedKey(args: Members, key: string)
    requires Unflagged(args)
    ensures !HasKey(args, key + Flag)
  {
    hide Contains; hide Flag;
    ContainsMeans(key + Flag, Flag);
    assert (key + Flag)[|key|..|key| + |Flag|] == Flag;
    assert OccursAt(key + Flag, Flag, |key|);
  }

  /** What the parse of a key and its value returns. */
  lemma KeyShows(src: Source, form: Format, pos: nat, name: string, args: Members)
    requires pos <= |src.input| && StreamFormat(form) && Unflagged(args) && name != ""
    requires var k := Search(src, pos, form.keyValSep); Whole(k, form.keyValSep) ==> !HasKey(args, k.value.prelude)
    ensures var r, k := ParseKeyAndValue(src, form, pos, name, args), Search(src, pos, form.keyValSep);
            if !Whole(k, form.keyValSep) then
              r == ArgThrown(PartialError,
                             [ToolCall(name, DropQuote(KeyText(args, SeenText(src, pos, form.keyValSep))), "")])
            else r == ParseAfterKey(src, form, k.value.end, k.value.prelude, name, args)
  {
    hide *;
    var k := Search(src, pos, form.keyValSep);
    SearchIs(src, pos, form.keyValSep);
    WholeIs(k, form.keyValSep);
    KeySteps(src, form, pos, name, args);
    if !Whole(k, form.keyValSep) {
      var seen := SeenText(src, pos, form.keyValSep);
      SeenIs(src, pos, form.keyValSep);
      FlaggedKeyIs(name, args, seen);
      NoFlaggedKey(args, seen);
      FlaggedKeyDump(args, seen);
      PartialIs(name, Put(args, seen + Flag, Str("")), DropQuote(KeyText(args, seen)));
    }
  }

  lemma SearchIs(src: Source, pos: nat, tag: string)
    requires pos <= |src.input|
    ensures Search(src, pos, tag) == FindLiteral(src.input, src.partial, pos, tag)
  {}

  lemma WholeIs(r: Option<Match>, tag: string)
    ensures Whole(r, tag) <==> r.Some? && r.value.end - r.value.begin == |tag|
  {}

  lemma SeenIs(src: Source, pos: nat, tag: string)
    requires pos <= |src.input|
    ensures SeenText(src, pos, tag) ==
            if Search(src, pos, tag).Some? then Search(src, pos, tag).value.prelude else SafeRest(src, pos)
  {
    hide Search; hide SafeRest;
  }

  lemma FlaggedKeyIs(name: string, args: Members, key: string)
    ensures FlaggedKeyStep(name, args, key) ==
            ArgThrown(PartialError, PartialCall(name, Put(args, key + Flag, Str(""))))
  {
    hide PartialCall; hide Put; hide Flag;
  }

  // ------------------------------------------------------------ the rest of a call

  /** A call after its name. */
  function AfterName(src: Source, form: Format, pos: nat, name: string, args: Members, recovery: bool): CallStep
    requires pos <= |src.input|
  {
    match ParseArgs(src, form, pos, name, args, recovery)
    case ArgsThrown(ending, extra) => CallThrown(ending, extra)
    case ArgsDone(end, all, stillRecoverable) => ParseToolEnd(src, form, end, name, all, stillRecoverable)
  }

  predicate Opens(r: Option<Match>) {
    r.Some? && AllSpace(r.value.prelude)
  }

  lemma AfterNameSteps(src: Source, form: Format, pos: nat, name: string, args: Members, recovery: bool)
    requires pos <= |src.input|
    ensures var r, m := AfterName(src, form, pos, name, args, recovery), Search(src, pos, form.keyStart);
            if !Opens(m) then r == ParseToolEnd(src, form, pos, name, args, recovery)
            else if !Whole(m, form.keyStart) then r == CallThrown(PartialError, NamedCall(name, OpenDump(args)))
            else
              var step := ParseKeyAndValue(src, form, m.value.end, name, args);
              if step.ArgThrown? then r == CallThrown(step.ending, step.extra)
              else r == AfterName(src, form, step.pos, name, Put(args, step.key, step.value), false)
  {
    hide FindLiteral; hide ParseKeyAndValue; hide AllSpace; hide NamedCall; hide OpenDump; hide Put; hide ParseToolEnd;
    hide ParseArgs;
    ArgsSteps(src, form, pos, name, args, recovery);
  }

  lemma ToolEndShows(src: Source, form: Format, pos: nat, name: string, args: Members, recovery: bool)
    requires pos <= |src.input| && form.lastToolEnd.None? && name != ""
    ensures var r, t := ParseToolEnd(src, form, pos, name, args, recovery), Search(src, pos, form.toolEnd);
            if t.Some? && !Opens(t) then r == CallRefused(recovery)
            else if Whole(t, form.toolEnd) then r == CallParsed(ToolCall(name, Dump(args), ""), t.value.end)
            else r == CallThrown(PartialError, [ToolCall(name, OpenDump(args), "")])
  {
    hide FindLiteral; hide AllSpace; hide OpenDump; hide Dump;
  }

  /** The parser takes back what it has shown. */
  predicate Retracts(r: CallStep) {
    r.CallRefused? || (r.CallThrown? && r.ending.SyntaxError?)
  }

  /** One call of that name is shown, unfinished or finished. */
  predicate Shows(r: CallStep, name: string) {
    match r
    case CallThrown(ending, extra) =>
      ending.PartialError? && |extra| == 1 && extra[0].name == name && extra[0].id == ""
    case CallRefused(_) => false
    case CallParsed(call, _) => call.name == name && call.id == ""
  }

  function ShownText(r: CallStep): string {
    match r
    case CallThrown(_, extra) => if extra == [] then "" else extra[0].arguments
    case CallRefused(_) => ""
    case CallParsed(call, _) => call.arguments
  }

  /** No key is given twice, and every value is a good one, as far as the text has been read. */
  ghost predicate GoodArgs(src: Source, form: Format, pos: nat, args: Members)
    requires pos <= |src.input|
    decreases |src.input| - pos
  {
    var m := Search(src, pos, form.keyStart);
    Opens(m) && Whole(m, form.keyStart) ==>
      var k := Search(src, m.value.end, form.keyValSep);
      Whole(k, form.keyValSep) ==>
        && !HasKey(args, k.value.prelude) && GoodPair(src, form, k.value.end)
        && (!MidBroken(src, form, k.value.end) && PairDone(src, form, k.value.end) &&
            PairEnd(src, form, k.value.end) > pos ==>
              GoodArgs(src, form, PairEnd(src, form, k.value.end),
                        args + [(k.value.prelude, PairValue(src, form, k.value.end))]))
  }

  /** What a call is parsed with whose keys are all new and whose values are good ones. */
  ghost predicate Streams(src: Source, form: Format, pos: nat, name: string, args: Members) {
    && StreamFormat(form) && name != "" && Unflagged(args) && !Contains(src.input, Flag)
    && pos <= |src.input| && GoodArgs(src, form, pos, args)
  }

  lemma SliceHolds(s: string, a: nat, b: nat, t: string)
    requires a <= b <= |s| && Contains(s[a..b], t)
    ensures Contains(s, t)
  {
    hide Contains;
    ContainedInside(s[..a], s[a..b], s[b..], t);
    assert s == s[..a] + (s[a..b] + s[b..]);
  }

  lemma StillUnflagged(src: Source, args: Members, pos: nat, end: nat, value: Value)
    requires Unflagged(args) && !Contains(src.input, Flag) && pos <= end <= |src.input|
    ensures Unflagged(args + [(src.input[pos..end], value)])
  {
    hide Contains; hide Flag;
    if Contains(src.input[pos..end], Flag) { SliceHolds(src.input, pos, end, Flag); }
  }

  /** The opening of a key was found, after spaces only. */
  predicate KeyOpens(src: Source, form: Format, pos: nat)
    requires pos <= |src.input|
  {
    var m := Search(src, pos, form.keyStart);
    Opens(m) && Whole(m, form.keyStart)
  }

  function KeyPos(src: Source, form: Format, pos: nat): (p: nat)
    requires pos <= |src.input| && KeyOpens(src, form, pos)
    ensures pos <= p <= |src.input|
  {
    Search(src, pos, form.keyStart).value.end
  }

  lemma StreamsMeans(src: Source, form: Format, pos: nat, name: string, args: Members)
    requires Streams(src, form, pos, name, args)
    ensures StreamFormat(form) && name != "" && Unflagged(args) && pos <= |src.input|
    ensures !Contains(src.input, Flag) && form.lastToolEnd.None?
  {}

  lemma FreshKey(src: Source, form: Format, pos: nat, name: string, args: Members)
    requires Streams(src, form, pos, name, args) && KeyOpens(src, form, pos)
    ensures pos < KeyPos(src, form, pos)
    ensures var k := Search(src, KeyPos(src, form, pos), form.keyValSep);
            Whole(k, form.keyValSep) ==>
              && !HasKey(args, k.value.prelude) && GoodPair(src, form, k.value.end)
              && (!MidBroken(src, form, k.value.end) && PairDone(src, form, k.value.end) ==>
                    var all := args + [(k.value.prelude, PairValue(src, form, k.value.end))];
                    PairEnd(src, form, k.value.end) > pos &&
                    Streams(src, form, PairEnd(src, form, k.value.end), name, all))
  {
    hide Search; hide MidBroken; hide PairDone; hide PairEnd; hide PairValue; hide PairBegun; hide AgreesAt;
    hide Contains; hide HasKey;
    hide AllSpace; hide Unflagged; hide GoodPair;
    KeyIsSome(form);
    var p := KeyPos(src, form, pos);
    var k := Search(src, p, form.keyValSep);
    if Whole(k, form.keyValSep) && !MidBroken(src, form, k.value.end) && PairDone(src, form, k.value.end) {
      StillUnflagged(src, args, p, k.value.begin, PairValue(src, form, k.value.end));
    }
  }

  lemma KeyIsSome(form: Format)
    requires StreamFormat(form)
    ensures form.keyStart != "" && form.keyValSep != "" && form.valEnd != "" && form.toolEnd != ""
  {}

  /** One key and its value in the rest of a call. */
  function PairResult(src: Source, form: Format, pos: nat, name: string, args: Members): CallStep
    requires pos <= |src.input| && KeyOpens(src, form, pos)
  {
    var p := KeyPos(src, form, pos);
    var k := Search(src, p, form.keyValSep);
    if !Whole(k, form.keyValSep) then
      CallThrown(PartialError, [ToolCall(name, DropQuote(KeyText(args, SeenText(src, p, form.keyValSep))), "")])
    else
      var key, q := k.value.prelude, k.value.end;
      if MidBroken(src, form, q) then CallThrown(SyntaxError, [])
      else if PairDone(src, form, q) then
        AfterName(src, form, PairEnd(src, form, q), name, args + [(key, PairValue(src, form, q))], false)
      else CallThrown(PartialError, [ToolCall(name, ShownArg(args, key, PairBegun(src, form, q)), "")])
  }

  lemma PairIs(src: Source, form: Format, pos: nat, name: string, args: Members)
    requires pos <= |src.input| && KeyOpens(src, form, pos)
    ensures var r, p := PairResult(src, form, pos, name, args), KeyPos(src, form, pos);
            var k := Search(src, p, form.keyValSep);
            if !Whole(k, form.keyValSep) then
              r == CallThrown(PartialError,
                              [ToolCall(name, DropQuote(KeyText(args, SeenText(src, p, form.keyValSep))), "")])
            else
              var key, q := k.value.prelude, k.value.end;
              if MidBroken(src, form, q) then r == CallThrown(SyntaxError, [])
              else if PairDone(src, form, q) then
                r == AfterName(src, form, PairEnd(src, form, q), name, args + [(key, PairValue(src, form, q))],
                               false)
              else
                r == CallThrown(PartialError,
                                [ToolCall(name, ShownArg(args, key, PairBegun(src, form, q)), "")])
  {
    hide Search; hide MidBroken; hide PairDone; hide PairEnd; hide PairValue; hide PairBegun; hide AfterName;
    hide DropQuote;
    hide KeyText; hide ShownArg; hide SeenText; hide KeyOpens; hide KeyPos;
  }

  lemma PairStep(src: Source, form: Format, pos: nat, name: string, args: Members, recovery: bool)
    requires Streams(src, form, pos, name, args) && KeyOpens(src, form, pos)
    ensures AfterName(src, form, pos, name, args, recovery) == PairResult(src, form, pos, name, args)
  {
    hide *;
    StreamsMeans(src, form, pos, name, args);
    PairIs(src, form, pos, name, args);
    KeyOpensMeans(src, form, pos);
    AfterNameSteps(src, form, pos, name, args, recovery);
    FreshKey(src, form, pos, name, args);
    var p := KeyPos(src, form, pos);
    KeyShows(src, form, p, name, args);
    var k := Search(src, p, form.keyValSep);
    if Whole(k, form.keyValSep) {
      WholeIs(k, form.keyValSep);
      AfterKeyShows(src, form, k.value.end, k.value.prelude, name, args);
      if PairDone(src, form, k.value.end) { PutNewKey(args, k.value.prelude, PairValue(src, form, k.value.end)); }
      ShowingIs(name, args, k.value.prelude, PairBegun(src, form, k.value.end));
    }
  }

  lemma KeyOpensMeans(src: Source, form: Format, pos: nat)
    requires pos <= |src.input| && KeyOpens(src, form, pos)
    ensures var m := Search(src, pos, form.keyStart);
            Opens(m) && Whole(m, form.keyStart) && m.Some? && KeyPos(src, form, pos) == m.value.end
  {
    hide Search; hide AllSpace;
  }

  // ------------------------------------------------------------ what is shown only grows

  /** A call that is not taken back shows `text` and perhaps more. */
  predicate ShowsMore(r: CallStep, name: string, text: string) {
    Retracts(r) || (Shows(r, name) && text <= ShownText(r))
  }

  lemma ShowsPartial(name: string, text: string, less: string)
    requires less <= text
    ensures var r := CallThrown(PartialError, [ToolCall(name, text, "")]);
            ShowsMore(r, name, less) && !Retracts(r) && ShownText(r) == text
  {}

  lemma ShowsParsed(name: string, args: Members, end: nat, less: string)
    requires less <= OpenDump(args)
    ensures ShowsMore(CallParsed(ToolCall(name, Dump(args), ""), end), name, less)
  {
    hide Dump; hide OpenDump;
    OpenOfDump(args);
    assert less <= OpenDump(args) + "}";
  }

  lemma ShowsLess(r: CallStep, name: string, text: string, less: string)
    requires ShowsMore(r, name, text) && less <= text
    ensures ShowsMore(r, name, less)
  {
    hide Retracts; hide Shows; hide ShownText;
  }

  lemma Broken(r: CallStep, name: string, text: string)
    requires r == CallThrown(SyntaxError, []) || r.CallRefused?
    ensures ShowsMore(r, name, text) && Retracts(r)
  {}

  /** Whatever has arrived, the finished arguments are shown. */
  lemma {:induction false} ShowsAtLeast(src: Source, form: Format, pos: nat, name: string, args: Members,
                                        recovery: bool)
    requires Streams(src, form, pos, name, args)
    ensures ShowsMore(AfterName(src, form, pos, name, args, recovery), name, OpenDump(args))
    decreases |src.input| - pos
  {
    hide *;
    StreamsMeans(src, form, pos, name, args);
    var r := AfterName(src, form, pos, name, args, recovery);
    AfterNameSteps(src, form, pos, name, args, recovery);
    ToolEndShows(src, form, pos, name, args, recovery);
    NamedIs(name, OpenDump(args));
    KeyOpensIs(src, form, pos);
    if !KeyOpens(src, form, pos) {
      ShowsFinished(src, form, pos, name, args, recovery);
    } else {
      PairStep(src, form, pos, name, args, recovery);
      PairIs(src, form, pos, name, args);
      FreshKey(src, form, pos, name, args);
      var p := KeyPos(src, form, pos);
      var k := Search(src, p, form.keyValSep);
      if !Whole(k, form.keyValSep) {
        var seen := SeenText(src, p, form.keyValSep);
        StartsWithDump(args, seen);
        ShowsPartial(name, DropQuote(KeyText(args, seen)), OpenDump(args));
      } else {
        WholeIs(k, form.keyValSep);
        var key, q := k.value.prelude, k.value.end;
        if MidBroken(src, form, q) {
          Broken(r, name, OpenDump(args));
        } else if PairDone(src, form, q) {
          var value := PairValue(src, form, q);
          ShowsAtLeast(src, form, PairEnd(src, form, q), name, args + [(key, value)], false);
          OpenWithArg(args, key, value);
          ShownAfterDump(args, key, DumpValue(value));
          ShowsLess(r, name, OpenDump(args + [(key, value)]), OpenDump(args));
        } else {
          ShownAfterDump(args, key, PairBegun(src, form, q));
          ShowsPartial(name, ShownArg(args, key, PairBegun(src, form, q)), OpenDump(args));
        }
      }
    }
  }

  lemma KeyOpensIs(src: Source, form: Format, pos: nat)
    requires pos <= |src.input|
    ensures KeyOpens(src, form, pos) <==>
            Opens(Search(src, pos, form.keyStart)) && Whole(Search(src, pos, form.keyStart), form.keyStart)
  {}

  /** Without a further key, the finished arguments are shown, closed or not. */
  lemma ShowsFinished(src: Source, form: Format, pos: nat, name: string, args: Members, recovery: bool)
    requires pos <= |src.input| && form.lastToolEnd.None? && name != "" && !KeyOpens(src, form, pos)
    ensures ShowsMore(AfterName(src, form, pos, name, args, recovery), name, OpenDump(args))
  {
    hide *;
    AfterNameSteps(src, form, pos, name, args, recovery);
    ToolEndShows(src, form, pos, name, args, recovery);
    NamedIs(name, OpenDump(args));
    KeyOpensIs(src, form, pos);
    var r := AfterName(src, form, pos, name, args, recovery);
    ShowsPartial(name, OpenDump(args), OpenDump(args));
    if r.CallRefused? {
      Broken(r, name, OpenDump(args));
    } else if r.CallParsed? {
      ShowsParsed(name, args, r.pos, OpenDump(args));
    }
  }

  // ------------------------------------------------------------ one call in a growing text

  lemma MidStays(src: Source, src': Source, form: Format, pos: nat)
    requires Grows(src, src') && pos <= |src.input| && StreamFormat(form) && PairDone(src, form, pos)
    ensures pos <= |src'.input| && (MidBroken(src', form, pos) <==> MidBroken(src, form, pos))
  {
    hide Search; hide Sharp; hide AgreesAt; hide Finished; hide AllSpace;
    if form.keyValSep2.Some? { BoundGrows(src, src', pos, form.keyValSep2.value); }
  }

  lemma KeyStays(src: Source, src': Source, form: Format, pos: nat, w: string)
    requires Grows(src, src') && Reads(src', w, pos) && pos <= |src.input| && StreamFormat(form)
    requires KeyOpens(src, form, pos)
    ensures KeyOpens(src', form, pos) && KeyPos(src', form, pos) == KeyPos(src, form, pos)
    ensures Reads(src', w, KeyPos(src, form, pos)) && KeyPos(src, form, pos) <= |src.input|
  {
    hide Search; hide AgreesAt; hide AllSpace; hide Reads; hide Sharp;
    ReadsBefore(src, src', w, pos);
    BoundGrows(src, src', pos, form.keyStart);
    AfterWhole(src', w, pos, form.keyStart);
  }

  lemma SepStays(src: Source, src': Source, form: Format, pos: nat, w: string)
    requires Grows(src, src') && Reads(src', w, pos) && pos <= |src.input| && StreamFormat(form)
    requires Whole(Search(src, pos, form.keyValSep), form.keyValSep)
    ensures Search(src', pos, form.keyValSep) == Search(src, pos, form.keyValSep)
    ensures Reads(src', w, Search(src, pos, form.keyValSep).value.end)
  {
    hide Search; hide AgreesAt; hide Reads; hide Sharp;
    BoundGrows(src, src', pos, form.keyValSep);
    AfterWhole(src', w, pos, form.keyValSep);
  }

  lemma NoFlagBefore(src: Source, src': Source)
    requires Grows(src, src') && !Contains(src'.input, Flag)
    ensures !Contains(src.input, Flag)
  {
    hide Contains; hide Flag;
    if Contains(src.input, Flag) {
      assert src.input == src'.input[0..|src.input|];
      SliceHolds(src'.input, 0, |src.input|, Flag);
    }
  }

  /** What has arrived of good arguments are good arguments. */
  lemma {:induction false} ArgsShorter(src: Source, src': Source, form: Format, pos: nat, args: Members, w: string)
    requires Grows(src, src') && Reads(src', w, pos) && pos <= |src.input| && StreamFormat(form)
    requires GoodArgs(src', form, pos, args) && EndsAtChar(src, form)
    ensures GoodArgs(src, form, pos, args)
    decreases |src.input| - pos
  {
    hide Search; hide AgreesAt; hide Reads; hide Sharp; hide MidBroken; hide PairDone; hide PairEnd; hide PairValue;
    hide PairBegun; hide EndsAtChar; hide HasKey; hide StreamFormat; hide AllSpace; hide Grows; hide GoodPair;
    KeyOpensIs(src, form, pos);
    if KeyOpens(src, form, pos) {
      GrowsMeans(src, src');
      KeyOpensIs(src', form, pos);
      KeyStays(src, src', form, pos, w);
      KeyOpensMeans(src, form, pos);
      KeyOpensMeans(src', form, pos);
      var p := KeyPos(src, form, pos);
      var k := Search(src, p, form.keyValSep);
      if Whole(k, form.keyValSep) {
        SepStays(src, src', form, p, w);
        var q := k.value.end;
        PairGrows(src, src', form, q, w);
        if !MidBroken(src, form, q) && PairDone(src, form, q) && PairEnd(src, form, q) > pos {
          MidStays(src, src', form, q);
          ArgsShorter(src, src', form, PairEnd(src, form, q),
                       args + [(k.value.prelude, PairValue(src, form, q))], w);
        }
      }
    }
  }

  lemma StreamsShorter(src: Source, src': Source, form: Format, pos: nat, name: string, args: Members, w: string)
    requires Grows(src, src') && Reads(src', w, pos) && pos <= |src.input| && Streams(src', form, pos, name, args)
    requires EndsAtChar(src, form)
    ensures Streams(src, form, pos, name, args)
  {
    hide GoodArgs; hide Contains; hide StreamFormat; hide Reads;
    ArgsShorter(src, src', form, pos, args, w);
    NoFlagBefore(src, src');
  }

  /** A tool end that was found, after spaces only, keeps a key from opening there. */
  lemma ParsedStays(src: Source, src': Source, form: Format, pos: nat, name: string, args: Members,
                    recovery: bool, recovery': bool)
    requires Grows(src, src') && pos <= |src.input| && StreamFormat(form) && name != "" && !KeyOpens(src, form, pos)
    requires AfterName(src, form, pos, name, args, recovery).CallParsed?
    ensures pos <= |src'.input|
    ensures AfterName(src', form, pos, name, args, recovery') == AfterName(src, form, pos, name, args, recovery)
  {
    hide *;
    FormatMeans(form);
    AfterNameSteps(src, form, pos, name, args, recovery);
    ToolEndShows(src, form, pos, name, args, recovery);
    KeyOpensIs(src, form, pos);
    WholeIs(Search(src, pos, form.toolEnd), form.toolEnd);
    BoundGrows(src, src', pos, form.toolEnd);
    GrowsMeans(src, src');
    NoKeyAtToolEnd(src', form, pos);
    AfterNameSteps(src', form, pos, name, args, recovery');
    ToolEndShows(src', form, pos, name, args, recovery');
  }

  lemma FormatMeans(form: Format)
    requires StreamFormat(form)
    ensures form.lastToolEnd.None? && Sharp(form.toolEnd) && Sharp(form.keyStart)
    ensures !AgreesAt(form.toolEnd, form.keyStart, 0)
  {}

  /** Where a match after spaces begins. */
  lemma OpensAtFirst(src: Source, pos: nat, tag: string)
    requires pos <= |src.input| && Sharp(tag) && Opens(Search(src, pos, tag))
    ensures var k := Search(src, pos, tag).value.begin; k == SkipSpaces(src.input, pos) && AgreesAt(src.input, tag, k)
  {
    var r := Search(src, pos, tag).value;
    BegunByte(src, pos, tag);
    ConsumesPreludeAndMatch(src.input, src.partial, pos, tag);
    MatchAgreesWith(src.input, r.begin, r.end, tag);
    hide FindLiteral;
    forall j | pos <= j < r.begin ensures IsSpace(src.input[j]) {
      assert src.input[j] == r.prelude[j - pos];
    }
    SkipSpacesIs(src.input, pos, r.begin);
  }

  lemma MatchAgreesWith(s: string, begin: nat, end: nat, tag: string)
    requires begin < end <= |s| && tag != ""
    requires s[begin..end] == tag || (end == |s| && s[begin..] < tag)
    ensures AgreesAt(s, tag, begin) && s[begin] == tag[0]
  {
    if s[begin..end] == tag {
      assert s[begin..][..|tag|] == tag;
      assert s[begin] == s[begin..end][0];
    } else {
      assert s[begin] == s[begin..][0];
    }
  }

  lemma NoKeyAtToolEnd(src: Source, form: Format, pos: nat)
    requires pos <= |src.input| && Sharp(form.toolEnd) && Sharp(form.keyStart)
    requires !AgreesAt(form.toolEnd, form.keyStart, 0)
    requires Opens(Search(src, pos, form.toolEnd)) && Whole(Search(src, pos, form.toolEnd), form.toolEnd)
    ensures !Opens(Search(src, pos, form.keyStart))
  {
    OpensAtFirst(src, pos, form.toolEnd);
    WholeOccurs(src, pos, form.toolEnd);
    if Opens(Search(src, pos, form.keyStart)) {
      OpensAtFirst(src, pos, form.keyStart);
      BothAgree(src.input, SkipSpaces(src.input, pos), form.toolEnd, form.keyStart);
    }
  }

  lemma BothAgree(s: string, i: nat, a: string, b: string)
    requires OccursAt(s, a, i) && AgreesAt(s, b, i)
    ensures AgreesAt(a, b, 0)
  {
    assert s[i..][..|a|] == a && a[0..] == a;
    if b <= s[i..] {
      if |b| <= |a| { assert a[..|b|] == s[i..][..|b|] == b; } else { assert b[..|a|] == s[i..][..|a|] == a; }
    } else {
      assert b[..|a|] == s[i..][..|a|] == a;
    }
  }

  lemma ShowsAlready(r: CallStep, name: string, text: string)
    requires Shows(r, name) && text <= ShownText(r)
    ensures ShowsMore(r, name, text)
  {}

  /** From an unfinished key on, what is shown of the call grows. */
  lemma KeyStreams(src: Source, src': Source, form: Format, pos: nat, name: string, args: Members, recovery: bool,
                   w: string)
    requires Grows(src, src') && Reads(src', w, pos) && pos <= |src.input| && Streams(src', form, pos, name, args)
    requires KeyOpens(src, form, pos) && KeyOpens(src', form, pos)
    requires KeyPos(src', form, pos) == KeyPos(src, form, pos) <= |src.input|
    requires Reads(src', w, KeyPos(src, form, pos))
    requires !Whole(Search(src, KeyPos(src, form, pos), form.keyValSep), form.keyValSep)
    ensures ShowsMore(AfterName(src', form, pos, name, args, recovery), name,
                      DropQuote(KeyText(args, SeenText(src, KeyPos(src, form, pos), form.keyValSep))))
  {
    hide *;
    StreamsMeans(src', form, pos, name, args);
    KeyTagSharp(form);
    PairStep(src', form, pos, name, args, recovery);
    PairIs(src', form, pos, name, args);
    FreshKey(src', form, pos, name, args);
    var p := KeyPos(src, form, pos);
    var seen, k' := SeenText(src, p, form.keyValSep), Search(src', p, form.keyValSep);
    SeenGrows(src, src', p, form.keyValSep, w);
    SeenIs(src', p, form.keyValSep);
    WholeIs(k', form.keyValSep);
    var text := DropQuote(KeyText(args, seen));
    var r := AfterName(src', form, pos, name, args, recovery);
    if !Whole(k', form.keyValSep) {
      KeyGrows(args, seen, SeenText(src', p, form.keyValSep));
      ShowsPartial(name, DropQuote(KeyText(args, SeenText(src', p, form.keyValSep))), text);
    } else {
      var key, q := k'.value.prelude, k'.value.end;
      if MidBroken(src', form, q) {
        Broken(r, name, text);
      } else if PairDone(src', form, q) {
        KeyBeforeArg(args, seen, key, DumpValue(PairValue(src', form, q)));
        NextShows(src', form, name, args, key, q, text);
      } else {
        KeyBeforeArg(args, seen, key, PairBegun(src', form, q));
        ShowsPartial(name, ShownArg(args, key, PairBegun(src', form, q)), text);
      }
    }
  }

  lemma KeyTagSharp(form: Format)
    requires StreamFormat(form)
    ensures Sharp(form.keyValSep) && Sharp(form.keyStart)
  {}

  /** After a finished argument everything up to it stays shown. */
  lemma NextShows(src: Source, form: Format, name: string, args: Members, key: string, q: nat, text: string)
    requires q <= |src.input| && PairDone(src, form, q) && !HasKey(args, key)
    requires Streams(src, form, PairEnd(src, form, q), name, args + [(key, PairValue(src, form, q))])
    requires text <= ShownArg(args, key, DumpValue(PairValue(src, form, q)))
    ensures ShowsMore(AfterName(src, form, PairEnd(src, form, q), name,
                                args + [(key, PairValue(src, form, q))], false), name, text)
  {
    hide *;
    var all := args + [(key, PairValue(src, form, q))];
    ShowsAtLeast(src, form, PairEnd(src, form, q), name, all, false);
    OpenWithArg(args, key, PairValue(src, form, q));
    ShowsLess(AfterName(src, form, PairEnd(src, form, q), name, all, false), name, OpenDump(all), text);
  }

  /** From an unfinished value on, what is shown of the call grows. */
  lemma ValueStreams(src: Source, src': Source, form: Format, pos: nat, name: string, args: Members, recovery: bool,
                     q: nat, key: string, w: string)
    requires Grows(src, src') && q <= |src.input| && Reads(src', w, q) && Streams(src', form, pos, name, args)
    requires KeyOpens(src', form, pos) && !PairDone(src, form, q) && EndsAtChar(src, form)
    requires var k := Search(src', KeyPos(src', form, pos), form.keyValSep);
             Whole(k, form.keyValSep) && k.value.end == q && k.value.prelude == key
    ensures ShowsMore(AfterName(src', form, pos, name, args, recovery), name,
                      ShownArg(args, key, PairBegun(src, form, q)))
  {
    hide *;
    StreamsMeans(src', form, pos, name, args);
    PairStep(src', form, pos, name, args, recovery);
    PairIs(src', form, pos, name, args);
    FreshKey(src', form, pos, name, args);
    GrowsMeans(src, src');
    PairGrows(src, src', form, q, w);
    var begun := PairBegun(src, form, q);
    var text := ShownArg(args, key, begun);
    if MidBroken(src', form, q) {
      Broken(AfterName(src', form, pos, name, args, recovery), name, text);
    } else if PairDone(src', form, q) {
      ShownArgGrows(args, key, begun, DumpValue(PairValue(src', form, q)));
      NextShows(src', form, name, args, key, q, text);
    } else {
      ShownArgGrows(args, key, begun, PairBegun(src', form, q));
      ShowsPartial(name, ShownArg(args, key, PairBegun(src', form, q)), text);
    }
  }

  lemma FinishedText(src: Source, form: Format, pos: nat, name: string, args: Members, recovery: bool)
    requires pos <= |src.input| && form.lastToolEnd.None? && name != "" && !KeyOpens(src, form, pos)
    ensures var r := AfterName(src, form, pos, name, args, recovery);
            !Retracts(r) ==> Shows(r, name) && (r.CallParsed? || ShownText(r) == OpenDump(args))
  {
    hide *;
    ShowsFinished(src, form, pos, name, args, recovery);
    AfterNameSteps(src, form, pos, name, args, recovery);
    ToolEndShows(src, form, pos, name, args, recovery);
    NamedIs(name, OpenDump(args));
    KeyOpensIs(src, form, pos);
    ShowsPartial(name, OpenDump(args), OpenDump(args));
    var r := AfterName(src, form, pos, name, args, recovery);
    MoreMeans(r, name, OpenDump(args));
    if r.CallRefused? { Broken(r, name, ""); }
  }

  lemma MoreMeans(r: CallStep, name: string, text: string)
    ensures ShowsMore(r, name, text) <==> Retracts(r) || (Shows(r, name) && text <= ShownText(r))
  {
    hide Retracts; hide Shows; hide ShownText;
  }

  /** Streaming law: for a growing text whose delimiters are as they should be, what the parser shows of a call after
      its name, unless it takes it back, is a beginning of what it shows of the call in any longer text; and a
      finished call stays as it is. */
  lemma {:induction false} CallStreams(src: Source, src': Source, form: Format, pos: nat, name: string, args: Members,
                                       recovery: bool, recovery': bool, w: string)
    requires Grows(src, src') && Reads(src', w, pos) && pos <= |src.input| && Streams(src', form, pos, name, args)
    requires EndsAtChar(src, form)
    ensures var a := AfterName(src, form, pos, name, args, recovery);
            var b := AfterName(src', form, pos, name, args, recovery');
            !Retracts(a) ==>
              && Shows(a, name) && ShowsMore(b, name, ShownText(a))
              && (a.CallParsed? ==> b == a)
    decreases |src.input| - pos, 1
  {
    hide *;
    StreamsShorter(src, src', form, pos, name, args, w);
    StreamsMeans(src', form, pos, name, args);
    var a := AfterName(src, form, pos, name, args, recovery);
    if !Retracts(a) {
      if !KeyOpens(src, form, pos) {
        FinishedText(src, form, pos, name, args, recovery);
        if a.CallParsed? {
          ParsedStays(src, src', form, pos, name, args, recovery, recovery');
          ShowsAlready(a, name, ShownText(a));
        } else {
          ShowsAtLeast(src', form, pos, name, args, recovery');
        }
      } else {
        KeyStays(src, src', form, pos, w);
        PairStep(src, form, pos, name, args, recovery);
        PairIs(src, form, pos, name, args);
        FreshKey(src, form, pos, name, args);
        var p := KeyPos(src, form, pos);
        var k := Search(src, p, form.keyValSep);
        if !Whole(k, form.keyValSep) {
          ShowsPartial(name, DropQuote(KeyText(args, SeenText(src, p, form.keyValSep))), "");
          EmptyBegins(DropQuote(KeyText(args, SeenText(src, p, form.keyValSep))));
          MoreMeans(a, name, "");
          KeyStreams(src, src', form, pos, name, args, recovery', w);
        } else {
          WholeIs(k, form.keyValSep);
          SepStays(src, src', form, p, w);
          PairStreams(src, src', form, pos, name, args, recovery, recovery', w);
        }
      }
    }
  }

  lemma PairStreams(src: Source, src': Source, form: Format, pos: nat, name: string, args: Members,
                    recovery: bool, recovery': bool, w: string)
    requires Grows(src, src') && Reads(src', w, pos) && pos <= |src.input|
    requires Streams(src', form, pos, name, args) && Streams(src, form, pos, name, args) && EndsAtChar(src, form)
    requires KeyOpens(src, form, pos) && KeyOpens(src', form, pos)
    requires KeyPos(src', form, pos) == KeyPos(src, form, pos)
    requires Reads(src', w, KeyPos(src, form, pos))
    requires var k := Search(src, KeyPos(src, form, pos), form.keyValSep);
             && Whole(k, form.keyValSep) && Search(src', KeyPos(src, form, pos), form.keyValSep) == k
             && Reads(src', w, k.value.end)
    ensures var a := AfterName(src, form, pos, name, args, recovery);
            var b := AfterName(src', form, pos, name, args, recovery');
            !Retracts(a) ==>
              && Shows(a, name) && ShowsMore(b, name, ShownText(a))
              && (a.CallParsed? ==> b == a)
    decreases |src.input| - pos, 0
  {
    hide *;
    GrowsMeans(src, src');
    StreamsMeans(src', form, pos, name, args);
    PairStep(src, form, pos, name, args, recovery);
    PairIs(src, form, pos, name, args);
    PairStep(src', form, pos, name, args, recovery');
    PairIs(src', form, pos, name, args);
    FreshKey(src, form, pos, name, args);
    FreshKey(src', form, pos, name, args);
    var k := Search(src, KeyPos(src, form, pos), form.keyValSep);
    WholeIs(k, form.keyValSep);
    var key, q := k.value.prelude, k.value.end;
    var a := AfterName(src, form, pos, name, args, recovery);
    if MidBroken(src, form, q) {
      Broken(a, name, "");
    } else if PairDone(src, form, q) {
      PairGrows(src, src', form, q, w);
      MidStays(src, src', form, q);
      CallStreams(src, src', form, PairEnd(src, form, q), name, args + [(key, PairValue(src, form, q))],
                  false, false, w);
    } else {
      var text := ShownArg(args, key, PairBegun(src, form, q));
      EmptyBegins(text);
      ShowsPartial(name, text, "");
      MoreMeans(a, name, "");
      ValueStreams(src, src', form, pos, name, args, recovery', q, key, w);
    }
  }

  /** At the end of a text, only the finished arguments are shown. */
  lemma NothingMore(src: Source, form: Format, name: string, args: Members, recovery: bool)
    requires StreamFormat(form) && name != ""
    ensures AfterName(src, form, |src.input|, name, args, recovery) ==
            CallThrown(PartialError, [ToolCall(name, OpenDump(args), "")])
  {
    hide Search; hide Sharp; hide AgreesAt; hide AllSpace; hide OpenDump; hide AfterName; hide ParseToolEnd; hide Dump;
    var n := |src.input|;
    NothingAtEnd(src, form.keyStart);
    NothingAtEnd(src, form.toolEnd);
    AfterNameSteps(src, form, n, name, args, recovery);
    ToolEndShows(src, form, n, name, args, recovery);
  }

  // ------------------------------------------------------------ a key given twice

  /** Where the text ends with a separator, nothing of the value is shown. */
  lemma NothingOfValue(src: Source, form: Format, key: string, name: string, args: Members)
    requires StreamFormat(form) && GoodPair(src, form, |src.input|)
    ensures ParseAfterKey(src, form, |src.input|, key, name, args) == FlaggedStep(name, args, key)
  {
    hide Sharp; hide AgreesAt; hide FindLiteral; hide ParseValue; hide ParseText; hide FlaggedStep; hide GoodValue;
    hide PathOf; hide ParseOpenJson;
    var n := |src.input|;
    AfterKeySteps(src, form, n, key, name, args);
    if form.keyValSep2.Some? {
      NothingAtEnd(src, form.keyValSep2.value);
    } else {
      PathMeans(src, form, n, key, name, args);
      NothingAtEnd(src, form.valEnd);
      NothingRead(src, form);
      if PathOf(src, form, n).AsText? { NoText(src, form, key, name, args); }
    }
  }

  lemma NothingRead(src: Source, form: Format)
    requires StreamFormat(form) && GoodValue(src, form, |src.input|)
    ensures var p := PathOf(src, form, |src.input|); p.HeldBack? || (p.AsText? && form.lastValEnd.None?)
  {
    hide *;
    var n := |src.input|;
    SharpEnd(form);
    GoodMeans(src, form, n);
    AllSkipped(src.input);
    if form.rawArgval.None? {
      SteadyNow(src, n);
      PlainPath(src, form, n);
      NoJsonAtEnd(src);
      NothingIsScalar(src, n);
    } else if form.rawArgval.value {
      TextPath(src, form, n);
    } else {
      KnowsBoth(src.readJson);
      JsonValueIs(src, form, n);
      BlankHeld(src, form, n);
    }
  }

  lemma NoJsonAtEnd(src: Source)
    ensures !JsonAt(src, |src.input|).Read?
  {}

  lemma NoText(src: Source, form: Format, key: string, name: string, args: Members)
    requires form.lastValEnd.None? && Search(src, |src.input|, form.valEnd).None?
    requires form.valEnd != ""
    ensures ParseText(src, form, |src.input|, key, name, args) == FlaggedStep(name, args, key)
  {
    hide FindLiteral; hide PartialCall; hide Put; hide Sharp; hide AgreesAt;
    var n := |src.input|;
    TextShows(src, form, n, key, name, args);
    FlaggedIs(name, args, key);
    assert src.input[n..] == "" && SafeRest(src, n) == "" && TrimValue(form, "") == "" && "" + Flag == Flag;
  }

  /** The dump that ends before the value is shorter than the dump with the value. */
  lemma ShorterWithout(key: string, value: string)
    ensures |ShownArg([], key, "")| < |OpenDump([(key, Str(value))])|
  {
    hide *;
    NoKeyYet(key);
    OpenWithArg([], key, Str(value));
    assert [] + [(key, Str(value))] == [(key, Str(value))];
    DumpStr(value);
    QuoteIs(value);
    ShownArgIs([], key, "");
    ShownArgIs([], key, DumpValue(Str(value)));
  }

  lemma NoKeyYet(key: string)
    ensures !HasKey([], key)
  {}

  lemma PutAgain(key: string, old_: Value, value: Value)
    ensures Put([(key, old_)], key, value) == Put([], key, value)
  {}

  /** Keys must be new: when a key comes a second time, the value already shown for it is taken back, although
      nothing is refused. `early` is the text up to the second key, `src` ends with its separator. */
  lemma RepeatedKeyRetracts(early: Source, src: Source, form: Format, name: string, key: string, value: string,
                            recovery: bool)
    requires Grows(early, src) && StreamFormat(form) && name != "" && KeyOpens(src, form, |early.input|)
    requires var k := Search(src, KeyPos(src, form, |early.input|), form.keyValSep);
             Whole(k, form.keyValSep) && k.value.prelude == key && k.value.end == |src.input|
    requires GoodPair(src, form, |src.input|)
    ensures |early.input| <= |src.input|
    ensures var a := AfterName(early, form, |early.input|, name, [(key, Str(value))], recovery);
            var b := AfterName(src, form, |early.input|, name, [(key, Str(value))], recovery);
            && Shows(a, name) && Shows(b, name) && !Retracts(b) && !(ShownText(a) <= ShownText(b))
  {
    hide *;
    var n, args := |early.input|, [(key, Str(value))];
    GrowsMeans(early, src);
    NothingMore(early, form, name, args, recovery);
    ShowsPartial(name, OpenDump(args), OpenDump(args));
    KeyOpensMeans(src, form, n);
    AfterNameSteps(src, form, n, name, args, recovery);
    var p := KeyPos(src, form, n);
    SearchIs(src, p, form.keyValSep);
    WholeIs(Search(src, p, form.keyValSep), form.keyValSep);
    KeySteps(src, form, p, name, args);
    NothingOfValue(src, form, key, name, args);
    FlaggedIs(name, args, key);
    FlaggedIs(name, [], key);
    PutAgain(key, Str(value), Str(Flag));
    NoKeyYet(key);
    HeldShows(name, [], key);
    ShowingIs(name, [], key, "");
    var text := ShownArg([], key, "");
    ShowsPartial(name, text, text);
    ShorterWithout(key, value);
    MoreMeans(CallThrown(PartialError, [ToolCall(name, text, "")]), name, text);
    MoreMeans(CallThrown(PartialError, [ToolCall(name, OpenDump(args), "")]), name, OpenDump(args));
  }
}
