/** The XML-style tool-call parser itself, on the cursor class. */
module XmlToolCall {
  import opened Wrappers
  import opened Text
  import opened ChatTypes
  import opened LiteralSearch
  import opened ChatParser
  import opened CommonStrings
  import opened Json
  import opened XmlSpec
  import opened Utf8

  function SourceOf(p: MsgParser): (src: Source)
    ensures src.input == p.input && src.partial == p.isPartial
  {
    Source(p.input, p.isPartial, p.syntax.kimiK2, p.readJson)
  }

  /** After a match of the first literal: spaces, then the second literal as far as the input goes. */
  method TryConsumeSecond(p: MsgParser, start: nat, begin: nat, literal2: string) returns (r: Option<Match>)
    requires p.Valid() && start <= begin <= |p.input|
    modifies p`pos
    ensures p.Valid()
    ensures var next := SkipSpaces(p.input, old(p.pos));
            var left := |p.input| - next;
            r == if AgreesAt(p.input, literal2, next)
                 then Some(Match(p.input[start..begin], begin, next + if |literal2| < left then |literal2| else left))
                 else None
    ensures r.Some? ==> p.pos == r.value.end
  {
    var consumed := p.ConsumeSpaces();
    var agrees := p.TagAgrees(literal2, p.pos);
    if !agrees {
      return None;
    }
    var left := |p.input| - p.pos;
    var _ := p.MoveTo(p.pos + if |literal2| < left then |literal2| else left);
    return Some(Match(p.input[start..begin], begin, p.pos));
  }

  lemma FindTwoIs(src: Source, pos: nat, literal1: string, literal2: string)
    requires pos <= |src.input|
    ensures FindTwo(src, pos, literal1, literal2) ==
            if literal1 == "" then FindLiteral(src.input, src.partial, pos, literal2)
            else FindTwoFrom(src, pos, pos, literal1, literal2)
  {}

  lemma InsideIsValid(p: MsgParser)
    ensures p.Valid() <==> p.pos <= |p.input|
  {}

  /** `try_find_2_literal_splited_by_spaces` */
  method TryFindTwoLiterals(p: MsgParser, literal1: string, literal2: string) returns (r: Option<Match>)
    requires p.Valid()
    modifies p`pos
    ensures p.Valid()
    ensures r == FindTwo(SourceOf(p), old(p.pos), literal1, literal2)
    ensures p.pos == if r.Some? then r.value.end else old(p.pos)
  {
    hide *;
    InsideIsValid(p);
    FindTwoIs(SourceOf(p), p.pos, literal1, literal2);
    if literal1 == "" {
      r := p.TryFindLiteral(literal2);
      return;
    }
    var savedPos, src := p.pos, SourceOf(p);
    while true
      invariant p.Valid() && savedPos <= p.pos <= |p.input|
      invariant FindTwoFrom(src, savedPos, p.pos, literal1, literal2) ==
                FindTwoFrom(src, savedPos, savedPos, literal1, literal2)
      decreases |p.input| - p.pos
    {
      InsideIsValid(p);
      FindTwoStep(src, savedPos, p.pos, literal1, literal2);
      r := p.TryFindLiteral(literal1);
      if r.None? {
        break;
      }
      var begin := r.value.begin;
      r := TryConsumeSecond(p, savedPos, begin, literal2);
      if r.Some? {
        return;
      }
      var _ := p.MoveTo(begin + 1);
    }
    var _ := p.MoveTo(savedPos);
    return None;
  }

  method TryFindClose(p: MsgParser, end: string, altEnd: Option<string>, endNext: string, altEndNext: Option<string>)
      returns (r: Close)
    requires p.Valid()
    modifies p`pos
    ensures p.Valid()
    ensures r == FindClose(SourceOf(p), old(p.pos), end, altEnd, endNext, altEndNext)
    ensures p.pos == if r.found.Some? then r.found.value.end else old(p.pos)
  {
    hide FindTwo; hide FindLiteral; hide FindClose;
    CloseSteps(SourceOf(p), p.pos, end, altEnd, endNext, altEndNext);
    var savedPos := p.pos;
    var tc := p.TryFindLiteral(end);
    if altEnd.None? {
      return Close(|end|, tc);
    }
    var pos1 := p.pos;
    var _ := p.MoveTo(savedPos);
    var tc2 := TryFindTwoLiterals(p, altEnd.value, endNext);
    if altEndNext.Some? {
      var _ := p.MoveTo(savedPos);
      var tc3 := TryFindTwoLiterals(p, altEnd.value, altEndNext.value);
      if Earlier(tc3, tc2) {
        tc2 := tc3;
      }
    }
    if Earlier(tc2, tc) {
      var stop := AltEnd(SourceOf(p), tc2.value, altEnd.value);
      var _ := p.MoveTo(stop);
      return Close(|altEnd.value|, Some(tc2.value.(end := stop)));
    }
    var _ := p.MoveTo(pos1);
    return Close(|end|, tc);
  }

  method TryFindValEnd(p: MsgParser, form: Format) returns (r: Close)
    requires p.Valid()
    modifies p`pos
    ensures p.Valid()
    ensures r == FindValEnd(SourceOf(p), form, old(p.pos))
    ensures p.pos == if r.found.Some? then r.found.value.end else old(p.pos)
  {
    r := TryFindClose(p, form.valEnd, form.lastValEnd, form.toolEnd, form.lastToolEnd);
  }

  method TryFindToolEnd(p: MsgParser, form: Format) returns (r: Close)
    requires p.Valid()
    modifies p`pos
    ensures p.Valid()
    ensures r == FindToolEnd(SourceOf(p), form, old(p.pos))
    ensures p.pos == if r.found.Some? then r.found.value.end else old(p.pos)
  {
    r := TryFindClose(p, form.toolEnd, form.lastToolEnd, form.scopeEnd, None);
  }

  /** `gen_partial_json` after the arguments have been flagged. */
  method AddPartialCall(p: MsgParser, name: string, args: Members)
    modifies p`toolCalls
    ensures p.toolCalls == old(p.toolCalls) + PartialCall(name, args)
  {
    var text := CutAtFlag(Dump(args));
    if text.Some? {
      var added := p.AddToolCall(name, "", text.value);
    }
  }

  lemma PreludeStart(input: string, pos: nat, m: Match)
    requires pos <= m.begin <= |input| && PreludeFrom(input, pos, m)
    ensures m.begin - |m.prelude| == pos
  {}

  method ReadNameEnd(p: MsgParser, form: Format) returns (r: NameMatch)
    requires p.Valid()
    modifies p`pos
    ensures p.Valid()
    ensures r == FindNameEnd(SourceOf(p), form, old(p.pos))
  {
    hide *;
    InsideIsValid(p);
    NameEndSteps(SourceOf(p), form, p.pos);
    var start := p.pos;
    var funcName := p.TryFindLiteral(if AllSpace(form.toolSep) then form.keyStart else form.toolSep);
    if funcName.None? {
      var close := TryFindToolEnd(p, form);
      funcName := close.found;
    }
    if funcName.None? {
      return NoMatch(PartialError);
    }
    if HoldsToolEnd(form, funcName.value.prelude) {
      PreludeStart(p.input, start, funcName.value);
      var _ := p.MoveTo(funcName.value.begin - |funcName.value.prelude|);
      var close := TryFindToolEnd(p, form);
      funcName := close.found;
      if funcName.None? {
        return NoMatch(NullDeref);
      }
    }
    return MatchAt(funcName.value);
  }

  method ReadToolName(p: MsgParser, form: Format) returns (r: NameStep)
    requires p.Valid()
    modifies p`pos
    ensures p.Valid()
    ensures r == FindName(SourceOf(p), form, old(p.pos))
    ensures r.Named? ==> p.pos == r.pos
  {
    var funcName := ReadNameEnd(p, form);
    if funcName.NoMatch? {
      return NoName(funcName.ending);
    }
    var _ := p.MoveTo(if AllSpace(form.toolSep) then funcName.m.begin else funcName.m.end);
    var name := StripText(funcName.m.prelude);
    if p.syntax.kimiK2 {
      name := KimiName(name);
    }
    return Named(name, p.pos);
  }

  method AddFlaggedCall(p: MsgParser, name: string, args: Members, key: string) returns (r: ArgStep)
    modifies p`toolCalls
    ensures r == FlaggedStep(name, args, key)
    ensures p.toolCalls == old(p.toolCalls) + r.extra
  {
    AddPartialCall(p, name, Put(args, key, Str(Flag)));
    return FlaggedStep(name, args, key);
  }

  /** The rest of the input, cut at a whole character. */
  method ConsumeSafeRest(p: MsgParser) returns (rest: string)
    requires p.Valid()
    modifies p`pos
    ensures p.Valid() && p.pos <= |p.input| && rest == SafeRest(SourceOf(p), old(p.pos))
  {
    hide TruncateSafe;
    rest := p.ConsumeRest();
    var safe := TruncateSafeLength(rest);
    rest := rest[..safe];
  }

  method ReadText(p: MsgParser, form: Format, key: string, name: string, args: Members) returns (r: ArgStep)
    requires p.Valid()
    modifies p`pos, p`toolCalls
    ensures p.Valid()
    ensures r == ParseText(SourceOf(p), form, old(p.pos), key, name, args)
    ensures p.toolCalls == old(p.toolCalls) + if r.ArgThrown? then r.extra else []
    ensures r.Arg? ==> p.pos == r.pos
  {
    hide FindValEnd; hide PartialCall; hide Put; hide Strip; hide SafeRest;
    var close := TryFindValEnd(p, form);
    if close.found.None? {
      var rest := ConsumeSafeRest(p);
      if form.trimRawArgval {
        rest := StripText(rest);
      }
      AddPartialCall(p, name, Put(args, key, Str(rest + Flag)));
      return ArgThrown(PartialError, PartialCall(name, Put(args, key, Str(rest + Flag))));
    }
    var value := close.found.value.prelude;
    if form.trimRawArgval {
      value := StripText(value);
    }
    if close.found.value.end - close.found.value.begin != close.size {
      AddPartialCall(p, name, Put(args, key, Str(value + Flag)));
      return ArgThrown(PartialError, PartialCall(name, Put(args, key, Str(value + Flag))));
    }
    return Arg(key, Str(value), p.pos);
  }

  /** The attempt at JSON, and the handler that moves back when it throws. */
  method AttemptJson(p: MsgParser) returns (r: Attempt)
    requires p.Valid()
    modifies p`pos
    ensures p.Valid()
    ensures r == JsonAt(SourceOf(p), old(p.pos))
    ensures p.pos == old(p.pos) + if r.Read? then r.size else 0
  {
    r := AttemptAt(p.readJson, p.input, p.isPartial, p.pos);
    if r.Read? {
      p.pos := p.pos + r.size;
    }
  }

  /** The test for an unfinished scalar, which takes the rest of the input when it succeeds. */
  method ConsumeScalar(p: MsgParser) returns (ahead: bool)
    requires p.Valid()
    modifies p`pos
    ensures p.Valid()
    ensures ahead <==> ScalarAhead(SourceOf(p), old(p.pos))
    ensures p.pos == if ahead then |p.input| else old(p.pos)
  {
    var valStart := p.pos;
    var consumed := p.ConsumeSpaces();
    var to := TruncateSafeLength(p.input);
    var rest := if p.pos <= to then p.input[p.pos..to] else "";
    ahead := (|rest| < 6 && (rest <= "null" || rest <= "true" || rest <= "false")) || NumberText(rest);
    if ahead {
      rest := p.ConsumeRest();
    } else {
      var _ := p.MoveTo(valStart);
    }
  }

  /** What is shown of a value read as JSON with nothing after it. */
  method AddOpenJson(p: MsgParser, form: Format, json: Attempt, key: string, name: string, args: Members)
      returns (r: ArgStep)
    requires json.Read?
    modifies p`toolCalls
    ensures r == ParseOpenJson(form, json, key, name, args)
    ensures p.toolCalls == old(p.toolCalls) + r.extra
  {
    if form.rawArgval != Some(false) || !Structured(json.value) {
      r := AddFlaggedCall(p, name, args, key);
      return;
    }
    var dumped := Dump(Put(args, key, json.value));
    if json.dumpMarker != "" {
      var marked := FindLast(dumped, json.dumpMarker, |dumped|);
      if marked.None? {
        return ArgThrown(AssertFails, []);
      }
      dumped := dumped[..marked.value];
    } else {
      dumped := dumped[..|dumped| - 1];
    }
    var added := p.AddToolCall(name, "", dumped);
    return ArgThrown(PartialError, NamedCall(name, dumped));
  }

  lemma OpenJsonThrows(form: Format, json: Attempt, key: string, name: string, args: Members)
    requires json.Read?
    ensures ParseOpenJson(form, json, key, name, args).ArgThrown?
  {}

  method TryFindClosedJson(p: MsgParser, form: Format, marker: string) returns (r: Close)
    requires p.Valid()
    modifies p`pos
    ensures p.Valid()
    ensures r == ClosedJson(SourceOf(p), form, old(p.pos), marker)
    ensures r.found.Some? ==> p.pos == r.found.value.end
  {
    hide FindValEnd;
    r := TryFindValEnd(p, form);
    if r.found.None? || !AllSpace(r.found.value.prelude) || marker != "" {
      return Close(0, None);
    }
  }

  method ReadJsonValue(p: MsgParser, form: Format, json: Attempt, key: string, name: string, args: Members)
      returns (r: ArgStep)
    requires p.Valid() && json.Read? && 0 < json.size <= p.pos
    modifies p`pos, p`toolCalls
    ensures p.Valid()
    ensures r == ParseJson(SourceOf(p), form, old(p.pos) - json.size, json, key, name, args)
    ensures p.toolCalls == old(p.toolCalls) + if r.ArgThrown? then r.extra else []
    ensures r.Arg? ==> p.pos == r.pos
  {
    hide *;
    InsideIsValid(p);
    JsonSteps(SourceOf(p), form, p.pos - json.size, json, key, name, args);
    OpenJsonThrows(form, json, key, name, args);
    var jsonEnd := p.pos;
    var consumed := p.ConsumeSpaces();
    if p.pos == |p.input| {
      r := AddOpenJson(p, form, json, key, name, args);
      InsideIsValid(p);
      return;
    }
    var _ := p.MoveTo(jsonEnd);
    var close := TryFindClosedJson(p, form, json.marker);
    if close.found.Some? {
      if close.found.value.end - close.found.value.begin != close.size {
        r := AddFlaggedCall(p, name, args, key);
        InsideIsValid(p);
        return;
      }
      return Arg(key, json.value, p.pos);
    }
    var _ := p.MoveTo(jsonEnd - json.size);
    r := ReadText(p, form, key, name, args);
  }

  method ReadValue(p: MsgParser, form: Format, key: string, name: string, args: Members) returns (r: ArgStep)
    requires p.Valid()
    modifies p`pos, p`toolCalls
    ensures p.Valid()
    ensures r == ParseValue(SourceOf(p), form, old(p.pos), key, name, args)
    ensures p.toolCalls == old(p.toolCalls) + if r.ArgThrown? then r.extra else []
    ensures r.Arg? ==> p.pos == r.pos
  {
    hide *;
    InsideIsValid(p);
    ValueSteps(SourceOf(p), form, p.pos, key, name, args);
    if form.rawArgval != Some(true) {
      var json := AttemptJson(p);
      if json.Throws? {
        return ArgThrown(JsonError, []);
      }
      if json.Read? {
        r := ReadJsonValue(p, form, json, key, name, args);
        return;
      }
      var scalar := ConsumeScalar(p);
      if scalar {
        r := AddFlaggedCall(p, name, args, key);
        InsideIsValid(p);
        return;
      }
    }
    r := ReadText(p, form, key, name, args);
  }

  method AddFlaggedKey(p: MsgParser, name: string, args: Members, key: string) returns (r: ArgStep)
    modifies p`toolCalls
    ensures r == FlaggedKeyStep(name, args, key)
    ensures p.toolCalls == old(p.toolCalls) + r.extra
  {
    AddPartialCall(p, name, Put(args, key + Flag, Str("")));
    return FlaggedKeyStep(name, args, key);
  }

  method ReadAfterKey(p: MsgParser, form: Format, key: string, name: string, args: Members) returns (r: ArgStep)
    requires p.Valid()
    modifies p`pos, p`toolCalls
    ensures p.Valid()
    ensures r == ParseAfterKey(SourceOf(p), form, old(p.pos), key, name, args)
    ensures p.toolCalls == old(p.toolCalls) + if r.ArgThrown? then r.extra else []
    ensures r.Arg? ==> p.pos == r.pos
  {
    hide *;
    InsideIsValid(p);
    AfterKeySteps(SourceOf(p), form, p.pos, key, name, args);
    if form.keyValSep2.Some? {
      var tc := p.TryFindLiteral(form.keyValSep2.value);
      if tc.Some? && !AllSpace(tc.value.prelude) {
        return ArgThrown(SyntaxError, []);
      }
      if tc.None? || tc.value.end - tc.value.begin != |form.keyValSep2.value| {
        r := AddFlaggedCall(p, name, args, key);
        InsideIsValid(p);
        return;
      }
    }
    r := ReadValue(p, form, key, name, args);
  }

  method ReadKeyAndValue(p: MsgParser, form: Format, name: string, args: Members) returns (r: ArgStep)
    requires p.Valid()
    modifies p`pos, p`toolCalls
    ensures p.Valid()
    ensures r == ParseKeyAndValue(SourceOf(p), form, old(p.pos), name, args)
    ensures p.toolCalls == old(p.toolCalls) + if r.ArgThrown? then r.extra else []
    ensures r.Arg? ==> p.pos == r.pos
  {
    hide *;
    InsideIsValid(p);
    KeySteps(SourceOf(p), form, p.pos, name, args);
    var keyRes := p.TryFindLiteral(form.keyValSep);
    if keyRes.None? {
      var rest := ConsumeSafeRest(p);
      r := AddFlaggedKey(p, name, args, rest);
      InsideIsValid(p);
      return;
    }
    var key := keyRes.value.prelude;
    if keyRes.value.end - keyRes.value.begin != |form.keyValSep| {
      r := AddFlaggedKey(p, name, args, key);
      InsideIsValid(p);
      return;
    }
    r := ReadAfterKey(p, form, key, name, args);
  }

  /** The inner loop: all arguments of one call. */
  method ReadArguments(p: MsgParser, form: Format, name: string, recovery0: bool) returns (r: ArgsStep)
    requires p.Valid()
    modifies p`pos, p`toolCalls
    ensures p.Valid()
    ensures r == ParseArgs(SourceOf(p), form, old(p.pos), name, [], recovery0)
    ensures p.toolCalls == old(p.toolCalls) + if r.ArgsThrown? then r.extra else []
    ensures r.ArgsDone? ==> p.pos == r.pos
  {
    hide FindLiteral; hide ParseKeyAndValue; hide ParseArgs; hide AllSpace; hide OpenDump; hide Put;
    InsideIsValid(p);
    var src := SourceOf(p);
    ghost var whole := ParseArgs(src, form, p.pos, name, [], recovery0);
    var args, recovery := [], recovery0;
    while true
      invariant p.Valid() && p.toolCalls == old(p.toolCalls)
      invariant ParseArgs(src, form, p.pos, name, args, recovery) == whole
      decreases |p.input| - p.pos
    {
      InsideIsValid(p);
      ArgsSteps(src, form, p.pos, name, args, recovery);
      var tc := p.TryFindLiteral(form.keyStart);
      if tc.None? {
        return ArgsDone(p.pos, args, recovery);
      }
      if !AllSpace(tc.value.prelude) {
        var _ := p.MoveTo(tc.value.begin - |tc.value.prelude|);
        return ArgsDone(p.pos, args, recovery);
      }
      if tc.value.end - tc.value.begin != |form.keyStart| {
        var added := p.AddToolCall(name, "", OpenDump(args));
        return ArgsThrown(PartialError, NamedCall(name, OpenDump(args)));
      }
      var step := ReadKeyAndValue(p, form, name, args);
      if step.ArgThrown? {
        return ArgsThrown(step.ending, step.extra);
      }
      args, recovery := Put(args, step.key, step.value), false;
    }
  }

  method ReadToolEnd(p: MsgParser, form: Format, name: string, args: Members, recovery: bool) returns (r: CallStep)
    requires p.Valid()
    modifies p`pos, p`toolCalls
    ensures p.Valid()
    ensures r == ParseToolEnd(SourceOf(p), form, old(p.pos), name, args, recovery)
    ensures p.toolCalls == old(p.toolCalls) + match r case CallThrown(_, extra) => extra
                                                      case CallRefused(_) => []
                                                      case CallParsed(call, _) => [call]
    ensures r.CallParsed? ==> p.pos == r.pos
  {
    var close := TryFindToolEnd(p, form);
    if close.found.Some? {
      var tc := close.found.value;
      if !AllSpace(tc.prelude) {
        return CallRefused(recovery);
      }
      if tc.end - tc.begin == close.size {
        var added := p.AddToolCall(name, "", Dump(args));
        if !added {
          return CallThrown(PartialError, []);
        }
        return CallParsed(ToolCall(name, Dump(args), ""), p.pos);
      }
    }
    var added := p.AddToolCall(name, "", OpenDump(args));
    return CallThrown(PartialError, NamedCall(name, OpenDump(args)));
  }

  method ReadCall(p: MsgParser, form: Format, recovery: bool) returns (r: CallStep)
    requires p.Valid()
    modifies p`pos, p`toolCalls
    ensures p.Valid()
    ensures r == ParseCall(SourceOf(p), form, old(p.pos), recovery)
    ensures p.toolCalls == old(p.toolCalls) + match r case CallThrown(_, extra) => extra
                                                      case CallRefused(_) => []
                                                      case CallParsed(call, _) => [call]
    ensures r.CallParsed? ==> p.pos == r.pos
  {
    hide *;
    InsideIsValid(p);
    CallSteps(SourceOf(p), form, p.pos, recovery);
    var name := ReadToolName(p, form);
    if name.NoName? {
      return CallThrown(name.ending, []);
    }
    var args := ReadArguments(p, form, name.name, recovery);
    if args.ArgsThrown? {
      return CallThrown(args.ending, args.extra);
    }
    r := ReadToolEnd(p, form, name.name, args.args, args.recovery);
  }

  method ReadScopeEnd(p: MsgParser, form: Format, start: nat, recovery: bool) returns (ending: Ending)
    requires p.Valid() && start <= |p.input|
    modifies p`pos
    ensures p.Valid()
    ensures var out := ParseScopeEnd(SourceOf(p), form, start, old(p.pos), p.toolCalls, recovery);
            ending == out.ending && (ending.ReturnTrue? || ending.ReturnFalse? ==> p.pos == out.pos)
  {
    var tc := p.TryFindLiteral(form.scopeEnd);
    if tc.Some? {
      if AllSpace(tc.value.prelude) {
        return ReturnTrue;
      }
    } else {
      if AllSpace(form.scopeEnd) {
        return ReturnTrue;
      }
      var consumed := p.ConsumeSpaces();
      if p.pos == |p.input| {
        return PartialError;
      }
    }
    if recovery {
      var _ := p.MoveTo(start);
      return ReturnFalse;
    }
    return SyntaxError;
  }

  /** The opening of the scope; `ends` when the parse stops there. */
  method ReadScopeStart(p: MsgParser, form: Format) returns (ends: bool, ending: Ending)
    requires p.Valid()
    modifies p`pos
    ensures p.Valid()
    ensures var out := ParseToolCalls(SourceOf(p), form, old(p.pos), p.toolCalls);
            if ends then ending == out.ending && p.toolCalls == out.calls && (ending.ReturnFalse? ==> p.pos == out.pos)
            else out == ParseCalls(SourceOf(p), form, old(p.pos), p.pos, p.toolCalls, true)
    ensures ends ==> !ending.ReturnTrue?
  {
    var startPos := p.pos;
    if !AllSpace(form.scopeStart) {
      var tc := p.TryFindLiteral(form.scopeStart);
      if tc.None? {
        return true, ReturnFalse;
      }
      if !AllSpace(tc.value.prelude) {
        var _ := p.MoveTo(startPos);
        return true, ReturnFalse;
      }
      if |form.scopeStart| != tc.value.end - tc.value.begin {
        return true, PartialError;
      }
    }
    return false, ReturnTrue;
  }

  /** One turn of the calls loop, up to the end of the call it starts, if it starts one. */
  method ReadNextCall(p: MsgParser, form: Format, recovery: bool) returns (started: bool, step: CallStep)
    requires p.Valid()
    modifies p`pos, p`toolCalls
    ensures p.Valid()
    ensures var found := FindLiteral(p.input, p.isPartial, old(p.pos), form.toolStart);
            && (started <==> found.Some? && AllSpace(found.value.prelude))
            && (started ==> step == ParseCall(SourceOf(p), form, found.value.end, recovery))
    ensures !started ==> p.pos == old(p.pos) && p.toolCalls == old(p.toolCalls)
    ensures started ==>
              p.toolCalls == old(p.toolCalls) + match step case CallThrown(_, extra) => extra
                                                           case CallRefused(_) => []
                                                           case CallParsed(call, _) => [call]
    ensures started && step.CallParsed? ==> p.pos == step.pos
  {
    step := CallRefused(false);
    var tc := p.TryFindLiteral(form.toolStart);
    if tc.None? {
      return false, step;
    }
    if !AllSpace(tc.value.prelude) {
      var _ := p.MoveTo(tc.value.begin - |tc.value.prelude|);
      return false, step;
    }
    step := ReadCall(p, form, recovery);
    return true, step;
  }

  /** The outer loop: all calls of one scope, and its end. */
  method ReadCalls(p: MsgParser, form: Format, startPos: nat) returns (ending: Ending)
    requires p.Valid() && startPos <= |p.input|
    modifies p`pos, p`toolCalls
    ensures p.Valid()
    ensures var out := ParseCalls(SourceOf(p), form, startPos, old(p.pos), old(p.toolCalls), true);
            && ending == out.ending && p.toolCalls == out.calls
            && (ending.ReturnTrue? || ending.ReturnFalse? ==> p.pos == out.pos)
  {
    hide FindLiteral; hide ParseCall; hide ParseCalls; hide AllSpace; hide ParseScopeEnd; hide Keeps;
    var recovery := true;
    while true
      invariant p.Valid()
      invariant ParseCalls(SourceOf(p), form, startPos, p.pos, p.toolCalls, recovery) ==
                ParseCalls(SourceOf(p), form, startPos, old(p.pos), old(p.toolCalls), true)
      decreases |p.input| - p.pos
    {
      InsideIsValid(p);
      CallsSteps(SourceOf(p), form, startPos, p.pos, p.toolCalls, recovery);
      var started, step := ReadNextCall(p, form, recovery);
      InsideIsValid(p);
      if !started {
        break;
      }
      match step {
        case CallThrown(e, _) => return e;
        case CallRefused(stillRecoverable) =>
          if stillRecoverable {
            var _ := p.MoveTo(startPos);
            return ReturnFalse;
          }
          return SyntaxError;
        case CallParsed(_, _) => recovery := false;
      }
    }
    ending := ReadScopeEnd(p, form, startPos, recovery);
  }

  /** `parse_xml_tool_calls`; a thrown exception is the returned ending. */
  method ParseXmlToolCalls(p: MsgParser, form: Format) returns (ending: Ending)
    requires p.Valid()
    modifies p`pos, p`toolCalls
    ensures p.Valid()
    ensures var out := ParseToolCalls(SourceOf(p), form, old(p.pos), old(p.toolCalls));
            && ending == out.ending && p.toolCalls == out.calls
            && (ending.ReturnTrue? || ending.ReturnFalse? ==> p.pos == out.pos)
  {
    var startPos := p.pos;
    var ends;
    ends, ending := ReadScopeStart(p, form);
    if ends {
      return;
    }
    ending := ReadCalls(p, form, startPos);
  }

  /** `try_consume_xml_tool_calls` */
  method TryConsumeXmlToolCalls(p: MsgParser, form: Format) returns (ending: Ending)
    requires p.Valid()
    modifies p`pos, p`toolCalls
    ensures p.Valid()
    ensures var out := TryConsume(SourceOf(p), form, old(p.pos), old(p.toolCalls));
            && ending == out.ending && p.toolCalls == out.calls
            && (ending.ReturnTrue? || ending.ReturnFalse? ==> p.pos == out.pos)
  {
    var pos, tsize := p.pos, |p.toolCalls|;
    ending := ParseXmlToolCalls(p, form);
    if ending.SyntaxError? {
      var _ := p.MoveTo(pos);
      p.toolCalls := p.toolCalls[..tsize];
      return ReturnFalse;
    }
  }
}
