/** What parsing XML-style tool calls computes, as functions of the input, the cursor and the calls
    found so far. */
module XmlSpec {
  import opened Wrappers
  import opened Text
  import opened ChatTypes
  import opened LiteralSearch
  import opened Json
  import Utf8

  /** `xml_tool_call_format`, with the delimiters that `parse_xml_tool_calls` asserts non-empty. */
  datatype FormatOf = FormatOf(
    scopeStart: string, toolStart: string, toolSep: string, keyStart: string, keyValSep: string,
    valEnd: string, toolEnd: string, scopeEnd: string,
    keyValSep2: Option<string>, lastValEnd: Option<string>, lastToolEnd: Option<string>,
    rawArgval: Option<bool>, trimRawArgval: bool)

  type Format = f: FormatOf |
      f.toolStart != "" && f.keyStart != "" && f.keyValSep != "" && f.valEnd != "" && f.toolEnd != ""
    witness FormatOf("", "<tool_call>", "\n", "<arg_key>", "</arg_key>", "</arg_value>", "</tool_call>", "",
                     Some("<arg_value>"), None, None, None, false)

  /** The text being parsed, whether it is still growing, whether names follow Kimi-K2, and the reader of JSON. */
  datatype Source = Source(input: string, partial: bool, kimiK2: bool, readJson: Reader)

  /** How a parse ends. `NullDeref` is the one path on which the source reads an empty optional, `AssertFails` a
      failed `GGML_ASSERT`, `JsonError` an exception of the reader of JSON that nothing here catches. */
  datatype Ending = ReturnTrue | ReturnFalse | SyntaxError | PartialError | NullDeref | AssertFails | JsonError

  type Thrown = e: Ending | !e.ReturnTrue? && !e.ReturnFalse? witness SyntaxError

  /** The cursor matters only on a normal return; a thrown ending reports 0. */
  datatype Outcome = Outcome(ending: Ending, pos: nat, calls: seq<ToolCall>)

  // ------------------------------------------------------------ searches

  /** `literal1`, then spaces, then `literal2` or as much of it as the input still holds. */
  function FindTwoFrom(src: Source, start: nat, at: nat, literal1: string, literal2: string): (r: Option<Match>)
    requires start <= at <= |src.input| && literal1 != ""
    ensures r.Some? ==> at <= r.value.begin < r.value.end <= |src.input|
    ensures r.Some? ==> PreludeFrom(src.input, start, r.value)
    decreases |src.input| - at, 1
  {
    match FindLiteral(src.input, src.partial, at, literal1)
    case None => None
    case Some(m) => FindSecond(src, start, m.begin, m.end, literal1, literal2)
  }

  /** The continuation at a match of `literal1`. */
  function FindSecond(src: Source, start: nat, begin: nat, end: nat, literal1: string, literal2: string)
      : (r: Option<Match>)
    requires start <= begin < end <= |src.input| && literal1 != ""
    ensures r.Some? ==> begin <= r.value.begin < r.value.end <= |src.input|
    ensures r.Some? ==> PreludeFrom(src.input, start, r.value)
    decreases |src.input| - begin, 0
  {
    var next := SkipSpaces(src.input, end);
    var left := |src.input| - next;
    if AgreesAt(src.input, literal2, next) then
      Some(Match(src.input[start..begin], begin, next + if |literal2| < left then |literal2| else left))
    else FindTwoFrom(src, start, begin + 1, literal1, literal2)
  }

  /** One turn of the search for two literals. */
  lemma FindTwoStep(src: Source, start: nat, at: nat, literal1: string, literal2: string)
    requires start <= at <= |src.input| && literal1 != ""
    ensures var m := FindLiteral(src.input, src.partial, at, literal1);
            && (m.None? ==> FindTwoFrom(src, start, at, literal1, literal2) == None)
            && (m.Some? ==>
                  var b := m.value;
                  b.begin < b.end <= |src.input| && at <= b.begin &&
                  var next := SkipSpaces(src.input, b.end);
                  var left := |src.input| - next;
                  FindTwoFrom(src, start, at, literal1, literal2) ==
                  if AgreesAt(src.input, literal2, next)
                  then Some(Match(src.input[start..b.begin], b.begin,
                                  next + if |literal2| < left then |literal2| else left))
                  else FindTwoFrom(src, start, b.begin + 1, literal1, literal2))
  {
    hide AgreesAt; hide SkipSpaces;
  }

  function FindTwo(src: Source, pos: nat, literal1: string, literal2: string): (r: Option<Match>)
    requires pos <= |src.input|
    ensures r.Some? ==> pos <= r.value.begin <= r.value.end <= |src.input|
    ensures r.Some? ==> PreludeFrom(src.input, pos, r.value)
  {
    if literal1 == "" then FindLiteral(src.input, src.partial, pos, literal2)
    else FindTwoFrom(src, pos, pos, literal1, literal2)
  }

  /** A closing match and the size of the literal it stands for. */
  datatype Close = Close(size: nat, found: Option<Match>)

  predicate Earlier(a: Option<Match>, b: Option<Match>) {
    a.Some? && (b.None? || |b.value.prelude| > |a.value.prelude|)
  }

  /** The end of a match of the alternative literal, without what follows it. */
  function AltEnd(src: Source, b: Match, alt: string): (r: nat)
    requires b.begin <= |src.input|
    ensures b.begin <= r <= |src.input|
  {
    if |src.input| < b.begin + |alt| then |src.input| else b.begin + |alt|
  }

  /** The lambda `try_find_close`: the ordinary closing literal, unless the alternative one, followed
      by one of its successors, comes first. */
  function FindClose(src: Source, pos: nat, end: string, altEnd: Option<string>,
                     endNext: string, altEndNext: Option<string>): (r: Close)
    requires pos <= |src.input|
    ensures r.found.Some? ==> pos <= r.found.value.begin <= r.found.value.end <= |src.input|
    ensures r.found.Some? ==> PreludeFrom(src.input, pos, r.found.value)
  {
    var tc := FindLiteral(src.input, src.partial, pos, end);
    match altEnd
    case None => Close(|end|, tc)
    case Some(alt) =>
      var tc2 := FindTwo(src, pos, alt, endNext);
      var tc3 := if altEndNext.Some? then FindTwo(src, pos, alt, altEndNext.value) else None;
      var best := if Earlier(tc3, tc2) then tc3 else tc2;
      if Earlier(best, tc) then Close(|alt|, Some(best.value.(end := AltEnd(src, best.value, alt))))
      else Close(|end|, tc)
  }

  lemma CloseSteps(src: Source, pos: nat, end: string, altEnd: Option<string>,
                   endNext: string, altEndNext: Option<string>)
    requires pos <= |src.input|
    ensures var r := FindClose(src, pos, end, altEnd, endNext, altEndNext);
            var tc := FindLiteral(src.input, src.partial, pos, end);
            if altEnd.None? then r == Close(|end|, tc)
            else
              var alt := altEnd.value;
              var tc2 := FindTwo(src, pos, alt, endNext);
              var tc3 := if altEndNext.Some? then FindTwo(src, pos, alt, altEndNext.value) else None;
              var best := if Earlier(tc3, tc2) then tc3 else tc2;
              r == if Earlier(best, tc) then Close(|alt|, Some(best.value.(end := AltEnd(src, best.value, alt))))
                   else Close(|end|, tc)
  {
    hide FindLiteral; hide FindTwo; hide AltEnd;
  }

  function FindValEnd(src: Source, form: Format, pos: nat): (r: Close)
    requires pos <= |src.input|
    ensures r.found.Some? ==> pos <= r.found.value.begin <= r.found.value.end <= |src.input|
    ensures r.found.Some? ==> PreludeFrom(src.input, pos, r.found.value)
  {
    FindClose(src, pos, form.valEnd, form.lastValEnd, form.toolEnd, form.lastToolEnd)
  }

  function FindToolEnd(src: Source, form: Format, pos: nat): (r: Close)
    requires pos <= |src.input|
    ensures r.found.Some? ==> pos <= r.found.value.begin <= r.found.value.end <= |src.input|
    ensures r.found.Some? ==> PreludeFrom(src.input, pos, r.found.value)
  {
    FindClose(src, pos, form.toolEnd, form.lastToolEnd, form.scopeEnd, None)
  }

  // ------------------------------------------------------------ partial arguments

  const Flag := "XML_TOOL_CALL_PARTIAL_FLAG"

  /** `std::string::rfind` */
  function FindLast(s: string, t: string, from: nat): (r: Option<nat>)
    requires from <= |s|
    ensures r.Some? ==> r.value <= from && r.value + |t| <= |s|
    decreases from
  {
    if OccursAt(s, t, from) then Some(from)
    else if from == 0 then None
    else FindLast(s, t, from - 1)
  }

  predicate ClosingChar(c: char) {
    c == '\'' || c == '"' || c == '}' || c == ':' || IsSpace(c)
  }

  /** The lambda `partial_json`: cut a dump at the flag, and at the quote just before it. */
  function CutAtFlag(json: string): Option<string> {
    match FindLast(json, Flag, |json|)
    case None => None
    case Some(k) =>
      if exists i | k + |Flag| <= i < |json| :: !ClosingChar(json[i]) then None
      else if k != 0 && json[k - 1] == '"' then Some(json[..k - 1])
      else Some(json[..k])
  }

  function NamedCall(name: string, arguments: string): seq<ToolCall> {
    if name == "" then [] else [ToolCall(name, arguments, "")]
  }

  /** The lambda `gen_partial_json`: the call that shows the unfinished arguments, if any. */
  function PartialCall(name: string, args: Members): seq<ToolCall> {
    match CutAtFlag(Dump(args))
    case None => []
    case Some(text) => NamedCall(name, text)
  }

  /** The dumped object without its closing brace. */
  function OpenDump(args: Members): string {
    var d := Dump(args);
    d[..|d| - 1]
  }

  function SafeRest(src: Source, pos: nat): string
    requires pos <= |src.input|
  {
    var rest := src.input[pos..];
    rest[..Utf8.TruncateSafe(rest)]
  }

  // ------------------------------------------------------------ tool name

  function DigitsFrom(s: string, i: nat): bool
    requires i <= |s|
  {
    forall k | i <= k < |s| :: '0' <= s[k] <= '9'
  }

  /** Kimi-K2 writes `functions.NAME:INDEX`. */
  function KimiName(name: string): string {
    var colon := FindLast(name, ":", |name|);
    if "functions." <= name && colon.Some? && colon.value + 1 < |name| && DigitsFrom(name, colon.value + 1) &&
       10 <= colon.value
    then name[10..colon.value]
    else name
  }

  function ToolName(src: Source, prelude: string): string {
    if src.kimiK2 then KimiName(Strip(prelude)) else Strip(prelude)
  }

  datatype NameStep = NoName(ending: Thrown) | Named(name: string, pos: nat)

  predicate HoldsToolEnd(form: Format, prelude: string) {
    Contains(prelude, form.toolEnd) || (form.lastToolEnd.Some? && Contains(prelude, form.lastToolEnd.value))
  }

  datatype NameMatch = NoMatch(ending: Thrown) | MatchAt(m: Match)

  /** What ends the tool name: its separator, or the end of a call without arguments. */
  function FindNameEnd(src: Source, form: Format, pos: nat): (r: NameMatch)
    requires pos <= |src.input|
    ensures r.MatchAt? ==> pos <= r.m.begin <= r.m.end <= |src.input| && PreludeFrom(src.input, pos, r.m)
  {
    var sep := FindLiteral(src.input, src.partial, pos, if AllSpace(form.toolSep) then form.keyStart else form.toolSep);
    var first := if sep.None? then FindToolEnd(src, form, pos).found else sep;
    if first.None? then NoMatch(PartialError)
    else if !HoldsToolEnd(form, first.value.prelude) then MatchAt(first.value)
    else
      match FindToolEnd(src, form, pos).found
      case None => NoMatch(NullDeref)
      case Some(m) => MatchAt(m)
  }

  lemma NameEndSteps(src: Source, form: Format, pos: nat)
    requires pos <= |src.input|
    ensures var r, toolEnd := FindNameEnd(src, form, pos), FindToolEnd(src, form, pos).found;
            var sep := FindLiteral(src.input, src.partial, pos,
                                   if AllSpace(form.toolSep) then form.keyStart else form.toolSep);
            var first := if sep.None? then toolEnd else sep;
            if first.None? then r == NoMatch(PartialError)
            else if !HoldsToolEnd(form, first.value.prelude) then r == MatchAt(first.value)
            else if toolEnd.None? then r == NoMatch(NullDeref)
            else r == MatchAt(toolEnd.value)
  {
    hide FindLiteral; hide FindToolEnd; hide HoldsToolEnd; hide AllSpace;
  }

  function FindName(src: Source, form: Format, pos: nat): (r: NameStep)
    requires pos <= |src.input|
    ensures r.Named? ==> pos <= r.pos <= |src.input|
  {
    match FindNameEnd(src, form, pos)
    case NoMatch(ending) => NoName(ending)
    case MatchAt(m) => Named(ToolName(src, m.prelude), if AllSpace(form.toolSep) then m.begin else m.end)
  }

  // ------------------------------------------------------------ arguments

  datatype ArgStep = ArgThrown(ending: Thrown, extra: seq<ToolCall>) | Arg(key: string, value: Value, pos: nat)

  function TrimValue(form: Format, s: string): string {
    if form.trimRawArgval then Strip(s) else s
  }

  /** The unfinished call in which only the flag stands for the value. */
  function FlaggedStep(name: string, args: Members, key: string): (r: ArgStep)
    ensures r.ArgThrown? && r.ending.PartialError?
  {
    ArgThrown(PartialError, PartialCall(name, Put(args, key, Str(Flag))))
  }

  /** The value as plain text. */
  function ParseText(src: Source, form: Format, pos: nat, key: string, name: string, args: Members): (r: ArgStep)
    requires pos <= |src.input|
    ensures r.Arg? ==> pos <= r.pos <= |src.input|
  {
    var close := FindValEnd(src, form, pos);
    match close.found
    case None =>
      ArgThrown(PartialError, PartialCall(name, Put(args, key, Str(TrimValue(form, SafeRest(src, pos)) + Flag))))
    case Some(m) =>
      var value := TrimValue(form, m.prelude);
      if m.end - m.begin != close.size then
        ArgThrown(PartialError, PartialCall(name, Put(args, key, Str(value + Flag))))
      else Arg(key, Str(value), m.end)
  }

  function JsonAt(src: Source, pos: nat): (r: Attempt)
    requires pos <= |src.input|
    ensures r.Read? ==> 0 < r.size <= |src.input| - pos
  {
    AttemptAt(src.readJson, src.input, src.partial, pos)
  }

  function SkipDigits(s: string, i: nat): (r: nat)
    requires i <= |s|
    ensures i <= r <= |s|
    decreases |s| - i
  {
    if i < |s| && '0' <= s[i] <= '9' then SkipDigits(s, i + 1) else i
  }

  /** A number, or what may become one: digits after an optional sign, a fraction, an exponent. */
  predicate NumberText(s: string) {
    && s != "" && (s[0] == '-' || '0' <= s[0] <= '9')
    && var whole := SkipDigits(s, 1);
       var fraction := if whole < |s| && s[whole] == '.' then SkipDigits(s, whole + 1) else whole;
       var exponent :=
         if fraction < |s| && (s[fraction] == 'e' || s[fraction] == 'E') then
           var sign := fraction + 1;
           SkipDigits(s, if sign < |s| && (s[sign] == '+' || s[sign] == '-') then sign + 1 else sign)
         else fraction;
       exponent == |s|
  }

  /** All that is left may become `null`, `true`, `false` or a number. */
  predicate ScalarAhead(src: Source, pos: nat)
    requires pos <= |src.input|
  {
    var from, to := SkipSpaces(src.input, pos), Utf8.TruncateSafe(src.input);
    var rest := if from <= to then src.input[from..to] else "";
    (|rest| < 6 && (rest <= "null" || rest <= "true" || rest <= "false")) || NumberText(rest)
  }

  /** The value as JSON, when it is finished and its end follows. */
  function ClosedJson(src: Source, form: Format, end: nat, marker: string): (r: Close)
    requires end <= |src.input|
    ensures r.found.Some? ==> end <= r.found.value.end <= |src.input|
  {
    var close := FindValEnd(src, form, end);
    if close.found.Some? && AllSpace(close.found.value.prelude) && marker == "" then close else Close(0, None)
  }

  /** Strings, objects and arrays are shown while they grow. */
  predicate Structured(v: Value) {
    v.Str? || (v.dump != "" && (v.dump[0] == '{' || v.dump[0] == '['))
  }

  /** A value read as JSON with nothing after it: more text may still change it. */
  function ParseOpenJson(form: Format, json: Attempt, key: string, name: string, args: Members): (r: ArgStep)
    requires json.Read?
    ensures r.ArgThrown?
  {
    if form.rawArgval != Some(false) || !Structured(json.value) then FlaggedStep(name, args, key)
    else
      var dumped := Dump(Put(args, key, json.value));
      if json.dumpMarker == "" then ArgThrown(PartialError, NamedCall(name, dumped[..|dumped| - 1]))
      else
        match FindLast(dumped, json.dumpMarker, |dumped|)
        case None => ArgThrown(AssertFails, [])
        case Some(k) => ArgThrown(PartialError, NamedCall(name, dumped[..k]))
  }

  function ParseJson(src: Source, form: Format, pos: nat, json: Attempt, key: string, name: string, args: Members)
      : (r: ArgStep)
    requires pos <= |src.input| && json.Read? && json.size <= |src.input| - pos
    ensures r.Arg? ==> pos <= r.pos <= |src.input|
  {
    var end := pos + json.size;
    if SkipSpaces(src.input, end) == |src.input| then ParseOpenJson(form, json, key, name, args)
    else
      var close := ClosedJson(src, form, end, json.marker);
      match close.found
      case None => ParseText(src, form, pos, key, name, args)
      case Some(m) =>
        if m.end - m.begin != close.size then FlaggedStep(name, args, key) else Arg(key, json.value, m.end)
  }

  function ParseValue(src: Source, form: Format, pos: nat, key: string, name: string, args: Members): (r: ArgStep)
    requires pos <= |src.input|
    ensures r.Arg? ==> pos <= r.pos <= |src.input|
  {
    if form.rawArgval == Some(true) then ParseText(src, form, pos, key, name, args)
    else
      match JsonAt(src, pos)
      case Throws => ArgThrown(JsonError, [])
      case NoJson =>
        if ScalarAhead(src, pos) then FlaggedStep(name, args, key) else ParseText(src, form, pos, key, name, args)
      case Read(_, _, _, _) => ParseJson(src, form, pos, JsonAt(src, pos), key, name, args)
  }

  /** The ways of reading a value. */
  lemma ValueSteps(src: Source, form: Format, pos: nat, key: string, name: string, args: Members)
    requires pos <= |src.input|
    ensures var r, json := ParseValue(src, form, pos, key, name, args), JsonAt(src, pos);
            if form.rawArgval == Some(true) then r == ParseText(src, form, pos, key, name, args)
            else if json.Throws? then r == ArgThrown(JsonError, [])
            else if json.Read? then r == ParseJson(src, form, pos, json, key, name, args)
            else if ScalarAhead(src, pos) then r == FlaggedStep(name, args, key)
            else r == ParseText(src, form, pos, key, name, args)
  {
    hide JsonAt; hide ScalarAhead; hide ParseText; hide ParseJson; hide FlaggedStep;
  }

  lemma JsonSteps(src: Source, form: Format, pos: nat, json: Attempt, key: string, name: string, args: Members)
    requires pos <= |src.input| && json.Read? && json.size <= |src.input| - pos
    ensures var r := ParseJson(src, form, pos, json, key, name, args);
            var close := ClosedJson(src, form, pos + json.size, json.marker);
            if SkipSpaces(src.input, pos + json.size) == |src.input|
            then r == ParseOpenJson(form, json, key, name, args)
            else if close.found.None? then r == ParseText(src, form, pos, key, name, args)
            else if close.found.value.end - close.found.value.begin != close.size then r == FlaggedStep(name, args, key)
            else r == Arg(key, json.value, close.found.value.end)
  {
    hide SkipSpaces; hide ClosedJson; hide ParseText; hide ParseOpenJson; hide FlaggedStep;
  }

  /** What follows the key: the second separator, when the format has one, and the value. */
  function ParseAfterKey(src: Source, form: Format, pos: nat, key: string, name: string, args: Members): (r: ArgStep)
    requires pos <= |src.input|
    ensures r.Arg? ==> pos <= r.pos <= |src.input|
  {
    if form.keyValSep2.None? then ParseValue(src, form, pos, key, name, args)
    else
      match FindLiteral(src.input, src.partial, pos, form.keyValSep2.value)
      case None => FlaggedStep(name, args, key)
      case Some(k2) =>
        if !AllSpace(k2.prelude) then ArgThrown(SyntaxError, [])
        else if k2.end - k2.begin != |form.keyValSep2.value| then FlaggedStep(name, args, key)
        else ParseValue(src, form, k2.end, key, name, args)
  }

  lemma AfterKeySteps(src: Source, form: Format, pos: nat, key: string, name: string, args: Members)
    requires pos <= |src.input|
    ensures var r := ParseAfterKey(src, form, pos, key, name, args);
            if form.keyValSep2.None? then r == ParseValue(src, form, pos, key, name, args)
            else
              var k2 := FindLiteral(src.input, src.partial, pos, form.keyValSep2.value);
              if k2.None? then r == FlaggedStep(name, args, key)
              else if !AllSpace(k2.value.prelude) then r == ArgThrown(SyntaxError, [])
              else if k2.value.end - k2.value.begin != |form.keyValSep2.value| then r == FlaggedStep(name, args, key)
              else r == ParseValue(src, form, k2.value.end, key, name, args)
  {
    hide FindLiteral; hide ParseValue; hide FlaggedStep; hide AllSpace;
  }

  function FlaggedKeyStep(name: string, args: Members, key: string): (r: ArgStep)
    ensures r.ArgThrown? && r.ending.PartialError?
  {
    ArgThrown(PartialError, PartialCall(name, Put(args, key + Flag, Str(""))))
  }

  function ParseKeyAndValue(src: Source, form: Format, pos: nat, name: string, args: Members): (r: ArgStep)
    requires pos <= |src.input|
    ensures r.Arg? ==> pos <= r.pos <= |src.input|
  {
    match FindLiteral(src.input, src.partial, pos, form.keyValSep)
    case None => FlaggedKeyStep(name, args, SafeRest(src, pos))
    case Some(k) =>
      if k.end - k.begin != |form.keyValSep| then FlaggedKeyStep(name, args, k.prelude)
      else ParseAfterKey(src, form, k.end, k.prelude, name, args)
  }

  lemma KeySteps(src: Source, form: Format, pos: nat, name: string, args: Members)
    requires pos <= |src.input|
    ensures var r := ParseKeyAndValue(src, form, pos, name, args);
            var k := FindLiteral(src.input, src.partial, pos, form.keyValSep);
            if k.None? then r == FlaggedKeyStep(name, args, SafeRest(src, pos))
            else if k.value.end - k.value.begin != |form.keyValSep|
            then r == FlaggedKeyStep(name, args, k.value.prelude)
            else r == ParseAfterKey(src, form, k.value.end, k.value.prelude, name, args)
  {
    hide FindLiteral; hide ParseAfterKey; hide FlaggedKeyStep; hide SafeRest;
  }

  datatype ArgsStep = ArgsThrown(ending: Thrown, extra: seq<ToolCall>)
                    | ArgsDone(pos: nat, args: Members, recovery: bool)

  function ParseArgs(src: Source, form: Format, pos: nat, name: string, args: Members, recovery: bool): (r: ArgsStep)
    requires pos <= |src.input|
    ensures r.ArgsDone? ==> pos <= r.pos <= |src.input|
    ensures r.ArgsDone? && r.recovery ==> recovery
    decreases |src.input| - pos
  {
    match FindLiteral(src.input, src.partial, pos, form.keyStart)
    case None => ArgsDone(pos, args, recovery)
    case Some(m) =>
      if !AllSpace(m.prelude) then ArgsDone(pos, args, recovery)
      else if m.end - m.begin != |form.keyStart| then ArgsThrown(PartialError, NamedCall(name, OpenDump(args)))
      else
        match ParseKeyAndValue(src, form, m.end, name, args)
        case ArgThrown(ending, extra) => ArgsThrown(ending, extra)
        case Arg(key, value, next) => ParseArgs(src, form, next, name, Put(args, key, value), false)
  }

  lemma ArgsSteps(src: Source, form: Format, pos: nat, name: string, args: Members, recovery: bool)
    requires pos <= |src.input|
    ensures var r := ParseArgs(src, form, pos, name, args, recovery);
            var m := FindLiteral(src.input, src.partial, pos, form.keyStart);
            if m.None? || !AllSpace(m.value.prelude) then r == ArgsDone(pos, args, recovery)
            else if m.value.end - m.value.begin != |form.keyStart|
            then r == ArgsThrown(PartialError, NamedCall(name, OpenDump(args)))
            else
              var step := ParseKeyAndValue(src, form, m.value.end, name, args);
              if step.ArgThrown? then r == ArgsThrown(step.ending, step.extra)
              else r == ParseArgs(src, form, step.pos, name, Put(args, step.key, step.value), false)
  {
    hide FindLiteral; hide ParseKeyAndValue; hide AllSpace; hide NamedCall; hide OpenDump; hide Put;
  }

  // ------------------------------------------------------------ calls

  datatype CallStep =
    | CallThrown(ending: Thrown, extra: seq<ToolCall>)
    | CallRefused(recovery: bool)
    | CallParsed(call: ToolCall, pos: nat)

  function ParseToolEnd(src: Source, form: Format, pos: nat, name: string, args: Members, recovery: bool): (r: CallStep)
    requires pos <= |src.input|
    ensures r.CallParsed? ==> pos <= r.pos <= |src.input|
    ensures r.CallRefused? ==> r.recovery == recovery
  {
    var close := FindToolEnd(src, form, pos);
    if close.found.Some? && !AllSpace(close.found.value.prelude) then CallRefused(recovery)
    else if close.found.Some? && close.found.value.end - close.found.value.begin == close.size then
      if name == "" then CallThrown(PartialError, [])
      else CallParsed(ToolCall(name, Dump(args), ""), close.found.value.end)
    else CallThrown(PartialError, NamedCall(name, OpenDump(args)))
  }

  function ParseCall(src: Source, form: Format, pos: nat, recovery: bool): (r: CallStep)
    requires pos <= |src.input|
    ensures r.CallParsed? ==> pos <= r.pos <= |src.input|
    ensures r.CallRefused? && r.recovery ==> recovery
  {
    match FindName(src, form, pos)
    case NoName(ending) => CallThrown(ending, [])
    case Named(name, argsPos) =>
      match ParseArgs(src, form, argsPos, name, [], recovery)
      case ArgsThrown(ending, extra) => CallThrown(ending, extra)
      case ArgsDone(endPos, args, stillRecoverable) => ParseToolEnd(src, form, endPos, name, args, stillRecoverable)
  }

  lemma CallSteps(src: Source, form: Format, pos: nat, recovery: bool)
    requires pos <= |src.input|
    ensures var r, name := ParseCall(src, form, pos, recovery), FindName(src, form, pos);
            if name.NoName? then r == CallThrown(name.ending, [])
            else
              var args := ParseArgs(src, form, name.pos, name.name, [], recovery);
              if args.ArgsThrown? then r == CallThrown(args.ending, args.extra)
              else r == ParseToolEnd(src, form, args.pos, name.name, args.args, args.recovery)
  {
    hide FindName; hide ParseArgs; hide ParseToolEnd;
  }

  /** What every ending of the parse of calls keeps: the calls found so far; and a refusal leaves
      exactly those, at the start, and only when nothing had been committed to. */
  ghost predicate Keeps(src: Source, start: nat, pos: nat, calls: seq<ToolCall>, recovery: bool, out: Outcome) {
    && calls <= out.calls
    && (out.ending.ReturnFalse? ==> recovery && out == Outcome(ReturnFalse, start, calls))
    && (out.ending.ReturnTrue? ==> pos <= out.pos <= |src.input|)
  }

  /** The lambda `return_error` */
  function ReturnError(start: nat, calls: seq<ToolCall>, recovery: bool): Outcome {
    if recovery then Outcome(ReturnFalse, start, calls) else Outcome(SyntaxError, 0, calls)
  }

  function ParseScopeEnd(src: Source, form: Format, start: nat, pos: nat, calls: seq<ToolCall>, recovery: bool)
      : (out: Outcome)
    requires pos <= |src.input|
    ensures Keeps(src, start, pos, calls, recovery, out) && out.calls == calls
  {
    match FindLiteral(src.input, src.partial, pos, form.scopeEnd)
    case Some(m) =>
      if AllSpace(m.prelude) then Outcome(ReturnTrue, m.end, calls) else ReturnError(start, calls, recovery)
    case None =>
      if AllSpace(form.scopeEnd) then Outcome(ReturnTrue, pos, calls)
      else if SkipSpaces(src.input, pos) == |src.input| then Outcome(PartialError, 0, calls)
      else ReturnError(start, calls, recovery)
  }

  /** The calls loop: one call after another until no opening literal is next. */
  function ParseCalls(src: Source, form: Format, start: nat, pos: nat, calls: seq<ToolCall>, recovery: bool)
      : (out: Outcome)
    requires pos <= |src.input|
    ensures Keeps(src, start, pos, calls, recovery, out)
    decreases |src.input| - pos, 1
  {
    var found := FindLiteral(src.input, src.partial, pos, form.toolStart);
    if found.None? || !AllSpace(found.value.prelude) then ParseScopeEnd(src, form, start, pos, calls, recovery)
    else AfterCall(src, form, start, pos, calls, recovery, ParseCall(src, form, found.value.end, recovery))
  }

  function AfterCall(src: Source, form: Format, start: nat, pos: nat, calls: seq<ToolCall>, recovery: bool,
                     step: CallStep): (out: Outcome)
    requires pos <= |src.input|
    requires step.CallParsed? ==> pos < step.pos <= |src.input|
    requires step.CallRefused? && step.recovery ==> recovery
    ensures Keeps(src, start, pos, calls, recovery, out)
    decreases |src.input| - pos, 0
  {
    match step
    case CallThrown(ending, extra) => Outcome(ending, 0, calls + extra)
    case CallRefused(stillRecoverable) => ReturnError(start, calls, stillRecoverable)
    case CallParsed(call, next) => ParseCalls(src, form, start, next, calls + [call], false)
  }

  lemma CallsSteps(src: Source, form: Format, start: nat, pos: nat, calls: seq<ToolCall>, recovery: bool)
    requires pos <= |src.input|
    ensures var r := ParseCalls(src, form, start, pos, calls, recovery);
            var found := FindLiteral(src.input, src.partial, pos, form.toolStart);
            if found.None? || !AllSpace(found.value.prelude)
            then r == ParseScopeEnd(src, form, start, pos, calls, recovery)
            else
              var step := ParseCall(src, form, found.value.end, recovery);
              if step.CallThrown? then r == Outcome(step.ending, 0, calls + step.extra)
              else if step.CallRefused? then r == ReturnError(start, calls, step.recovery)
              else r == ParseCalls(src, form, start, step.pos, calls + [step.call], false)
  {
    hide FindLiteral; hide ParseCall; hide AllSpace; hide ParseScopeEnd; hide ReturnError;
  }

  /** `parse_xml_tool_calls` */
  function ParseToolCalls(src: Source, form: Format, pos: nat, calls: seq<ToolCall>): (out: Outcome)
    requires pos <= |src.input|
    ensures Keeps(src, pos, pos, calls, true, out)
  {
    if AllSpace(form.scopeStart) then ParseCalls(src, form, pos, pos, calls, true)
    else
      match FindLiteral(src.input, src.partial, pos, form.scopeStart)
      case None => Outcome(ReturnFalse, pos, calls)
      case Some(m) =>
        if !AllSpace(m.prelude) then Outcome(ReturnFalse, pos, calls)
        else if |form.scopeStart| != m.end - m.begin then Outcome(PartialError, 0, calls)
        else ParseCalls(src, form, pos, m.end, calls, true)
  }

  /** `try_consume_xml_tool_calls`: a syntax error is turned into a refusal that undoes everything.
      An attempt that returns false leaves cursor and calls as they were; every other ending keeps
      the earlier calls in front; a successful one never moves the cursor back. */
  function TryConsume(src: Source, form: Format, pos: nat, calls: seq<ToolCall>): (out: Outcome)
    requires pos <= |src.input|
    ensures out.ending.ReturnFalse? ==> out.pos == pos && out.calls == calls
    ensures calls <= out.calls
    ensures out.ending.ReturnTrue? ==> pos <= out.pos <= |src.input|
    ensures !out.ending.SyntaxError?
  {
    var out := ParseToolCalls(src, form, pos, calls);
    if out.ending.SyntaxError? then Outcome(ReturnFalse, pos, calls) else out
  }

  lemma NoScope(src: Source, form: Format, pos: nat, calls: seq<ToolCall>)
    requires pos <= |src.input| && AllSpace(form.scopeStart)
    ensures var r := ParseCalls(src, form, pos, pos, calls, true);
            TryConsume(src, form, pos, calls) == if r.ending.SyntaxError? then Outcome(ReturnFalse, pos, calls) else r
  {
    hide FindLiteral; hide ParseCalls; hide AllSpace;
  }

  lemma ScopeOpened(src: Source, form: Format, pos: nat, calls: seq<ToolCall>, to: nat)
    requires pos <= |src.input| && !AllSpace(form.scopeStart) && pos + |form.scopeStart| == to
    requires FindLiteral(src.input, src.partial, pos, form.scopeStart) == Some(Match("", pos, to))
    ensures to <= |src.input|
    ensures var r := ParseCalls(src, form, pos, to, calls, true);
            TryConsume(src, form, pos, calls) == if r.ending.SyntaxError? then Outcome(ReturnFalse, pos, calls) else r
  {
    hide FindLiteral; hide ParseCalls; hide IsSpace;
  }
}
