/** What every attempt to parse tool calls keeps, whatever the input. */
module XmlLaws {
  import opened Wrappers
  import opened Text
  import opened ChatTypes
  import opened LiteralSearch
  import opened XmlSpec
  import opened XmlShown
  import opened Json
  import opened JsonHealing
  import opened HealingLaws

  // ------------------------------------------------------------ the empty optional

  lemma ContainsInInput(input: string, pos: nat, to: nat, t: string)
    requires pos <= to <= |input| && Contains(input[pos..to], t)
    ensures Find(input, t, pos).Some?
  {
    FindIsFirst(input[pos..to], t, 0);
    FindIsFirst(input, t, pos);
    var i := Find(input[pos..to], t, 0).value;
    SliceOfSlice(input, pos, to, i, i + |t|);
    assert OccursAt(input, t, pos + i);
  }

  function NameSeparator(form: Format): string {
    if AllSpace(form.toolSep) then form.keyStart else form.toolSep
  }

  /** The name step reads an empty optional exactly when the text before the name's separator holds
      the alternative tool end, and no tool end of either kind can be found from there. */
  lemma NullDerefExactlyWhen(src: Source, form: Format, pos: nat)
    requires pos <= |src.input|
    ensures FindName(src, form, pos) == NoName(NullDeref) <==>
            var sep := FindLiteral(src.input, src.partial, pos, NameSeparator(form));
            && sep.Some? && form.lastToolEnd.Some? && Contains(sep.value.prelude, form.lastToolEnd.value)
            && FindToolEnd(src, form, pos).found.None?
  {
    var sep := FindLiteral(src.input, src.partial, pos, NameSeparator(form));
    if sep.Some? && Contains(sep.value.prelude, form.toolEnd) {
      ContainsInInput(src.input, pos, sep.value.begin, form.toolEnd);
    }
  }

  // ------------------------------------------------------------ the assertion on the healing marker

  lemma LastIfContained(s: string, t: string)
    ensures FindLast(s, t, |s|).Some? <==> Contains(s, t)
  {
    FindLastMeans(s, t, |s|);
    FindIsFirst(s, t, 0);
  }

  /** The dumped object around the dump of the member just set. */
  lemma {:induction false} MembersAround(ms: Members, key: string, value: Value) returns (a: string, b: string)
    ensures DumpMembers(Put(ms, key, value)) == a + (DumpValue(value) + b)
  {
    hide Quote; hide DumpValue;
    var all := Put(ms, key, value);
    DumpMembersCons(all, "");
    assert DumpMembers(all) + "" == DumpMembers(all);
    if ms == [] || ms[0].0 == key {
      a, b := Quote(key) + ":", AfterFirst(all);
      assert Quote(key) + ([':'] + (DumpValue(value) + (AfterFirst(all) + ""))) == a + (DumpValue(value) + b);
    } else {
      assert all[1..] == Put(ms[1..], key, value);
      PutNotEmpty(ms[1..], key, value);
      var front := Quote(ms[0].0) + ":" + DumpValue(ms[0].1) + ",";
      a, b := MembersAround(ms[1..], key, value);
      assert DumpMembers(all) == front + (a + (DumpValue(value) + b));
      a := front + a;
    }
  }

  lemma PutNotEmpty(ms: Members, key: string, value: Value)
    ensures Put(ms, key, value) != []
  {}

  lemma DumpAround(ms: Members, key: string, value: Value) returns (a: string, b: string)
    ensures Dump(Put(ms, key, value)) == a + (DumpValue(value) + b)
  {
    hide DumpMembers; hide Put; hide DumpValue;
    a, b := MembersAround(ms, key, value);
    assert Dump(Put(ms, key, value)) == ("{" + a) + (DumpValue(value) + (b + "}"));
    a, b := "{" + a, b + "}";
  }

  /** The assertion after a value that is still growing fails exactly when the marker of the completed value does not
      stand in the dump of the arguments. */
  lemma AssertFailsExactlyWhen(src: Source, form: Format, pos: nat, key: string, name: string, args: Members)
    requires pos <= |src.input|
    ensures ParseValue(src, form, pos, key, name, args) == ArgThrown(AssertFails, []) <==>
            var json := JsonAt(src, pos);
            && form.rawArgval == Some(false) && json.Read? && Structured(json.value)
            && SkipSpaces(src.input, pos + json.size) == |src.input|
            && json.dumpMarker != "" && !Contains(Dump(Put(args, key, json.value)), json.dumpMarker)
  {
    hide *;
    var json := JsonAt(src, pos);
    ValueSteps(src, form, pos, key, name, args);
    TextEnds(src, form, pos, key, name, args);
    FlagEnds(name, args, key);
    if json.Read? {
      JsonSteps(src, form, pos, json, key, name, args);
      OpenJsonEnds(form, json, key, name, args);
    }
  }

  lemma TextEnds(src: Source, form: Format, pos: nat, key: string, name: string, args: Members)
    requires pos <= |src.input|
    ensures var r := ParseText(src, form, pos, key, name, args); r.ArgThrown? ==> r.ending.PartialError?
  {
    hide FindValEnd; hide PartialCall; hide Put; hide SafeRest; hide TrimValue;
  }

  lemma FlagEnds(name: string, args: Members, key: string)
    ensures var r := FlaggedStep(name, args, key); r.ArgThrown? && r.ending.PartialError?
  {}

  lemma OpenJsonEnds(form: Format, json: Attempt, key: string, name: string, args: Members)
    requires json.Read?
    ensures var r := ParseOpenJson(form, json, key, name, args);
            && r.ArgThrown? && (r.ending.PartialError? || r == ArgThrown(AssertFails, []))
            && (r.ending.AssertFails? <==>
                  && form.rawArgval == Some(false) && Structured(json.value)
                  && json.dumpMarker != "" && !Contains(Dump(Put(args, key, json.value)), json.dumpMarker))
  {
    hide Structured; hide Dump; hide Put; hide FindLast; hide Contains; hide NamedCall; hide FlaggedStep;
    LastIfContained(Dump(Put(args, key, json.value)), json.dumpMarker);
  }

  // ------------------------------------------------------------ endings that no run reaches

  /** What was read is what the reader returns for the rest of the input. */
  lemma ReadIs(src: Source, pos: nat)
    requires pos <= |src.input| && JsonAt(src, pos).Read?
    ensures var json := JsonAt(src, pos);
            && json == src.readJson(src.input[pos..])
            && src.input[pos..][..json.size] == src.input[pos..pos + json.size]
  {}

  lemma HealedAt(src: Source, pos: nat, marker: string)
    requires pos <= |src.input| && JsonAt(src, pos).Read? && HealsAsShipped(src.readJson, marker)
    ensures var json := JsonAt(src, pos);
            if json.marker == "" then json.dumpMarker == ""
            else marker != "" && Healed(src.input[pos..pos + json.size], json, marker)
  {
    hide Healed; hide JsonAt;
    ReadIs(src, pos);
  }

  /** With the shipped way of completing a cut value, the assertion fails exactly when a structured value that takes
      all of the text was cut in an escape whose completion is dumped as something else. */
  lemma AssertFailsExactlyOnCuts(src: Source, form: Format, pos: nat, key: string, name: string, args: Members,
                                 marker: string)
    requires pos <= |src.input| && HealsAsShipped(src.readJson, marker)
    requires JsonAt(src, pos).Read? && JsonAt(src, pos).marker != "" ==>
               Once(Dump(Put(args, key, JsonAt(src, pos).value)), marker)
    ensures ParseValue(src, form, pos, key, name, args) == ArgThrown(AssertFails, []) <==>
            var json := JsonAt(src, pos);
            && form.rawArgval == Some(false) && json.Read? && json.marker != "" && Structured(json.value)
            && SkipSpaces(src.input, pos + json.size) == |src.input|
            && LosesPadding(src.input[pos..pos + json.size])
  {
    hide *;
    AssertFailsExactlyWhen(src, form, pos, key, name, args);
    var json := JsonAt(src, pos);
    if json.Read? {
      HealedAt(src, pos, marker);
      var a, b := DumpAround(args, key, json.value);
      if json.marker != "" {
        var t := src.input[pos..pos + json.size];
        MarkerKeptExactly(t, json, marker, a, b);
        if LosesPadding(t) { LosesMarked(t, json, marker); }
      }
    }
  }

  /** The text, without the spaces at its end, has a tail that is cut in an escape whose completion is dumped as
      something else. */
  predicate CutInEscape(input: string) {
    var z := input[..TrimEnd(input, 0, |input|)];
    exists j | 0 <= j <= |z| :: LosesPadding(z[j..])
  }

  ghost predicate RuledOut(src: Source, form: Format, bad: Ending) {
    || (bad.NullDeref? && form.lastToolEnd.None?)
    || (bad.AssertFails? && !CutInEscape(src.input) && exists marker :: HealsAsShipped(src.readJson, marker))
  }

  lemma TrimEndIs(s: string, k: nat)
    requires 0 < k <= |s| && !IsSpace(s[k - 1]) && SkipSpaces(s, k) == |s|
    ensures TrimEnd(s, 0, |s|) == k
  {
    SkipsExactlySpaces(s, k);
    TrimsExactlySpaces(s, 0, |s|);
    hide SkipSpaces; hide TrimEnd;
  }

  /** In a text that is not cut in such an escape the marker of an unfinished value is dumped. */
  lemma MarkerInDump(src: Source, pos: nat, args: Members, key: string)
    requires pos <= |src.input| && !CutInEscape(src.input)
    requires exists marker :: HealsAsShipped(src.readJson, marker)
    ensures var json := JsonAt(src, pos);
            json.Read? && SkipSpaces(src.input, pos + json.size) == |src.input| ==>
              Contains(Dump(Put(args, key, json.value)), json.dumpMarker)
  {
    hide *;
    var json := JsonAt(src, pos);
    var marker :| HealsAsShipped(src.readJson, marker);
    if json.Read? && SkipSpaces(src.input, pos + json.size) == |src.input| {
      HealedAt(src, pos, marker);
      var a, b := DumpAround(args, key, json.value);
      if json.marker == "" {
        NothingContained(Dump(Put(args, key, json.value)));
      } else {
        NotCutThere(src.input, pos, pos + json.size);
        MarkerKeptExactly(src.input[pos..pos + json.size], json, marker, a, b);
      }
    }
  }

  lemma NothingContained(s: string)
    ensures Contains(s, "")
  {
    ContainsMeans(s, "");
    assert OccursAt(s, "", 0);
  }

  lemma NotCutThere(input: string, pos: nat, end: nat)
    requires pos <= end <= |input| && !CutInEscape(input) && SkipSpaces(input, end) == |input|
    ensures !LosesPadding(input[pos..end])
  {
    hide LosesPadding; hide SkipSpaces; hide TrimEnd;
    assert input[..end][pos..] == input[pos..end];
    if LosesPadding(input[pos..end]) {
      LosesAtEnd(input[pos..end]);
      TrimEndIs(input, end);
    }
  }

  lemma LosesMarked(t: string, json: Attempt, marker: string)
    requires json.Read? && Healed(t, json, marker) && marker != "" && LosesPadding(t)
    ensures json.dumpMarker != ""
  {}

  lemma RuledOutMeans(src: Source, form: Format, bad: Ending)
    requires RuledOut(src, form, bad)
    ensures !bad.PartialError? && !bad.JsonError? && !bad.SyntaxError?
    ensures bad.AssertFails? ==>
              !CutInEscape(src.input) && exists marker :: HealsAsShipped(src.readJson, marker)
    ensures bad.NullDeref? ==> form.lastToolEnd.None?
    ensures bad.AssertFails? || bad.NullDeref?
  {}

  lemma RuledOutInValue(src: Source, form: Format, pos: nat, key: string, name: string, args: Members, bad: Ending)
    requires pos <= |src.input| && RuledOut(src, form, bad)
    ensures var r := ParseValue(src, form, pos, key, name, args); r.ArgThrown? ==> r.ending != bad
  {
    hide *;
    RuledOutMeans(src, form, bad);
    var json := JsonAt(src, pos);
    ValueSteps(src, form, pos, key, name, args);
    TextEnds(src, form, pos, key, name, args);
    FlagEnds(name, args, key);
    if json.Read? {
      JsonSteps(src, form, pos, json, key, name, args);
      OpenJsonEnds(form, json, key, name, args);
      if bad.AssertFails? { MarkerInDump(src, pos, args, key); }
    }
  }

  lemma RuledOutInArg(src: Source, form: Format, pos: nat, name: string, args: Members, bad: Ending)
    requires pos <= |src.input| && RuledOut(src, form, bad)
    ensures var r := ParseKeyAndValue(src, form, pos, name, args); r.ArgThrown? ==> r.ending != bad
  {
    hide FindLiteral; hide PartialCall; hide Put; hide FlaggedStep; hide SafeRest; hide AllSpace;
    hide ParseValue; hide RuledOut;
    RuledOutMeans(src, form, bad);
    forall at: nat, key | at <= |src.input|
      ensures var r := ParseValue(src, form, at, key, name, args); r.ArgThrown? ==> r.ending != bad
    {
      RuledOutInValue(src, form, at, key, name, args, bad);
    }
  }

  lemma {:induction false} RuledOutInArgs(src: Source, form: Format, pos: nat, name: string, args: Members,
                                          recovery: bool, bad: Ending)
    requires pos <= |src.input| && RuledOut(src, form, bad)
    ensures var r := ParseArgs(src, form, pos, name, args, recovery); r.ArgsThrown? ==> r.ending != bad
    decreases |src.input| - pos
  {
    hide Put; hide FindLiteral; hide ParseKeyAndValue; hide AllSpace; hide NamedCall; hide OpenDump; hide RuledOut;
    RuledOutMeans(src, form, bad);
    var found := FindLiteral(src.input, src.partial, pos, form.keyStart);
    if found.Some? {
      RuledOutInArg(src, form, found.value.end, name, args, bad);
      var step := ParseKeyAndValue(src, form, found.value.end, name, args);
      if step.Arg? {
        RuledOutInArgs(src, form, step.pos, name, Put(args, step.key, step.value), false, bad);
      }
    }
  }

  lemma RuledOutInName(src: Source, form: Format, pos: nat, bad: Ending)
    requires pos <= |src.input| && RuledOut(src, form, bad)
    ensures FindName(src, form, pos) != NoName(bad)
  {
    hide FindLiteral; hide FindToolEnd; hide Contains; hide ToolName; hide RuledOut; hide HoldsToolEnd; hide AllSpace;
    hide FindNameEnd;
    RuledOutMeans(src, form, bad);
    NameEndings(src, form, pos);
    NullDerefExactlyWhen(src, form, pos);
  }

  lemma NameEndings(src: Source, form: Format, pos: nat)
    requires pos <= |src.input|
    ensures var r := FindName(src, form, pos); r.NoName? ==> r.ending.PartialError? || r.ending.NullDeref?
  {
    hide FindLiteral; hide FindToolEnd; hide ToolName; hide HoldsToolEnd; hide AllSpace;
  }

  lemma RuledOutInCall(src: Source, form: Format, pos: nat, recovery: bool, bad: Ending)
    requires pos <= |src.input| && RuledOut(src, form, bad)
    ensures var r := ParseCall(src, form, pos, recovery); r.CallThrown? ==> r.ending != bad
  {
    hide FindName; hide ParseArgs; hide FindToolEnd; hide FindClose; hide OpenDump; hide Dump; hide RuledOut;
    hide NamedCall; hide AllSpace;
    RuledOutMeans(src, form, bad);
    RuledOutInName(src, form, pos, bad);
    match FindName(src, form, pos) {
      case NoName(_) =>
      case Named(name, argsPos) => RuledOutInArgs(src, form, argsPos, name, [], recovery, bad);
    }
  }

  lemma {:induction false} RuledOutInCalls(src: Source, form: Format, start: nat, pos: nat, calls: seq<ToolCall>,
                                           recovery: bool, bad: Ending)
    requires pos <= |src.input| && RuledOut(src, form, bad)
    ensures ParseCalls(src, form, start, pos, calls, recovery).ending != bad
    decreases |src.input| - pos
  {
    hide FindLiteral; hide ParseCall; hide AllSpace; hide RuledOut;
    RuledOutMeans(src, form, bad);
    var found := FindLiteral(src.input, src.partial, pos, form.toolStart);
    if found.Some? && AllSpace(found.value.prelude) {
      var step := ParseCall(src, form, found.value.end, recovery);
      RuledOutInCall(src, form, found.value.end, recovery, bad);
      if step.CallParsed? {
        RuledOutInCalls(src, form, start, step.pos, calls + [step.call], false, bad);
      }
    }
  }

  lemma RuledOutInAttempt(src: Source, form: Format, pos: nat, calls: seq<ToolCall>, bad: Ending)
    requires pos <= |src.input| && RuledOut(src, form, bad)
    ensures TryConsume(src, form, pos, calls).ending != bad
  {
    hide FindLiteral; hide ParseCalls; hide AllSpace; hide RuledOut;
    RuledOutMeans(src, form, bad);
    RuledOutInCalls(src, form, pos, pos, calls, true, bad);
    if !AllSpace(form.scopeStart) {
      var found := FindLiteral(src.input, src.partial, pos, form.scopeStart);
      if found.Some? {
        RuledOutInCalls(src, form, pos, found.value.end, calls, true, bad);
      }
    }
  }

  /** Without an alternative tool end the parser never reads an empty optional. */
  lemma NeverDerefsWithoutLastToolEnd(src: Source, form: Format, pos: nat, calls: seq<ToolCall>)
    requires pos <= |src.input| && form.lastToolEnd.None?
    ensures !TryConsume(src, form, pos, calls).ending.NullDeref?
  {
    RuledOutInAttempt(src, form, pos, calls, NullDeref);
  }

  /** With the shipped way of completing a cut value, the assertion on the marker never fails on a text that is
      not cut in an escape whose completion is dumped as something else. */
  lemma NeverFailsAssert(src: Source, form: Format, pos: nat, calls: seq<ToolCall>, marker: string)
    requires pos <= |src.input| && HealsAsShipped(src.readJson, marker) && !CutInEscape(src.input)
    ensures !TryConsume(src, form, pos, calls).ending.AssertFails?
  {
    hide HealsAsShipped; hide CutInEscape;
    RuledOutInAttempt(src, form, pos, calls, AssertFails);
  }
}
