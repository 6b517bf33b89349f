/** What the searches of the parser of tool calls find. */
module XmlSearches {
  import opened Wrappers
  import opened Text
  import opened ChatTypes
  import opened LiteralSearch
  import opened Json
  import opened XmlSpec
  import opened XmlRoundTrip

  // ------------------------------------------------------------ two literals

  /** `literal1` stands whole at `k`, and after spaces `literal2`. */
  predicate BothAt(input: string, literal1: string, literal2: string, k: nat) {
    && OccursAt(input, literal1, k) && k + |literal1| <= |input|
    && OccursAt(input, literal2, SkipSpaces(input, k + |literal1|))
  }

  lemma OccursAgrees(s: string, t: string, i: nat)
    requires OccursAt(s, t, i)
    ensures i <= |s| && AgreesAt(s, t, i)
  {
    assert s[i..][..|t|] == s[i..i + |t|];
  }

  lemma FoundByThen(src: Source, at: nat, literal: string, k: nat)
    requires at <= k && OccursAt(src.input, literal, k) && literal != ""
    ensures at <= |src.input|
    ensures var m := FindLiteral(src.input, src.partial, at, literal);
            m.Some? && m.value.begin <= k && m.value.end == m.value.begin + |literal|
  {
    FindIsFirst(src.input, literal, at);
  }

  /** Wherever both stand, the search finds that place or an earlier one. */
  lemma {:induction false} FindTwoFinds(src: Source, start: nat, at: nat, literal1: string, literal2: string, k: nat)
    requires start <= at <= k && literal1 != "" && BothAt(src.input, literal1, literal2, k) && at <= |src.input|
    ensures var r := FindTwoFrom(src, start, at, literal1, literal2); r.Some? && at <= r.value.begin <= k
    decreases k - at
  {
    hide FindLiteral; hide AgreesAt; hide OccursAt; hide SkipSpaces; hide FindTwoFrom;
    FoundByThen(src, at, literal1, k);
    FindTwoStep(src, start, at, literal1, literal2);
    var b := FindLiteral(src.input, src.partial, at, literal1).value.begin;
    if b == k {
      OccursAgrees(src.input, literal2, SkipSpaces(src.input, k + |literal1|));
    } else if !AgreesAt(src.input, literal2, SkipSpaces(src.input, b + |literal1|)) {
      FindTwoFinds(src, start, b + 1, literal1, literal2, k);
    }
  }

  /** What it finds begins with `literal1`, or as much of it as the text still holds, and after it and spaces the text
      agrees with `literal2` as far as it goes. */
  lemma {:induction false} FindTwoFound(src: Source, start: nat, at: nat, literal1: string, literal2: string)
    requires start <= at <= |src.input| && literal1 != ""
    requires FindTwoFrom(src, start, at, literal1, literal2).Some?
    ensures var m := FindTwoFrom(src, start, at, literal1, literal2).value;
            exists e | m.begin <= e <= |src.input| ::
              && (src.input[m.begin..e] == literal1 ||
                  (src.partial && e == |src.input| && src.input[m.begin..] < literal1))
              && AgreesAt(src.input, literal2, SkipSpaces(src.input, e))
    decreases |src.input| - at
  {
    hide FindLiteral; hide AgreesAt; hide SkipSpaces; hide FindTwoFrom;
    FindTwoStep(src, start, at, literal1, literal2);
    var b := FindLiteral(src.input, src.partial, at, literal1).value;
    ConsumesPreludeAndMatch(src.input, src.partial, at, literal1);
    if !AgreesAt(src.input, literal2, SkipSpaces(src.input, b.end)) {
      FindTwoFound(src, start, b.begin + 1, literal1, literal2);
    }
  }

  // ------------------------------------------------------------ the alternative ends

  lemma BeginsLater(src: Source, pos: nat, here: string, tag: string)
    requires OccursAt(src.input, here, pos) && here != "" && !AgreesAt(here, tag, 0)
    ensures pos <= |src.input|
    ensures var m := FindLiteral(src.input, src.partial, pos, tag); m.Some? ==> |m.value.prelude| > 0
  {
    hide AgreesAt; hide OccursAt;
    OccursFits(src.input, here, pos);
    if FindLiteral(src.input, src.partial, pos, tag).Some? { MatchAgrees(src, pos, here, tag); }
    hide FindLiteral;
  }

  /** Where the last value needs no end of its own, it ends before the end of the last tool, too. */
  lemma EndsBeforeLastTool(src: Source, form: Format, pos: nat, alt: string)
    requires form.lastValEnd == Some("") && form.lastToolEnd == Some(alt) && alt != ""
    requires OccursAt(src.input, alt, pos) && !AgreesAt(alt, form.valEnd, 0) && !AgreesAt(alt, form.toolEnd, 0)
    ensures pos <= |src.input| && FindValEnd(src, form, pos) == Close(0, Some(Match("", pos, pos)))
  {
    hide FindLiteral; hide OccursAt; hide AgreesAt;
    BeginsLater(src, pos, alt, form.valEnd);
    BeginsLater(src, pos, alt, form.toolEnd);
    FoundHere(src, pos, alt);
    CloseSteps(src, pos, form.valEnd, form.lastValEnd, form.toolEnd, form.lastToolEnd);
  }

  // ------------------------------------------------------------ endings

  /** Only a call of which no argument has been read can still be refused without an error. */
  lemma ArgumentCommits(src: Source, form: Format, pos: nat, name: string, args: Members, recovery: bool)
    requires pos <= |src.input|
    ensures var r := ParseArgs(src, form, pos, name, args, recovery);
            r.ArgsDone? ==> r.recovery == (recovery && r.pos == pos)
  {
    hide FindLiteral; hide ParseKeyAndValue; hide AllSpace; hide ParseArgs; hide Put; hide NamedCall; hide OpenDump;
    ArgsSteps(src, form, pos, name, args, recovery);
    assert form.keyStart != "";
  }

  /** A call without a name is never finished, and nothing of it is shown. */
  lemma NamelessStops(src: Source, form: Format, pos: nat, args: Members, recovery: bool)
    requires pos <= |src.input|
    ensures var r := ParseToolEnd(src, form, pos, "", args, recovery);
            r == CallRefused(recovery) || r == CallThrown(PartialError, [])
  {
    hide FindToolEnd; hide AllSpace; hide OpenDump; hide Dump;
  }

  lemma {:induction false} FinishedIsNamed(src: Source, form: Format, pos: nat, recovery: bool)
    requires pos <= |src.input|
    ensures var r := ParseCall(src, form, pos, recovery); r.CallParsed? ==> r.call.name != "" && r.call.id == ""
  {
    hide FindName; hide ParseArgs; hide FindToolEnd; hide AllSpace; hide OpenDump; hide Dump;
  }

  lemma SkipsAll(s: string, pos: nat)
    requires pos <= |s|
    ensures SkipSpaces(s, pos) == |s| <==> AllSpace(s[pos..])
  {
    SkipsExactlySpaces(s, pos);
    hide IsSpace;
    var k := SkipSpaces(s, pos);
    if k < |s| { assert s[pos..][k - pos] == s[k]; }
    if k == |s| {
      forall i | 0 <= i < |s| - pos ensures IsSpace(s[pos..][i]) { assert s[pos..][i] == s[pos + i]; }
    }
  }

  /** A list of calls ends well with the end of the scope after spaces, or without one that is only spaces; it waits
      for the end while only spaces are left. */
  lemma ScopeEndExactly(src: Source, form: Format, start: nat, pos: nat, calls: seq<ToolCall>, recovery: bool)
    requires pos <= |src.input|
    ensures var r, m := ParseScopeEnd(src, form, start, pos, calls, recovery),
                        FindLiteral(src.input, src.partial, pos, form.scopeEnd);
            && r.calls == calls
            && (r.ending.ReturnTrue? <==>
                  if m.Some? then AllSpace(m.value.prelude) else AllSpace(form.scopeEnd))
            && (r.ending.ReturnTrue? ==> r.pos == if m.Some? then m.value.end else pos)
            && (r.ending.PartialError? <==> m.None? && !AllSpace(form.scopeEnd) && AllSpace(src.input[pos..]))
  {
    SkipsAll(src.input, pos);
    hide FindLiteral; hide AllSpace; hide SkipSpaces;
  }

  /** While the opening of the scope arrives, the attempt waits for it, and keeps the calls it was given. */
  lemma ScopeAwaited(src: Source, form: Format, pos: nat, calls: seq<ToolCall>)
    requires pos <= |src.input| && !AllSpace(form.scopeStart)
    requires var m := FindLiteral(src.input, src.partial, pos, form.scopeStart);
             m.Some? && AllSpace(m.value.prelude) && m.value.end - m.value.begin < |form.scopeStart|
    ensures TryConsume(src, form, pos, calls) == Outcome(PartialError, 0, calls)
  {
    hide FindLiteral; hide AllSpace; hide ParseCalls;
  }
}
