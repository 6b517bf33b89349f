/** What `try_parse_reasoning` computes, as functions of the input. The class `MsgParser` is proved
    against these, and the streaming theorems are proved about them. */
module Reasoning {
  import opened Text
  import opened ChatTypes

  /** The parser options together with the pair of tags that `try_parse_reasoning` is given. At
      least one tag has to be non-empty, or the scan would not advance. */
  datatype ModeOf = ModeOf(syn: Syntax, startThink: string, endThink: string)
  type Mode = m: ModeOf | m.startThink != "" || m.endThink != ""
    witness ModeOf(Syntax(ReasoningNone, false, false, false), "<think>", "</think>")

  /** The message under construction and the captured opening tag not yet surfaced. */
  datatype Acc = Acc(content: string, reasoning: string, pending: string)

  datatype Parsed = Parsed(found: bool, pos: nat, content: string, reasoning: string)

  function OpenText(m: Mode): string {
    if m.syn.reasoningFormat.Deepseek? then "<think>" else m.startThink
  }

  function CloseText(m: Mode): string {
    if m.syn.reasoningFormat.Deepseek? then "</think>" else m.endThink
  }

  function HandleReasoning(m: Mode, a: Acc, text: string, closed: bool): (b: Acc)
    ensures a.content <= b.content && a.reasoning <= b.reasoning
  {
    var stripped := Strip(text);
    if stripped == "" then a
    else if m.syn.reasoningInContent then
      a.(content := a.content + OpenText(m) + stripped + if closed then CloseText(m) else "")
    else
      a.(reasoning := a.reasoning + a.pending + stripped, pending := "")
  }

  function SetReasoningPrefix(m: Mode, a: Acc): Acc {
    if !m.syn.thinkingForcedOpen || m.syn.reasoningInContent then a else a.(pending := m.startThink)
  }

  /** One step of the scan: it either ends it, having found reasoning or not, or it moves inside
      the next reasoning section. */
  datatype Round = Stop(found: bool, pos: nat, acc: Acc) | Next(cursor: nat, acc: Acc)

  function AfterSection(input: string, m: Mode, from: nat, b: Acc): (r: Round)
    requires from <= |input|
    ensures r.acc.content == b.content && r.acc.reasoning == b.reasoning
    ensures if r.Stop? then r.pos <= |input| else from + |m.startThink| <= r.cursor <= |input|
  {
    var next := SkipSpaces(input, from);
    if next == |input| || !AgreesAt(input, m.startThink, next) then Stop(true, next, b)
    else if |input| - next < |m.startThink| then Stop(true, |input|, b)
    else Next(next + |m.startThink|, SetReasoningPrefix(m, b))
  }

  function ScanRound(input: string, partial: bool, m: Mode, cursor: nat, a: Acc): (r: Round)
    requires cursor <= |input|
    ensures if r.Stop? then r.pos <= |input| else cursor < r.cursor <= |input|
    ensures a.content <= r.acc.content && a.reasoning <= r.acc.reasoning
  {
    if cursor == |input| then Stop(true, |input|, a)
    else
      match Find(input, m.endThink, cursor)
      case None =>
        var end := ShownEnd(input, m.endThink, cursor);
        var closed := PartialFrom(input, m.endThink, cursor).None? && !partial;
        Stop(true, |input|, if end > cursor then HandleReasoning(m, a, input[cursor..end], closed) else a)
      case Some(k) =>
        AfterSection(input, m, k + |m.endThink|, HandleReasoning(m, a, input[cursor..k], true))
  }

  /** The decision at the start: leading spaces, then a whole, a partial or no opening tag. */
  function Opening(input: string, m: Mode, pos: nat, content: string, reasoning: string): (r: Round)
    requires pos <= |input|
    ensures if r.Stop? then r.pos <= |input| else r.cursor <= |input|
    ensures r.Stop? && !r.found ==> r == Stop(false, pos, Acc(content, reasoning, ""))
  {
    var a := Acc(content, reasoning, "");
    var start := SkipSpaces(input, pos);
    if m.syn.reasoningFormat.ReasoningNone? then Stop(false, pos, a)
    else if start == |input| then
      if m.syn.thinkingForcedOpen then Stop(true, |input|, a) else Stop(false, pos, a)
    else if AgreesAt(input, m.startThink, start) then
      if |input| - start < |m.startThink| then Stop(true, |input|, a)
      else Next(start + |m.startThink|, SetReasoningPrefix(m, a.(content := content + input[pos..start])))
    else if m.syn.thinkingForcedOpen then Next(start, a)
    else Stop(false, pos, a)
  }

  /** The scan, from the outcome of a step on. */
  function Scan(input: string, partial: bool, m: Mode, r: Round): (p: Parsed)
    requires if r.Stop? then r.pos <= |input| else r.cursor <= |input|
    ensures p.pos <= |input|
    decreases if r.Stop? then 0 else 1 + |input| - r.cursor
  {
    match r
    case Stop(found, pos, b) => Parsed(found, pos, b.content, b.reasoning)
    case Next(cursor, b) => Scan(input, partial, m, ScanRound(input, partial, m, cursor, b))
  }

  function ParseReasoning(input: string, partial: bool, m: Mode, pos: nat, content: string, reasoning: string)
      : (p: Parsed)
    requires pos <= |input|
    ensures p.pos <= |input|
  {
    Scan(input, partial, m, Opening(input, m, pos, content, reasoning))
  }

  /** The message that results when the text after the cursor becomes content. */
  function Shown(p: Parsed, input: string): ChatMsg
    requires p.pos <= |input|
  {
    ChatMsg(p.content + input[p.pos..], p.reasoning, [])
  }

  /** `common_chat_parse_content_only` on a fresh parser, with any pair of tags. */
  function ParseContent(input: string, partial: bool, m: Mode): ChatMsg {
    Shown(ParseReasoning(input, partial, m, 0, "", ""), input)
  }

  /** Every piece of text already sent stays sent. */
  predicate TextExtends(a: ChatMsg, b: ChatMsg) {
    a.content <= b.content && a.reasoning <= b.reasoning
  }

  /** Whether a snapshot is safe to stream: the only unsafe ones consist of whitespace alone, while
      a tag of two or more bytes that starts with a non-space could still follow. */
  predicate SafeSnapshot(s: string, m: Mode) {
    m.syn.reasoningFormat.ReasoningNone? || m.syn.thinkingForcedOpen || s == "" || !AllSpace(s) ||
    |m.startThink| < 2 || IsSpace(m.startThink[0])
  }

  // ------------------------------------------------------------ monotonicity

  lemma {:induction false} ScanOnlyAppends(input: string, partial: bool, m: Mode, r: Round)
    requires if r.Stop? then r.pos <= |input| else r.cursor <= |input|
    ensures var p := Scan(input, partial, m, r);
            r.acc.content <= p.content && r.acc.reasoning <= p.reasoning
    decreases if r.Stop? then 0 else 1 + |input| - r.cursor
  {
    if r.Next? {
      ScanOnlyAppends(input, partial, m, ScanRound(input, partial, m, r.cursor, r.acc));
    }
  }

  /** Handing a longer text to an open section extends what the shorter one produced. */
  lemma HandleMonotone(m: Mode, a: Acc, t: string, t': string, closed': bool)
    requires t <= t'
    ensures var b, b' := HandleReasoning(m, a, t, false), HandleReasoning(m, a, t', closed');
            b.content <= b'.content && b.reasoning <= b'.reasoning
  {
    StripMonotone(t, t');
  }

  /** How one round on a longer text relates to the same round on a partial one. */
  ghost predicate RoundExtends(s: string, r: Round, s': string, r': Round)
    requires r.Stop? ==> r.pos <= |s|
    requires r'.Stop? ==> r'.pos <= |s'|
  {
    match r
    case Next(_, _) => r' == r
    case Stop(_, pos, b) =>
      && b.reasoning <= r'.acc.reasoning
      && (b.content + s[pos..] <= r'.acc.content ||
          (r'.Stop? && r'.pos == pos && b.content == r'.acc.content))
  }

  lemma AfterSectionExtends(s: string, s': string, m: Mode, from: nat, b: Acc)
    requires s <= s' && from <= |s|
    ensures RoundExtends(s, AfterSection(s, m, from, b), s', AfterSection(s', m, from, b))
  {
    SkipSpacesExtends(s, s', from);
    var next := SkipSpaces(s, from);
    AgreesInExtension(s, s', m.startThink, next);
  }

  /** An open section shows a growing prefix of its reasoning, whether or not it is closed later. */
  lemma OpenSectionExtends(s: string, s': string, partial': bool, m: Mode, cursor: nat, a: Acc)
    requires s <= s' && cursor < |s| && Find(s, m.endThink, cursor).None?
    ensures RoundExtends(s, ScanRound(s, true, m, cursor, a), s', ScanRound(s', partial', m, cursor, a))
  {
    ShownEndMonotone(s, s', m.endThink, cursor);
    var e, e' := ShownEnd(s, m.endThink, cursor), ShownEnd(s', m.endThink, cursor);
    var closed' := Find(s', m.endThink, cursor).Some? ||
                   (PartialFrom(s', m.endThink, cursor).None? && !partial');
    if e > cursor {
      assert s[cursor..e] <= s'[cursor..e'];
      HandleMonotone(m, a, s[cursor..e], s'[cursor..e'], closed');
    }
  }

  lemma ScanRoundClosed(s: string, partial: bool, m: Mode, cursor: nat, a: Acc)
    requires cursor < |s| && Find(s, m.endThink, cursor).Some?
    ensures var k := Find(s, m.endThink, cursor).value;
            k + |m.endThink| <= |s| && cursor <= k &&
            ScanRound(s, partial, m, cursor, a) ==
            AfterSection(s, m, k + |m.endThink|, HandleReasoning(m, a, s[cursor..k], true))
  {
    hide AfterSection; hide HandleReasoning;
  }

  lemma SameSlice(s: string, s': string, i: nat, k: nat)
    requires s <= s' && i <= k <= |s|
    ensures s[i..k] == s'[i..k]
  {}

  lemma ClosedSectionExtends(s: string, s': string, partial': bool, m: Mode, cursor: nat, a: Acc)
    requires s <= s' && cursor < |s| && Find(s, m.endThink, cursor).Some?
    ensures RoundExtends(s, ScanRound(s, true, m, cursor, a), s', ScanRound(s', partial', m, cursor, a))
  {
    hide *;
    FindExtends(s, s', m.endThink, cursor);
    ScanRoundClosed(s, true, m, cursor, a);
    ScanRoundClosed(s', partial', m, cursor, a);
    var k := Find(s, m.endThink, cursor).value;
    SameSlice(s, s', cursor, k);
    var b := HandleReasoning(m, a, s[cursor..k], true);
    AfterSectionExtends(s, s', m, k + |m.endThink|, b);
  }

  lemma RoundMonotone(s: string, s': string, partial': bool, m: Mode, cursor: nat, a: Acc)
    requires s <= s' && cursor <= |s|
    ensures RoundExtends(s, ScanRound(s, true, m, cursor, a), s', ScanRound(s', partial', m, cursor, a))
  {
    if cursor == |s| {
      assert a.content + s[cursor..] == a.content;
    } else if Find(s, m.endThink, cursor).None? {
      OpenSectionExtends(s, s', partial', m, cursor, a);
    } else {
      ClosedSectionExtends(s, s', partial', m, cursor, a);
    }
  }

  /** The scan of an extension, complete or not, extends what the scan of a partial text shows. */
  lemma {:induction false} ScanMonotone(s: string, s': string, partial': bool, m: Mode, r: Round, r': Round)
    requires s <= s'
    requires if r.Stop? then r.pos <= |s| else r.cursor <= |s|
    requires if r'.Stop? then r'.pos <= |s'| else r'.cursor <= |s'|
    requires RoundExtends(s, r, s', r')
    ensures TextExtends(Shown(Scan(s, true, m, r), s), Shown(Scan(s', partial', m, r'), s'))
    decreases if r.Stop? then 0 else 1 + |s| - r.cursor
  {
    match r {
      case Next(cursor, b) =>
        RoundMonotone(s, s', partial', m, cursor, b);
        ScanMonotone(s, s', partial', m, ScanRound(s, true, m, cursor, b), ScanRound(s', partial', m, cursor, b));
      case Stop(_, pos, b) =>
        ScanOnlyAppends(s', partial', m, r');
        assert s[pos..] <= s'[pos..];
    }
  }

  lemma OpeningExtends(s: string, s': string, m: Mode)
    requires s <= s' && SafeSnapshot(s, m)
    ensures RoundExtends(s, Opening(s, m, 0, "", ""), s', Opening(s', m, 0, "", ""))
  {
    var start := SkipSpaces(s, 0);
    SkipSpacesExtends(s, s', 0);
    AgreesInExtension(s, s', m.startThink, start);
    assert s[0..start] == s'[0..start];
    if start == |s| {
      SkipsExactlySpaces(s, 0);
      assert AllSpace(s);
      WhitespaceOpening(s, s', m);
    }
  }

  /** A snapshot of whitespace alone, when it is safe: no opening tag can make it disappear. */
  lemma WhitespaceOpening(s: string, s': string, m: Mode)
    requires s <= s' && AllSpace(s) && SafeSnapshot(s, m)
    ensures RoundExtends(s, Opening(s, m, 0, "", ""), s', Opening(s', m, 0, "", ""))
  {
    var start := SkipSpaces(s', 0);
    SkipSpacesExtends(s, s', 0);
    SkipSpacesIs(s, 0, |s|);
    SkipsExactlySpaces(s', 0);
    assert "" + s[0..] == s <= s'[0..start] == "" + s'[0..start];
  }

  /** The streaming law: from a safe snapshot on, everything sent stays a prefix of every later
      message, partial or final. */
  lemma ParseMonotone(s: string, s': string, partial': bool, m: Mode)
    requires s <= s' && SafeSnapshot(s, m)
    ensures TextExtends(ParseContent(s, true, m), ParseContent(s', partial', m))
  {
    OpeningExtends(s, s', m);
    ScanMonotone(s, s', partial', m, Opening(s, m, 0, "", ""), Opening(s', m, 0, "", ""));
  }

  /** What an unsafe snapshot leads to: the first byte of the tag makes the sent spaces disappear. */
  lemma UnsafeSnapshotRetracts(s: string, m: Mode)
    requires !SafeSnapshot(s, m)
    ensures ParseContent(s, true, m) == ChatMsg(s, "", [])
    ensures ParseContent(s + m.startThink[..1], true, m) == EmptyMsg
  {
    SkipSpacesIs(s, 0, |s|);
    var s' := s + m.startThink[..1];
    assert s'[|s|] == m.startThink[0];
    SkipSpacesIs(s', 0, |s|);
    assert s'[|s|..] == m.startThink[..1];
    assert s[0..] == s && "" + s == s;
  }

  /** Streaming is monotone exactly from the safe snapshots. */
  lemma StreamingIffSafe(s: string, m: Mode)
    ensures SafeSnapshot(s, m) <==>
            forall s': string, partial': bool | s <= s' ::
              TextExtends(ParseContent(s, true, m), ParseContent(s', partial', m))
  {
    if SafeSnapshot(s, m) {
      forall s': string, partial': bool | s <= s'
        ensures TextExtends(ParseContent(s, true, m), ParseContent(s', partial', m))
      {
        ParseMonotone(s, s', partial', m);
      }
    } else {
      UnsafeSnapshotRetracts(s, m);
      var s' := s + m.startThink[..1];
      assert s <= s' && !TextExtends(ParseContent(s, true, m), ParseContent(s', true, m));
    }
  }

  /** Even after an unsafe snapshot, a later parse either extends it or is empty altogether. */
  lemma EmptyOrExtends(s: string, s': string, partial': bool, m: Mode)
    requires s <= s'
    ensures ParseContent(s', partial', m) == EmptyMsg ||
            TextExtends(ParseContent(s, true, m), ParseContent(s', partial', m))
  {
    if SafeSnapshot(s, m) {
      ParseMonotone(s, s', partial', m);
    } else {
      UnsafeSnapshotRetracts(s, m);
      OpeningAfterSpaces(s, s', m);
      ScanOnlyAppends(s', partial', m, Opening(s', m, 0, "", ""));
    }
  }

  lemma OpeningAfterSpaces(s: string, s': string, m: Mode)
    requires s <= s' && AllSpace(s) && !m.syn.reasoningFormat.ReasoningNone? && !m.syn.thinkingForcedOpen
    ensures var r := Opening(s', m, 0, "", "");
            || s <= r.acc.content
            || r == Stop(true, |s'|, Acc("", "", ""))
            || r == Stop(false, 0, Acc("", "", ""))
  {
    SkipSpacesIs(s, 0, |s|);
    SkipSpacesExtends(s, s', 0);
    var start := SkipSpaces(s', 0);
    assert s <= s'[0..start] == "" + s'[0..start];
  }

  /** After its leading spaces the text is a beginning of the opening tag, and not the whole tag. */
  predicate HidesTag(s: string, m: Mode) {
    var k := SkipSpaces(s, 0);
    k < |s| && s[k..] < m.startThink
  }

  /** After an unsafe snapshot the message is empty exactly while the text may still become the tag. */
  lemma EmptyAfterUnsafe(s: string, s': string, partial': bool, m: Mode)
    requires !SafeSnapshot(s, m) && s <= s'
    ensures ParseContent(s', partial', m) == EmptyMsg <==> HidesTag(s', m)
  {
    var r := Opening(s', m, 0, "", "");
    SkipSpacesIs(s, 0, |s|);
    SkipSpacesExtends(s, s', 0);
    var start := SkipSpaces(s', 0);
    assert "" + s'[0..start] == s'[0..start] && s'[0..] == s';
    if r.Next? {
      ScanOnlyAppends(s', partial', m, r);
    }
  }

  /** Of a text whose message is empty, exactly the unsafe beginnings had shown something. */
  lemma ShownExactlyWhenUnsafe(s: string, s': string, partial': bool, m: Mode)
    requires s <= s' && ParseContent(s', partial', m) == EmptyMsg
    ensures ParseContent(s, true, m) != EmptyMsg <==> !SafeSnapshot(s, m)
  {
    if SafeSnapshot(s, m) {
      ParseMonotone(s, s', partial', m);
    } else {
      UnsafeSnapshotRetracts(s, m);
    }
  }

  // ------------------------------------------------------------ what a complete parse returns

  lemma OpensAtTag(m: Mode, lead: string, rest: string)
    requires !m.syn.reasoningFormat.ReasoningNone? && AllSpace(lead)
    requires m.startThink != "" && !IsSpace(m.startThink[0])
    ensures Opening(lead + m.startThink + rest, m, 0, "", "") ==
            Next(|lead + m.startThink|, SetReasoningPrefix(m, Acc(lead, "", "")))
  {
    var input := lead + m.startThink + rest;
    assert input[|lead|] == m.startThink[0] && forall j | 0 <= j < |lead| :: input[j] == lead[j];
    SkipSpacesIs(input, 0, |lead|);
    assert input[|lead|..] == m.startThink + rest;
    assert "" + input[0..|lead|] == lead;
  }

  /** After the section: spaces, and an answer that does not begin like another opening tag. */
  predicate Answer(m: Mode, gap: string, answer: string) {
    AllSpace(gap) && (answer == "" || (!IsSpace(answer[0]) && !AgreesAt(answer, m.startThink, 0)))
  }

  lemma StopsAtAnswer(m: Mode, before: string, gap: string, answer: string, b: Acc)
    requires Answer(m, gap, answer)
    ensures AfterSection(before + (gap + answer), m, |before|, b) == Stop(true, |before + gap|, b)
  {
    var input, next := before + (gap + answer), |before + gap|;
    assert forall j | |before| <= j < next :: input[j] == gap[j - |before|];
    assert input[next..] == answer == answer[0..];
    assert answer != "" ==> input[next] == answer[0];
    SkipSpacesIs(input, |before|, next);
  }

  lemma ClosesAtTag(m: Mode, before: string, thought: string, gap: string, answer: string, a: Acc)
    requires FirstAt(thought, m.endThink) && Answer(m, gap, answer)
    ensures ScanRound(before + thought + m.endThink + (gap + answer), false, m, |before|, a) ==
            Stop(true, |before + thought + m.endThink + gap|, HandleReasoning(m, a, thought, true))
  {
    hide AfterSection; hide Find; hide Answer; hide ShownEnd; hide Strip; hide FirstAt;
    var rest := gap + answer;
    var input := before + thought + m.endThink + rest;
    var k := |before + thought|;
    if |before| == |input| {
      assert thought == "";
      NothingStripped();
    } else {
      TagFoundAfter(before, thought, m.endThink, rest);
      assert input[|before|..k] == thought;
      StopsAtAnswer(m, before + thought + m.endThink, gap, answer, HandleReasoning(m, a, thought, true));
    }
  }

  lemma NothingStripped()
    ensures Strip("") == ""
  {}

  lemma ParsesOneSection(m: Mode, lead: string, thought: string, gap: string, answer: string)
    requires !m.syn.reasoningFormat.ReasoningNone? && AllSpace(lead)
    requires m.startThink != "" && !IsSpace(m.startThink[0])
    requires FirstAt(thought, m.endThink) && Answer(m, gap, answer)
    ensures var b := HandleReasoning(m, SetReasoningPrefix(m, Acc(lead, "", "")), thought, true);
            ParseContent(lead + m.startThink + thought + m.endThink + (gap + answer), false, m) ==
            ChatMsg(b.content + answer, b.reasoning, [])
  {
    hide *;
    var before := lead + m.startThink;
    var input := before + thought + m.endThink + (gap + answer);
    assert input == before + (thought + m.endThink + (gap + answer));
    OpensAtTag(m, lead, thought + m.endThink + (gap + answer));
    var a := SetReasoningPrefix(m, Acc(lead, "", ""));
    ClosesAtTag(m, before, thought, gap, answer, a);
    var b := HandleReasoning(m, a, thought, true);
    var next := |before + thought + m.endThink + gap|;
    ScanEnds(input, false, m, |before|, a, next, b);
    assert input[next..] == answer;
    ContentIs(input, m, Next(|before|, a), next, b);
  }

  lemma ContentIs(input: string, m: Mode, r: Round, pos: nat, b: Acc)
    requires Opening(input, m, 0, "", "") == r && pos <= |input|
    requires Scan(input, false, m, r) == Parsed(true, pos, b.content, b.reasoning)
    ensures ParseContent(input, false, m) == ChatMsg(b.content + input[pos..], b.reasoning, [])
  {
    hide Opening; hide Scan;
  }

  lemma ScanEnds(input: string, partial: bool, m: Mode, cursor: nat, a: Acc, pos: nat, b: Acc)
    requires cursor <= |input| && pos <= |input|
    requires ScanRound(input, partial, m, cursor, a) == Stop(true, pos, b)
    ensures Scan(input, partial, m, Next(cursor, a)) == Parsed(true, pos, b.content, b.reasoning)
  {
    assert Scan(input, partial, m, Stop(true, pos, b)) == Parsed(true, pos, b.content, b.reasoning);
  }

  /** A complete text of one tagged section and an answer is split exactly: the section without its outer spaces
      becomes the reasoning, the answer the content, in whichever field the options ask for. Spaces before the tag
      stay in the content, spaces after the section go. */
  lemma SplitsTaggedText(m: Mode, lead: string, thought: string, gap: string, answer: string)
    requires !m.syn.reasoningFormat.ReasoningNone? && AllSpace(lead)
    requires m.startThink != "" && !IsSpace(m.startThink[0])
    requires FirstAt(thought, m.endThink) && Answer(m, gap, answer)
    ensures var text := Strip(thought);
            ParseContent(lead + m.startThink + thought + m.endThink + (gap + answer), false, m) ==
            if text == "" then ChatMsg(lead + answer, "", [])
            else if m.syn.reasoningInContent then
              ChatMsg(lead + OpenText(m) + text + CloseText(m) + answer, "", [])
            else
              ChatMsg(lead + answer, (if m.syn.thinkingForcedOpen then m.startThink else "") + text, [])
  {
    hide ParseContent; hide Strip; hide Answer; hide FirstAt;
    ParsesOneSection(m, lead, thought, gap, answer);
    assert "" + m.startThink == m.startThink && "" + "" == "";
  }
}
