/** What `try_parse_reasoning` makes of every text: the parts a text is read as, and the message they stand for. */
module ReasoningLaws {
  import opened Text
  import opened ChatTypes
  import opened Reasoning

  // ------------------------------------------------------------ the parts of a text

  /** What follows an opening tag: a section that is not closed, with the beginning of a closing tag that may end it,
      or a closed section, the spaces after it, and what comes then. */
  datatype Body = Unclosed(thought: string, begun: string) | Closed(thought: string, gap: string, rest: After)

  /** What follows a section: an answer, a proper beginning of one more opening tag, or one more section. */
  datatype After = Answering(answer: string) | TagBegun(part: string) | Again(body: Body)

  /** A text: content alone, leading spaces and a proper beginning of the opening tag, or leading spaces and a section
      behind its tag or, when thinking is forced open, without one. */
  datatype Document =
    | Plain(text: string)
    | Beginning(lead: string, part: string)
    | Tagged(lead: string, body: Body)
    | Forced(lead: string, body: Body)

  function BodyText(m: Mode, b: Body): string {
    match b
    case Unclosed(thought, begun) => thought + begun
    case Closed(thought, gap, rest) => thought + (m.endThink + (gap + AfterText(m, rest)))
  }

  function AfterText(m: Mode, a: After): string {
    match a
    case Answering(answer) => answer
    case TagBegun(part) => part
    case Again(body) => m.startThink + BodyText(m, body)
  }

  function DocumentText(m: Mode, d: Document): string {
    match d
    case Plain(text) => text
    case Beginning(lead, part) => lead + part
    case Tagged(lead, body) => lead + (m.startThink + BodyText(m, body))
    case Forced(lead, body) => lead + BodyText(m, body)
  }

  /** From `n` on, and from nowhere before, the text is a beginning of the tag. */
  predicate HeldBack(s: string, tag: string, n: nat) {
    && n <= |s| && (n < |s| ==> PartialAt(s, tag, n))
    && forall i | 0 <= i < n :: !PartialAt(s, tag, i)
  }

  predicate NoTagAt(m: Mode, s: string) {
    s == "" || (!IsSpace(s[0]) && !AgreesAt(s, m.startThink, 0))
  }

  predicate GoodBody(m: Mode, b: Body) {
    match b
    case Unclosed(thought, begun) =>
      (thought + begun == "" || !Contains(thought + begun, m.endThink)) &&
      HeldBack(thought + begun, m.endThink, |thought|)
    case Closed(thought, gap, rest) => FirstAt(thought, m.endThink) && AllSpace(gap) && GoodAfter(m, rest)
  }

  predicate GoodAfter(m: Mode, a: After) {
    match a
    case Answering(answer) => NoTagAt(m, answer)
    case TagBegun(part) => part != "" && part < m.startThink
    case Again(body) => GoodBody(m, body)
  }

  predicate GoodDocument(m: Mode, d: Document) {
    match d
    case Plain(text) =>
      || m.syn.reasoningFormat.ReasoningNone?
      || (!m.syn.thinkingForcedOpen && NoTagAt(m, text[SkipSpaces(text, 0)..]))
    case Beginning(lead, part) =>
      !m.syn.reasoningFormat.ReasoningNone? && AllSpace(lead) && part != "" && part < m.startThink
    case Tagged(lead, body) => !m.syn.reasoningFormat.ReasoningNone? && AllSpace(lead) && GoodBody(m, body)
    case Forced(lead, body) =>
      && !m.syn.reasoningFormat.ReasoningNone? && m.syn.thinkingForcedOpen && AllSpace(lead) && GoodBody(m, body)
      && NoTagAt(m, BodyText(m, body))
  }

  // ------------------------------------------------------------ the message they stand for

  /** The tags that stand in the content around a section: always the same with `deepseek`, otherwise those read. */
  function Tag(m: Mode, closing: bool): string {
    match m.syn.reasoningFormat
    case Deepseek => if closing then "</think>" else "<think>"
    case _ => if closing then m.endThink else m.startThink
  }

  /** What a section adds to content and reasoning: its text without outer spaces, if any is left, between tags in the
      content, or in the reasoning, behind the tag it came with when thinking is forced open. */
  function Says(m: Mode, thought: string, tagged: bool, closed: bool): (string, string) {
    var text := Strip(thought);
    if text == "" then ("", "")
    else if m.syn.reasoningInContent then (Tag(m, false) + text + (if closed then Tag(m, true) else ""), "")
    else ("", (if tagged && m.syn.thinkingForcedOpen then m.startThink else "") + text)
  }

  function Joined(a: (string, string), b: (string, string)): (string, string) {
    (a.0 + b.0, a.1 + b.1)
  }

  /** An unclosed section counts as closed when the text is complete and no closing tag has begun. */
  function BodySays(m: Mode, b: Body, tagged: bool, partial: bool): (string, string) {
    match b
    case Unclosed(thought, begun) => Says(m, thought, tagged, begun == "" && !partial)
    case Closed(thought, _, rest) => Joined(Says(m, thought, tagged, true), AfterSays(m, rest, partial))
  }

  function AfterSays(m: Mode, a: After, partial: bool): (string, string) {
    match a
    case Answering(answer) => (answer, "")
    case TagBegun(_) => ("", "")
    case Again(body) => BodySays(m, body, true, partial)
  }

  function DocumentSays(m: Mode, d: Document, partial: bool): (string, string) {
    match d
    case Plain(text) => (text, "")
    case Beginning(_, _) => ("", "")
    case Tagged(lead, body) => Joined((lead, ""), BodySays(m, body, true, partial))
    case Forced(_, body) => BodySays(m, body, false, partial)
  }

  // ------------------------------------------------------------ one section

  /** The opening tag still to be shown before the next section. */
  predicate PendingIs(m: Mode, a: Acc, tagged: bool) {
    a.pending == if tagged && m.syn.thinkingForcedOpen && !m.syn.reasoningInContent then m.startThink else ""
  }

  function Add(a: Acc, says: (string, string)): ChatMsg {
    ChatMsg(a.content + says.0, a.reasoning + says.1, [])
  }

  lemma HandleSays(m: Mode, a: Acc, thought: string, tagged: bool, closed: bool)
    requires PendingIs(m, a, tagged)
    ensures var b := HandleReasoning(m, a, thought, closed);
            && Add(b, ("", "")) == Add(a, Says(m, thought, tagged, closed))
            && PendingIs(m, SetReasoningPrefix(m, b), true)
  {
    var b, text := HandleReasoning(m, a, thought, closed), Strip(thought);
    assert a.content + "" == a.content && a.reasoning + "" == a.reasoning;
    assert b.content + "" == b.content && b.reasoning + "" == b.reasoning;
    if text != "" {
      if m.syn.reasoningInContent {
        var close := if closed then Tag(m, true) else "";
        assert a.content + Tag(m, false) + text + close == a.content + (Tag(m, false) + text + close);
      } else {
        assert a.reasoning + a.pending + text == a.reasoning + (a.pending + text);
      }
    }
  }

  lemma FoundInView(before: string, t: string, tag: string)
    ensures Find(before + t, tag, |before|).Some? <==> Contains(t, tag)
  {
    hide *;
    var s := before + t;
    FindIsFirst(s, tag, |before|);
    ContainsMeans(t, tag);
    if Find(s, tag, |before|).Some? {
      var i := Find(s, tag, |before|).value - |before|;
      OccursShifted(before, t, tag, i);
    }
    if Contains(t, tag) {
      var i: nat :| OccursAt(t, tag, i);
      OccursShifted(before, t, tag, i);
    }
  }

  lemma OccursShifted(before: string, t: string, tag: string, i: nat)
    ensures OccursAt(t, tag, i) <==> OccursAt(before + t, tag, |before| + i)
  {
    assert i + |tag| <= |t| ==> (before + t)[|before| + i..|before| + i + |tag|] == t[i..i + |tag|];
  }

  lemma PartialShifted(before: string, t: string, tag: string, i: nat)
    ensures PartialAt(t, tag, i) <==> PartialAt(before + t, tag, |before| + i)
  {
    assert i < |t| ==> (before + t)[|before| + i..] == t[i..];
  }

  lemma PartialInside(s: string, tag: string)
    ensures forall i: nat | PartialAt(s, tag, i) :: i < |s|
  {}

  /** What is held back of an unclosed section is where a closing tag may have begun. */
  lemma ShownIs(before: string, t: string, tag: string, n: nat)
    requires !Contains(t, tag) && HeldBack(t, tag, n)
    ensures ShownEnd(before + t, tag, |before|) == |before| + n
    ensures PartialFrom(before + t, tag, |before|).None? <==> n == |t|
  {
    var s := before + t;
    FoundInView(before, t, tag);
    PartialIsFirst(s, tag, |before|);
    hide PartialAt; hide PartialFrom; hide Find;
    forall i: nat ensures PartialAt(t, tag, i) <==> PartialAt(s, tag, |before| + i) {
      PartialShifted(before, t, tag, i);
    }
    PartialInside(s, tag);
    PartialInside(t, tag);
    if PartialFrom(s, tag, |before|).Some? {
      var k := PartialFrom(s, tag, |before|).value - |before|;
      assert PartialAt(t, tag, k);
    }
  }

  lemma UnclosedRound(m: Mode, before: string, thought: string, begun: string, partial: bool, a: Acc)
    requires GoodBody(m, Unclosed(thought, begun)) && thought + begun != ""
    ensures var input := before + (thought + begun);
            ScanRound(input, partial, m, |before|, a) ==
            Stop(true, |input|, HandleReasoning(m, a, thought, begun == "" && !partial))
  {
    hide HandleReasoning; hide AfterSection; hide ShownEnd; hide PartialFrom; hide HeldBack; hide Contains;
    var t := thought + begun;
    var input := before + t;
    FoundInView(before, t, m.endThink);
    ShownIs(before, t, m.endThink, |thought|);
    assert input[|before|..|before| + |thought|] == thought;
    if thought == "" { NoThought(m, a, begun == "" && !partial); }
  }

  lemma NoThought(m: Mode, a: Acc, closed: bool)
    ensures HandleReasoning(m, a, "", closed) == a
  {
    NothingStripped();
  }

  lemma UnclosedIsRead(m: Mode, before: string, thought: string, begun: string, tagged: bool, partial: bool, a: Acc)
    requires GoodBody(m, Unclosed(thought, begun)) && PendingIs(m, a, tagged)
    ensures var input := before + (thought + begun);
            Shown(Scan(input, partial, m, Next(|before|, a)), input) ==
            Add(a, Says(m, thought, tagged, begun == "" && !partial))
  {
    hide HandleReasoning; hide Says; hide ScanRound; hide GoodBody; hide SetReasoningPrefix;
    var input, closed := before + (thought + begun), begun == "" && !partial;
    var b := HandleReasoning(m, a, thought, closed);
    HandleSays(m, a, thought, tagged, closed);
    if thought + begun == "" {
      assert thought == "" && input == before;
      NoThought(m, a, closed);
      AtEnd(m, before, partial, a);
    } else {
      UnclosedRound(m, before, thought, begun, partial, a);
    }
    ScanEnds(input, partial, m, |before|, a, |input|, b);
    assert b.content + input[|input|..] == b.content + "";
  }

  lemma AtEnd(m: Mode, input: string, partial: bool, a: Acc)
    ensures ScanRound(input, partial, m, |input|, a) == Stop(true, |input|, a)
  {}

  // ------------------------------------------------------------ after a section

  lemma SkipsGap(before: string, gap: string, rest: string)
    requires AllSpace(gap) && (rest == "" || !IsSpace(rest[0]))
    ensures var input := before + (gap + rest);
            SkipSpaces(input, |before|) == |before + gap| && input[|before + gap|..] == rest
  {
    var input, next := before + (gap + rest), |before + gap|;
    assert forall j | |before| <= j < next :: input[j] == gap[j - |before|];
    assert input[next..] == rest;
    assert rest != "" ==> input[next] == rest[0];
    SkipSpacesIs(input, |before|, next);
  }

  lemma AgreesShifted(before: string, rest: string, tag: string)
    ensures AgreesAt(before + rest, tag, |before|) <==> AgreesAt(rest, tag, 0)
  {
    assert (before + rest)[|before|..] == rest == rest[0..];
  }

  /** The rest after a section begins with no space, as opening tags do not. */
  lemma {:induction false} AfterStarts(m: Mode, a: After)
    requires GoodAfter(m, a) && m.startThink != "" && !IsSpace(m.startThink[0])
    ensures AfterText(m, a) == "" || !IsSpace(AfterText(m, a)[0])
    ensures AfterText(m, a) != "" ==> (AgreesAt(AfterText(m, a), m.startThink, 0) <==> !a.Answering?)
    ensures a.TagBegun? <==>
            (AfterText(m, a) != "" && AgreesAt(AfterText(m, a), m.startThink, 0) &&
             |AfterText(m, a)| < |m.startThink|)
  {
    hide BodyText; hide GoodBody;
    var t := AfterText(m, a);
    assert t[0..] == t;
  }

  lemma {:induction false} AfterRound(m: Mode, before: string, gap: string, rest: After, b: Acc)
    requires AllSpace(gap) && GoodAfter(m, rest) && m.startThink != "" && !IsSpace(m.startThink[0])
    ensures var input := before + (gap + AfterText(m, rest));
            AfterSection(input, m, |before|, b) ==
            match rest
            case Answering(_) => Stop(true, |before + gap|, b)
            case TagBegun(_) => Stop(true, |input|, b)
            case Again(_) => Next(|before + gap + m.startThink|, SetReasoningPrefix(m, b))
  {
    hide AfterText; hide GoodAfter; hide AgreesAt; hide SetReasoningPrefix; hide SkipSpaces;
    var t := AfterText(m, rest);
    var input := before + (gap + t);
    AfterStarts(m, rest);
    SkipsGap(before, gap, t);
    AgreesShifted(before + gap, t, m.startThink);
    assert before + gap + t == input;
    AgainIs(m, rest);
  }

  lemma {:induction false} AgainIs(m: Mode, rest: After)
    ensures rest.Again? ==> AfterText(m, rest) == m.startThink + BodyText(m, rest.body)
    ensures rest.Again? && GoodAfter(m, rest) ==> GoodBody(m, rest.body)
  {
    hide BodyText; hide GoodBody;
  }

  // ------------------------------------------------------------ all sections

  lemma {:induction false} ClosedRound(m: Mode, before: string, thought: string, gap: string, rest: After,
                                       partial: bool, a: Acc)
    requires FirstAt(thought, m.endThink) && m.endThink != ""
    ensures var after := before + thought + m.endThink;
            var input := before + (thought + (m.endThink + (gap + AfterText(m, rest))));
            && input == after + (gap + AfterText(m, rest))
            && ScanRound(input, partial, m, |before|, a) ==
               AfterSection(input, m, |after|, HandleReasoning(m, a, thought, true))
  {
    hide HandleReasoning; hide AfterSection; hide AfterText; hide ShownEnd; hide PartialFrom; hide Find; hide FirstAt;
    var tail := gap + AfterText(m, rest);
    var input := before + (thought + (m.endThink + tail));
    TagFoundAfter(before, thought, m.endThink, tail);
    assert input == before + thought + m.endThink + tail;
    assert input[|before|..|before + thought|] == thought;
  }

  lemma JoinsAdd(a: Acc, b: Acc, x: (string, string), y: (string, string))
    requires Add(b, ("", "")) == Add(a, x)
    ensures Add(b, y) == Add(a, Joined(x, y))
  {
    assert b.content == b.content + "" == a.content + x.0 && b.reasoning == b.reasoning + "" == a.reasoning + x.1;
    assert a.content + x.0 + y.0 == a.content + (x.0 + y.0) && a.reasoning + x.1 + y.1 == a.reasoning + (x.1 + y.1);
  }

  /** Tags as the scan needs them. */
  predicate Tags(m: Mode) {
    m.startThink != "" && !IsSpace(m.startThink[0]) && m.endThink != ""
  }

  lemma PrefixKeeps(m: Mode, b: Acc)
    ensures var c := SetReasoningPrefix(m, b); c.content == b.content && c.reasoning == b.reasoning
  {}

  lemma {:induction false} BodySteps(m: Mode, body: Body, tagged: bool, partial: bool)
    ensures match body
            case Unclosed(thought, begun) =>
              && BodyText(m, body) == thought + begun
              && BodySays(m, body, tagged, partial) == Says(m, thought, tagged, begun == "" && !partial)
            case Closed(thought, gap, rest) =>
              && BodyText(m, body) == thought + (m.endThink + (gap + AfterText(m, rest)))
              && BodySays(m, body, tagged, partial) ==
                 Joined(Says(m, thought, tagged, true), AfterSays(m, rest, partial))
              && (GoodBody(m, body) ==> FirstAt(thought, m.endThink) && AllSpace(gap) && GoodAfter(m, rest))
  {
    hide Says; hide AfterText; hide AfterSays; hide GoodAfter; hide FirstAt;
  }

  lemma {:induction false} AfterSaysIs(m: Mode, rest: After, partial: bool)
    ensures AfterSays(m, rest, partial) ==
            match rest
            case Answering(answer) => (answer, "")
            case TagBegun(_) => ("", "")
            case Again(body) => BodySays(m, body, true, partial)
    ensures rest.Answering? ==> AfterText(m, rest) == rest.answer
  {
    hide BodySays; hide BodyText;
  }

  /** From inside a section on, the scan adds what the parts of the text say. */
  lemma {:induction false} BodyIsRead(m: Mode, before: string, body: Body, tagged: bool, partial: bool, a: Acc)
    requires Tags(m) && GoodBody(m, body) && PendingIs(m, a, tagged)
    ensures var input := before + BodyText(m, body);
            Shown(Scan(input, partial, m, Next(|before|, a)), input) == Add(a, BodySays(m, body, tagged, partial))
    decreases body
  {
    hide *;
    var input := before + BodyText(m, body);
    BodySteps(m, body, tagged, partial);
    match body {
      case Unclosed(thought, begun) =>
        UnclosedIsRead(m, before, thought, begun, tagged, partial, a);
      case Closed(thought, gap, rest) =>
        ClosedIsRead(m, before, thought, gap, rest, tagged, partial, a);
    }
  }

  lemma {:induction false} ClosedIsRead(m: Mode, before: string, thought: string, gap: string, rest: After,
                                        tagged: bool, partial: bool, a: Acc)
    requires Tags(m) && FirstAt(thought, m.endThink) && AllSpace(gap) && GoodAfter(m, rest) && PendingIs(m, a, tagged)
    ensures var input := before + (thought + (m.endThink + (gap + AfterText(m, rest))));
            Shown(Scan(input, partial, m, Next(|before|, a)), input) ==
            Add(a, Joined(Says(m, thought, tagged, true), AfterSays(m, rest, partial)))
    decreases rest
  {
    hide *;
    TagsMean(m);
    var after := before + thought + m.endThink;
    var input := before + (thought + (m.endThink + (gap + AfterText(m, rest))));
    var b := HandleReasoning(m, a, thought, true);
    HandleSays(m, a, thought, tagged, true);
    ClosedRound(m, before, thought, gap, rest, partial, a);
    AfterRound(m, after, gap, rest, b);
    AfterSaysIs(m, rest, partial);
    AgainIs(m, rest);
    JoinsAdd(a, b, Says(m, thought, tagged, true), AfterSays(m, rest, partial));
    ScanStep(input, partial, m, |before|, a);
    match rest {
      case Answering(answer) =>
        assert input[|after + gap|..] == answer;
        StopShown(input, partial, m, |after + gap|, b);
      case TagBegun(_) =>
        StopShown(input, partial, m, |input|, b);
        assert input[|input|..] == "";
      case Again(next) =>
        var c := SetReasoningPrefix(m, b);
        PrefixKeeps(m, b);
        assert input == (after + gap + m.startThink) + BodyText(m, next);
        BodyIsRead(m, after + gap + m.startThink, next, true, partial, c);
        AddKeeps(b, c, BodySays(m, next, true, partial));
    }
  }

  lemma TagsMean(m: Mode)
    requires Tags(m)
    ensures m.startThink != "" && !IsSpace(m.startThink[0]) && m.endThink != ""
  {}

  lemma AddKeeps(b: Acc, c: Acc, says: (string, string))
    requires b.content == c.content && b.reasoning == c.reasoning
    ensures Add(b, says) == Add(c, says)
  {}

  lemma ScanStep(input: string, partial: bool, m: Mode, cursor: nat, a: Acc)
    requires cursor <= |input|
    ensures Scan(input, partial, m, Next(cursor, a)) == Scan(input, partial, m, ScanRound(input, partial, m, cursor, a))
  {
    hide ScanRound;
  }

  lemma StopShown(input: string, partial: bool, m: Mode, pos: nat, b: Acc)
    requires pos <= |input|
    ensures Shown(Scan(input, partial, m, Stop(true, pos, b)), input) == Add(b, (input[pos..], ""))
  {
    assert b.reasoning + "" == b.reasoning;
  }

  // ------------------------------------------------------------ whole texts

  lemma PlainIsRead(m: Mode, text: string, partial: bool)
    requires GoodDocument(m, Plain(text))
    ensures ParseContent(text, partial, m) == ChatMsg(text, "", [])
  {
    hide AgreesAt;
    var start := SkipSpaces(text, 0);
    AgreesShifted(text[..start], text[start..], m.startThink);
    assert text[..start] + text[start..] == text;
    assert "" + text[0..] == text;
  }

  lemma BeginningIsRead(m: Mode, lead: string, part: string, partial: bool)
    requires Tags(m) && GoodDocument(m, Beginning(lead, part))
    ensures ParseContent(lead + part, partial, m) == EmptyMsg
  {
    var input := lead + part;
    assert part[0] == m.startThink[0];
    SkipsGap("", lead, part);
    assert "" + input == input && "" + lead == lead;
    assert input[|lead|..] == part;
    assert "" + input[|input|..] == "";
  }

  lemma TaggedIsRead(m: Mode, lead: string, body: Body, partial: bool)
    requires Tags(m) && GoodDocument(m, Tagged(lead, body))
    ensures ParseContent(lead + (m.startThink + BodyText(m, body)), partial, m) ==
            Add(Acc("", "", ""), Joined((lead, ""), BodySays(m, body, true, partial)))
  {
    hide GoodBody; hide BodyText; hide BodySays; hide Scan;
    var before := lead + m.startThink;
    assert lead + (m.startThink + BodyText(m, body)) == before + BodyText(m, body);
    OpensAtTag(m, lead, BodyText(m, body));
    var a := SetReasoningPrefix(m, Acc(lead, "", ""));
    BodyIsRead(m, before, body, true, partial, a);
    AddTo(a, BodySays(m, body, true, partial));
  }

  lemma AddTo(a: Acc, says: (string, string))
    requires a.reasoning == ""
    ensures Add(a, says) == Add(Acc("", "", ""), Joined((a.content, ""), says))
  {
    assert "" + (a.content + says.0) == a.content + says.0 && "" + ("" + says.1) == "" + says.1;
  }

  lemma ForcedOpens(m: Mode, lead: string, text: string)
    requires m.syn.thinkingForcedOpen && !m.syn.reasoningFormat.ReasoningNone? && AllSpace(lead) && NoTagAt(m, text)
    ensures Opening(lead + text, m, 0, "", "") ==
            if text == "" then Stop(true, |lead|, Acc("", "", "")) else Next(|lead|, Acc("", "", ""))
  {
    hide AgreesAt;
    SkipsGap("", lead, text);
    AgreesShifted(lead, text, m.startThink);
    assert "" + (lead + text) == lead + text && "" + lead == lead;
  }

  lemma NoBodyText(m: Mode, body: Body, tagged: bool, partial: bool)
    requires Tags(m) && BodyText(m, body) == ""
    ensures BodySays(m, body, tagged, partial) == ("", "")
  {
    NothingStripped();
  }

  lemma ForcedIsRead(m: Mode, lead: string, body: Body, partial: bool)
    requires Tags(m) && GoodDocument(m, Forced(lead, body))
    ensures ParseContent(lead + BodyText(m, body), partial, m) ==
            Add(Acc("", "", ""), BodySays(m, body, false, partial))
  {
    hide GoodBody; hide BodyText; hide BodySays; hide Opening; hide NoTagAt;
    ForcedOpens(m, lead, BodyText(m, body));
    var input := lead + BodyText(m, body);
    if BodyText(m, body) == "" {
      NoBodyText(m, body, false, partial);
      StopShown(input, partial, m, |lead|, Acc("", "", ""));
      assert input[|lead|..] == "";
    } else {
      hide Scan;
      BodyIsRead(m, lead, body, false, partial, Acc("", "", ""));
    }
  }

  /** What the parser makes of a text is what its parts say: the answer and the leading spaces are content, every
      section is content or reasoning as the options ask for, and what may still become a tag is withheld. */
  lemma {:induction false} DocumentIsRead(m: Mode, d: Document, partial: bool)
    requires Tags(m) && GoodDocument(m, d)
    ensures var (content, reasoning) := DocumentSays(m, d, partial);
            ParseContent(DocumentText(m, d), partial, m) == ChatMsg(content, reasoning, [])
  {
    hide ParseContent; hide BodySays; hide BodyText; hide GoodBody; hide GoodDocument; hide Tags;
    match d {
      case Plain(text) => PlainIsRead(m, text, partial);
      case Beginning(lead, part) => BeginningIsRead(m, lead, part, partial);
      case Tagged(lead, body) => TaggedIsRead(m, lead, body, partial);
      case Forced(lead, body) => ForcedIsRead(m, lead, body, partial);
    }
    var says := DocumentSays(m, d, partial);
    assert "" + says.0 == says.0 && "" + says.1 == says.1;
  }

  /** Thinking forced open: the text up to the closing tag is the reasoning, although no opening tag is there. */
  lemma ForcedOpenSplits(m: Mode, lead: string, thought: string, gap: string, answer: string, partial: bool)
    requires Tags(m) && !m.syn.reasoningFormat.ReasoningNone? && m.syn.thinkingForcedOpen && AllSpace(lead)
    requires NoTagAt(m, thought + (m.endThink + (gap + answer)))
    requires FirstAt(thought, m.endThink) && AllSpace(gap) && NoTagAt(m, answer)
    ensures ParseContent(lead + (thought + (m.endThink + (gap + answer))), partial, m) ==
            if Strip(thought) == "" then ChatMsg(answer, "", [])
            else if m.syn.reasoningInContent then
              ChatMsg(Tag(m, false) + Strip(thought) + Tag(m, true) + answer, "", [])
            else ChatMsg(answer, Strip(thought), [])
  {
    hide ParseContent; hide Strip; hide FirstAt; hide NoTagAt; hide AllSpace;
    var rest := Answering(answer);
    var body := Closed(thought, gap, rest);
    assert AfterText(m, rest) == answer && GoodAfter(m, rest) && AfterSays(m, rest, partial) == (answer, "");
    assert BodyText(m, body) == thought + (m.endThink + (gap + answer)) && GoodBody(m, body);
    assert BodySays(m, body, false, partial) == Joined(Says(m, thought, false, true), (answer, ""));
    DocumentIsRead(m, Forced(lead, body), partial);
    assert "" + answer == answer && "" + Strip(thought) == Strip(thought) && Strip(thought) + "" == Strip(thought);
  }

  // ------------------------------------------------------------ every text has parts

  lemma FirstTagAt(t: string, tag: string)
    requires Contains(t, tag)
    ensures var k := Find(t, tag, 0).value;
            && k + |tag| <= |t| && FirstAt(t[..k], tag) && t == t[..k] + (tag + t[k + |tag|..])
  {
    FindIsFirst(t, tag, 0);
    var k := Find(t, tag, 0).value;
    hide Find;
    CutsAt(t, tag, k);
    forall i: nat | i < k ensures !OccursAt(t[..k] + tag, tag, i) {
      OccursInExtension(t[..k] + tag, t, tag, i);
    }
  }

  lemma CutsAt(t: string, tag: string, k: nat)
    requires OccursAt(t, tag, k)
    ensures t[..k] + tag <= t && t == t[..k] + (tag + t[k + |tag|..])
  {
    assert t[..k] + tag == t[..k + |tag|];
  }

  lemma HeldBackFrom(t: string, tag: string) returns (n: nat)
    ensures HeldBack(t, tag, n)
  {
    PartialIsFirst(t, tag, 0);
    n := match PartialFrom(t, tag, 0) case Some(k) => k case None => |t|;
  }

  lemma SpacesApart(r: string)
    ensures var n := SkipSpaces(r, 0); AllSpace(r[..n]) && (r[n..] == "" || !IsSpace(r[n..][0])) && r == r[..n] + r[n..]
  {
    SkipsExactlySpaces(r, 0);
  }

  lemma {:induction false} BodyOf(m: Mode, t: string) returns (b: Body)
    requires Tags(m)
    ensures GoodBody(m, b) && BodyText(m, b) == t
    decreases |t|, 0
  {
    hide Find; hide HeldBack; hide FirstAt; hide SkipSpaces; hide IsSpace;
    if Contains(t, m.endThink) {
      FirstTagAt(t, m.endThink);
      var k := Find(t, m.endThink, 0).value;
      var r := t[k + |m.endThink|..];
      SpacesApart(r);
      var n := SkipSpaces(r, 0);
      var rest := AfterOf(m, r[n..]);
      b := Closed(t[..k], r[..n], rest);
    } else {
      var n := HeldBackFrom(t, m.endThink);
      assert t[..n] + t[n..] == t;
      b := Unclosed(t[..n], t[n..]);
    }
  }

  lemma {:induction false} AfterOf(m: Mode, u: string) returns (a: After)
    requires Tags(m) && (u == "" || !IsSpace(u[0]))
    ensures GoodAfter(m, a) && AfterText(m, a) == u
    decreases |u|, 1
  {
    assert u[0..] == u;
    if u == "" || !AgreesAt(u, m.startThink, 0) {
      a := Answering(u);
    } else if |u| < |m.startThink| {
      a := TagBegun(u);
    } else {
      var body := BodyOf(m, u[|m.startThink|..]);
      assert u == m.startThink + u[|m.startThink|..];
      a := Again(body);
    }
  }

  /** Every text is made of such parts, so `DocumentIsRead` is about every text. */
  lemma {:induction false} EveryTextHasParts(m: Mode, s: string) returns (d: Document)
    requires Tags(m)
    ensures GoodDocument(m, d) && DocumentText(m, d) == s
  {
    hide GoodBody; hide BodyText; hide GoodAfter; hide AfterText;
    SpacesApart(s);
    var n := SkipSpaces(s, 0);
    var lead, u := s[..n], s[n..];
    assert u[0..] == u;
    if m.syn.reasoningFormat.ReasoningNone? {
      d := Plain(s);
    } else if u == "" || !AgreesAt(u, m.startThink, 0) {
      if m.syn.thinkingForcedOpen {
        var body := BodyOf(m, u);
        d := Forced(lead, body);
      } else {
        d := Plain(s);
      }
    } else if |u| < |m.startThink| {
      d := Beginning(lead, u);
    } else {
      var body := BodyOf(m, u[|m.startThink|..]);
      assert u == m.startThink + u[|m.startThink|..];
      d := Tagged(lead, body);
    }
  }
}
