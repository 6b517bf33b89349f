/** Snapshots of a growing stream of nodes: each extends the one before, so the client can be sent the
    differences only. */
module PegStream {
  import opened Wrappers
  import opened Text
  import opened ChatTypes
  import opened Json
  import opened ChatDiff
  import opened PegMapper
  import opened PegLaws

  lemma ExtendsItself(m: ChatMsg)
    ensures Extends(m, m)
  {}

  lemma ExtendsTransitive(a: ChatMsg, b: ChatMsg, c: ChatMsg)
    requires Extends(a, b) && Extends(b, c)
    ensures Extends(a, c)
  {
    if a.toolCalls != [] {
      var last := |a.toolCalls| - 1;
      assert b.toolCalls[..last] == c.toolCalls[..last] by {
        assert forall i | 0 <= i < last :: b.toolCalls[..|b.toolCalls| - 1][i] == b.toolCalls[i];
        assert forall i | 0 <= i < last :: c.toolCalls[..|b.toolCalls| - 1][i] == c.toolCalls[i];
      }
      if |a.toolCalls| < |b.toolCalls| {
        assert b.toolCalls[..|b.toolCalls| - 1][last] == b.toolCalls[last];
        assert c.toolCalls[..|b.toolCalls| - 1][last] == c.toolCalls[last];
      }
    }
    forall i | |a.toolCalls| <= i < |c.toolCalls| ensures c.toolCalls[i].name != "" {
      if i < |b.toolCalls| - 1 {
        assert b.toolCalls[..|b.toolCalls| - 1][i] == c.toolCalls[..|b.toolCalls| - 1][i];
      }
    }
  }

  /** The nodes that may follow: no further content or reasoning, and every tool is named as it opens. */
  ghost predicate Appending(ns: seq<Node>)
    decreases |ns|
  {
    if ns == [] then true
    else if ns[0].tag == ToolOpen then
      |ns| >= 2 && ns[1].tag == ToolName && ns[1].text != "" && Appending(ns[2..])
    else ns[0].tag !in {Reasoning, Content, ToolName} && Appending(ns[1..])
  }

  lemma AppendExtends(m: ChatMsg, text: string)
    requires m.toolCalls != []
    ensures Extends(m, Append(m, text))
  {}

  lemma StepExtends(s: State, n: Node)
    requires Valid(s) && n.tag !in {Reasoning, Content, ToolOpen, ToolName}
    ensures Extends(s.msg, Step(s, n).msg)
  {
    hide Append;
    hide Extends;
    hide Quote;
    hide Trim;
    hide OpenQuote;
    ExtendsItself(s.msg);
    if s.inTool {
      match n.tag
      case ArgName => AppendExtends(s.msg, (if s.argCount > 0 then "," else "") + Quote(Trim(n.text)) + ":");
      case ArgString => AppendExtends(s.msg, OpenQuote(Trim(n.text)));
      case ArgJson => AppendExtends(s.msg, Trim(n.text));
      case ArgClose => AppendExtends(s.msg, "\"");
      case ToolClose => AppendExtends(s.msg, if s.needsClosingQuote then "\"}" else "}");
      case _ =>
    }
  }

  lemma OpenExtends(m: ChatMsg, name: string)
    requires name != ""
    ensures Extends(m, m.(toolCalls := m.toolCalls + [ToolCall(name, "{", "")]))
  {}

  /** After its name every node of a tool only appends, and the calls before it stay as they are. */
  lemma {:induction false} RunExtends(s: State, ns: seq<Node>)
    requires Valid(s) && Appending(ns)
    ensures Run(s, ns).Some? && Extends(s.msg, Run(s, ns).value.msg)
    decreases |ns|
  {
    hide Step;
    hide Extends;
    if ns == [] {
      ExtendsItself(s.msg);
    } else if ns[0].tag == ToolOpen {
      var name := ns[1].text;
      var s1 := State(s.msg.(toolCalls := s.msg.toolCalls + [ToolCall(name, "{", "")]), true, 0,
                      s.needsClosingQuote);
      OpensTextual(s, ns);
      OpenExtends(s.msg, name);
      RunExtends(s1, ns[2..]);
      ExtendsTransitive(s.msg, s1.msg, Run(s1, ns[2..]).value.msg);
    } else {
      StepExtends(s, ns[0]);
      RunExtends(Step(s, ns[0]), ns[1..]);
      ExtendsTransitive(s.msg, Step(s, ns[0]).msg, Run(s, ns).value.msg);
    }
  }

  /** Opening and naming a tool, whatever text the opening node has. */
  lemma OpensTextual(s: State, ns: seq<Node>)
    requires Valid(s) && |ns| >= 2 && ns[0].tag == ToolOpen && ns[1].tag == ToolName
    ensures var s1 := State(s.msg.(toolCalls := s.msg.toolCalls + [ToolCall(ns[1].text, "{", "")]), true, 0,
                            s.needsClosingQuote);
            Run(s, ns) == Run(s1, ns[2..])
  {
    var calls := s.msg.toolCalls;
    assert ns[1..][1..] == ns[2..];
    assert (calls + [ToolCall("", "", "")])[..|calls|] == calls;
    assert Run(s, ns) == Run(Step(s, ns[0]), ns[1..]);
  }

  // ------------------------------------------------------------ a node cut short

  lemma TrimMonotone(t: string, t': string)
    requires t <= t'
    ensures Trim(t) <= Trim(t')
  {
    TrimsExactlySpaces(t, 0, |t|);
    TrimsExactlySpaces(t', 0, |t'|);
    var k := TrimEnd(t, 0, |t|);
    if k > 0 { assert !IsSpace(t'[k - 1]); }
    assert k <= TrimEnd(t', 0, |t'|);
  }

  lemma OpenQuoteMonotone(t: string, t': string)
    requires t <= t'
    ensures OpenQuote(t) <= OpenQuote(t')
  {
    hide EscapeAll;
    EscapeAllMonotone(t, t');
    assert OpenQuote(t) == "\"" + EscapeAll(t) && OpenQuote(t') == "\"" + EscapeAll(t');
  }

  lemma AppendMonotone(m: ChatMsg, x: string, y: string)
    requires m.toolCalls != [] && x <= y
    ensures Extends(Append(m, x), Append(m, y))
  {
    var last := m.toolCalls[|m.toolCalls| - 1];
    assert last.arguments + x <= last.arguments + y;
  }

  /** A value that has grown only appends to what its beginning gave. */
  lemma CutNodeExtends(s: State, n: Node, text: string)
    requires Valid(s) && text <= n.text && n.tag in {Reasoning, Content, ArgString, ArgJson}
    ensures Extends(Step(s, Node(n.tag, text)).msg, Step(s, n).msg)
  {
    hide Append;
    hide Trim;
    hide OpenQuote;
    TrimMonotone(text, n.text);
    ExtendsItself(s.msg);
    if s.inTool {
      OpenQuoteMonotone(Trim(text), Trim(n.text));
      AppendMonotone(s.msg, OpenQuote(Trim(text)), OpenQuote(Trim(n.text)));
      AppendMonotone(s.msg, Trim(text), Trim(n.text));
    }
  }

  lemma RunSnoc(s: State, front: seq<Node>, n: Node)
    requires Valid(s) && Run(s, front).Some? && n.tag != ToolName
    ensures Run(s, front + [n]) == Some(Step(Run(s, front).value, n))
  {
    hide Step;
    RunConcat(s, front, [n]);
    assert [n] == [n] + [];
    RunOne(Run(s, front).value, n, []);
  }

  // ------------------------------------------------------------ any later stream, exactly

  /** Every tool is named right after it opens, except one that opens last; no other node names a tool. */
  ghost predicate Paired(ns: seq<Node>)
    decreases |ns|
  {
    if ns == [] then true
    else if ns[0].tag == ToolOpen then |ns| == 1 || (ns[1].tag == ToolName && Paired(ns[2..]))
    else ns[0].tag != ToolName && Paired(ns[1..])
  }

  predicate AllNamed(ns: seq<Node>) {
    forall i | 0 <= i < |ns| && ns[i].tag == ToolOpen :: i + 1 < |ns| && ns[i + 1].text != ""
  }

  /** The text that the last node of this kind leaves, or the old one. */
  function LastText(old_: string, ns: seq<Node>, tag: Tag): string
    decreases |ns|
  {
    if ns == [] then old_
    else LastText(if ns[0].tag == tag then Trim(ns[0].text) else old_, ns[1..], tag)
  }

  lemma StepTexts(s: State, n: Node)
    requires Valid(s) && (n.tag == ToolName ==> s.inTool)
    ensures Step(s, n).msg.content == if n.tag == Content then Trim(n.text) else s.msg.content
    ensures Step(s, n).msg.reasoning == if n.tag == Reasoning then Trim(n.text) else s.msg.reasoning
  {
    hide Trim; hide Quote; hide OpenQuote;
  }

  lemma {:induction false} RunTexts(s: State, ns: seq<Node>)
    requires Valid(s) && Run(s, ns).Some?
    ensures var m := Run(s, ns).value.msg;
            && m.content == LastText(s.msg.content, ns, Content)
            && m.reasoning == LastText(s.msg.reasoning, ns, Reasoning)
    decreases |ns|
  {
    hide Step; hide Trim;
    if ns != [] {
      StepTexts(s, ns[0]);
      RunTexts(Step(s, ns[0]), ns[1..]);
    }
  }

  predicate NamedFrom(calls: seq<ToolCall>, n: nat) {
    forall i | n <= i < |calls| :: calls[i].name != ""
  }

  lemma CallsExtendItself(a: seq<ToolCall>)
    ensures CallsExtend(a, a)
  {}

  lemma CallsExtendTransitive(a: seq<ToolCall>, b: seq<ToolCall>, c: seq<ToolCall>)
    requires CallsExtend(a, b) && CallsExtend(b, c)
    ensures CallsExtend(a, c)
    ensures forall i | 0 <= i < |b| :: b[i].name == c[i].name
  {
    if b != [] {
      var last := |b| - 1;
      forall i | 0 <= i < last ensures b[i] == c[i] {
        assert b[..last][i] == c[..last][i];
      }
      if a != [] {
        assert forall i | 0 <= i < |a| - 1 :: a[..|a| - 1][i] == b[..|a| - 1][i] == b[i] == c[i];
        assert a[..|a| - 1] == c[..|a| - 1];
      }
    }
  }

  lemma StepCalls(s: State, n: Node)
    requires Valid(s) && n.tag !in {ToolOpen, ToolName}
    ensures CallsExtend(s.msg.toolCalls, Step(s, n).msg.toolCalls)
    ensures |Step(s, n).msg.toolCalls| == |s.msg.toolCalls|
  {
    if n.tag in {Reasoning, Content} {
      CallsExtendItself(s.msg.toolCalls);
    } else {
      StepExtends(s, n);
      StepKeepsCount(s, n);
    }
  }

  lemma StepKeepsCount(s: State, n: Node)
    requires Valid(s) && n.tag !in {ToolOpen, ToolName}
    ensures |Step(s, n).msg.toolCalls| == |s.msg.toolCalls|
  {
    hide Trim; hide Quote; hide OpenQuote;
  }

  lemma AllNamedCons(ns: seq<Node>)
    requires ns != [] && ns[0].tag != ToolOpen
    ensures AllNamed(ns) <==> AllNamed(ns[1..])
  {
    var rest := ns[1..];
    assert forall i | 0 <= i < |rest| :: rest[i] == ns[i + 1];
    if AllNamed(rest) {
      forall i | 0 <= i < |ns| && ns[i].tag == ToolOpen ensures i + 1 < |ns| && ns[i + 1].text != "" {
        assert rest[i - 1] == ns[i];
      }
    }
    if AllNamed(ns) {
      forall i | 0 <= i < |rest| && rest[i].tag == ToolOpen ensures i + 1 < |rest| && rest[i + 1].text != "" {
        assert ns[i + 1].tag == ToolOpen;
      }
    }
  }

  lemma AllNamedPair(ns: seq<Node>)
    requires |ns| >= 2 && ns[0].tag == ToolOpen && ns[1].tag == ToolName
    ensures AllNamed(ns) <==> ns[1].text != "" && AllNamed(ns[2..])
  {
    AllNamedCons(ns[1..]);
    assert ns[1..][1..] == ns[2..];
    var rest := ns[1..];
    assert forall i | 0 <= i < |rest| :: rest[i] == ns[i + 1];
    if ns[1].text != "" && AllNamed(rest) {
      forall i | 0 <= i < |ns| && ns[i].tag == ToolOpen ensures i + 1 < |ns| && ns[i + 1].text != "" {
        if i > 0 { assert rest[i - 1] == ns[i]; }
      }
    }
    if AllNamed(ns) {
      forall i | 0 <= i < |rest| && rest[i].tag == ToolOpen ensures i + 1 < |rest| && rest[i + 1].text != "" {
        assert ns[i + 1].tag == ToolOpen;
      }
    }
  }

  /** The old calls stay and the last of them only grows; the new ones have names when they were given names. */
  lemma {:induction false} RunCalls(s: State, ns: seq<Node>)
    requires Valid(s) && Paired(ns)
    ensures Run(s, ns).Some?
    ensures var calls := Run(s, ns).value.msg.toolCalls;
            CallsExtend(s.msg.toolCalls, calls) && (NamedFrom(calls, |s.msg.toolCalls|) <==> AllNamed(ns))
    decreases |ns|
  {
    hide Step; hide CallsExtend; hide AllNamed;
    var n := |s.msg.toolCalls|;
    if ns == [] {
      CallsExtendItself(s.msg.toolCalls);
      NothingNamed();
    } else if ns[0].tag == ToolOpen {
      if |ns| == 1 {
        OpensUnnamed(s, ns);
      } else {
        OpensTextual(s, ns);
        var s1 := State(s.msg.(toolCalls := s.msg.toolCalls + [ToolCall(ns[1].text, "{", "")]), true, 0,
                        s.needsClosingQuote);
        RunCalls(s1, ns[2..]);
        AllNamedPair(ns);
        OneMoreCall(s.msg.toolCalls, ns[1].text, Run(s1, ns[2..]).value.msg.toolCalls);
      }
    } else {
      StepCalls(s, ns[0]);
      var s1 := Step(s, ns[0]);
      RunCalls(s1, ns[1..]);
      AllNamedCons(ns);
      CallsExtendTransitive(s.msg.toolCalls, s1.msg.toolCalls, Run(s1, ns[1..]).value.msg.toolCalls);
    }
  }

  lemma NothingNamed()
    ensures AllNamed([])
  {}

  lemma OpensUnnamed(s: State, ns: seq<Node>)
    requires Valid(s) && |ns| == 1 && ns[0].tag == ToolOpen
    ensures Run(s, ns).Some? && !AllNamed(ns)
    ensures var calls := Run(s, ns).value.msg.toolCalls;
            CallsExtend(s.msg.toolCalls, calls) && !NamedFrom(calls, |s.msg.toolCalls|)
  {
    assert ns[1..] == [];
    var calls := Step(s, ns[0]).msg.toolCalls;
    assert Run(s, ns) == Some(Step(s, ns[0]));
    assert calls == s.msg.toolCalls + [ToolCall("", "", "")];
    assert calls[|s.msg.toolCalls|].name == "";
    assert ns[0].tag == ToolOpen;
  }

  lemma OneMoreCall(a: seq<ToolCall>, name: string, c: seq<ToolCall>)
    requires CallsExtend(a + [ToolCall(name, "{", "")], c)
    ensures CallsExtend(a, c) && |c| > |a| && c[|a|].name == name
    ensures NamedFrom(c, |a|) <==> name != "" && NamedFrom(c, |a| + 1)
  {
    var b := a + [ToolCall(name, "{", "")];
    assert CallsExtend(a, b) by {
      if a != [] { assert b[..|a| - 1] == a[..|a| - 1]; }
    }
    CallsExtendTransitive(a, b, c);
    assert b[|a|].name == c[|a|].name;
  }

  /** What a later stream may do after a tool was opened and not yet named, or otherwise. */
  ghost predicate Follows(s: State, rest: seq<Node>) {
    if rest != [] && rest[0].tag == ToolName then
      && s.inTool && Valid(s) && s.msg.toolCalls[|s.msg.toolCalls| - 1] == ToolCall("", "", "")
      && Paired(rest[1..])
    else Paired(rest)
  }

  /** Any later stream extends the message, so that the differences rebuild it, exactly when it does not begin by
      naming the tool that was open, names every tool it opens, and leaves content and reasoning that begin with
      what they were. */
  lemma ExtendsExactly(s: State, rest: seq<Node>)
    requires Valid(s) && Follows(s, rest)
    ensures Run(s, rest).Some?
    ensures Extends(s.msg, Run(s, rest).value.msg) <==>
            && (rest != [] && rest[0].tag == ToolName ==> rest[0].text == "")
            && AllNamed(rest)
            && s.msg.content <= LastText(s.msg.content, rest, Content)
            && s.msg.reasoning <= LastText(s.msg.reasoning, rest, Reasoning)
  {
    hide Step; hide CallsExtend; hide AllNamed;
    if rest != [] && rest[0].tag == ToolName {
      NamesOpenTool(s, rest);
    } else {
      RunCalls(s, rest);
    }
    RunTexts(s, rest);
    var m := Run(s, rest).value.msg;
    assert Extends(s.msg, m) <==>
           && s.msg.content <= m.content && s.msg.reasoning <= m.reasoning
           && CallsExtend(s.msg.toolCalls, m.toolCalls) && NamedFrom(m.toolCalls, |s.msg.toolCalls|);
  }

  lemma NamesOpenTool(s: State, rest: seq<Node>)
    requires Valid(s) && Follows(s, rest) && rest != [] && rest[0].tag == ToolName
    ensures Run(s, rest).Some?
    ensures var calls := Run(s, rest).value.msg.toolCalls;
            && (CallsExtend(s.msg.toolCalls, calls) <==> rest[0].text == "")
            && (NamedFrom(calls, |s.msg.toolCalls|) <==> AllNamed(rest))
  {
    hide AllNamed;
    var s1, n := Step(s, rest[0]), |s.msg.toolCalls|;
    RunCalls(s1, rest[1..]);
    AllNamedCons(rest);
    var calls := Run(s1, rest[1..]).value.msg.toolCalls;
    assert Run(s, rest) == Run(s1, rest[1..]);
    var old_, now := s.msg.toolCalls, s1.msg.toolCalls;
    assert now == old_[..n - 1] + [ToolCall(rest[0].text, "{", "")];
    assert now[..n - 1] == old_[..n - 1];
  }

  // ------------------------------------------------------------ a snapshot inside a node, exactly

  /** A snapshot taken inside a value, against the whole stream: the differences are computed without error and
      rebuild the whole message exactly when the stream names every tool it still opens and leaves content and
      reasoning that begin with what the snapshot showed. */
  lemma SnapshotExtendsExactly(front: seq<Node>, n: Node, text: string, rest: seq<Node>)
    requires Run(Start, front).Some? && Paired(rest)
    requires text <= n.text && n.tag in {Reasoning, Content, ArgString, ArgJson}
    ensures Run(Start, front + [Node(n.tag, text)]).Some? && Run(Start, front + [n]).Some?
    ensures Run(Start, front + [n] + rest).Some?
    ensures var early, now := Run(Start, front + [Node(n.tag, text)]).value.msg, Run(Start, front + [n]).value.msg;
            var full := Run(Start, front + [n] + rest).value.msg;
            (Diffs(early, full).Ok? && ApplyAll(early, Diffs(early, full).value) == Some(full)) <==>
            && AllNamed(rest)
            && early.content <= LastText(now.content, rest, Content)
            && early.reasoning <= LastText(now.reasoning, rest, Reasoning)
  {
    hide Step; hide Extends; hide Run; hide Diffs; hide ApplyAll; hide AllNamed; hide CallsExtend; hide Paired;
    hide LastText; hide NamedFrom;
    var s := Run(Start, front).value;
    RunSnoc(Start, front, Node(n.tag, text));
    RunSnoc(Start, front, n);
    RunConcat(Start, front + [n], rest);
    var early, now := Step(s, Node(n.tag, text)), Step(s, n);
    RunCalls(now, rest);
    RunTexts(now, rest);
    var full := Run(now, rest).value.msg;
    CutNodeExtends(s, n, text);
    StepKeepsCount(s, n);
    StepKeepsCount(s, Node(n.tag, text));
    ExtendsMeans(early.msg, now.msg);
    CallsExtendTransitive(early.msg.toolCalls, now.msg.toolCalls, full.toolCalls);
    ExtendsMeans(early.msg, full);
    DiffsRebuildIffExtends(early.msg, full);
  }

  lemma ExtendsMeans(a: ChatMsg, b: ChatMsg)
    ensures Extends(a, b) <==>
            && a.content <= b.content && a.reasoning <= b.reasoning
            && CallsExtend(a.toolCalls, b.toolCalls) && NamedFrom(b.toolCalls, |a.toolCalls|)
  {}
}
