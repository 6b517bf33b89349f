/** What a whole stream of nodes leaves in the tool calls, and what a client sees of a growing stream. */
module PegLaws {
  import opened Wrappers
  import opened ChatTypes
  import opened Json
  import opened PegMapper

  /** All the nodes, in order. `None` when a tool name comes outside a tool. */
  function Run(s: State, ns: seq<Node>): (r: Option<State>)
    requires Valid(s)
    ensures r.Some? ==> Valid(r.value)
    decreases |ns|
  {
    if ns == [] then Some(s)
    else if ns[0].tag == ToolName && !s.inTool then None
    else Run(Step(s, ns[0]), ns[1..])
  }

  lemma {:induction false} RunConcat(s: State, xs: seq<Node>, ys: seq<Node>)
    requires Valid(s) && Run(s, xs).Some?
    ensures Run(s, xs + ys) == Run(Run(s, xs).value, ys)
    decreases |xs|
  {
    hide Step;
    if xs == [] {
      assert xs + ys == ys;
    } else {
      assert (xs + ys)[0] == xs[0] && (xs + ys)[1..] == xs[1..] + ys;
      RunConcat(Step(s, xs[0]), xs[1..], ys);
    }
  }

  // ------------------------------------------------------------ the arguments of a tool

  /** An argument: its value is a string, closed by a node of its own or not, or JSON text. */
  datatype Arg = StringArg(key: string, value: string, closed: bool) | JsonArg(key: string, value: string, closed: bool)

  datatype Tool = Tool(name: string, args: seq<Arg>)

  function ArgNodes(a: Arg): seq<Node> {
    [Node(ArgOpen, ""), Node(ArgName, a.key), Node(if a.StringArg? then ArgString else ArgJson, a.value)] +
    if a.closed then [Node(ArgClose, "")] else []
  }

  function ArgsNodes(args: seq<Arg>): seq<Node> {
    if args == [] then [] else ArgNodes(args[0]) + ArgsNodes(args[1..])
  }

  function ToolNodes(t: Tool): seq<Node> {
    [Node(ToolOpen, ""), Node(ToolName, t.name)] + (ArgsNodes(t.args) + [Node(ToolClose, "")])
  }

  /** How the argument should be printed. */
  function Member(a: Arg): string {
    Quote(Trim(a.key)) + ":" + if a.StringArg? then Quote(Trim(a.value)) else Trim(a.value)
  }

  function Members(args: seq<Arg>): string {
    if args == [] then ""
    else if |args| == 1 then Member(args[0])
    else Member(args[0]) + ("," + Members(args[1..]))
  }

  function Unclosed(a: Arg): bool { a.StringArg? && !a.closed }

  /** What the nodes of the argument append; an unclosed string lacks its last quote. */
  function Appended(a: Arg): string {
    if Unclosed(a) then Member(a)[..|Member(a)| - 1] else Member(a)
  }

  function AllAppended(args: seq<Arg>): string {
    if args == [] then ""
    else if |args| == 1 then Appended(args[0])
    else Appended(args[0]) + ("," + AllAppended(args[1..]))
  }

  /** The quote that the end of the tool puts after its last argument. */
  function LastQuote(args: seq<Arg>): string {
    if args != [] && Unclosed(args[|args| - 1]) then "\"" else ""
  }

  /** Every string argument but the last is closed. */
  predicate ClosedInTime(args: seq<Arg>) {
    forall i | 0 <= i < |args| - 1 :: !Unclosed(args[i])
  }

  function Missing(args: seq<Arg>): nat {
    if |args| <= 1 then 0 else (if Unclosed(args[0]) then 1 else 0) + Missing(args[1..])
  }

  lemma {:induction false} MissingNone(args: seq<Arg>)
    ensures Missing(args) == 0 <==> ClosedInTime(args)
  {
    if |args| > 1 {
      MissingNone(args[1..]);
      assert forall i | 0 <= i < |args| - 2 :: args[1..][i] == args[i + 1];
      assert ClosedInTime(args) <==> !Unclosed(args[0]) && ClosedInTime(args[1..]) by {
        if !Unclosed(args[0]) && ClosedInTime(args[1..]) {
          forall i | 0 <= i < |args| - 1 ensures !Unclosed(args[i]) {
            if i > 0 { assert !Unclosed(args[1..][i - 1]); }
          }
        }
      }
    }
  }

  lemma AppendedIs(a: Arg)
    ensures |Appended(a)| + (if Unclosed(a) then 1 else 0) == |Member(a)|
    ensures Appended(a) + (if Unclosed(a) then "\"" else "") == Member(a)
  {
    if Unclosed(a) {
      var q, k := Quote(Trim(a.value)), Quote(Trim(a.key)) + ":";
      assert q == q[..|q| - 1] + "\"";
      assert Member(a) == k + q;
      assert Member(a)[..|Member(a)| - 1] == k + q[..|q| - 1];
    }
  }

  lemma {:induction false} ArgsCons(args: seq<Arg>)
    requires |args| > 1
    ensures Members(args) == Member(args[0]) + ("," + Members(args[1..]))
    ensures AllAppended(args) + LastQuote(args) ==
            Appended(args[0]) + ("," + (AllAppended(args[1..]) + LastQuote(args[1..])))
    ensures Missing(args) == (if Unclosed(args[0]) then 1 else 0) + Missing(args[1..])
  {
    hide Member;
    hide Appended;
    assert args[1..][|args| - 2] == args[|args| - 1];
    assert Appended(args[0]) + ("," + AllAppended(args[1..])) + LastQuote(args) ==
           Appended(args[0]) + ("," + (AllAppended(args[1..]) + LastQuote(args)));
  }

  lemma ClosedCons(args: seq<Arg>)
    requires |args| > 1 && ClosedInTime(args)
    ensures !Unclosed(args[0]) && ClosedInTime(args[1..])
  {
    assert forall i | 0 <= i < |args| - 2 :: args[1..][i] == args[i + 1];
  }

  lemma ArgsShort(args: seq<Arg>)
    requires |args| <= 1
    ensures |AllAppended(args) + LastQuote(args)| + Missing(args) == |Members(args)|
    ensures AllAppended(args) + LastQuote(args) == Members(args)
  {
    hide Member;
    hide Appended;
    if args != [] { AppendedIs(args[0]); }
  }

  /** The printed text falls short by exactly the quotes of the strings that were not closed in time. */
  lemma {:induction false} AppendedFallsShort(args: seq<Arg>)
    ensures |AllAppended(args) + LastQuote(args)| + Missing(args) == |Members(args)|
    ensures ClosedInTime(args) ==> AllAppended(args) + LastQuote(args) == Members(args)
  {
    hide *;
    if |args| <= 1 {
      ArgsShort(args);
    } else {
      ArgsCons(args);
      if ClosedInTime(args) { ClosedCons(args); }
      AppendedIs(args[0]);
      AppendedFallsShort(args[1..]);
    }
  }

  // ------------------------------------------------------------ running the nodes of a tool

  lemma RunOne(s: State, n: Node, ns: seq<Node>)
    requires Valid(s) && (n.tag == ToolName ==> s.inTool)
    ensures Run(s, [n] + ns) == Run(Step(s, n), ns)
  {
    hide Step;
    assert ([n] + ns)[1..] == ns;
  }

  lemma RunNothing(s: State)
    requires Valid(s)
    ensures Run(s, []) == Some(s)
  {}

  function ArgComma(s: State): string {
    if s.argCount > 0 then "," else ""
  }

  function ArgText(a: Arg): string {
    if Unclosed(a) then OpenQuote(Trim(a.value))
    else if a.StringArg? then OpenQuote(Trim(a.value)) + "\""
    else Trim(a.value)
  }

  function AfterArg(s: State, a: Arg): State
    requires Valid(s) && s.inTool
  {
    State(Append(s.msg, ArgComma(s) + Appended(a)), true, s.argCount + 1, Unclosed(a))
  }

  lemma AppendedParts(a: Arg)
    ensures Appended(a) == Quote(Trim(a.key)) + ":" + ArgText(a)
  {
    hide Trim;
    var q, k := Quote(Trim(a.value)), Quote(Trim(a.key)) + ":";
    assert q == OpenQuote(Trim(a.value)) + "\"";
    assert (k + q)[..|k + q| - 1] == k + q[..|q| - 1];
  }

  function ValueNode(a: Arg): Node {
    Node(if a.StringArg? then ArgString else ArgJson, a.value)
  }

  lemma ValueNodes(a: Arg)
    ensures ArgNodes(a)[2..] == [ValueNode(a)] + if a.closed then [Node(ArgClose, "")] + [] else []
  {}

  function AfterValue(s: State, a: Arg): State
    requires Valid(s) && s.inTool
  {
    s.(msg := Append(s.msg, ArgText(a)), needsClosingQuote := Unclosed(a))
  }

  lemma ValueSteps(s: State, a: Arg)
    requires Valid(s) && s.inTool && !s.needsClosingQuote
    ensures var s1 := Step(s, ValueNode(a));
            && s1.inTool && Valid(AfterValue(s, a))
            && AfterValue(s, a) == if a.closed then Step(s1, Node(ArgClose, "")) else s1
  {
    hide Append;
    hide OpenQuote;
    hide Trim;
    AppendKeepsCalls(s.msg, ArgText(a));
    AppendTwice(s.msg, OpenQuote(Trim(a.value)), "\"");
  }

  lemma ArgValueRuns(s: State, a: Arg)
    requires Valid(s) && s.inTool && !s.needsClosingQuote
    ensures Valid(AfterValue(s, a)) && Run(s, ArgNodes(a)[2..]) == Some(AfterValue(s, a))
  {
    hide *;
    ValueNodes(a);
    ValueSteps(s, a);
    ValueIsNoName(a);
    var s1 := Step(s, ValueNode(a));
    if a.closed {
      RunOne(s, ValueNode(a), [Node(ArgClose, "")] + []);
      RunOne(s1, Node(ArgClose, ""), []);
    } else {
      RunOne(s, ValueNode(a), []);
    }
    RunNothing(AfterValue(s, a));
  }

  lemma ValueIsNoName(a: Arg)
    ensures ValueNode(a).tag != ToolName
  {}

  /** After the name of the argument. */
  function AfterKey(s: State, a: Arg): State
    requires Valid(s) && s.inTool
  {
    State(Append(s.msg, ArgComma(s) + (Quote(Trim(a.key)) + ":")), true, s.argCount + 1, false)
  }

  lemma KeyNodes(a: Arg)
    ensures ArgNodes(a) == [Node(ArgOpen, "")] + ([Node(ArgName, a.key)] + ArgNodes(a)[2..])
  {}

  lemma KeySteps(s: State, a: Arg)
    requires Valid(s) && s.inTool
    ensures var s0 := Step(s, Node(ArgOpen, ""));
            s0.inTool && Valid(AfterKey(s, a)) && Step(s0, Node(ArgName, a.key)) == AfterKey(s, a)
  {
    hide Quote;
    hide Trim;
    hide Append;
    var comma, key := ArgComma(s), Quote(Trim(a.key));
    AppendKeepsCalls(s.msg, comma + (key + ":"));
    assert comma + key + ":" == comma + (key + ":");
  }

  lemma ArgKeyRuns(s: State, a: Arg)
    requires Valid(s) && s.inTool
    ensures Valid(AfterKey(s, a)) && Run(s, ArgNodes(a)) == Run(AfterKey(s, a), ArgNodes(a)[2..])
  {
    hide *;
    KeyNodes(a);
    KeySteps(s, a);
    var rest := ArgNodes(a)[2..];
    RunOne(s, Node(ArgOpen, ""), [Node(ArgName, a.key)] + rest);
    RunOne(Step(s, Node(ArgOpen, "")), Node(ArgName, a.key), rest);
  }

  lemma ArgRuns(s: State, a: Arg)
    requires Valid(s) && s.inTool
    ensures Valid(AfterArg(s, a)) && Run(s, ArgNodes(a)) == Some(AfterArg(s, a))
  {
    hide Append;
    hide Appended;
    hide Run;
    hide ArgNodes;
    hide ArgText;
    hide ArgComma;
    ArgKeyRuns(s, a);
    ArgValueRuns(AfterKey(s, a), a);
    AppendedParts(a);
    var key := Quote(Trim(a.key)) + ":";
    hide Quote;
    hide Trim;
    AppendTwice(s.msg, ArgComma(s) + key, ArgText(a));
    assert ArgComma(s) + key + ArgText(a) == ArgComma(s) + (key + ArgText(a));
    AppendKeepsCalls(s.msg, ArgComma(s) + Appended(a));
  }

  lemma AppendKeepsCalls(m: ChatMsg, text: string)
    requires m.toolCalls != []
    ensures |Append(m, text).toolCalls| == |m.toolCalls|
  {}

  function AfterArgs(s: State, args: seq<Arg>): State
    requires Valid(s) && s.inTool
  {
    State(Append(s.msg, (if s.argCount > 0 && args != [] then "," else "") + AllAppended(args)), true,
          s.argCount + |args|, if args == [] then s.needsClosingQuote else Unclosed(args[|args| - 1]))
  }

  lemma AppendNothing(m: ChatMsg)
    requires m.toolCalls != []
    ensures Append(m, "") == m
  {
    var last := m.toolCalls[|m.toolCalls| - 1];
    assert last.arguments + "" == last.arguments;
    assert m.toolCalls == m.toolCalls[..|m.toolCalls| - 1] + [last];
  }

  lemma {:induction false} ArgsRun(s: State, args: seq<Arg>)
    requires Valid(s) && s.inTool
    ensures Valid(AfterArgs(s, args)) && Run(s, ArgsNodes(args)) == Some(AfterArgs(s, args))
    decreases |args|
  {
    hide Append;
    hide Appended;
    hide ArgNodes;
    hide Run;
    AppendKeepsCalls(s.msg, (if s.argCount > 0 && args != [] then "," else "") + AllAppended(args));
    if args == [] {
      RunNothing(s);
      AppendNothing(s.msg);
      assert "" + AllAppended(args) == "";
    } else {
      ArgRuns(s, args[0]);
      RunConcat(s, ArgNodes(args[0]), ArgsNodes(args[1..]));
      ArgsRun(AfterArg(s, args[0]), args[1..]);
      AfterArgsCons(s, args);
    }
  }

  lemma AfterArgsCons(s: State, args: seq<Arg>)
    requires Valid(s) && s.inTool && args != [] && Valid(AfterArg(s, args[0]))
    ensures AfterArgs(AfterArg(s, args[0]), args[1..]) == AfterArgs(s, args)
  {
    hide Append;
    hide Appended;
    var comma := if s.argCount > 0 then "," else "";
    var first := comma + Appended(args[0]);
    AppendKeepsCalls(s.msg, first);
    if |args| == 1 {
      AppendTwice(s.msg, first, "");
      assert first + "" == first;
      assert "" + AllAppended(args[1..]) == "";
    } else {
      var rest := "," + AllAppended(args[1..]);
      AppendTwice(s.msg, first, rest);
      assert first + rest == comma + (Appended(args[0]) + rest);
    }
  }

  function BuiltCall(t: Tool): ToolCall {
    ToolCall(t.name, "{" + (AllAppended(t.args) + (LastQuote(t.args) + "}")), "")
  }

  lemma OpensTool(s: State, name: string, rest: seq<Node>)
    requires Valid(s)
    ensures var s1 := State(s.msg.(toolCalls := s.msg.toolCalls + [ToolCall(name, "{", "")]), true, 0,
                            s.needsClosingQuote);
            Run(s, [Node(ToolOpen, ""), Node(ToolName, name)] + rest) == Run(s1, rest)
  {
    hide Run;
    assert [Node(ToolOpen, ""), Node(ToolName, name)] + rest ==
           [Node(ToolOpen, "")] + ([Node(ToolName, name)] + rest);
    RunOne(s, Node(ToolOpen, ""), [Node(ToolName, name)] + rest);
    RunOne(Step(s, Node(ToolOpen, "")), Node(ToolName, name), rest);
    var calls := s.msg.toolCalls;
    assert (calls + [ToolCall("", "", "")])[..|calls|] == calls;
  }

  lemma ClosesTool(s: State)
    requires Valid(s) && s.inTool
    ensures Run(s, [Node(ToolClose, "")]) ==
            Some(s.(msg := Append(s.msg, if s.needsClosingQuote then "\"}" else "}"), needsClosingQuote := false))
  {
    assert [Node(ToolClose, "")] == [Node(ToolClose, "")] + [];
    RunOne(s, Node(ToolClose, ""), []);
  }

  lemma ToolRuns(s: State, t: Tool)
    requires Valid(s) && !s.needsClosingQuote
    ensures Run(s, ToolNodes(t)) ==
            Some(State(s.msg.(toolCalls := s.msg.toolCalls + [BuiltCall(t)]), true, |t.args|, false))
  {
    hide Run;
    hide ArgsNodes;
    hide AllAppended;
    hide Unclosed;
    var m1 := s.msg.(toolCalls := s.msg.toolCalls + [ToolCall(t.name, "{", "")]);
    var s1 := State(m1, true, 0, false);
    OpensTool(s, t.name, ArgsNodes(t.args) + [Node(ToolClose, "")]);
    ArgsRun(s1, t.args);
    RunConcat(s1, ArgsNodes(t.args), [Node(ToolClose, "")]);
    var body, quote := AllAppended(t.args), LastQuote(t.args);
    var s2 := AfterArgs(s1, t.args);
    assert "" + body == body;
    assert s2 == State(Append(m1, body), true, |t.args|, quote == "\"");
    ClosesTool(s2);
    assert (if s2.needsClosingQuote then "\"}" else "}") == quote + "}";
    AppendTwice(m1, body, quote + "}");
    assert m1.toolCalls[..|m1.toolCalls| - 1] == s.msg.toolCalls;
    assert Append(m1, body + (quote + "}")) == s.msg.(toolCalls := s.msg.toolCalls + [BuiltCall(t)]);
  }

  function ToolsNodes(ts: seq<Tool>): seq<Node> {
    if ts == [] then [] else ToolNodes(ts[0]) + ToolsNodes(ts[1..])
  }

  function BuiltCalls(ts: seq<Tool>): (calls: seq<ToolCall>) {
    seq(|ts|, i requires 0 <= i < |ts| => BuiltCall(ts[i]))
  }

  lemma {:induction false} ToolsRun(s: State, ts: seq<Tool>)
    requires Valid(s) && !s.needsClosingQuote
    ensures Run(s, ToolsNodes(ts)).Some?
    ensures Run(s, ToolsNodes(ts)).value.msg == s.msg.(toolCalls := s.msg.toolCalls + BuiltCalls(ts))
    decreases |ts|
  {
    hide Run;
    hide ToolNodes;
    hide BuiltCall;
    if ts == [] {
      RunNothing(s);
      assert s.msg.toolCalls + BuiltCalls(ts) == s.msg.toolCalls;
    } else {
      ToolRuns(s, ts[0]);
      var s1 := Run(s, ToolNodes(ts[0])).value;
      RunConcat(s, ToolNodes(ts[0]), ToolsNodes(ts[1..]));
      ToolsRun(s1, ts[1..]);
      assert s.msg.toolCalls + [BuiltCall(ts[0])] + BuiltCalls(ts[1..]) == s.msg.toolCalls + BuiltCalls(ts);
    }
  }

  /** The call a tool should become: the printed object of its members. */
  function PrintedCall(t: Tool): ToolCall { ToolCall(t.name, "{" + Members(t.args) + "}", "") }

  lemma BuiltIsPrinted(t: Tool)
    ensures BuiltCall(t) == PrintedCall(t) <==> ClosedInTime(t.args)
  {
    hide Members;
    hide AllAppended;
    hide ClosedInTime;
    hide LastQuote;
    AppendedFallsShort(t.args);
    MissingNone(t.args);
    var text := AllAppended(t.args) + LastQuote(t.args);
    assert "{" + (AllAppended(t.args) + (LastQuote(t.args) + "}")) == "{" + text + "}";
    if BuiltCall(t) == PrintedCall(t) {
      assert |"{" + text + "}"| == |"{" + Members(t.args) + "}"|;
    }
  }

  // ------------------------------------------------------------ nodes that no tool reads

  /** The nodes that concern a tool. */
  function ToolPart(ns: seq<Node>): seq<Node> {
    if ns == [] then []
    else if ns[0].tag in {Reasoning, Content, Other} then ToolPart(ns[1..])
    else [ns[0]] + ToolPart(ns[1..])
  }

  predicate SameTools(s: State, t: State) {
    && s.msg.toolCalls == t.msg.toolCalls && s.inTool == t.inTool && s.argCount == t.argCount
    && s.needsClosingQuote == t.needsClosingQuote
  }

  lemma StepSameTools(s: State, t: State, n: Node)
    requires Valid(s) && Valid(t) && SameTools(s, t) && (n.tag == ToolName ==> s.inTool)
    ensures SameTools(Step(s, n), Step(t, n))
    ensures n.tag in {Reasoning, Content, Other} ==> SameTools(Step(s, n), t)
  {
    hide Quote;
    hide Trim;
    hide OpenQuote;
  }

  lemma {:induction false} ToolPartDecides(s: State, t: State, ns: seq<Node>)
    requires Valid(s) && Valid(t) && SameTools(s, t)
    ensures var a, b := Run(s, ns), Run(t, ToolPart(ns));
            a.Some? == b.Some? && (a.Some? ==> SameTools(a.value, b.value))
    decreases |ns|
  {
    hide Step;
    if ns != [] && (ns[0].tag == ToolName ==> s.inTool) {
      StepSameTools(s, t, ns[0]);
      if ns[0].tag in {Reasoning, Content, Other} {
        ToolPartDecides(Step(s, ns[0]), t, ns[1..]);
      } else {
        ToolPartDecides(Step(s, ns[0]), Step(t, ns[0]), ns[1..]);
        assert ToolPart(ns)[1..] == ToolPart(ns[1..]);
      }
    }
  }

  /** Whatever reasoning, content and untagged nodes stand among the nodes of the tools, the mapper turns every
      tool into its printed object, exactly when in every tool all string arguments but the last are closed before
      the next argument opens. */
  lemma {:induction false} ConstructedExactly(ns: seq<Node>, ts: seq<Tool>)
    requires ToolPart(ns) == ToolsNodes(ts)
    ensures Run(Start, ns).Some?
    ensures Run(Start, ns).value.msg.toolCalls == seq(|ts|, i requires 0 <= i < |ts| => PrintedCall(ts[i]))
            <==> forall i | 0 <= i < |ts| :: ClosedInTime(ts[i].args)
  {
    hide Run;
    hide BuiltCall;
    hide PrintedCall;
    hide ClosedInTime;
    ToolPartDecides(Start, Start, ns);
    ToolsRun(Start, ts);
    var calls := Run(Start, ns).value.msg.toolCalls;
    var printed := seq(|ts|, i requires 0 <= i < |ts| => PrintedCall(ts[i]));
    assert calls == BuiltCalls(ts);
    forall i | 0 <= i < |ts| ensures calls[i] == printed[i] <==> ClosedInTime(ts[i].args) {
      BuiltIsPrinted(ts[i]);
    }
  }
}
