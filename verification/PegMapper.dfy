/** The mapper for constructed tool calls: it turns the nodes of a parse, visited in order, into tool calls
    whose arguments are a JSON object printed piece by piece. */
module PegMapper {
  import opened Wrappers
  import opened Text
  import opened ChatTypes
  import opened Json

  datatype Tag = Reasoning | Content | ToolOpen | ToolName | ToolClose
               | ArgOpen | ArgName | ArgString | ArgJson | ArgClose | Other

  datatype Node = Node(tag: Tag, text: string)

  /** The message being filled and the mapper's own fields; the current tool is the last call. */
  datatype State = State(msg: ChatMsg, inTool: bool, argCount: nat, needsClosingQuote: bool)

  const Start := State(EmptyMsg, false, 0, false)

  ghost predicate Valid(s: State) { s.inTool ==> s.msg.toolCalls != [] }

  /** `trim_trailing_space` */
  function Trim(text: string): string { text[..TrimEnd(text, 0, |text|)] }

  /** `dump` without its last character. */
  function OpenQuote(text: string): string { Quote(text)[..|Quote(text)| - 1] }

  function Append(m: ChatMsg, text: string): ChatMsg
    requires m.toolCalls != []
  {
    var last := m.toolCalls[|m.toolCalls| - 1];
    m.(toolCalls := m.toolCalls[..|m.toolCalls| - 1] + [last.(arguments := last.arguments + text)])
  }

  lemma AppendTwice(m: ChatMsg, a: string, b: string)
    requires m.toolCalls != []
    ensures Append(Append(m, a), b) == Append(m, a + b)
  {
    var last := m.toolCalls[|m.toolCalls| - 1];
    assert last.arguments + a + b == last.arguments + (a + b);
    assert Append(m, a).toolCalls[..|m.toolCalls| - 1] == m.toolCalls[..|m.toolCalls| - 1];
  }

  function Rename(m: ChatMsg, name: string): ChatMsg
    requires m.toolCalls != []
  {
    var last := m.toolCalls[|m.toolCalls| - 1];
    m.(toolCalls := m.toolCalls[..|m.toolCalls| - 1] + [last.(name := name, arguments := "{")])
  }

  /** What one node does. A tool name outside a tool is not allowed for. */
  function Step(s: State, n: Node): (r: State)
    requires Valid(s) && (n.tag == ToolName ==> s.inTool)
    ensures Valid(r)
  {
    match n.tag
    case Reasoning => s.(msg := s.msg.(reasoning := Trim(n.text)))
    case Content => s.(msg := s.msg.(content := Trim(n.text)))
    case ToolOpen =>
      s.(msg := s.msg.(toolCalls := s.msg.toolCalls + [ToolCall("", "", "")]), inTool := true, argCount := 0)
    case ToolName => s.(msg := Rename(s.msg, n.text))
    case ArgOpen => s.(needsClosingQuote := false)
    case ArgName =>
      if !s.inTool then s
      else s.(msg := Append(s.msg, (if s.argCount > 0 then "," else "") + Quote(Trim(n.text)) + ":"),
              argCount := s.argCount + 1)
    case ArgString =>
      if !s.inTool then s else s.(msg := Append(s.msg, OpenQuote(Trim(n.text))), needsClosingQuote := true)
    case ArgJson => if !s.inTool then s else s.(msg := Append(s.msg, Trim(n.text)))
    case ArgClose =>
      if !s.inTool || !s.needsClosingQuote then s else s.(msg := Append(s.msg, "\""), needsClosingQuote := false)
    case ToolClose =>
      if !s.inTool then s
      else s.(msg := Append(s.msg, if s.needsClosingQuote then "\"}" else "}"), needsClosingQuote := false)
    case Other => s
  }

  class Mapper {
    var content: string
    var reasoning: string
    var toolCalls: seq<ToolCall>
    var currentTool: Option<nat>
    var argCount: nat
    var needsClosingQuote: bool

    constructor ()
      ensures Fine() && Contents() == Start
    {
      content, reasoning, toolCalls := "", "", [];
      currentTool, argCount, needsClosingQuote := None, 0, false;
    }

    /** The current tool, if any, is the one opened last. */
    ghost predicate Fine()
      reads this
    {
      currentTool.Some? ==> toolCalls != [] && currentTool.value == |toolCalls| - 1
    }

    ghost function Contents(): (s: State)
      requires Fine()
      reads this
      ensures Valid(s) && s.inTool == currentTool.Some?
    {
      State(ChatMsg(content, reasoning, toolCalls), currentTool.Some?, argCount, needsClosingQuote)
    }

    /** `current_tool->arguments += text` */
    method AppendArguments(text: string)
      requires Fine() && currentTool.Some?
      modifies this`toolCalls
      ensures Fine() && Contents() == old(Contents()).(msg := Append(old(Contents()).msg, text))
    {
      var i := currentTool.value;
      var tool := toolCalls[i];
      toolCalls := toolCalls[i := tool.(arguments := tool.arguments + text)];
      assert toolCalls == old(toolCalls)[..i] + [toolCalls[i]];
    }

    method NameTool(name: string)
      requires Fine() && currentTool.Some?
      modifies this`toolCalls
      ensures Fine() && Contents() == old(Contents()).(msg := Rename(old(Contents()).msg, name))
    {
      var i := currentTool.value;
      toolCalls := toolCalls[i := toolCalls[i].(name := name, arguments := "{")];
      assert toolCalls == old(toolCalls)[..i] + [toolCalls[i]];
    }

    method MapText(node: Node)
      requires Fine()
      modifies this`content, this`reasoning
      ensures Fine()
      ensures node.tag == Reasoning || node.tag == Content ==> Contents() == Step(old(Contents()), node)
      ensures node.tag != Reasoning && node.tag != Content ==> Contents() == old(Contents())
    {
      if node.tag == Reasoning { reasoning := Trim(node.text); }
      if node.tag == Content { content := Trim(node.text); }
    }

    method MapArgument(node: Node)
      requires Fine() && node.tag in {ArgOpen, ArgName, ArgString, ArgJson, ArgClose}
      modifies this
      ensures Fine() && Contents() == Step(old(Contents()), node)
    {
      hide Quote;
      hide Trim;
      hide OpenQuote;
      hide Append;
      if node.tag == ArgOpen { needsClosingQuote := false; }
      if node.tag == ArgName && currentTool.Some? {
        AppendArguments((if argCount > 0 then "," else "") + Quote(Trim(node.text)) + ":");
        argCount := argCount + 1;
      }
      if node.tag == ArgString && currentTool.Some? {
        AppendArguments(OpenQuote(Trim(node.text)));
        needsClosingQuote := true;
      }
      if node.tag == ArgClose && currentTool.Some? {
        if needsClosingQuote {
          AppendArguments("\"");
          needsClosingQuote := false;
        }
      }
      if node.tag == ArgJson && currentTool.Some? { AppendArguments(Trim(node.text)); }
    }

    method CloseTool()
      requires Fine()
      modifies this
      ensures Fine() && Contents() == Step(old(Contents()), Node(ToolClose, ""))
    {
      if currentTool.Some? {
        AppendTwice(Contents().msg, "\"", "}");
        assert "\"" + "}" == "\"}";
        if needsClosingQuote {
          AppendArguments("\"");
          needsClosingQuote := false;
        }
        AppendArguments("}");
      }
    }

    method Map(node: Node)
      requires Fine() && (node.tag == ToolName ==> currentTool.Some?)
      modifies this
      ensures Fine() && Contents() == Step(old(Contents()), node)
    {
      MapText(node);
      match node.tag
      case ToolOpen =>
        toolCalls := toolCalls + [ToolCall("", "", "")];
        currentTool, argCount := Some(|toolCalls| - 1), 0;
      case ToolName => NameTool(node.text);
      case ToolClose => CloseTool();
      case ArgOpen => MapArgument(node);
      case ArgName => MapArgument(node);
      case ArgString => MapArgument(node);
      case ArgJson => MapArgument(node);
      case ArgClose => MapArgument(node);
      case _ =>
    }
  }
}
