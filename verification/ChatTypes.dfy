/** The records of chat.h that the parsers fill and the server streams. */
module ChatTypes {
  datatype ToolCall = ToolCall(name: string, arguments: string, id: string)

  /** `common_chat_msg`, with the fields a parse can set. */
  datatype ChatMsg = ChatMsg(content: string, reasoning: string, toolCalls: seq<ToolCall>)

  const EmptyMsg := ChatMsg("", "", [])

  datatype ReasoningFormat = ReasoningNone | ReasoningAuto | DeepseekLegacy | Deepseek

  /** The part of `common_chat_parser_params` that the modelled parsers read. */
  datatype Syntax = Syntax(
    reasoningFormat: ReasoningFormat,
    reasoningInContent: bool,
    thinkingForcedOpen: bool,
    kimiK2: bool)
}
