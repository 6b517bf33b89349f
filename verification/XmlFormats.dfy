/** The delimiters of the formats in use (chat-parser.cpp:882-967, 1057-1070, 1384-1395). */
module XmlFormats {
  import opened Wrappers
  import opened XmlSpec

  const QWEN3_CODER: Format := FormatOf("<tool_call>", "<function=", ">", "<parameter=", ">", "</parameter>",
                                        "</function>", "</tool_call>", None, None, None, None, true)

  const MINIMAX_M2: Format := FormatOf("<minimax:tool_call>", "<invoke name=\"", "\">", "<parameter name=\"", "\">",
                                       "</parameter>", "</invoke>", "</minimax:tool_call>", None, None, None, None,
                                       false)

  const GLM_4_5: Format := FormatOf("", "<tool_call>", "", "<arg_key>", "</arg_key>", "</arg_value>", "</tool_call>",
                                    "", Some("<arg_value>"), None, None, None, false)

  const SEED_OSS: Format := FormatOf("<seed:tool_call>", "<function=", ">", "<parameter=", ">", "</parameter>",
                                     "</function>", "</seed:tool_call>", None, None, None, None, false)

  const KIMI_K2: Format := FormatOf("<|tool_calls_section_begin|>", "<|tool_call_begin|>",
                                    "<|tool_call_argument_begin|>{", "\"", "\":", ",", "}<|tool_call_end|>",
                                    "<|tool_calls_section_end|>", None, Some(""), None, Some(false), false)

  const XIAOMI_MIMO: Format := FormatOf("", "<tool_call>\n{\"name\": \"", "\", \"arguments\": {", "\"", "\": ",
                                        ", ", "}\n</tool_call>", "", None, Some(""), None, Some(false), false)

  const APRIEL: Format := FormatOf("<tool_calls>[", "{\"name\": \"", "\", \"arguments\": {", "\"", "\": ", ", ",
                                   "}, ", "]</tool_calls>", None, Some(""), Some("}"), Some(false),
                                   false)
}
