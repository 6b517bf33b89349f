/** `common_chat_msg_parser`: a cursor over the generated text that fills a message. */
module ChatParser {
  import opened Wrappers
  import opened Text
  import opened ChatTypes
  import opened LiteralSearch
  import opened Reasoning
  import opened CommonStrings
  import Json

  class MsgParser {
    const input: string
    const isPartial: bool
    const syntax: Syntax
    const readJson: Json.Reader
    var pos: nat
    var content: string
    var reasoning: string
    var toolCalls: seq<ToolCall>

    ghost predicate Valid()
      reads this
    {
      pos <= |input|
    }

    constructor (input: string, isPartial: bool, syntax: Syntax, readJson: Json.Reader)
      ensures Valid() && this.input == input && this.isPartial == isPartial && this.syntax == syntax
      ensures this.readJson == readJson
      ensures pos == 0 && Result() == EmptyMsg
    {
      this.input, this.isPartial, this.syntax, this.readJson := input, isPartial, syntax, readJson;
      pos, content, reasoning, toolCalls := 0, "", "", [];
    }

    function Result(): ChatMsg
      reads this
    {
      ChatMsg(content, reasoning, toolCalls)
    }

    /** Refuses a position outside the input, as the exception in the source does. */
    method MoveTo(to: nat) returns (ok: bool)
      requires Valid()
      modifies this`pos
      ensures Valid()
      ensures ok <==> to <= |input|
      ensures pos == if ok then to else old(pos)
    {
      ok := to <= |input|;
      if ok {
        pos := to;
      }
    }

    /** Tool calls without a name are refused. */
    method AddToolCall(name: string, id: string, arguments: string) returns (added: bool)
      modifies this`toolCalls
      ensures added <==> name != ""
      ensures toolCalls == old(toolCalls) + if added then [ToolCall(name, arguments, id)] else []
    {
      if name == "" {
        return false;
      }
      toolCalls := toolCalls + [ToolCall(name, arguments, id)];
      return true;
    }

    /** Fails on a complete parse that left something unread. */
    method Finish() returns (ok: bool)
      requires Valid()
      ensures ok <==> isPartial || pos == |input|
    {
      ok := isPartial || pos == |input|;
    }

    method ConsumeSpaces() returns (consumed: bool)
      requires Valid()
      modifies this`pos
      ensures Valid()
      ensures pos == SkipSpaces(input, old(pos)) && (consumed <==> pos != old(pos))
    {
      consumed := false;
      while pos < |input| && IsSpace(input[pos])
        invariant old(pos) <= pos <= |input|
        invariant SkipSpaces(input, pos) == SkipSpaces(input, old(pos))
        invariant consumed <==> pos != old(pos)
      {
        pos := pos + 1;
        consumed := true;
      }
    }

    method TryConsumeLiteral(literal: string) returns (consumed: bool)
      requires Valid()
      modifies this`pos
      ensures Valid()
      ensures consumed <==> OccursAt(input, literal, old(pos))
      ensures pos == if consumed then old(pos) + |literal| else old(pos)
    {
      var p := pos;
      for i := 0 to |literal|
        invariant p == pos + i <= |input|
        invariant input[pos..p] == literal[..i]
      {
        if p >= |input| {
          return false;
        }
        if input[p] != literal[i] {
          assert OccursAt(input, literal, pos) ==> input[pos..pos + |literal|][i] == literal[i];
          return false;
        }
        assert literal[..i + 1] == literal[..i] + [literal[i]];
        p := p + 1;
      }
      pos := p;
      return true;
    }

    method TryFindLiteral(literal: string) returns (r: Option<Match>)
      requires Valid()
      modifies this`pos
      ensures Valid()
      ensures r == FindLiteral(input, isPartial, old(pos), literal)
      ensures pos == if r.Some? then r.value.end else old(pos)
    {
      var idx := Find(input, literal, pos);
      if idx.Some? {
        r := Some(Match(input[pos..idx.value], idx.value, idx.value + |literal|));
        pos := idx.value + |literal|;
        return;
      }
      if isPartial {
        idx := FindPartialStop(input, literal);
        if idx.Some? && idx.value >= pos {
          r := Some(Match(input[pos..idx.value], idx.value, |input|));
          pos := |input|;
          return;
        }
      }
      return None;
    }

    method ConsumeRest() returns (rest: string)
      requires Valid()
      modifies this`pos
      ensures Valid() && rest == input[old(pos)..] && pos == |input|
    {
      rest := input[pos..];
      pos := |input|;
    }

    /** The lambda `handle_reasoning`; `pending` is the captured opening tag. */
    method HandleReasoningText(m: Mode, text: string, closed: bool, pending: string) returns (pending': string)
      requires m.syn == syntax
      modifies this`content, this`reasoning
      ensures Acc(content, reasoning, pending') ==
              HandleReasoning(m, Acc(old(content), old(reasoning), pending), text, closed)
    {
      pending' := pending;
      var stripped := StripText(text);
      if stripped == "" {
        return;
      }
      if syntax.reasoningInContent {
        content := content + if syntax.reasoningFormat.Deepseek? then "<think>" else m.startThink;
        content := content + stripped;
        if closed {
          content := content + if syntax.reasoningFormat.Deepseek? then "</think>" else m.endThink;
        } else {
          assert content == content + "";
        }
      } else {
        if pending' != "" {
          reasoning := reasoning + pending';
          pending' := "";
        } else {
          assert reasoning == reasoning + "";
        }
        reasoning := reasoning + stripped;
      }
    }

    /** The lambda `set_reasoning_prefix`, for a position that holds the opening tag. */
    method CaptureReasoningPrefix(m: Mode, prefixPos: nat, pending: string) returns (pending': string)
      requires m.syn == syntax && OccursAt(input, m.startThink, prefixPos)
      ensures forall c: string, r: string ::
                Acc(c, r, pending') == SetReasoningPrefix(m, Acc(c, r, pending))
    {
      if !syntax.thinkingForcedOpen || syntax.reasoningInContent {
        return pending;
      }
      if prefixPos + |m.startThink| > |input| {
        return "";
      }
      return input[prefixPos..prefixPos + |m.startThink|];
    }

    /** The part of `try_parse_reasoning` before its loop. When it does not end the parse it leaves
        `cursor` just inside the reasoning section. */
    method OpenReasoning(m: Mode) returns (ends: bool, found: bool, cursor: nat, pending: string)
      requires Valid() && m.syn == syntax
      modifies this`pos, this`content, this`reasoning
      ensures Valid() && (ends || pos == old(pos))
      ensures Opening(input, m, old(pos), old(content), old(reasoning)) ==
              if ends then Stop(found, pos, Acc(content, reasoning, pending))
              else Next(cursor, Acc(content, reasoning, pending))
    {
      cursor, pending := 0, "";
      if syntax.reasoningFormat.ReasoningNone? {
        return true, false, cursor, pending;
      }
      var whitespaceEnd := pos;
      while whitespaceEnd < |input| && IsSpace(input[whitespaceEnd])
        invariant pos <= whitespaceEnd <= |input|
        invariant SkipSpaces(input, whitespaceEnd) == SkipSpaces(input, pos)
      {
        whitespaceEnd := whitespaceEnd + 1;
      }
      if whitespaceEnd >= |input| {
        if syntax.thinkingForcedOpen {
          var rest := input[pos..];
          if rest != "" {
            SkipsExactlySpaces(input, pos);
            SkipSpacesIs(rest, 0, |rest|);
            assert Strip(rest) == "";
            pending := HandleReasoningText(m, rest, !isPartial, pending);
          }
          pos := |input|;
          return true, true, cursor, pending;
        }
        return true, false, cursor, pending;
      }
      cursor := whitespaceEnd;
      var agrees := TagAgrees(m.startThink, cursor);
      if agrees && |input| - cursor < |m.startThink| {
        pos := |input|;
        return true, true, cursor, pending;
      }
      if agrees {
        content := content + input[pos..whitespaceEnd];
        pending := CaptureReasoningPrefix(m, cursor, pending);
        return false, true, cursor + |m.startThink|, pending;
      }
      return !syntax.thinkingForcedOpen, false, cursor, pending;
    }

    /** The branch of the loop where no closing tag is left: a possible beginning of it is withheld. */
    method UnclosedReasoning(m: Mode, cursor: nat, pending: string) returns (pending': string)
      requires m.syn == syntax && cursor < |input| && Find(input, m.endThink, cursor).None?
      modifies this`content, this`reasoning
      ensures ScanRound(input, isPartial, m, cursor, Acc(old(content), old(reasoning), pending)) ==
              Stop(true, |input|, Acc(content, reasoning, pending'))
    {
      pending' := pending;
      var partialOff := FindPartialStop(input[cursor..], m.endThink);
      PartialStopOfView(input, m.endThink, cursor);
      var reasoningEnd := if partialOff.None? then |input| else cursor + partialOff.value;
      if reasoningEnd > cursor {
        pending' := HandleReasoningText(m, input[cursor..reasoningEnd], partialOff.None? && !isPartial, pending);
      }
    }

    /** One round of the loop of `try_parse_reasoning`. */
    method ReasoningRound(m: Mode, cursor: nat, pending: string) returns (ends: bool, cursor': nat, pending': string)
      requires Valid() && m.syn == syntax && cursor <= |input|
      modifies this`pos, this`content, this`reasoning
      ensures Valid()
      ensures ScanRound(input, isPartial, m, cursor, Acc(old(content), old(reasoning), pending)) ==
              if ends then Stop(true, pos, Acc(content, reasoning, pending'))
              else Next(cursor', Acc(content, reasoning, pending'))
    {
      cursor', pending' := cursor, pending;
      if cursor' >= |input| {
        pos := |input|;
        return true, cursor', pending';
      }
      var found := Find(input, m.endThink, cursor);
      if found.None? {
        pending' := UnclosedReasoning(m, cursor, pending);
        pos := |input|;
        return true, cursor', pending';
      }
      pending' := HandleReasoningText(m, input[cursor..found.value], true, pending);
      ends, cursor', pending' := AfterReasoning(m, found.value + |m.endThink|, pending');
    }

    /** The end of a round: past the closing tag, a further opening tag continues the scan. */
    method AfterReasoning(m: Mode, from: nat, pending: string) returns (ends: bool, cursor: nat, pending': string)
      requires Valid() && m.syn == syntax && from <= |input|
      modifies this`pos
      ensures Valid()
      ensures AfterSection(input, m, from, Acc(content, reasoning, pending)) ==
              if ends then Stop(true, pos, Acc(content, reasoning, pending'))
              else Next(cursor, Acc(content, reasoning, pending'))
    {
      cursor, pending' := from, pending;
      while cursor < |input| && IsSpace(input[cursor])
        invariant from <= cursor <= |input|
        invariant SkipSpaces(input, cursor) == SkipSpaces(input, from)
      {
        cursor := cursor + 1;
      }
      if cursor == |input| {
        pos := cursor;
        return true, cursor, pending';
      }
      var again := TagAgrees(m.startThink, cursor);
      if again {
        if |input| - cursor < |m.startThink| {
          pos := |input|;
          return true, cursor, pending';
        }
        pending' := CaptureReasoningPrefix(m, cursor, pending);
        return false, cursor + |m.startThink|, pending';
      }
      pos := cursor;
      return true, cursor, pending';
    }

    method TryParseReasoning(m: Mode) returns (found: bool)
      requires Valid() && m.syn == syntax
      modifies this`pos, this`content, this`reasoning
      ensures Valid()
      ensures Parsed(found, pos, content, reasoning) ==
              ParseReasoning(input, isPartial, m, old(pos), old(content), old(reasoning))
    {
      ghost var opening := Opening(input, m, pos, content, reasoning);
      var ends, cursor, pending;
      ends, found, cursor, pending := OpenReasoning(m);
      while !ends
        invariant Valid() && (ends || cursor <= |input|)
        invariant Scan(input, isPartial, m, opening) ==
                  Scan(input, isPartial, m, if ends then Stop(found, pos, Acc(content, reasoning, pending))
                                            else Next(cursor, Acc(content, reasoning, pending)))
        decreases !ends, |input| - cursor
      {
        found := true;
        ends, cursor, pending := ReasoningRound(m, cursor, pending);
      }
    }

    /** The comparison of the next bytes with a tag, over the shorter of the two lengths. */
    method TagAgrees(tag: string, at: nat) returns (agrees: bool)
      requires at <= |input|
      ensures agrees <==> AgreesAt(input, tag, at)
      ensures agrees && |tag| <= |input| - at ==> OccursAt(input, tag, at)
    {
      var n := if |tag| < |input| - at then |tag| else |input| - at;
      agrees := input[at..at + n] == tag[..n];
      assert input[at..at + n] == input[at..][..n];
    }

    /** `common_chat_parse_content_only`, followed by the end-of-input check of `common_chat_parse`. */
    method ParseContentOnly(m: Mode) returns (ok: bool)
      requires Valid() && pos == 0 && Result() == EmptyMsg && m.syn == syntax
      modifies this`pos, this`content, this`reasoning
      ensures Valid() && ok && pos == |input|
      ensures Result() == ParseContent(input, isPartial, m)
    {
      var found := TryParseReasoning(m);
      var rest := ConsumeRest();
      content := content + rest;
      ok := Finish();
    }
  }
}
