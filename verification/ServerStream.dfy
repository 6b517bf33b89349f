/** The server side of a stream: every chunk of text is parsed again from the start, tool calls get
    stable ids, and only the difference is sent (`task_result_state::update_chat_msg`). */
module ServerStream {
  import opened Wrappers
  import opened ChatTypes
  import opened ChatDiff
  import opened Reasoning
  import opened ChatParser
  import opened Json

  datatype ServerState = ServerState(text: string, msg: ChatMsg, ids: seq<string>)

  const Start := ServerState("", EmptyMsg, [])

  /** `set_tool_call_ids` on the cache; `gen(i)` is what the generator returns if it is asked for the
      id of call `i`, which happens at most once. */
  function ExtendCache(calls: seq<ToolCall>, ids: seq<string>, gen: nat -> string): (r: seq<string>)
    ensures ids <= r && |calls| <= |r|
    decreases |calls| - |ids|
  {
    if |calls| <= |ids| then ids
    else
      var id := calls[|ids|].id;
      ExtendCache(calls, ids + [if id == "" then gen(|ids|) else id], gen)
  }

  function WithIds(calls: seq<ToolCall>, ids: seq<string>): (r: seq<ToolCall>)
    requires |calls| <= |ids|
    ensures |r| == |calls|
    ensures forall i | 0 <= i < |calls| :: r[i] == calls[i].(id := ids[i])
  {
    seq(|calls|, i requires 0 <= i < |calls| => calls[i].(id := ids[i]))
  }

  /** What the server does with a parsed message; an empty one leaves the message and the client alone. */
  function Take(st: ServerState, parsed: ChatMsg, gen: nat -> string): (ServerState, Result<seq<Diff>>) {
    if parsed == EmptyMsg then (st, Ok([]))
    else
      var ids := ExtendCache(parsed.toolCalls, st.ids, gen);
      var msg := parsed.(toolCalls := WithIds(parsed.toolCalls, ids));
      (ServerState(st.text, msg, ids), Diffs(st.msg, msg))
  }

  /** One update, with the message parsed from all the text. */
  function Update(st: ServerState, added: string, parsed: ChatMsg, gen: nat -> string)
      : (ServerState, Result<seq<Diff>>)
  {
    Take(st.(text := st.text + added), parsed, gen)
  }

  class TaskResultState {
    const mode: Mode
    var generatedText: string
    var chatMsg: ChatMsg
    var generatedToolCallIds: seq<string>

    constructor (mode: Mode)
      ensures this.mode == mode && State() == Start
    {
      this.mode := mode;
      generatedText, chatMsg, generatedToolCallIds := "", EmptyMsg, [];
    }

    function State(): ServerState
      reads this
    {
      ServerState(generatedText, chatMsg, generatedToolCallIds)
    }

    method SetToolCallIds(calls: seq<ToolCall>, gen: nat -> string) returns (r: seq<ToolCall>)
      modifies this`generatedToolCallIds
      ensures generatedToolCallIds == ExtendCache(calls, old(generatedToolCallIds), gen)
      ensures r == WithIds(calls, generatedToolCallIds)
    {
      r := calls;
      for i := 0 to |calls|
        invariant i <= |generatedToolCallIds| && |r| == |calls| && r[i..] == calls[i..]
        invariant ExtendCache(calls, generatedToolCallIds, gen) == ExtendCache(calls, old(generatedToolCallIds), gen)
        invariant forall k | 0 <= k < i :: r[k] == calls[k].(id := generatedToolCallIds[k])
      {
        assert r[i] == r[i..][0] == calls[i];
        if |generatedToolCallIds| <= i {
          var id := r[i].id;
          if id == "" {
            id := gen(i);
          }
          generatedToolCallIds := generatedToolCallIds + [id];
        }
        r := r[i := r[i].(id := generatedToolCallIds[i])];
      }
    }

    /** The update after the parse, whatever parser the message comes from. */
    method TakeParsed(newMsg: ChatMsg, gen: nat -> string) returns (diffs: Result<seq<Diff>>)
      modifies this`chatMsg, this`generatedToolCallIds
      ensures (State(), diffs) == Take(old(State()), newMsg, gen)
    {
      var msgPrvCopy := chatMsg;
      diffs := Ok([]);
      if newMsg != EmptyMsg {
        var calls := SetToolCallIds(newMsg.toolCalls, gen);
        chatMsg := newMsg.(toolCalls := calls);
        diffs := ComputeDiffs(msgPrvCopy, chatMsg);
      }
    }

    /** A content-only generation: parse everything generated so far, then send the difference. */
    method UpdateChatMsg(textAdded: string, isPartial: bool, gen: nat -> string) returns (diffs: Result<seq<Diff>>)
      modifies this
      ensures var parsed := ParseContent(old(generatedText) + textAdded, isPartial, mode);
              (State(), diffs) == Update(old(State()), textAdded, parsed, gen)
    {
      generatedText := generatedText + textAdded;
      var parser := new MsgParser(generatedText, isPartial, mode.syn, NeverJson);
      var ok := parser.ParseContentOnly(mode);
      diffs := TakeParsed(parser.Result(), gen);
    }
  }

  // ------------------------------------------------------------ runs

  /** Server and client, fed a run of parsed snapshots; nothing comes out of a run that fails. */
  function Run(st: ServerState, client: ChatMsg, parses: seq<ChatMsg>, gen: nat -> string)
      : Option<(ServerState, ChatMsg)>
    decreases |parses|
  {
    if parses == [] then Some((st, client))
    else
      var (st', diffs) := Update(st, "", parses[0], gen);
      match diffs
      case Err(_) => None
      case Ok(ds) =>
        match ApplyAll(client, ds)
        case None => None
        case Some(client') => Run(st', client', parses[1..], gen)
  }

  /** As `Extends`, for what a parser returns before ids are assigned. */
  ghost predicate ParseExtends(prv: ChatMsg, new_: ChatMsg) {
    && prv.content <= new_.content
    && prv.reasoning <= new_.reasoning
    && |prv.toolCalls| <= |new_.toolCalls|
    && (forall i | 0 <= i < |prv.toolCalls| ::
          && prv.toolCalls[i].name == new_.toolCalls[i].name
          && prv.toolCalls[i].arguments <= new_.toolCalls[i].arguments
          && (i < |prv.toolCalls| - 1 ==> prv.toolCalls[i].arguments == new_.toolCalls[i].arguments))
    && (forall i | |prv.toolCalls| <= i < |new_.toolCalls| :: new_.toolCalls[i].name != "")
  }

  /** Every non-empty snapshot extends the non-empty one before it. */
  ghost predicate Growing(m: ChatMsg, parses: seq<ChatMsg>)
    decreases |parses|
  {
    parses == [] ||
    (if parses[0] == EmptyMsg then Growing(m, parses[1..])
     else ParseExtends(m, parses[0]) && Growing(parses[0], parses[1..]))
  }

  function LastNonEmpty(m: ChatMsg, parses: seq<ChatMsg>): ChatMsg
    decreases |parses|
  {
    if parses == [] then m
    else LastNonEmpty(if parses[0] == EmptyMsg then m else parses[0], parses[1..])
  }

  ghost predicate SameButIds(a: ChatMsg, b: ChatMsg) {
    && a.content == b.content && a.reasoning == b.reasoning && |a.toolCalls| == |b.toolCalls|
    && forall i | 0 <= i < |a.toolCalls| ::
         a.toolCalls[i].name == b.toolCalls[i].name && a.toolCalls[i].arguments == b.toolCalls[i].arguments
  }

  ghost predicate IdsFromCache(st: ServerState) {
    |st.msg.toolCalls| <= |st.ids| &&
    forall i | 0 <= i < |st.msg.toolCalls| :: st.msg.toolCalls[i].id == st.ids[i]
  }

  /** One update with a snapshot that extends the last one: no error, the client follows, and the
      cache only grows. */
  lemma UpdateFollows(st: ServerState, m: ChatMsg, parsed: ChatMsg, gen: nat -> string)
    requires IdsFromCache(st) && SameButIds(st.msg, m)
    requires parsed != EmptyMsg && ParseExtends(m, parsed)
    ensures var (st', diffs) := Update(st, "", parsed, gen);
            && diffs.Ok? && ApplyAll(st.msg, diffs.value) == Some(st'.msg)
            && IdsFromCache(st') && SameButIds(st'.msg, parsed) && st.ids <= st'.ids
  {
    var (st', diffs) := Update(st, "", parsed, gen);
    var n := |st.msg.toolCalls|;
    forall i | 0 <= i < n
      ensures st.msg.toolCalls[i].id == st'.msg.toolCalls[i].id
    {
      assert st.ids[i] == st'.ids[i];
    }
    if n > 0 {
      assert st.msg.toolCalls[..n - 1] == st'.msg.toolCalls[..n - 1];
    }
    DiffsRebuildIffExtends(st.msg, st'.msg);
  }

  /** Telescoping: over any run of growing snapshots that share one id cache nothing fails, the
      client ends with the server's message, which is the last non-empty snapshot with ids from the
      cache, and no id that was ever assigned changes. */
  lemma {:induction false} RunTelescopes(st: ServerState, m: ChatMsg, parses: seq<ChatMsg>, gen: nat -> string)
    requires IdsFromCache(st) && SameButIds(st.msg, m) && Growing(m, parses)
    ensures var r := Run(st, st.msg, parses, gen);
            && r.Some? && r.value.0.msg == r.value.1
            && SameButIds(r.value.1, LastNonEmpty(m, parses))
            && IdsFromCache(r.value.0) && st.ids <= r.value.0.ids
            && |m.toolCalls| <= |r.value.1.toolCalls|
    decreases |parses|
  {
    if parses != [] {
      var (st', diffs) := Update(st, "", parses[0], gen);
      if parses[0] == EmptyMsg {
        RunTelescopes(st', m, parses[1..], gen);
      } else {
        UpdateFollows(st, m, parses[0], gen);
        RunTelescopes(st', parses[0], parses[1..], gen);
      }
    }
  }

  lemma {:induction false} RunConcat(st: ServerState, client: ChatMsg, xs: seq<ChatMsg>, ys: seq<ChatMsg>,
                                     gen: nat -> string)
    ensures Run(st, client, xs + ys, gen) ==
            match Run(st, client, xs, gen) case None => None case Some(r) => Run(r.0, r.1, ys, gen)
    decreases |xs|
  {
    if xs == [] {
      assert xs + ys == ys;
    } else {
      assert (xs + ys)[0] == xs[0] && (xs + ys)[1..] == xs[1..] + ys;
      var (st', diffs) := Update(st, "", xs[0], gen);
      if diffs.Ok? && ApplyAll(client, diffs.value).Some? {
        RunConcat(st', ApplyAll(client, diffs.value).value, xs[1..], ys, gen);
      }
    }
  }

  lemma {:induction false} GrowingConcat(m: ChatMsg, xs: seq<ChatMsg>, ys: seq<ChatMsg>)
    requires Growing(m, xs + ys)
    ensures Growing(m, xs) && Growing(LastNonEmpty(m, xs), ys)
    decreases |xs|
  {
    if xs == [] {
      assert xs + ys == ys;
    } else {
      assert (xs + ys)[0] == xs[0] && (xs + ys)[1..] == xs[1..] + ys;
      GrowingConcat(if xs[0] == EmptyMsg then m else xs[0], xs[1..], ys);
    }
  }

  /** Call `i` has the same id in the snapshot reached after `xs` and in every later one. */
  lemma CallIdsAreStable(xs: seq<ChatMsg>, ys: seq<ChatMsg>, gen: nat -> string, i: nat)
    requires Growing(EmptyMsg, xs + ys)
    ensures Run(Start, EmptyMsg, xs, gen).Some? && Run(Start, EmptyMsg, xs + ys, gen).Some?
    ensures var early := Run(Start, EmptyMsg, xs, gen).value.1.toolCalls;
            var late := Run(Start, EmptyMsg, xs + ys, gen).value.1.toolCalls;
            i < |early| ==> i < |late| && early[i].id == late[i].id
  {
    GrowingConcat(EmptyMsg, xs, ys);
    RunTelescopes(Start, EmptyMsg, xs, gen);
    RunConcat(Start, EmptyMsg, xs, ys, gen);
    var (st, client) := Run(Start, EmptyMsg, xs, gen).value;
    RunTelescopes(st, LastNonEmpty(EmptyMsg, xs), ys, gen);
  }

  /** An entry of the cache is never replaced; a new one is the id that the call has, or else a generated one. */
  lemma {:induction false} CacheEntries(calls: seq<ToolCall>, ids: seq<string>, gen: nat -> string)
    ensures var r := ExtendCache(calls, ids, gen);
            && |r| == (if |calls| <= |ids| then |ids| else |calls|)
            && forall i | 0 <= i < |r| ::
                 r[i] == if i < |ids| then ids[i] else if calls[i].id != "" then calls[i].id else gen(i)
    decreases |calls| - |ids|
  {
    if |ids| < |calls| {
      var id := calls[|ids|].id;
      CacheEntries(calls, ids + [if id == "" then gen(|ids|) else id], gen);
    }
  }

  /** The id of call `i` in the first snapshot that holds it, or the one generated for it. */
  function FirstId(parses: seq<ChatMsg>, i: nat, gen: nat -> string): Option<string>
    decreases |parses|
  {
    if parses == [] then None
    else if i < |parses[0].toolCalls| then
      Some(if parses[0].toolCalls[i].id != "" then parses[0].toolCalls[i].id else gen(i))
    else FirstId(parses[1..], i, gen)
  }

  lemma {:induction false} IdsFrom(st: ServerState, m: ChatMsg, parses: seq<ChatMsg>, gen: nat -> string, i: nat)
    requires IdsFromCache(st) && SameButIds(st.msg, m) && Growing(m, parses)
    ensures var r := Run(st, st.msg, parses, gen);
            r.Some? && (|st.ids| <= i < |r.value.0.ids| ==> FirstId(parses, i, gen) == Some(r.value.0.ids[i]))
    decreases |parses|
  {
    hide IdsFromCache; hide SameButIds; hide ParseExtends; hide Diffs; hide ExtendCache; hide Apply; hide Update;
    RunTelescopes(st, m, parses, gen);
    if parses != [] {
      var (st', diffs) := Update(st, "", parses[0], gen);
      UpdateIds(st, parses[0], gen, i);
      if parses[0] == EmptyMsg {
        IdsFrom(st', m, parses[1..], gen, i);
      } else {
        UpdateFollows(st, m, parses[0], gen);
        RunTelescopes(st', parses[0], parses[1..], gen);
        IdsFrom(st', parses[0], parses[1..], gen, i);
      }
    }
  }

  /** What one update adds to the cache. */
  lemma UpdateIds(st: ServerState, parsed: ChatMsg, gen: nat -> string, i: nat)
    ensures var (st', diffs) := Update(st, "", parsed, gen);
            if parsed == EmptyMsg then st' == st && diffs == Ok([])
            else
              && |st'.ids| == (if |parsed.toolCalls| <= |st.ids| then |st.ids| else |parsed.toolCalls|)
              && (i < |st'.ids| ==>
                    st'.ids[i] == if i < |st.ids| then st.ids[i]
                                  else if parsed.toolCalls[i].id != "" then parsed.toolCalls[i].id else gen(i))
  {
    hide Diffs; hide ExtendCache;
    CacheEntries(parsed.toolCalls, st.ids, gen);
  }

  /** Over any run of growing snapshots, call `i` has, for the server and its client, the id it came with in the
      first snapshot that holds it, or the one generated then. */
  lemma IdsOfRun(parses: seq<ChatMsg>, gen: nat -> string, i: nat)
    requires Growing(EmptyMsg, parses)
    ensures var r := Run(Start, EmptyMsg, parses, gen);
            r.Some? && (i < |r.value.1.toolCalls| ==> FirstId(parses, i, gen) == Some(r.value.1.toolCalls[i].id))
  {
    RunTelescopes(Start, EmptyMsg, parses, gen);
    IdsFrom(Start, EmptyMsg, parses, gen, i);
  }

  // ------------------------------------------------------------ content-only generations

  /** What the server parses while `chunks` arrive after `text`, and finally with `last`. */
  function Parses(text: string, chunks: seq<string>, last: string, m: Mode): (r: seq<ChatMsg>)
    ensures |r| == |chunks| + 1
    decreases |chunks|
  {
    if chunks == [] then [ParseContent(text + last, false, m)]
    else [ParseContent(text + chunks[0], true, m)] + Parses(text + chunks[0], chunks[1..], last, m)
  }

  function Total(text: string, chunks: seq<string>, last: string): string
    decreases |chunks|
  {
    if chunks == [] then text + last else Total(text + chunks[0], chunks[1..], last)
  }

  lemma NothingParsed(m: Mode)
    ensures ParseContent("", true, m) == EmptyMsg
  {}

  lemma {:induction false} ParsesGrow(t: string, text: string, chunks: seq<string>, last: string, m: Mode)
    requires t <= text
    ensures Growing(ParseContent(t, true, m), Parses(text, chunks, last, m))
    decreases |chunks|
  {
    var parses := Parses(text, chunks, last, m);
    if chunks == [] {
      EmptyOrExtends(t, text + last, false, m);
      assert parses[1..] == [];
    } else {
      var text' := text + chunks[0];
      EmptyOrExtends(t, text', true, m);
      assert parses[1..] == Parses(text', chunks[1..], last, m);
      if parses[0] == EmptyMsg {
        ParsesGrow(t, text', chunks[1..], last, m);
      } else {
        ParsesGrow(text', text', chunks[1..], last, m);
      }
    }
  }

  lemma {:induction false} LastParse(text: string, chunks: seq<string>, last: string, m: Mode)
    ensures Parses(text, chunks, last, m)[|chunks|] == ParseContent(Total(text, chunks, last), false, m)
    decreases |chunks|
  {
    hide ParseContent;
    if chunks != [] {
      LastParse(text + chunks[0], chunks[1..], last, m);
    }
  }

  lemma {:induction false} LastNonEmptyEndsWith(m: ChatMsg, parses: seq<ChatMsg>)
    requires parses != []
    ensures var final := parses[|parses| - 1];
            LastNonEmpty(m, parses) == final <==>
            (final != EmptyMsg || (m == EmptyMsg && NothingShown(parses)))
    decreases |parses|
  {
    var m' := if parses[0] == EmptyMsg then m else parses[0];
    if |parses| > 1 {
      LastNonEmptyEndsWith(m', parses[1..]);
      assert forall i | 1 <= i < |parses| :: parses[i] == parses[1..][i - 1];
    } else {
      assert LastNonEmpty(m', parses[1..]) == m';
    }
  }

  lemma {:induction false} NoCalls(text: string, chunks: seq<string>, last: string, m: Mode, msg: ChatMsg)
    requires msg.toolCalls == []
    ensures LastNonEmpty(msg, Parses(text, chunks, last, m)).toolCalls == []
    decreases |chunks|
  {
    var parses := Parses(text, chunks, last, m);
    if chunks == [] {
      assert parses[1..] == [];
    } else {
      assert parses[1..] == Parses(text + chunks[0], chunks[1..], last, m);
      NoCalls(text + chunks[0], chunks[1..], last, m, if parses[0] == EmptyMsg then msg else parses[0]);
    }
  }

  /** Every text at which a chunk ended could safely be shown. */
  ghost predicate SafeChunks(text: string, chunks: seq<string>, m: Mode)
    decreases |chunks|
  {
    SafeSnapshot(text, m) && (chunks == [] || SafeChunks(text + chunks[0], chunks[1..], m))
  }

  lemma {:induction false} UnsafeBeginning(text: string, chunks: seq<string>, last: string, m: Mode) returns (t: string)
    requires !SafeChunks(text, chunks, m)
    ensures t <= Total(text, chunks, last) && !SafeSnapshot(t, m)
    decreases |chunks|
  {
    TotalExtends(text, chunks, last);
    if SafeSnapshot(text, m) {
      t := UnsafeBeginning(text + chunks[0], chunks[1..], last, m);
    } else {
      t := text;
    }
  }

  lemma {:induction false} TotalExtends(text: string, chunks: seq<string>, last: string)
    ensures text <= Total(text, chunks, last)
    decreases |chunks|
  {
    if chunks != [] { TotalExtends(text + chunks[0], chunks[1..], last); }
  }

  /** When the last message is empty, something had been shown exactly when some chunk ended unsafely. */
  lemma {:induction false} ShownBeforeEmpty(text: string, chunks: seq<string>, last: string, m: Mode)
    requires SafeSnapshot(text, m) && ParseContent(Total(text, chunks, last), false, m) == EmptyMsg
    ensures SafeChunks(text, chunks, m) <==> NothingShown(Parses(text, chunks, last, m))
    decreases |chunks|
  {
    hide ParseContent; hide SafeSnapshot;
    var parses := Parses(text, chunks, last, m);
    if chunks != [] {
      var text' := text + chunks[0];
      TotalExtends(text', chunks[1..], last);
      ShownExactlyWhenUnsafe(text', Total(text, chunks, last), false, m);
      NothingShownCons(parses[0], Parses(text', chunks[1..], last, m));
      if SafeSnapshot(text', m) {
        ShownBeforeEmpty(text', chunks[1..], last, m);
      } else {
        assert !SafeChunks(text', chunks[1..], m);
      }
    } else {
      assert NothingShown([ParseContent(Total(text, chunks, last), false, m)]);
    }
  }

  ghost predicate NothingShown(parses: seq<ChatMsg>) {
    forall i | 0 <= i < |parses| :: parses[i] == EmptyMsg
  }

  lemma NothingShownCons(first: ChatMsg, rest: seq<ChatMsg>)
    ensures NothingShown([first] + rest) <==> first == EmptyMsg && NothingShown(rest)
  {
    var all := [first] + rest;
    assert all[0] == first && all[1..] == rest;
    assert forall i | 0 <= i < |rest| :: rest[i] == all[i + 1];
    assert forall i | 0 < i < |all| :: all[i] == rest[i - 1];
    if NothingShown(all) {
      forall i | 0 <= i < |rest| ensures rest[i] == EmptyMsg { assert all[i + 1] == EmptyMsg; }
    }
  }

  /** End to end: however the text is cut into chunks, the server never fails and the client holds the
      server's message. It is not the message of the complete parse exactly when some chunk ended within
      leading spaces that were shown, and the whole text is spaces and the beginning of an opening tag. */
  lemma StreamEndToEnd(chunks: seq<string>, last: string, m: Mode, gen: nat -> string)
    ensures var r := Run(Start, EmptyMsg, Parses("", chunks, last, m), gen);
            var total := Total("", chunks, last);
            && r.Some? && r.value.1 == r.value.0.msg
            && (r.value.1 != ParseContent(total, false, m) <==> !SafeChunks("", chunks, m) && HidesTag(total, m))
  {
    var parses := Parses("", chunks, last, m);
    var total := Total("", chunks, last);
    NothingParsed(m);
    ParsesGrow("", "", chunks, last, m);
    RunTelescopes(Start, EmptyMsg, parses, gen);
    LastParse("", chunks, last, m);
    LastNonEmptyEndsWith(EmptyMsg, parses);
    NoCalls("", chunks, last, m, EmptyMsg);
    FinalShown(chunks, last, m);
  }

  lemma FinalShown(chunks: seq<string>, last: string, m: Mode)
    ensures var parses, total := Parses("", chunks, last, m), Total("", chunks, last);
            (ParseContent(total, false, m) != EmptyMsg || NothingShown(parses)) <==>
            (SafeChunks("", chunks, m) || !HidesTag(total, m))
  {
    hide ParseContent; hide Parses; hide HidesTag;
    var total := Total("", chunks, last);
    if ParseContent(total, false, m) == EmptyMsg {
      ShownBeforeEmpty("", chunks, last, m);
    }
    if !SafeChunks("", chunks, m) {
      var t := UnsafeBeginning("", chunks, last, m);
      EmptyAfterUnsafe(t, total, false, m);
    }
  }

  /** With safe snapshots only, which includes every text that does not start with a space, the
      client always ends with the message of the complete parse. */
  lemma SafeStreamRebuildsFinal(chunks: seq<string>, last: string, m: Mode, gen: nat -> string)
    requires SafeChunks("", chunks, m)
    ensures var r := Run(Start, EmptyMsg, Parses("", chunks, last, m), gen);
            r.Some? && r.value.1 == ParseContent(Total("", chunks, last), false, m)
  {
    StreamEndToEnd(chunks, last, m, gen);
  }

  // ------------------------------------------------------------ the stream on the object

  lemma UpdateIgnoresText(st: ServerState, text: string, added: string, parsed: ChatMsg, gen: nat -> string)
    requires st.text == ""
    ensures var (st', diffs) := Update(st, "", parsed, gen);
            st'.text == "" && Update(st.(text := text), added, parsed, gen) == (st'.(text := text + added), diffs)
  {}

  lemma RunFirst(st: ServerState, client: ChatMsg, parsed: ChatMsg, rest: seq<ChatMsg>, gen: nat -> string)
    ensures var u := Update(st, "", parsed, gen);
            Run(st, client, [parsed] + rest, gen) ==
            if u.1.Err? || ApplyAll(client, u.1.value).None? then None
            else Run(u.0, ApplyAll(client, u.1.value).value, rest, gen)
  {
    hide Update; hide ApplyAll;
    assert ([parsed] + rest)[1..] == rest;
  }

  lemma ParsesFirst(text: string, chunks: seq<string>, last: string, m: Mode)
    ensures chunks == [] ==> Parses(text, chunks, last, m) == [ParseContent(text + last, false, m)] + []
    ensures chunks == [] ==> Total(text, chunks, last) == text + last
    ensures chunks != [] ==>
              && Parses(text, chunks, last, m) ==
                 [ParseContent(text + chunks[0], true, m)] + Parses(text + chunks[0], chunks[1..], last, m)
              && Total(text, chunks, last) == Total(text + chunks[0], chunks[1..], last)
  {
    hide ParseContent;
  }

  lemma RunNothing(st: ServerState, client: ChatMsg, gen: nat -> string)
    ensures Run(st, client, [], gen) == Some((st, client))
  {}

  /** A whole stream: the server object is updated with every chunk, and the client folds what each update
      sends. `client` is `None` if an update fails. */
  method Serve(chunks: seq<string>, last: string, m: Mode, gen: nat -> string)
      returns (server: TaskResultState, client: Option<ChatMsg>)
    ensures match Run(Start, EmptyMsg, Parses("", chunks, last, m), gen)
            case None => client == None
            case Some(r) => client == Some(r.1) && server.State() == r.0.(text := Total("", chunks, last))
  {
    hide Run; hide Update; hide Parses; hide Total; hide ParseContent; hide ApplyAll;
    server := new TaskResultState(m);
    var msg := EmptyMsg;
    ghost var text, st := "", Start;
    for i := 0 to |chunks|
      invariant fresh(server) && server.mode == m && st.text == "" && server.State() == st.(text := text)
      invariant Run(Start, EmptyMsg, Parses("", chunks, last, m), gen) ==
                Run(st, msg, Parses(text, chunks[i..], last, m), gen)
      invariant Total("", chunks, last) == Total(text, chunks[i..], last)
    {
      ghost var parsed := ParseContent(text + chunks[i], true, m);
      ParsesFirst(text, chunks[i..], last, m);
      assert chunks[i..][0] == chunks[i] && chunks[i..][1..] == chunks[i + 1..];
      RunFirst(st, msg, parsed, Parses(text + chunks[i], chunks[i + 1..], last, m), gen);
      UpdateIgnoresText(st, text, chunks[i], parsed, gen);
      var diffs := server.UpdateChatMsg(chunks[i], true, gen);
      if diffs.Err? { return server, None; }
      var applied := ApplyAll(msg, diffs.value);
      if applied.None? { return server, None; }
      msg, text, st := applied.value, text + chunks[i], Update(st, "", parsed, gen).0;
    }
    ghost var parsed := ParseContent(text + last, false, m);
    ParsesFirst(text, [], last, m);
    assert chunks[|chunks|..] == [];
    RunFirst(st, msg, parsed, [], gen);
    UpdateIgnoresText(st, text, last, parsed, gen);
    var diffs := server.UpdateChatMsg(last, false, gen);
    if diffs.Err? { return server, None; }
    client := ApplyAll(msg, diffs.value);
    if client.Some? { RunNothing(Update(st, "", parsed, gen).0, client.value, gen); }
  }
}
