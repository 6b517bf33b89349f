/** Message diffs (chat.cpp, chat.h): what is sent to the client between two snapshots, and what the
    client makes of it. */
module ChatDiff {
  import opened Wrappers
  import opened ChatTypes

  datatype Diff = Diff(reasoningDelta: string, contentDelta: string,
                       toolCallIndex: Option<nat>, toolCallDelta: ToolCall)

  const NoCall := ToolCall("", "", "")

  /** `string_diff`: a retraction is silently reported as no change. */
  function StringDiff(last: string, current: string): Result<string> {
    if last == "" then Ok(current)
    else if last <= current then Ok(current[|last|..])
    else if current <= last then Ok("")
    else Err("Invalid diff: '" + last + "' not found at start of '" + current + "'")
  }

  function ReasoningPart(prv: ChatMsg, new_: ChatMsg): Result<seq<Diff>> {
    if prv.reasoning == new_.reasoning then Ok([])
    else match StringDiff(prv.reasoning, new_.reasoning)
         case Ok(d) => Ok([Diff(d, "", None, NoCall)])
         case Err(e) => Err(e)
  }

  function ContentPart(prv: ChatMsg, new_: ChatMsg): Result<seq<Diff>> {
    if prv.content == new_.content then Ok([])
    else match StringDiff(prv.content, new_.content)
         case Ok(d) => Ok([Diff("", d, None, NoCall)])
         case Err(e) => Err(e)
  }

  function LastCallPart(prv: ChatMsg, new_: ChatMsg): Result<seq<Diff>> {
    if |new_.toolCalls| < |prv.toolCalls| then Err("Invalid diff: now finding less tool calls!")
    else if prv.toolCalls == [] then Ok([])
    else
      var idx := |prv.toolCalls| - 1;
      var pref, newf := prv.toolCalls[idx], new_.toolCalls[idx];
      if pref.name != newf.name then Err("Invalid diff: tool call mismatch!")
      else match StringDiff(pref.arguments, newf.arguments)
           case Err(e) => Err(e)
           case Ok(d) =>
             if d == "" && pref.id == newf.id then Ok([])
             else if pref.id == newf.id then Ok([Diff("", "", Some(idx), ToolCall("", d, ""))])
             else Ok([Diff("", "", Some(idx), ToolCall(newf.name, d, newf.id))])
  }

  function NewCallDiffs(calls: seq<ToolCall>, from: nat): (ds: seq<Diff>)
    requires from <= |calls|
    decreases |calls| - from
  {
    if from == |calls| then []
    else [Diff("", "", Some(from), calls[from])] + NewCallDiffs(calls, from + 1)
  }

  /** `compute_diffs`, in the order the source appends. */
  function Diffs(prv: ChatMsg, new_: ChatMsg): Result<seq<Diff>> {
    match ReasoningPart(prv, new_)
    case Err(e) => Err(e)
    case Ok(rs) =>
      match ContentPart(prv, new_)
      case Err(e) => Err(e)
      case Ok(cs) =>
        match LastCallPart(prv, new_)
        case Err(e) => Err(e)
        case Ok(ls) => Ok(rs + cs + ls + NewCallDiffs(new_.toolCalls, |prv.toolCalls|))
  }

  lemma {:induction false} NewCallDiffsSnoc(calls: seq<ToolCall>, from: nat, n: nat)
    requires from <= n < |calls|
    ensures NewCallDiffs(calls[..n + 1], from) ==
            NewCallDiffs(calls[..n], from) + [Diff("", "", Some(n), calls[n])]
    decreases |calls| - from
  {
    if from < n {
      NewCallDiffsSnoc(calls, from + 1, n);
    } else {
      assert NewCallDiffs(calls[..n + 1], n + 1) == [];
    }
  }

  lemma NoNewCalls(calls: seq<ToolCall>, n: nat)
    requires n <= |calls|
    ensures NewCallDiffs(calls[..n], n) == []
  {}

  method ComputeDiffs(prv: ChatMsg, new_: ChatMsg) returns (r: Result<seq<Diff>>)
    ensures r == Diffs(prv, new_)
  {
    hide StringDiff; hide NewCallDiffs;
    var diffs: seq<Diff> := [];
    if prv.reasoning != new_.reasoning {
      match StringDiff(prv.reasoning, new_.reasoning) {
        case Err(e) => return Err(e);
        case Ok(d) => diffs := diffs + [Diff(d, "", None, NoCall)];
      }
    }
    assert diffs == ReasoningPart(prv, new_).value;
    if prv.content != new_.content {
      match StringDiff(prv.content, new_.content) {
        case Err(e) => return Err(e);
        case Ok(d) => diffs := diffs + [Diff("", d, None, NoCall)];
      }
    }
    ghost var texts := diffs;
    assert texts == ReasoningPart(prv, new_).value + ContentPart(prv, new_).value;
    if |new_.toolCalls| < |prv.toolCalls| {
      return Err("Invalid diff: now finding less tool calls!");
    }
    if prv.toolCalls != [] {
      var idx := |prv.toolCalls| - 1;
      var pref, newf := prv.toolCalls[idx], new_.toolCalls[idx];
      if pref.name != newf.name {
        return Err("Invalid diff: tool call mismatch!");
      }
      match StringDiff(pref.arguments, newf.arguments) {
        case Err(e) => return Err(e);
        case Ok(argsDiff) =>
          if argsDiff != "" || pref.id != newf.id {
            var delta := NoCall;
            if pref.id != newf.id {
              delta := delta.(id := newf.id, name := newf.name);
            }
            delta := delta.(arguments := argsDiff);
            diffs := diffs + [Diff("", "", Some(idx), delta)];
          }
      }
    }
    ghost var before := diffs;
    assert before == texts + LastCallPart(prv, new_).value;
    NoNewCalls(new_.toolCalls, |prv.toolCalls|);
    for idx := |prv.toolCalls| to |new_.toolCalls|
      invariant diffs == before + NewCallDiffs(new_.toolCalls[..idx], |prv.toolCalls|)
    {
      NewCallDiffsSnoc(new_.toolCalls, |prv.toolCalls|, idx);
      diffs := diffs + [Diff("", "", Some(idx), new_.toolCalls[idx])];
    }
    assert new_.toolCalls[..|new_.toolCalls|] == new_.toolCalls;
    return Ok(diffs);
  }

  // ------------------------------------------------------------ the client

  /** How a client folds one delta: texts are appended; a delta with a name opens the call of its index, which has
      to be the next one, and a delta without a name appends its arguments to the call of its index, which has to
      be the last one. Any other index is a failure. */
  function Apply(m: ChatMsg, d: Diff): Option<ChatMsg> {
    var texts := m.(reasoning := m.reasoning + d.reasoningDelta, content := m.content + d.contentDelta);
    match d.toolCallIndex
    case None => Some(texts)
    case Some(i) =>
      if d.toolCallDelta.name != "" then
        if i == |m.toolCalls| then Some(texts.(toolCalls := m.toolCalls + [d.toolCallDelta])) else None
      else if i + 1 == |m.toolCalls| then
        var call := m.toolCalls[i];
        Some(texts.(toolCalls := m.toolCalls[..i] +
                                 [call.(arguments := call.arguments + d.toolCallDelta.arguments)]))
      else None
  }

  function ApplyAll(m: ChatMsg, ds: seq<Diff>): Option<ChatMsg>
    decreases |ds|
  {
    if ds == [] then Some(m)
    else match Apply(m, ds[0])
         case None => None
         case Some(m') => ApplyAll(m', ds[1..])
  }

  lemma {:induction false} ApplyAllConcat(m: ChatMsg, xs: seq<Diff>, ys: seq<Diff>)
    ensures ApplyAll(m, xs + ys) ==
            match ApplyAll(m, xs) case None => None case Some(m') => ApplyAll(m', ys)
    decreases |xs|
  {
    if xs == [] {
      assert xs + ys == ys;
    } else {
      assert (xs + ys)[0] == xs[0] && (xs + ys)[1..] == xs[1..] + ys;
      if Apply(m, xs[0]).Some? {
        ApplyAllConcat(Apply(m, xs[0]).value, xs[1..], ys);
      }
    }
  }

  /** One snapshot extends another: texts grow, only the last old call may grow, and only in its
      arguments, and every further call has a name. */
  ghost predicate Extends(prv: ChatMsg, new_: ChatMsg) {
    && prv.content <= new_.content
    && prv.reasoning <= new_.reasoning
    && CallsExtend(prv.toolCalls, new_.toolCalls)
    && (forall i | |prv.toolCalls| <= i < |new_.toolCalls| :: new_.toolCalls[i].name != "")
  }

  ghost predicate CallsExtend(prv: seq<ToolCall>, new_: seq<ToolCall>) {
    && |prv| <= |new_|
    && (prv != [] ==>
          var last := |prv| - 1;
          && prv[..last] == new_[..last]
          && prv[last].name == new_[last].name && prv[last].id == new_[last].id
          && prv[last].arguments <= new_[last].arguments)
  }

  /** Texts unchanged, all old calls still there with their ids, all but the last unchanged. */
  ghost predicate SameUpToLastArguments(m: ChatMsg, r: ChatMsg) {
    && r.content == m.content && r.reasoning == m.reasoning
    && |m.toolCalls| <= |r.toolCalls|
    && (forall i | 0 <= i < |m.toolCalls| :: r.toolCalls[i].id == m.toolCalls[i].id)
    && (forall i | 0 <= i < |m.toolCalls| - 1 :: r.toolCalls[i] == m.toolCalls[i])
  }

  lemma ApplyNamedCall(m: ChatMsg, call: ToolCall)
    requires call.name != ""
    ensures Apply(m, Diff("", "", Some(|m.toolCalls|), call)) == Some(m.(toolCalls := m.toolCalls + [call]))
  {
    assert m.content + "" == m.content && m.reasoning + "" == m.reasoning;
  }

  lemma ApplyKeepsIdentity(m: ChatMsg, call: ToolCall, idx: nat)
    ensures var r := Apply(m, Diff("", "", Some(idx), call));
            r.Some? ==> SameUpToLastArguments(m, r.value) &&
                        |r.value.toolCalls| == |m.toolCalls| + if call.name == "" then 0 else 1
  {
    assert m.content + "" == m.content && m.reasoning + "" == m.reasoning;
  }

  /** The diffs of named calls append exactly these calls. */
  lemma {:induction false} ApplyNamedCalls(m: ChatMsg, calls: seq<ToolCall>, from: nat)
    requires from <= |calls| && |m.toolCalls| == from
    requires forall i | from <= i < |calls| :: calls[i].name != ""
    ensures ApplyAll(m, NewCallDiffs(calls, from)) == Some(m.(toolCalls := m.toolCalls + calls[from..]))
    decreases |calls| - from
  {
    if from < |calls| {
      ApplyNamedCall(m, calls[from]);
      ApplyNamedCalls(m.(toolCalls := m.toolCalls + [calls[from]]), calls, from + 1);
      assert m.toolCalls + [calls[from]] + calls[from + 1..] == m.toolCalls + calls[from..];
    } else {
      assert m.toolCalls + calls[from..] == m.toolCalls;
    }
  }

  /** In general they keep the identity of the calls already there, and come out short when a call
      has no name. */
  lemma {:induction false} ApplyCallsKeepsIdentity(m: ChatMsg, calls: seq<ToolCall>, from: nat)
    requires from <= |calls|
    ensures var r := ApplyAll(m, NewCallDiffs(calls, from));
            r.Some? ==>
              && SameUpToLastArguments(m, r.value)
              && |r.value.toolCalls| <= |m.toolCalls| + |calls| - from
              && (|r.value.toolCalls| == |m.toolCalls| + |calls| - from ==>
                    forall i | from <= i < |calls| :: calls[i].name != "")
    decreases |calls| - from
  {
    if from < |calls| {
      ApplyKeepsIdentity(m, calls[from], from);
      var m1 := Apply(m, Diff("", "", Some(from), calls[from]));
      if m1.Some? {
        ApplyCallsKeepsIdentity(m1.value, calls, from + 1);
      }
    }
  }

  // ------------------------------------------------------------ deltas rebuild the message

  lemma DeltaRebuilds(last: string, current: string)
    requires StringDiff(last, current).Ok?
    ensures last + StringDiff(last, current).value == current <==> last <= current
    ensures last == current ==> StringDiff(last, current).value == ""
    ensures last <= last + StringDiff(last, current).value
  {}

  lemma ApplyTextParts(prv: ChatMsg, new_: ChatMsg)
    requires ReasoningPart(prv, new_).Ok? && ContentPart(prv, new_).Ok?
    ensures StringDiff(prv.reasoning, new_.reasoning).Ok? && StringDiff(prv.content, new_.content).Ok?
    ensures ApplyAll(prv, ReasoningPart(prv, new_).value + ContentPart(prv, new_).value) ==
            Some(ChatMsg(prv.content + StringDiff(prv.content, new_.content).value,
                         prv.reasoning + StringDiff(prv.reasoning, new_.reasoning).value, prv.toolCalls))
  {
    DeltaRebuilds(prv.reasoning, new_.reasoning);
    DeltaRebuilds(prv.content, new_.content);
    var rs, cs := ReasoningPart(prv, new_).value, ContentPart(prv, new_).value;
    ApplyAllConcat(prv, rs, cs);
    var m := prv.(reasoning := prv.reasoning + StringDiff(prv.reasoning, new_.reasoning).value);
    assert prv.content + "" == prv.content && m.reasoning + "" == m.reasoning;
    assert prv.reasoning + "" == prv.reasoning;
    assert ApplyAll(prv, rs) == Some(m);
  }

  function GrowLast(calls: seq<ToolCall>, d: string): seq<ToolCall> {
    if calls == [] then []
    else var last := calls[|calls| - 1];
         calls[..|calls| - 1] + [last.(arguments := last.arguments + d)]
  }

  function ArgumentsDelta(prv: ChatMsg, new_: ChatMsg): string
    requires LastCallPart(prv, new_).Ok?
  {
    if prv.toolCalls == [] then ""
    else StringDiff(prv.toolCalls[|prv.toolCalls| - 1].arguments,
                    new_.toolCalls[|prv.toolCalls| - 1].arguments).value
  }

  ghost predicate SameLastId(prv: ChatMsg, new_: ChatMsg)
    requires |prv.toolCalls| <= |new_.toolCalls|
  {
    prv.toolCalls == [] || prv.toolCalls[|prv.toolCalls| - 1].id == new_.toolCalls[|prv.toolCalls| - 1].id
  }

  lemma ApplyLastCallPart(m: ChatMsg, prv: ChatMsg, new_: ChatMsg)
    requires LastCallPart(prv, new_).Ok? && m.toolCalls == prv.toolCalls
    ensures var r := ApplyAll(m, LastCallPart(prv, new_).value);
            && (SameLastId(prv, new_) ==>
                  r == Some(m.(toolCalls := GrowLast(m.toolCalls, ArgumentsDelta(prv, new_)))))
            && (r.Some? ==> SameUpToLastArguments(m, r.value))
  {
    var ls := LastCallPart(prv, new_).value;
    assert m.content + "" == m.content && m.reasoning + "" == m.reasoning;
    if ls == [] {
      if m.toolCalls != [] {
        var last := m.toolCalls[|m.toolCalls| - 1];
        assert last.arguments + "" == last.arguments;
        assert GrowLast(m.toolCalls, "") == m.toolCalls;
      }
    } else {
      ApplyKeepsIdentity(m, ls[0].toolCallDelta, |m.toolCalls| - 1);
    }
  }

  /** The deltas between two snapshots are computed without an error and fold to the second one, each at the call of
      its index, exactly when the second extends the first. */
  lemma DiffsRebuildIffExtends(prv: ChatMsg, new_: ChatMsg)
    ensures (Diffs(prv, new_).Ok? && ApplyAll(prv, Diffs(prv, new_).value) == Some(new_)) <==>
            Extends(prv, new_)
  {
    if Extends(prv, new_) {
      ExtendsRebuilds(prv, new_);
    }
    if Diffs(prv, new_).Ok? && ApplyAll(prv, Diffs(prv, new_).value) == Some(new_) {
      RebuildsExtends(prv, new_);
    }
  }

  lemma SplitApply(prv: ChatMsg, new_: ChatMsg)
    requires Diffs(prv, new_).Ok?
    ensures var m := ChatMsg(prv.content + StringDiff(prv.content, new_.content).value,
                             prv.reasoning + StringDiff(prv.reasoning, new_.reasoning).value, prv.toolCalls);
            ApplyAll(prv, Diffs(prv, new_).value) ==
            match ApplyAll(m, LastCallPart(prv, new_).value)
            case None => None
            case Some(m') => ApplyAll(m', NewCallDiffs(new_.toolCalls, |prv.toolCalls|))
  {
    ApplyTextParts(prv, new_);
    var rs, cs := ReasoningPart(prv, new_).value, ContentPart(prv, new_).value;
    var ls, ns := LastCallPart(prv, new_).value, NewCallDiffs(new_.toolCalls, |prv.toolCalls|);
    ApplyAllConcat(prv, rs + cs + ls, ns);
    ApplyAllConcat(prv, rs + cs, ls);
  }

  predicate Unrelated(a: string, b: string) {
    !(a <= b) && !(b <= a)
  }

  function Longer(a: string, b: string): string {
    if a <= b then b else a
  }

  lemma StringDiffFails(a: string, b: string)
    ensures StringDiff(a, b).Err? <==> Unrelated(a, b)
    ensures StringDiff(a, b).Ok? ==> a + StringDiff(a, b).value == Longer(a, b)
  {}

  /** The diff of two snapshots fails exactly when a text of the second is no beginning or continuation of that of the
      first, when there are fewer calls, or when the last old call changed its name. */
  lemma DiffsFailExactly(prv: ChatMsg, new_: ChatMsg)
    ensures Diffs(prv, new_).Err? <==>
            || Unrelated(prv.reasoning, new_.reasoning) || Unrelated(prv.content, new_.content)
            || |new_.toolCalls| < |prv.toolCalls|
            || (prv.toolCalls != [] &&
                var last, now := prv.toolCalls[|prv.toolCalls| - 1], new_.toolCalls[|prv.toolCalls| - 1];
                last.name != now.name || Unrelated(last.arguments, now.arguments))
  {
    hide StringDiff;
    StringDiffFails(prv.reasoning, new_.reasoning);
    StringDiffFails(prv.content, new_.content);
    if 0 < |prv.toolCalls| <= |new_.toolCalls| {
      StringDiffFails(prv.toolCalls[|prv.toolCalls| - 1].arguments, new_.toolCalls[|prv.toolCalls| - 1].arguments);
    }
  }

  lemma {:induction false} OneDeltaPerCall(calls: seq<ToolCall>, from: nat)
    requires from <= |calls|
    ensures |NewCallDiffs(calls, from)| == |calls| - from
    decreases |calls| - from
  {
    if from < |calls| { OneDeltaPerCall(calls, from + 1); }
  }

  /** One delta for each part that changed, and none for any other. */
  lemma OneDeltaPerChange(prv: ChatMsg, new_: ChatMsg)
    requires Diffs(prv, new_).Ok?
    ensures |prv.toolCalls| <= |new_.toolCalls|
    ensures var n := |prv.toolCalls|;
            |Diffs(prv, new_).value| ==
            (if prv.reasoning != new_.reasoning then 1 else 0) + (if prv.content != new_.content then 1 else 0) +
            (if n == 0 then 0
             else if StringDiff(prv.toolCalls[n - 1].arguments, new_.toolCalls[n - 1].arguments) == Ok("") &&
                     prv.toolCalls[n - 1].id == new_.toolCalls[n - 1].id then 0 else 1) +
            (|new_.toolCalls| - n)
  {
    hide StringDiff;
    OneDeltaPerCall(new_.toolCalls, |prv.toolCalls|);
  }

  /** What the client holds after the deltas between any two snapshots for which they can be computed: of every text
      the longer one, the last old call with the longer arguments, and the new calls. */
  lemma ClientHolds(prv: ChatMsg, new_: ChatMsg)
    requires Diffs(prv, new_).Ok?
    ensures |prv.toolCalls| <= |new_.toolCalls|
    ensures var n := |prv.toolCalls|;
            SameLastId(prv, new_) && (forall i | n <= i < |new_.toolCalls| :: new_.toolCalls[i].name != "") ==>
              ApplyAll(prv, Diffs(prv, new_).value) ==
              Some(ChatMsg(Longer(prv.content, new_.content), Longer(prv.reasoning, new_.reasoning),
                           (if n == 0 then [] else
                              var last := prv.toolCalls[n - 1];
                              prv.toolCalls[..n - 1] +
                              [last.(arguments := Longer(last.arguments, new_.toolCalls[n - 1].arguments))]) +
                           new_.toolCalls[n..]))
  {
    hide ApplyAll; hide Apply; hide NewCallDiffs; hide StringDiff;
    var n := |prv.toolCalls|;
    SplitApply(prv, new_);
    StringDiffFails(prv.content, new_.content);
    StringDiffFails(prv.reasoning, new_.reasoning);
    if n > 0 { StringDiffFails(prv.toolCalls[n - 1].arguments, new_.toolCalls[n - 1].arguments); }
    if SameLastId(prv, new_) && forall i | n <= i < |new_.toolCalls| :: new_.toolCalls[i].name != "" {
      var m := ChatMsg(prv.content + StringDiff(prv.content, new_.content).value,
                       prv.reasoning + StringDiff(prv.reasoning, new_.reasoning).value, prv.toolCalls);
      ApplyLastCallPart(m, prv, new_);
      ApplyNamedCalls(m.(toolCalls := GrowLast(prv.toolCalls, ArgumentsDelta(prv, new_))), new_.toolCalls, n);
    }
  }

  lemma ExtendsRebuilds(prv: ChatMsg, new_: ChatMsg)
    requires Extends(prv, new_)
    ensures Diffs(prv, new_).Ok? && ApplyAll(prv, Diffs(prv, new_).value) == Some(new_)
  {
    hide ApplyAll; hide Diffs;
    DiffsFailExactly(prv, new_);
    ClientHolds(prv, new_);
    var n := |prv.toolCalls|;
    if n > 0 {
      var last := prv.toolCalls[n - 1];
      assert last.(arguments := new_.toolCalls[n - 1].arguments) == new_.toolCalls[n - 1];
      assert new_.toolCalls == prv.toolCalls[..n - 1] + [new_.toolCalls[n - 1]] + new_.toolCalls[n..];
    } else {
      assert [] + new_.toolCalls[n..] == new_.toolCalls;
    }
  }

  lemma RebuildsExtends(prv: ChatMsg, new_: ChatMsg)
    requires Diffs(prv, new_).Ok? && ApplyAll(prv, Diffs(prv, new_).value) == Some(new_)
    ensures Extends(prv, new_)
  {
    hide ApplyAll; hide Apply; hide NewCallDiffs;
    SplitApply(prv, new_);
    DeltaRebuilds(prv.content, new_.content);
    DeltaRebuilds(prv.reasoning, new_.reasoning);
    var m := ChatMsg(prv.content + StringDiff(prv.content, new_.content).value,
                     prv.reasoning + StringDiff(prv.reasoning, new_.reasoning).value, prv.toolCalls);
    var n := |prv.toolCalls|;
    ApplyLastCallPart(m, prv, new_);
    var m' := ApplyAll(m, LastCallPart(prv, new_).value).value;
    ApplyCallsKeepsIdentity(m', new_.toolCalls, n);
    assert SameLastId(prv, new_);
    assert m'.toolCalls == GrowLast(prv.toolCalls, ArgumentsDelta(prv, new_));
    ApplyNamedCalls(m', new_.toolCalls, n);
    assert new_.toolCalls[..n] == m'.toolCalls;
    if n > 0 {
      assert new_.toolCalls[n - 1] == m'.toolCalls[n - 1];
      assert new_.toolCalls[..n - 1] == m'.toolCalls[..n - 1] == prv.toolCalls[..n - 1];
    }
  }
}
