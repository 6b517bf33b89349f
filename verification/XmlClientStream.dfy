/** What the client of a stream of calls gets: the calls of the whole text. */
module XmlClientStream {
  import opened Wrappers
  import opened Text
  import opened ChatTypes
  import opened LiteralSearch
  import opened ServerStream
  import opened XmlSpec
  import opened XmlGrowth
  import opened XmlScopeStream
  import Utf8

  // ------------------------------------------------------------ the client

  /** The calls that an attempt on the beginning `text` of `src` shows. */
  function ShownAt(src: Source, form: Format, text: string): ChatMsg {
    ChatMsg("", "", TryConsume(src.(input := text, partial := true), form, 0, []).calls)
  }

  function ShownFinally(src: Source, form: Format): ChatMsg {
    ChatMsg("", "", TryConsume(src, form, 0, []).calls)
  }

  /** What is shown while `chunks` arrive after `text`, and finally of the whole text of `src`. */
  function CallParses(src: Source, form: Format, text: string, chunks: seq<string>): seq<ChatMsg>
    decreases |chunks|
  {
    if chunks == [] then [ShownFinally(src, form)]
    else [ShownAt(src, form, text + chunks[0])] + CallParses(src, form, text + chunks[0], chunks[1..])
  }

  /** A finished text of good calls that parses. */
  ghost predicate Streamed(src: Source, form: Format) {
    && SharpScope(form) && Utf8.WellFormed(src.input) && GoodScope(src, form, 0)
    && TryConsume(src, form, 0, []).ending.ReturnTrue?
  }

  /** Where values must be JSON, the text ends with a whole character. */
  predicate EndsWhole(form: Format, text: string) {
    form.rawArgval == Some(false) ==> Utf8.WellFormed(text)
  }

  /** Where values must be JSON, chunks are cut between characters. */
  predicate WholeChunks(form: Format, chunks: seq<string>) {
    forall i | 0 <= i < |chunks| :: EndsWhole(form, chunks[i])
  }

  lemma {:induction false} JoinWhole(a: string, b: string)
    requires Utf8.WellFormed(a) && Utf8.WellFormed(b)
    ensures Utf8.WellFormed(a + b)
    decreases |a|
  {
    if a == "" {
      assert a + b == b;
    } else {
      var n := Utf8.CharLength(a);
      Utf8.CharLengthOfExtension(a, a + b);
      assert (a + b)[n..] == a[n..] + b;
      JoinWhole(a[n..], b);
    }
  }

  lemma ShownGrows(src: Source, form: Format, t: string, text: string)
    requires Streamed(src, form) && t <= text <= src.input && EndsWhole(form, t) && EndsWhole(form, text)
    ensures ParseExtends(ShownAt(src, form, t), ShownAt(src, form, text))
    ensures ParseExtends(ShownAt(src, form, t), ShownFinally(src, form))
  {
    hide TryConsume; hide GoodScope; hide SharpScope; hide Utf8.WellFormed; hide ParseExtends;
    SharpMeans(form);
    assert src.input[0..] == src.input;
    var a, b := src.(input := t, partial := true), src.(input := text, partial := true);
    FinishedScopeStreams(a, b, src, form, 0, []);
    FinishedScopeStreams(a, src, src, form, 0, []);
  }

  lemma NothingAtStart(src: Source, form: Format)
    requires Streamed(src, form)
    ensures ShownAt(src, form, "") == EmptyMsg
  {
    hide TryConsume; hide ParseCalls; hide FindLiteral; hide GoodScope; hide Sharp; hide AllSpace; hide AgreesAt;
    var none := src.(input := "", partial := true);
    TrySteps(none, form, 0, []);
    NothingAtEnd(none, form.toolStart);
    CallsLoop(none, form, 0, 0, [], true);
    if !AllSpace(form.scopeStart) { NothingAtEnd(none, form.scopeStart); }
  }

  lemma {:induction false} CallParsesGrow(src: Source, form: Format, t: string, text: string, chunks: seq<string>)
    requires Streamed(src, form) && t <= text && Total(text, chunks, "") <= src.input
    requires EndsWhole(form, t) && EndsWhole(form, text) && WholeChunks(form, chunks)
    ensures Growing(ShownAt(src, form, t), CallParses(src, form, text, chunks))
    ensures LastNonEmpty(ShownAt(src, form, t), CallParses(src, form, text, chunks)) == ShownFinally(src, form)
    decreases |chunks|
  {
    hide Streamed; hide ShownAt; hide ShownFinally;
    TotalExtends(text, chunks, "");
    var parses := CallParses(src, form, text, chunks);
    var m := ShownAt(src, form, t);
    if chunks == [] {
      ShownGrows(src, form, t, t);
      assert parses[1..] == [];
      AllShown(src, form, t);
    } else {
      var text' := text + chunks[0];
      TotalExtends(text', chunks[1..], "");
      assert t <= text' <= src.input;
      NextWhole(form, text, chunks);
      ShownGrows(src, form, t, text');
      assert parses[1..] == CallParses(src, form, text', chunks[1..]);
      CallParsesGrow(src, form, if parses[0] == EmptyMsg then t else text', text', chunks[1..]);
    }
  }

  lemma NextWhole(form: Format, text: string, chunks: seq<string>)
    requires EndsWhole(form, text) && WholeChunks(form, chunks) && chunks != []
    ensures EndsWhole(form, text + chunks[0]) && WholeChunks(form, chunks[1..])
  {
    hide Utf8.WellFormed;
    if form.rawArgval == Some(false) {
      assert EndsWhole(form, chunks[0]);
      JoinWhole(text, chunks[0]);
    }
    forall i | 0 <= i < |chunks| - 1 ensures EndsWhole(form, chunks[1..][i]) {
      assert chunks[1..][i] == chunks[i + 1];
    }
  }

  lemma AllShown(src: Source, form: Format, t: string)
    requires ParseExtends(ShownAt(src, form, t), ShownFinally(src, form))
    ensures ShownFinally(src, form) == EmptyMsg ==> ShownAt(src, form, t) == EmptyMsg
  {
    hide TryConsume;
  }

  /** End to end, for calls: however the text of a list of good calls is cut into chunks, the server never fails,
      and the client ends with the calls of the whole text. */
  lemma ClientGetsCalls(src: Source, form: Format, chunks: seq<string>, gen: nat -> string)
    requires Streamed(src, form) && Total("", chunks, "") <= src.input && WholeChunks(form, chunks)
    ensures var r := Run(Start, EmptyMsg, CallParses(src, form, "", chunks), gen);
            && r.Some? && r.value.1 == r.value.0.msg
            && SameButIds(r.value.1, ChatMsg("", "", TryConsume(src, form, 0, []).calls))
  {
    hide TryConsume; hide Streamed; hide CallParses;
    NothingAtStart(src, form);
    CallParsesGrow(src, form, "", "", chunks);
    RunTelescopes(Start, EmptyMsg, CallParses(src, form, "", chunks), gen);
  }
}
