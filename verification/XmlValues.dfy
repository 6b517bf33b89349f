/** One argument value while it streams in. */
module XmlValues {
  import opened Wrappers
  import opened Text
  import opened ChatTypes
  import opened LiteralSearch
  import opened Json
  import opened XmlSpec
  import opened XmlGrowth
  import opened XmlShown
  import Utf8

  /** Sharp delimiters, one end of a tool, and a tool end that differs from the opening of a key. A value may end
      before the tool end without a delimiter of its own only where it must be JSON, and there a comma or a brace
      follows it. */
  predicate StreamFormat(form: Format) {
    && form.lastToolEnd.None?
    && (form.lastValEnd.None? || (form.lastValEnd == Some("") && form.rawArgval == Some(false)))
    && (form.rawArgval == Some(false) ==> form.valEnd[0] == ',' && form.toolEnd[0] == '}')
    && Sharp(form.keyStart) && Sharp(form.keyValSep) && Sharp(form.valEnd) && Sharp(form.toolEnd)
    && (form.keyValSep2.Some? ==> Sharp(form.keyValSep2.value))
    && !AgreesAt(form.toolEnd, form.keyStart, 0)
  }

  // ------------------------------------------------------------ how a value is read

  datatype Path =
    | HeldBack                        // nothing of it is shown
    | AsText
    | Open(json: Attempt)             // as JSON, shown while it grows
    | Closed(value: Value, end: nat)  // as JSON, and finished
    | Fails

  function PathOf(src: Source, form: Format, pos: nat): (p: Path)
    requires pos <= |src.input|
    ensures p.Open? ==> p.json.Read?
    ensures p.Closed? ==> pos <= p.end <= |src.input|
  {
    if form.rawArgval == Some(true) then AsText
    else
      var json := JsonAt(src, pos);
      match json
      case Throws => Fails
      case NoJson => if ScalarAhead(src, pos) then HeldBack else AsText
      case Read(value, size, marker, _) =>
        if SkipSpaces(src.input, pos + size) == |src.input| then
          if form.rawArgval == Some(false) && Structured(value) then Open(json) else HeldBack
        else
          var close := ClosedJson(src, form, pos + size, marker);
          match close.found
          case None => AsText
          case Some(m) => if m.end - m.begin != close.size then HeldBack else Closed(value, m.end)
  }

  lemma PathMeans(src: Source, form: Format, pos: nat, key: string, name: string, args: Members)
    requires pos <= |src.input|
    ensures ParseValue(src, form, pos, key, name, args) ==
            match PathOf(src, form, pos)
            case HeldBack => FlaggedStep(name, args, key)
            case AsText => ParseText(src, form, pos, key, name, args)
            case Open(json) => ParseOpenJson(form, json, key, name, args)
            case Closed(value, end) => Arg(key, value, end)
            case Fails => ArgThrown(JsonError, [])
  {
    hide JsonAt; hide ScalarAhead; hide ParseText; hide ParseOpenJson; hide FlaggedStep; hide ClosedJson;
    hide SkipSpaces; hide ParseJson; hide ParseValue; hide Structured;
    var json := JsonAt(src, pos);
    ValueSteps(src, form, pos, key, name, args);
    if json.Read? {
      JsonSteps(src, form, pos, json, key, name, args);
      if !(form.rawArgval == Some(false) && Structured(json.value)) { OpenUnstructured(form, json, key, name, args); }
    }
  }

  lemma OpenUnstructured(form: Format, json: Attempt, key: string, name: string, args: Members)
    requires json.Read? && !(form.rawArgval == Some(false) && Structured(json.value))
    ensures ParseOpenJson(form, json, key, name, args) == FlaggedStep(name, args, key)
  {
    hide FlaggedStep; hide Structured;
  }

  // ------------------------------------------------------------ what is shown of JSON that may go on

  /** What is shown of the dump of a value that was completed: everything before what completed it. */
  function OpenText(json: Attempt): string
    requires json.Read?
  {
    var d := DumpValue(json.value);
    if json.dumpMarker == "" then d
    else
      match FindLast(d, json.dumpMarker, |d|)
      case None => ""
      case Some(k) => d[..k]
  }

  /** What completes a value can be found in its dump, and does not end like an object. */
  predicate CutsDump(json: Attempt)
    requires json.Read?
  {
    json.dumpMarker != "" ==>
      json.dumpMarker[|json.dumpMarker| - 1] != '}' && Contains(DumpValue(json.value), json.dumpMarker)
  }

  /** An occurrence in `front + (d + "}")` that does not begin in `front` and does not end with the brace is in `d`. */
  lemma OccursInside(front: string, d: string, t: string, i: nat)
    requires t != "" && t[|t| - 1] != '}' && |front| <= i && OccursAt(front + (d + "}"), t, i)
    ensures OccursAt(d, t, i - |front|)
  {
    var s := front + (d + "}");
    assert s[i + |t| - 1] == s[i..i + |t|][|t| - 1];
    assert s[i..i + |t|] == d[i - |front|..i - |front| + |t|];
  }

  lemma OccursShifted(front: string, d: string, t: string, k: nat)
    requires OccursAt(d, t, k)
    ensures OccursAt(front + (d + "}"), t, |front| + k)
  {
    assert (front + (d + "}"))[|front| + k..|front| + k + |t|] == d[k..k + |t|];
  }

  lemma LastInside(front: string, d: string, t: string)
    requires t != "" && t[|t| - 1] != '}' && Contains(d, t)
    ensures FindLast(d, t, |d|).Some?
    ensures var s := front + (d + "}"); FindLast(s, t, |s|) == Some(|front| + FindLast(d, t, |d|).value)
  {
    hide OccursAt; hide Contains; hide FindLast;
    var s := front + (d + "}");
    ContainsMeans(d, t);
    FindLastMeans(d, t, |d|);
    OccursEarly(d, t);
    var k := FindLast(d, t, |d|).value;
    OccursShifted(front, d, t, k);
    forall i: nat | |front| + k < i <= |s| ensures !OccursAt(s, t, i) {
      if OccursAt(s, t, i) {
        OccursInside(front, d, t, i);
        OccursEarly(d, t);
      }
    }
    OccursEarly(s, t);
    FindLastIs(s, t, |s|, |front| + k);
  }

  lemma OccursEarly(s: string, t: string)
    ensures forall i: nat | OccursAt(s, t, i) :: i + |t| <= |s|
  {}

  lemma DumpInside(args: Members, key: string, value: Value)
    requires !HasKey(args, key)
    ensures var front := OpenDump(args) + (Comma(args) + (Quote(key) + ":"));
            && Dump(Put(args, key, value)) == front + (DumpValue(value) + "}")
            && forall begun :: ShownArg(args, key, begun) == front + begun
  {
    hide *;
    DumpOfNew(args, key, value);
    var front := OpenDump(args) + (Comma(args) + (Quote(key) + ":"));
    Front4(OpenDump(args), Comma(args), Quote(key), ":", DumpValue(value) + "}");
    forall begun ensures ShownArg(args, key, begun) == front + begun {
      ShownArgIs(args, key, begun);
      Front4(OpenDump(args), Comma(args), Quote(key), ":", begun);
    }
  }

  lemma Front4(a: string, b: string, c: string, d: string, e: string)
    ensures a + (b + (c + (d + e))) == (a + (b + (c + d))) + e
  {}

  /** A value that may go on is shown up to where it was completed, whatever the reader: nothing that completed it
      is shown. */
  lemma OpenShows(form: Format, json: Attempt, key: string, name: string, args: Members)
    requires json.Read? && form.rawArgval == Some(false) && Structured(json.value) && CutsDump(json)
    requires !HasKey(args, key) && name != ""
    ensures ParseOpenJson(form, json, key, name, args) ==
            ArgThrown(PartialError, [ToolCall(name, ShownArg(args, key, OpenText(json)), "")])
  {
    hide *;
    var d := DumpValue(json.value);
    var front := OpenDump(args) + (Comma(args) + (Quote(key) + ":"));
    DumpInside(args, key, json.value);
    var dumped := Dump(Put(args, key, json.value));
    OpenSteps(form, json, key, name, args);
    OpenTextIs(json);
    NamedIs(name, ShownArg(args, key, OpenText(json)));
    if json.dumpMarker == "" {
      WithoutLast(front, d);
    } else {
      CutsDumpMeans(json);
      LastInside(front, d, json.dumpMarker);
      TakeAfter(front, d, "}", FindLast(d, json.dumpMarker, |d|).value);
    }
  }

  lemma OpenSteps(form: Format, json: Attempt, key: string, name: string, args: Members)
    requires json.Read? && form.rawArgval == Some(false) && Structured(json.value)
    ensures var r, dumped := ParseOpenJson(form, json, key, name, args), Dump(Put(args, key, json.value));
            if json.dumpMarker == "" then
              dumped != "" && r == ArgThrown(PartialError, NamedCall(name, dumped[..|dumped| - 1]))
            else
              var k := FindLast(dumped, json.dumpMarker, |dumped|);
              r == if k.None? then ArgThrown(AssertFails, [])
                   else ArgThrown(PartialError, NamedCall(name, dumped[..k.value]))
  {
    hide FlaggedStep; hide Structured; hide Put; hide NamedCall; hide DumpMembers;
  }

  lemma OpenTextIs(json: Attempt)
    requires json.Read?
    ensures var d := DumpValue(json.value);
            var k := FindLast(d, json.dumpMarker, |d|);
            if json.dumpMarker == "" then OpenText(json) == d
            else OpenText(json) == if k.None? then "" else d[..k.value]
  {
    hide DumpValue;
  }

  lemma CutsDumpMeans(json: Attempt)
    requires json.Read? && CutsDump(json) && json.dumpMarker != ""
    ensures json.dumpMarker[|json.dumpMarker| - 1] != '}' && Contains(DumpValue(json.value), json.dumpMarker)
  {}

  lemma NamedIs(name: string, text: string)
    requires name != ""
    ensures NamedCall(name, text) == [ToolCall(name, text, "")]
  {}

  lemma WithoutLast(front: string, d: string)
    ensures var s := front + (d + "}"); s[..|s| - 1] == front + d
  {}

  lemma TakeAfter(front: string, d: string, tail: string, k: nat)
    requires k <= |d|
    ensures (front + (d + tail))[..|front| + k] == front + d[..k]
  {}

  // ------------------------------------------------------------ what is shown of a value

  /** The text of the value that has been seen. */
  function TextSeen(src: Source, form: Format, pos: nat): string
    requires pos <= |src.input|
  {
    TrimValue(form, SeenText(src, pos, form.valEnd))
  }

  /** What is shown of the dump of the value while it is unfinished. */
  function Begun(src: Source, form: Format, pos: nat): string
    requires pos <= |src.input|
  {
    match PathOf(src, form, pos)
    case AsText => BegunText(TextSeen(src, form, pos))
    case Open(json) => OpenText(json)
    case HeldBack => ""
    case Closed(_, _) => ""
    case Fails => ""
  }

  datatype Finish = Finish(value: Value, end: nat)

  /** The value, once it is finished, and where what follows it begins. */
  function Finished(src: Source, form: Format, pos: nat): (f: Option<Finish>)
    requires pos <= |src.input|
    ensures f.Some? ==> pos <= f.value.end <= |src.input|
  {
    match PathOf(src, form, pos)
    case AsText =>
      var m := Search(src, pos, form.valEnd);
      if Whole(m, form.valEnd) then Some(Finish(Str(TextSeen(src, form, pos)), m.value.end)) else None
    case Closed(value, end) => Some(Finish(value, end))
    case Open(_) => None
    case HeldBack => None
    case Fails => None
  }

  lemma ByPath(src: Source, form: Format, pos: nat)
    requires pos <= |src.input|
    ensures var p, b, f := PathOf(src, form, pos), Begun(src, form, pos), Finished(src, form, pos);
            var m := Search(src, pos, form.valEnd);
            && (p.AsText? ==>
                  && b == BegunText(TextSeen(src, form, pos))
                  && f == if Whole(m, form.valEnd) then Some(Finish(Str(TextSeen(src, form, pos)), m.value.end))
                          else None)
            && (p.Open? ==> b == OpenText(p.json) && f == None)
            && (p.Closed? ==> f == Some(Finish(p.value, p.end)))
            && (p.HeldBack? ==> b == "" && f == None)
  {
    hide PathOf; hide TextSeen; hide FindLiteral; hide OpenText; hide BegunText;
  }

  lemma TextShows(src: Source, form: Format, pos: nat, key: string, name: string, args: Members)
    requires pos <= |src.input| && form.lastValEnd.None?
    ensures var r, m := ParseText(src, form, pos, key, name, args), Search(src, pos, form.valEnd);
            var seen := TextSeen(src, form, pos);
            if Whole(m, form.valEnd) then r == Arg(key, Str(seen), m.value.end)
            else r == ArgThrown(PartialError, PartialCall(name, Put(args, key, Str(seen + Flag))))
  {
    hide FindLiteral; hide PartialCall; hide Put; hide SafeRest; hide TrimValue;
  }

  lemma PartialIs(name: string, args: Members, text: string)
    requires name != "" && CutAtFlag(Dump(args)) == Some(text)
    ensures PartialCall(name, args) == [ToolCall(name, text, "")]
  {
    hide CutAtFlag; hide Dump;
  }

  lemma FlaggedIs(name: string, args: Members, key: string)
    ensures FlaggedStep(name, args, key) == ArgThrown(PartialError, PartialCall(name, Put(args, key, Str(Flag))))
  {
    hide PartialCall; hide Put;
  }

  /** The call that shows the beginning of a value. */
  function Showing(name: string, args: Members, key: string, begun: string): ArgStep {
    ArgThrown(PartialError, [ToolCall(name, ShownArg(args, key, begun), "")])
  }

  lemma ShowingIs(name: string, args: Members, key: string, begun: string)
    ensures Showing(name, args, key, begun) ==
            ArgThrown(PartialError, [ToolCall(name, ShownArg(args, key, begun), "")])
  {
    hide ShownArg;
  }

  lemma HeldShows(name: string, args: Members, key: string)
    requires name != "" && !HasKey(args, key)
    ensures FlaggedStep(name, args, key) == Showing(name, args, key, "")
  {
    hide *;
    FlaggedIs(name, args, key);
    FlaggedValueDump(args, key, "");
    assert "" + Flag == Flag;
    ShownValue(args, key, "");
    NoTextShown();
    ShowingIs(name, args, key, "");
    PartialIs(name, Put(args, key, Str(Flag)), ShownArg(args, key, ""));
  }

  lemma FlaggedTextShows(name: string, args: Members, key: string, seen: string)
    requires name != "" && !HasKey(args, key)
    ensures ArgThrown(PartialError, PartialCall(name, Put(args, key, Str(seen + Flag)))) ==
            Showing(name, args, key, BegunText(seen))
  {
    hide *;
    FlaggedValueDump(args, key, seen);
    ShownValue(args, key, seen);
    ShowingIs(name, args, key, BegunText(seen));
    PartialIs(name, Put(args, key, Str(seen + Flag)), ShownArg(args, key, BegunText(seen)));
  }

  /** What the parse of a value returns, in terms of how it is read. */
  lemma PathShows(src: Source, form: Format, pos: nat, key: string, name: string, args: Members)
    requires pos <= |src.input| && !HasKey(args, key) && name != "" && !PathOf(src, form, pos).Fails?
    requires PathOf(src, form, pos).AsText? ==> form.lastValEnd.None?
    requires PathOf(src, form, pos).Open? ==> CutsDump(PathOf(src, form, pos).json)
    ensures ParseValue(src, form, pos, key, name, args) ==
            match Finished(src, form, pos)
            case Some(f) => Arg(key, f.value, f.end)
            case None => Showing(name, args, key, Begun(src, form, pos))
  {
    hide *;
    PathMeans(src, form, pos, key, name, args);
    ByPath(src, form, pos);
    match PathOf(src, form, pos) {
      case HeldBack => HeldShows(name, args, key);
      case AsText =>
        TextShows(src, form, pos, key, name, args);
        FlaggedTextShows(name, args, key, TextSeen(src, form, pos));
      case Open(json) =>
        OpenPath(src, form, pos);
        OpenShows(form, json, key, name, args);
        ShowingIs(name, args, key, OpenText(json));
      case Closed(_, _) =>
    }
  }

  lemma OpenPath(src: Source, form: Format, pos: nat)
    requires pos <= |src.input| && PathOf(src, form, pos).Open?
    ensures form.rawArgval == Some(false) && Structured(PathOf(src, form, pos).json.value)
  {
    hide JsonAt; hide ScalarAhead; hide ClosedJson; hide SkipSpaces; hide Structured;
  }

  // ------------------------------------------------------------ values that may be plain text

  /** As much of the text as has arrived at `n`. */
  function Upto(src: Source, n: nat): Source
    requires n <= |src.input|
  {
    src.(input := src.input[..n], partial := true)
  }

  /** What was no JSON stays so, and JSON that something follows stays as it was read; only a value that had to be
      completed is no JSON once the text is finished. */
  predicate KeptJson(a: Source, b: Source, pos: nat)
    requires pos <= |a.input| && pos <= |b.input|
  {
    var s, t := JsonAt(a, pos), JsonAt(b, pos);
    && !s.Throws? && !t.Throws?
    && (s.NoJson? && !ScalarAhead(a, pos) ==> t.NoJson?)
    && (s.Read? && SkipSpaces(a.input, pos + s.size) < |a.input| ==>
          t == s || (s.marker != "" && t.NoJson? && !ScalarAhead(b, pos)))
  }

  /** Reading JSON at `pos` is steady while the text arrives. */
  ghost predicate SteadyJson(src: Source, pos: nat)
    requires pos <= |src.input|
  {
    forall n | pos <= n <= |src.input| ::
      KeptJson(Upto(src, n), src, pos) && forall k | n <= k <= |src.input| :: KeptJson(Upto(src, n), Upto(src, k), pos)
  }

  lemma UptoIs(src: Source, src': Source)
    requires Grows(src, src')
    ensures |src.input| <= |src'.input| && Upto(src', |src.input|) == src
    ensures forall n | n <= |src.input| :: 0 <= n ==> Upto(src', n) == Upto(src, n)
  {
    forall n | 0 <= n <= |src.input| ensures Upto(src', n) == Upto(src, n) {
      assert src.input[..n] == src'.input[..n];
    }
  }

  lemma SteadyShorter(src: Source, src': Source, pos: nat)
    requires Grows(src, src') && pos <= |src.input| <= |src'.input| && SteadyJson(src', pos)
    ensures SteadyJson(src, pos) && KeptJson(src, src', pos)
  {
    hide KeptJson;
    UptoIs(src, src');
    var m := |src.input|;
    forall n | pos <= n <= m ensures KeptJson(Upto(src, n), src, pos) {
      assert KeptJson(Upto(src', n), Upto(src', m), pos);
    }
    forall n, k | pos <= n <= k <= m ensures KeptJson(Upto(src, n), Upto(src, k), pos) {
      assert KeptJson(Upto(src', n), Upto(src', k), pos);
    }
  }

  lemma ClosedPlainly(src: Source, form: Format, end: nat, marker: string)
    requires end <= |src.input| && form.lastValEnd.None?
    ensures var r, m := ClosedJson(src, form, end, marker), Search(src, end, form.valEnd);
            if m.Some? && AllSpace(m.value.prelude) && marker == "" then r == Close(|form.valEnd|, m)
            else r.found.None?
  {
    hide FindLiteral; hide AllSpace;
  }

  predicate Bare(r: Option<Match>) {
    r.Some? && AllSpace(r.value.prelude)
  }

  /** How a value is read where only its own delimiter ends it. */
  lemma PlainPath(src: Source, form: Format, pos: nat)
    requires pos <= |src.input| && form.lastValEnd.None? && form.rawArgval.None?
    ensures var p, json := PathOf(src, form, pos), JsonAt(src, pos);
            if json.Throws? then p.Fails?
            else if json.NoJson? then p == if ScalarAhead(src, pos) then HeldBack else AsText
            else
              var e := pos + json.size;
              if SkipSpaces(src.input, e) == |src.input| then p.HeldBack?
              else
                var m := Search(src, e, form.valEnd);
                if !Bare(m) || json.marker != "" then p.AsText?
                else p == if Whole(m, form.valEnd) then Closed(json.value, m.value.end) else HeldBack
  {
    hide JsonAt; hide ScalarAhead; hide SkipSpaces; hide ClosedJson; hide FindLiteral; hide AllSpace;
    var json := JsonAt(src, pos);
    if json.Read? { ClosedPlainly(src, form, pos + json.size, json.marker); }
  }

  /** What does not lead to the delimiter through spaces never will. */
  lemma NotBareStays(src: Source, src': Source, e: nat, tag: string)
    requires Grows(src, src') && e <= |src.input| <= |src'.input| && Sharp(tag)
    requires SkipSpaces(src.input, e) < |src.input| && !Bare(Search(src, e, tag))
    ensures !Bare(Search(src', e, tag))
  {
    BoundGrows(src, src', e, tag);
    SkipsExactlySpaces(src.input, e);
    hide Sharp; hide FindLiteral; hide IsSpace; hide SkipSpaces;
    var r, r' := Search(src, e, tag), Search(src', e, tag);
    if r'.Some? {
      var x := SkipSpaces(src.input, e);
      if r.Some? {
        var k :| 0 <= k < |r.value.prelude| && !IsSpace(r.value.prelude[k]);
        assert r.value.prelude[k] == src.input[e + k] == src'.input[e + k] == r'.value.prelude[k];
      } else {
        assert src.input[x] == src'.input[x] == r'.value.prelude[x - e];
      }
    }
  }

  lemma FollowsStays(src: Source, src': Source, e: nat)
    requires Grows(src, src') && e <= |src.input| <= |src'.input| && SkipSpaces(src.input, e) < |src.input|
    ensures SkipSpaces(src'.input, e) == SkipSpaces(src.input, e) < |src'.input|
  {
    SkipSpacesExtends(src.input, src'.input, e);
  }

  /** Text stays text, and a finished value stays as it is. */
  lemma PlainPathStays(src: Source, src': Source, form: Format, pos: nat, w: string)
    requires Grows(src, src') && Reads(src', w, pos) && pos <= |src.input| <= |src'.input|
    requires StreamFormat(form) && form.rawArgval.None? && KeptJson(src, src', pos)
    ensures PathOf(src, form, pos).AsText? ==> PathOf(src', form, pos).AsText?
    ensures PathOf(src, form, pos).Closed? ==> PathOf(src', form, pos) == PathOf(src, form, pos)
  {
    hide JsonAt; hide ScalarAhead; hide SkipSpaces; hide FindLiteral; hide AllSpace; hide PathOf; hide Sharp;
    hide AgreesAt; hide AtChar; hide Utf8.WellFormed;
    PlainPath(src, form, pos);
    PlainPath(src', form, pos);
    var json, p := JsonAt(src, pos), PathOf(src, form, pos);
    if json.NoJson? {
      if ScalarAhead(src', pos) { ScalarShrinks(src, src', pos, w); }
    } else if json.Read? && (p.AsText? || p.Closed?) {
      var e := pos + json.size;
      FollowsStays(src, src', e);
      if !Bare(Search(src, e, form.valEnd)) {
        NotBareStays(src, src', e, form.valEnd);
      } else if json.marker == "" {
        BoundGrows(src, src', e, form.valEnd);
      }
    }
  }

  lemma TrimGrows(form: Format, x: string, y: string)
    requires x <= y
    ensures TrimValue(form, x) <= TrimValue(form, y)
  {
    hide Strip;
    if form.trimRawArgval { StripMonotone(x, y); }
  }

  /** More of a text is seen as it grows; a finished one stays. */
  lemma TextSeenGrows(src: Source, src': Source, form: Format, pos: nat, w: string)
    requires Grows(src, src') && Reads(src', w, pos) && pos <= |src.input| && Sharp(form.valEnd)
    ensures TextSeen(src, form, pos) <= TextSeen(src', form, pos)
    ensures Whole(Search(src, pos, form.valEnd), form.valEnd) ==>
              && Search(src', pos, form.valEnd) == Search(src, pos, form.valEnd)
              && TextSeen(src', form, pos) == TextSeen(src, form, pos)
              && Reads(src', w, Search(src, pos, form.valEnd).value.end)
  {
    hide TrimValue; hide Search; hide Sharp; hide SafeRest; hide AgreesAt; hide AtChar; hide Utf8.WellFormed;
    SeenGrows(src, src', pos, form.valEnd, w);
    TrimGrows(form, SeenText(src, pos, form.valEnd), SeenText(src', pos, form.valEnd));
    BoundGrows(src, src', pos, form.valEnd);
    if Whole(Search(src, pos, form.valEnd), form.valEnd) { AfterWhole(src', w, pos, form.valEnd); }
  }

  /** The law of one value: more is shown as the text grows, up to what is printed for the finished value, and a
      finished value stays. */
  ghost predicate ValueGrows(src: Source, src': Source, form: Format, pos: nat, w: string)
    requires pos <= |src.input| <= |src'.input|
  {
    var f, f' := Finished(src, form, pos), Finished(src', form, pos);
    && (f.Some? ==> f' == f && Reads(src', w, f.value.end))
    && (f.None? ==>
          if f'.Some? then Begun(src, form, pos) <= DumpValue(f'.value.value)
          else Begun(src, form, pos) <= Begun(src', form, pos))
  }

  lemma TextGrows(src: Source, src': Source, form: Format, pos: nat, w: string)
    requires Grows(src, src') && Reads(src', w, pos) && pos <= |src.input| <= |src'.input| && Sharp(form.valEnd)
    requires PathOf(src, form, pos).AsText? && PathOf(src', form, pos).AsText?
    ensures ValueGrows(src, src', form, pos, w)
  {
    hide *;
    TextSeenGrows(src, src', form, pos, w);
    var x, y := TextSeen(src, form, pos), TextSeen(src', form, pos);
    ByPath(src, form, pos);
    ByPath(src', form, pos);
    BegunTextGrows(x, y);
    BegunTextBegins(y);
    PrefixOf(BegunText(x), BegunText(y), DumpValue(Str(y)));
    GrowsIf(src, src', form, pos, w);
  }

  lemma PrefixOf(a: string, b: string, c: string)
    requires a <= b && b <= c
    ensures a <= c
  {}

  lemma GrowsIf(src: Source, src': Source, form: Format, pos: nat, w: string)
    requires pos <= |src.input| <= |src'.input|
    ensures var f, f' := Finished(src, form, pos), Finished(src', form, pos);
            ValueGrows(src, src', form, pos, w) <==>
            && (f.Some? ==> f' == f && Reads(src', w, f.value.end))
            && (f.None? ==>
                  if f'.Some? then Begun(src, form, pos) <= DumpValue(f'.value.value)
                  else Begun(src, form, pos) <= Begun(src', form, pos))
  {
    hide Finished; hide Begun; hide Reads; hide DumpValue;
  }

  /** A value of which nothing was shown may be read in any way. */
  lemma HeldGrows(src: Source, src': Source, form: Format, pos: nat, w: string)
    requires pos <= |src.input| <= |src'.input| && PathOf(src, form, pos).HeldBack?
    ensures ValueGrows(src, src', form, pos, w)
  {
    hide *;
    ByPath(src, form, pos);
    GrowsIf(src, src', form, pos, w);
    if Finished(src', form, pos).Some? {
      EmptyBegins(DumpValue(Finished(src', form, pos).value.value));
    }
    EmptyBegins(Begun(src', form, pos));
  }

  lemma EmptyBegins(s: string)
    ensures "" <= s
  {}

  /** The law for a value that is text. */
  lemma PlainValueGrows(src: Source, src': Source, form: Format, pos: nat, w: string)
    requires Grows(src, src') && Reads(src', w, pos) && pos <= |src.input| <= |src'.input| && StreamFormat(form)
    requires form.rawArgval.None? && KeptJson(src, src', pos)
    ensures ValueGrows(src, src', form, pos, w)
  {
    hide *;
    SharpEnd(form);
    PlainPathStays(src, src', form, pos, w);
    PlainPath(src, form, pos);
    KeptMeans(src, src', pos);
    ByPath(src, form, pos);
    match PathOf(src, form, pos) {
      case HeldBack => HeldGrows(src, src', form, pos, w);
      case AsText => TextGrows(src, src', form, pos, w);
      case Closed(value, end) =>
        ByPath(src', form, pos);
        GrowsIf(src, src', form, pos, w);
        PlainClosed(src, src', form, pos, w);
      case Open(_) => assert false;
      case Fails => assert false;
    }
  }

  lemma SharpEnd(form: Format)
    requires StreamFormat(form)
    ensures Sharp(form.valEnd)
    ensures form.rawArgval != Some(false) ==> form.lastValEnd.None?
  {}

  lemma KeptMeans(src: Source, src': Source, pos: nat)
    requires pos <= |src.input| <= |src'.input| && KeptJson(src, src', pos)
    ensures !JsonAt(src, pos).Throws?
  {}

  /** After a value that was read as JSON, and its delimiter, a character starts. */
  lemma PlainClosed(src: Source, src': Source, form: Format, pos: nat, w: string)
    requires Grows(src, src') && Reads(src', w, pos) && pos <= |src.input| <= |src'.input|
    requires form.lastValEnd.None? && form.rawArgval.None? && Sharp(form.valEnd) && PathOf(src, form, pos).Closed?
    ensures Reads(src', w, PathOf(src, form, pos).end)
  {
    hide JsonAt; hide ScalarAhead; hide SkipSpaces; hide FindLiteral; hide AllSpace; hide PathOf; hide Sharp;
    hide Utf8.WellFormed;
    PlainPath(src, form, pos);
    var e := pos + JsonAt(src, pos).size;
    var m := Search(src, e, form.valEnd).value;
    WholeOccurs(src, e, form.valEnd);
    TagAscii(form.valEnd);
    assert w[m.end - 1] == src.input[m.begin..m.end][|form.valEnd| - 1];
    AfterAscii(w, pos, m.end - 1);
  }

  lemma TagAscii(tag: string)
    requires Sharp(tag)
    ensures tag != "" && tag[|tag| - 1] as int < 0x80 && tag[0] as int < 0x80
  {}
}
