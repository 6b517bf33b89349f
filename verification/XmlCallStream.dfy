/** While a call streams in, from its name on, what is shown of it only grows. */
module XmlCallStream {
  import opened Text
  import opened LiteralSearch
  import opened XmlSpec
  import opened XmlGrowth
  import opened XmlValues
  import opened XmlJsonValues
  import opened XmlStream
  import Utf8

  // ------------------------------------------------------------ the name of a call

  /** The delimiters around names: all sharp, except a separator of spaces, and no opening of a key inside a tool
      end. */
  predicate ScopeFormat(form: Format) {
    && StreamFormat(form) && Sharp(form.toolStart) && (AllSpace(form.toolSep) || Sharp(form.toolSep))
    && form.keyStart[0] !in form.toolEnd[1..]
  }

  lemma FormatStreams(form: Format)
    requires ScopeFormat(form)
    ensures StreamFormat(form)
  {
    hide AllSpace; hide StreamFormat;
  }

  function NameTag(form: Format): string {
    if AllSpace(form.toolSep) then form.keyStart else form.toolSep
  }

  /** The name that begins at `pos` ends at `e`: no delimiter begins in it, and after it stands as much of one as has
      arrived. */
  predicate NameEndsAt(src: Source, form: Format, pos: nat, e: nat) {
    && pos <= e <= |src.input|
    && (forall i | pos <= i < e :: src.input[i] != NameTag(form)[0] && src.input[i] != form.toolEnd[0])
    && (e < |src.input| ==>
          Begins(src, NameTag(form), e) || (AllSpace(form.toolSep) && Begins(src, form.toolEnd, e)))
  }

  /** Where the arguments begin: after the separator, as far as it has arrived, or at the first key or tool end. */
  function NamePos(src: Source, form: Format, e: nat): (p: nat)
    requires e <= |src.input|
    ensures e <= p <= |src.input|
  {
    if AllSpace(form.toolSep) then e
    else if e + |form.toolSep| <= |src.input| then e + |form.toolSep| else |src.input|
  }

  lemma HoldsNot(text: string, tag: string)
    requires tag != "" && tag[0] !in text
    ensures !Contains(text, tag)
  {
    ContainsMeans(text, tag);
    forall i: nat ensures !OccursAt(text, tag, i) {
      if i < |text| { NotHere(text, tag, i); }
    }
  }

  lemma SliceLacks(s: string, pos: nat, e: nat, c: char)
    requires pos <= e <= |s| && forall i | pos <= i < e :: s[i] != c
    ensures c !in s[pos..e]
  {}

  /** With the tag of the name found, no tool end is held before it. */
  lemma NameByTag(src: Source, form: Format, pos: nat, e: nat)
    requires ScopeFormat(form) && NameEndsAt(src, form, pos, e) && e < |src.input| && Begins(src, NameTag(form), e)
    ensures FindName(src, form, pos) == Named(ToolName(src, src.input[pos..e]), NamePos(src, form, e))
  {
    hide FindLiteral; hide FindToolEnd; hide ToolName; hide AllSpace; hide FindNameEnd; hide Sharp; hide AgreesAt;
    hide Contains;
    NameTagSharp(form);
    SearchIs(src, pos, NameTag(form));
    FoundAt(src, pos, e, NameTag(form));
    SliceLacks(src.input, pos, e, form.toolEnd[0]);
    HoldsNot(src.input[pos..e], form.toolEnd);
    NameEndSteps(src, form, pos);
  }

  lemma NameTagSharp(form: Format)
    requires ScopeFormat(form)
    ensures Sharp(NameTag(form)) && Sharp(form.toolEnd) && NameTag(form) != "" && form.toolEnd != ""
    ensures form.lastToolEnd.None? && form.keyStart != "" && form.keyStart[0] !in form.toolEnd[1..]
  {
    hide AllSpace;
  }

  lemma ToolEndIs(src: Source, form: Format, pos: nat)
    requires pos <= |src.input| && form.lastToolEnd.None?
    ensures FindToolEnd(src, form, pos).found == Search(src, pos, form.toolEnd)
  {
    hide FindLiteral;
  }

  lemma AgreesByte(s: string, tag: string, e: nat, b: nat)
    requires e < b < |s| && b - e < |tag| && AgreesAt(s, tag, e)
    ensures s[b] == tag[1..][b - e - 1]
  {
    assert s[e..][b - e] == s[b];
  }

  /** A key found after the name is found after the whole tool end that follows the name. */
  lemma KeyAfterToolEnd(src: Source, form: Format, pos: nat, e: nat)
    requires ScopeFormat(form) && pos <= e < |src.input| && Begins(src, form.toolEnd, e)
    requires Search(src, pos, form.keyStart).Some? && Search(src, pos, form.keyStart).value.begin > e
    ensures Contains(Search(src, pos, form.keyStart).value.prelude, form.toolEnd)
  {
    hide *;
    var r := Search(src, pos, form.keyStart).value;
    KeySharp(form);
    MatchByte(src, pos, form.keyStart);
    BeginsMeans(src, form.toolEnd, e);
    NotInTag(src.input, form.toolEnd, e, r.begin);
    WholeTag(src.input, form.toolEnd, e, r.begin);
    PreludeIs(src.input, pos, r);
    HeldInSlice(src.input, pos, e, r.begin, form.toolEnd);
  }

  lemma BeginsMeans(src: Source, tag: string, e: nat)
    requires e <= |src.input| && Begins(src, tag, e)
    ensures AgreesAt(src.input, tag, e)
  {}

  lemma PreludeIs(s: string, pos: nat, r: Match)
    requires PreludeFrom(s, pos, r)
    ensures pos <= r.begin <= |s| && r.prelude == s[pos..r.begin]
  {}

  lemma NotInTag(s: string, tag: string, e: nat, b: nat)
    requires e < b < |s| && tag != "" && AgreesAt(s, tag, e) && s[b] !in tag[1..]
    ensures e + |tag| <= b
  {
    if b - e < |tag| { AgreesByte(s, tag, e, b); }
  }

  lemma HeldInSlice(s: string, pos: nat, e: nat, b: nat, tag: string)
    requires pos <= e && e + |tag| <= b <= |s| && s[e..e + |tag|] == tag
    ensures Contains(s[pos..b], tag)
  {
    hide Contains;
    ContainsMeans(s[pos..b], tag);
    SliceOfSlice(s, pos, b, e - pos, e - pos + |tag|);
    assert OccursAt(s[pos..b], tag, e - pos);
  }

  lemma KeySharp(form: Format)
    requires ScopeFormat(form)
    ensures Sharp(form.keyStart) && form.keyStart != "" && form.toolEnd != "" && form.keyStart[0] !in form.toolEnd[1..]
  {
    hide AllSpace;
  }

  lemma WholeTag(s: string, tag: string, e: nat, b: nat)
    requires e + |tag| <= b <= |s| && AgreesAt(s, tag, e) && b < |s|
    ensures s[e..e + |tag|] == tag
  {
    assert tag <= s[e..];
    assert s[e..e + |tag|] == s[e..][..|tag|];
  }

  lemma NameByToolEnd(src: Source, form: Format, pos: nat, e: nat)
    requires ScopeFormat(form) && NameEndsAt(src, form, pos, e) && e < |src.input|
    requires AllSpace(form.toolSep) && Begins(src, form.toolEnd, e)
    ensures FindName(src, form, pos) == Named(ToolName(src, src.input[pos..e]), e)
  {
    hide FindLiteral; hide FindToolEnd; hide ToolName; hide AllSpace; hide FindNameEnd; hide Sharp; hide AgreesAt;
    hide Contains;
    NameTagSharp(form);
    var name, k := src.input[pos..e], Search(src, pos, form.keyStart);
    SearchIs(src, pos, form.keyStart);
    NothingInside(src, pos, e, form.keyStart);
    FoundAt(src, pos, e, form.toolEnd);
    ToolEndIs(src, form, pos);
    SliceLacks(src.input, pos, e, form.toolEnd[0]);
    HoldsNot(name, form.toolEnd);
    NameEndSteps(src, form, pos);
    if k.Some? && k.value.begin > e { KeyAfterToolEnd(src, form, pos, e); }
  }

  lemma NoNameYet(src: Source, form: Format, pos: nat)
    requires ScopeFormat(form) && NameEndsAt(src, form, pos, |src.input|)
    ensures FindName(src, form, pos) == NoName(PartialError)
  {
    hide FindLiteral; hide FindToolEnd; hide ToolName; hide AllSpace; hide FindNameEnd; hide Sharp; hide AgreesAt;
    hide HoldsToolEnd;
    NameTagSharp(form);
    SearchIs(src, pos, NameTag(form));
    ToolEndIs(src, form, pos);
    NothingInside(src, pos, |src.input|, NameTag(form));
    NothingInside(src, pos, |src.input|, form.toolEnd);
    if Search(src, pos, NameTag(form)).Some? { MatchByte(src, pos, NameTag(form)); }
    if Search(src, pos, form.toolEnd).Some? { MatchByte(src, pos, form.toolEnd); }
    NameEndSteps(src, form, pos);
  }

  /** The name step on a text whose name ends at `e`. */
  lemma NameShows(src: Source, form: Format, pos: nat, e: nat)
    requires ScopeFormat(form) && NameEndsAt(src, form, pos, e)
    ensures FindName(src, form, pos) ==
            if e == |src.input| then NoName(PartialError)
            else Named(ToolName(src, src.input[pos..e]), NamePos(src, form, e))
  {
    hide FindName; hide Begins; hide AllSpace; hide ScopeFormat; hide ToolName;
    if e == |src.input| {
      NoNameYet(src, form, pos);
    } else if Begins(src, NameTag(form), e) {
      NameByTag(src, form, pos, e);
    } else {
      NameByToolEnd(src, form, pos, e);
    }
  }

  lemma AgreesShorter(s: string, s': string, tag: string, e: nat)
    requires s <= s' && e <= |s| && AgreesAt(s', tag, e)
    ensures AgreesAt(s, tag, e)
  {
    assert s[e..] <= s'[e..];
  }

  /** In a shorter text the name ends at the same place, or at the end of the text. */
  lemma NameShorter(src: Source, src': Source, form: Format, pos: nat, e': nat)
    requires Grows(src, src') && pos <= |src.input| && NameEndsAt(src', form, pos, e') && NameTag(form) != ""
    requires form.toolEnd != ""
    ensures NameEndsAt(src, form, pos, if e' < |src.input| then e' else |src.input|)
  {
    hide AllSpace; hide AgreesAt; hide NameTag;
    if e' < |src.input| {
      if Begins(src', NameTag(form), e') {
        AgreesShorter(src.input, src'.input, NameTag(form), e');
      } else {
        AgreesShorter(src.input, src'.input, form.toolEnd, e');
      }
    }
  }

  // ------------------------------------------------------------ one call

  lemma CallIs(src: Source, form: Format, pos: nat, recovery: bool)
    requires pos <= |src.input|
    ensures var r, name := ParseCall(src, form, pos, recovery), FindName(src, form, pos);
            if name.NoName? then r == CallThrown(name.ending, [])
            else r == AfterName(src, form, name.pos, name.name, [], recovery)
  {
    hide FindName; hide ParseArgs; hide ParseToolEnd;
    CallSteps(src, form, pos, recovery);
  }

  /** Where the name that begins at `pos` ends: at the first byte that begins a delimiter. */
  function NameEnd(src: Source, form: Format, pos: nat): (e: nat)
    requires pos <= |src.input| && NameTag(form) != ""
    ensures pos <= e <= |src.input|
    decreases |src.input| - pos
  {
    if pos < |src.input| && src.input[pos] != NameTag(form)[0] && src.input[pos] != form.toolEnd[0]
    then NameEnd(src, form, pos + 1) else pos
  }

  function CallName(src: Source, form: Format, pos: nat): string
    requires pos <= |src.input| && NameTag(form) != ""
  {
    ToolName(src, src.input[pos..NameEnd(src, form, pos)])
  }

  /** A call with a name, whose keys are all new and whose values are plain text, as far as it has arrived. */
  ghost predicate GoodCall(src: Source, form: Format, pos: nat)
    requires pos <= |src.input| && ScopeFormat(form)
  {
    NameTagSharp(form);
    var e := NameEnd(src, form, pos);
    && NameEndsAt(src, form, pos, e)
    && (e < |src.input| ==> Streams(src, form, NamePos(src, form, e), CallName(src, form, pos), []))
  }

  lemma GoodCallMeans(src: Source, form: Format, pos: nat)
    requires pos <= |src.input| && ScopeFormat(form) && GoodCall(src, form, pos)
    ensures NameTag(form) != "" && form.toolEnd != "" && pos <= NameEnd(src, form, pos) <= |src.input|
    ensures NameEndsAt(src, form, pos, NameEnd(src, form, pos))
    ensures CallName(src, form, pos) == ToolName(src, src.input[pos..NameEnd(src, form, pos)])
    ensures var e := NameEnd(src, form, pos);
            e < |src.input| ==>
              && Streams(src, form, NamePos(src, form, e), CallName(src, form, pos), [])
              && CallName(src, form, pos) != ""
  {
    hide NameEndsAt; hide ToolName; hide NamePos; hide NameEnd; hide ScopeFormat;
    NameTagSharp(form);
    var e := NameEnd(src, form, pos);
    if e < |src.input| { StreamsMeans(src, form, NamePos(src, form, e), CallName(src, form, pos), []); }
  }

  lemma BeginsByte(src: Source, tag: string, e: nat)
    requires e < |src.input| && tag != "" && Begins(src, tag, e)
    ensures src.input[e] == tag[0]
    ensures e + |tag| <= |src.input| ==> src.input[e + |tag| - 1] == tag[|tag| - 1]
  {
    assert src.input[e] == src.input[e..][0];
    if e + |tag| <= |src.input| { assert src.input[e..][|tag| - 1] == src.input[e + |tag| - 1]; }
  }

  lemma TagAscii(form: Format)
    requires ScopeFormat(form)
    ensures NameTag(form) != "" && form.toolEnd != "" && NameTag(form)[0] as int < 0x80 && form.toolEnd[0] as int < 0x80
    ensures NameTag(form)[|NameTag(form)| - 1] as int < 0x80
    ensures !AllSpace(form.toolSep) ==> NameTag(form) == form.toolSep
  {
    hide AllSpace;
  }

  /** Where the arguments begin, before the end of what has arrived, a character starts. */
  lemma ReadsArgs(src: Source, form: Format, pos: nat, e: nat, w: string)
    requires Reads(src, w, pos) && ScopeFormat(form) && NameEndsAt(src, form, pos, e)
    requires NamePos(src, form, e) < |src.input|
    ensures Reads(src, w, NamePos(src, form, e))
  {
    hide Utf8.WellFormed; hide AtChar; hide Begins; hide AllSpace; hide ScopeFormat; hide NameTag;
    TagAscii(form);
    if AllSpace(form.toolSep) {
      if Begins(src, NameTag(form), e) { BeginsByte(src, NameTag(form), e); } else { BeginsByte(src, form.toolEnd, e); }
      AtAscii(w, pos, e);
    } else {
      BeginsByte(src, form.toolSep, e);
      AfterAscii(w, pos, e + |form.toolSep| - 1);
    }
  }

  /** What is shown of one call. */
  lemma CallShows(src: Source, form: Format, pos: nat, recovery: bool)
    requires pos <= |src.input| && ScopeFormat(form) && GoodCall(src, form, pos)
    ensures NameTag(form) != ""
    ensures var r, name := ParseCall(src, form, pos, recovery), CallName(src, form, pos);
            r == CallThrown(PartialError, []) || Retracts(r) || (name != "" && Shows(r, name))
  {
    hide *;
    GoodCallMeans(src, form, pos);
    var e, name := NameEnd(src, form, pos), CallName(src, form, pos);
    CallIs(src, form, pos, recovery);
    NameShows(src, form, pos, e);
    if e < |src.input| {
      var p := NamePos(src, form, e);
      StreamsMeans(src, form, p, name, []);
      ShowsAtLeast(src, form, p, name, [], recovery);
      MoreMeans(AfterName(src, form, p, name, [], recovery), name, OpenDump([]));
    }
  }

  /** What is shown of one call only grows, unless it is taken back, and a finished call stays. */
  predicate CallGrows(a: CallStep, b: CallStep, name: string) {
    || Retracts(a)
    || a == CallThrown(PartialError, [])
    || (name != "" && Shows(a, name) && ShowsMore(b, name, ShownText(a)) && (a.CallParsed? ==> b == a))
  }

  lemma OneCallStreams(src: Source, src': Source, form: Format, pos: nat, recovery: bool, w: string)
    requires Grows(src, src') && Reads(src', w, pos) && pos <= |src.input| && ScopeFormat(form)
    requires GoodCall(src', form, pos) && EndsAtChar(src, form)
    ensures NameTag(form) != ""
    ensures CallGrows(ParseCall(src, form, pos, recovery), ParseCall(src', form, pos, recovery),
                      CallName(src', form, pos))
  {
    hide *;
    GrowsMeans(src, src');
    GoodCallMeans(src', form, pos);
    var e := NameEnd(src', form, pos);
    NameShorter(src, src', form, pos, e);
    CallIs(src, form, pos, recovery);
    CallIs(src', form, pos, recovery);
    NameShows(src', form, pos, e);
    var a, b := ParseCall(src, form, pos, recovery), ParseCall(src', form, pos, recovery);
    var name := CallName(src', form, pos);
    if e < |src.input| {
      NameShows(src, form, pos, e);
      SameName(src, src', pos, e);
      var p, p' := NamePos(src, form, e), NamePos(src', form, e);
      PosGrows(src, src', form, e);
      StreamsMeans(src', form, p', name, []);
      if p == |src.input| {
        NothingMore(src, form, name, [], recovery);
        ShowsAtLeast(src', form, p', name, [], recovery);
        ShowsPartial(name, OpenDump([]), "");
        MoreMeans(a, name, "");
      } else {
        ReadsArgs(src', form, pos, e, w);
        CallStreams(src, src', form, p, name, [], recovery, recovery, w);
      }
      GrowsIs(a, b, name);
    } else {
      NameShows(src, form, pos, |src.input|);
      GrowsIs(a, b, name);
    }
  }

  lemma GrowsIs(a: CallStep, b: CallStep, name: string)
    ensures CallGrows(a, b, name) <==>
            || Retracts(a)
            || a == CallThrown(PartialError, [])
            || (name != "" && Shows(a, name) && ShowsMore(b, name, ShownText(a)) && (a.CallParsed? ==> b == a))
  {
    hide Retracts; hide Shows; hide ShowsMore; hide ShownText;
  }

  lemma SameName(src: Source, src': Source, pos: nat, e: nat)
    requires Grows(src, src') && pos <= e <= |src.input|
    ensures e <= |src'.input| && ToolName(src, src.input[pos..e]) == ToolName(src', src'.input[pos..e])
  {
    hide Strip; hide KimiName;
    assert src.input[pos..e] == src'.input[pos..e];
  }

  lemma PosGrows(src: Source, src': Source, form: Format, e: nat)
    requires Grows(src, src') && e <= |src.input| <= |src'.input|
    ensures NamePos(src, form, e) <= NamePos(src', form, e)
    ensures NamePos(src, form, e) < |src.input| ==> NamePos(src, form, e) == NamePos(src', form, e)
  {
    hide AllSpace;
  }
}
