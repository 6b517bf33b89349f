/** Texts that end inside a value, on which the parser of tool calls fails an assertion. */
module XmlCutValues {
  import opened Wrappers
  import opened Text
  import opened ChatTypes
  import opened LiteralSearch
  import opened XmlSpec
  import opened XmlFormats
  import opened XmlLaws
  import opened Json
  import opened JsonHealing
  import opened HealingLaws
  import opened XmlFaults
  import opened XmlShown
  import opened XmlValues
  import Utf8
  import XmlRoundTrip

  /** The formats whose values must be JSON and whose calls have one kind of end. */
  predicate StrictFormat(form: Format) {
    && (form.scopeStart == "" || !AllSpace(form.scopeStart)) && !AllSpace(form.toolSep)
    && form.keyValSep2.None? && form.lastToolEnd.None? && form.rawArgval == Some(false)
  }

  /** The text of a call up to the value of its first argument. */
  function OpenedValue(form: Format, name: string, key: string): string {
    form.scopeStart + (form.toolStart + ((name + form.toolSep) + (form.keyStart + (key + form.keyValSep))))
  }

  /** At `at` the value of the first argument of the first call begins. */
  predicate FirstValueAt(src: Source, form: Format, name: string, key: string, at: nat) {
    && StrictFormat(form) && at <= |src.input| && src.input[..at] == OpenedValue(form, name, key)
    && FirstAt(name, form.toolSep) && !Contains(name, form.toolEnd) && FirstAt(key, form.keyValSep)
  }

  lemma BeginsWith(s: string, a: string, b: string)
    requires s == a + b
    ensures OccursAt(s, a, 0)
  {}

  lemma Parts(s: string, a: string, b: string, n: string, c: string, d: string, key: string, e: string, t: string)
    requires s == (a + (b + ((n + c) + (d + (key + e))))) + t
    ensures var i, j := |a|, |a| + |b|;
            var k := j + |n + c|;
            && OccursAt(s, a, 0) && OccursAt(s, b, i) && OccursAt(s, n, j) && OccursAt(s, c, j + |n|)
            && OccursAt(s, d, k) && OccursAt(s, key, k + |d|) && OccursAt(s, e, k + |d| + |key|)
            && |a + (b + ((n + c) + (d + (key + e))))| == k + |d| + |key| + |e|
  {
    hide *;
    var i, j := |a|, |a| + |b|;
    var k := j + |n + c|;
    BeginsWith(s, a + (b + ((n + c) + (d + (key + e)))), t);
    XmlRoundTrip.Splits(s, a, b + ((n + c) + (d + (key + e))), 0);
    XmlRoundTrip.Splits(s, b, (n + c) + (d + (key + e)), i);
    XmlRoundTrip.Splits(s, n + c, d + (key + e), j);
    XmlRoundTrip.Splits(s, n, c, j);
    XmlRoundTrip.Splits(s, d, key + e, k);
    XmlRoundTrip.Splits(s, key, e, k + |d|);
  }

  lemma FirstValueParts(src: Source, form: Format, name: string, key: string, at: nat)
    requires FirstValueAt(src, form, name, key, at)
    ensures at <= |src.input| && at == |OpenedValue(form, name, key)|
    ensures src.input == OpenedValue(form, name, key) + src.input[at..]
    ensures OpenedValue(form, name, key) ==
            form.scopeStart + (form.toolStart + ((name + form.toolSep) + (form.keyStart + (key + form.keyValSep))))
    ensures form.keyValSep2.None? && form.rawArgval == Some(false)
    ensures (form.scopeStart == "" || !AllSpace(form.scopeStart)) && !AllSpace(form.toolSep)
    ensures FirstAt(name, form.toolSep) && !HoldsToolEnd(form, name) && FirstAt(key, form.keyValSep)
  {
    hide AllSpace; hide FirstAt; hide Contains;
  }

  lemma NameStands(src: Source, form: Format, name: string, j: nat)
    requires OccursAt(src.input, name, j) && OccursAt(src.input, form.toolSep, j + |name|)
    requires FirstAt(name, form.toolSep) && !HoldsToolEnd(form, name) && !AllSpace(form.toolSep)
    ensures FindName(src, form, j) == Named(ToolName(src, name), j + |name + form.toolSep|)
  {
    hide FindLiteral; hide FindToolEnd; hide ToolName; hide AllSpace; hide FindNameEnd; hide OccursAt; hide FirstAt;
    hide HoldsToolEnd;
    XmlRoundTrip.OccursFits(src.input, name, j);
    XmlRoundTrip.FoundInPlace(src, j, name, form.toolSep);
    NameEndSteps(src, form, j);
  }

  /** Whatever the parse of the first value throws, except a syntax error, ends the whole attempt, with the calls it
      shows. */
  lemma ReachesValue(src: Source, form: Format, name: string, key: string, at: nat, calls: seq<ToolCall>)
    requires FirstValueAt(src, form, name, key, at)
    ensures var r := ParseValue(src, form, at, key, ToolName(src, name), []);
            r.ArgThrown? && !r.ending.SyntaxError? ==>
              TryConsume(src, form, 0, calls) == Outcome(r.ending, 0, calls + r.extra)
  {
    hide *;
    var i := |form.scopeStart|;
    var j := i + |form.toolStart|;
    var k := j + |name + form.toolSep|;
    FirstValueParts(src, form, name, key, at);
    EmptyIsSpace();
    Parts(src.input, form.scopeStart, form.toolStart, name, form.toolSep, form.keyStart, key, form.keyValSep,
          src.input[at..]);
    XmlRoundTrip.FoundHere(src, 0, form.scopeStart);
    XmlRoundTrip.FoundHere(src, i, form.toolStart);
    NameStands(src, form, name, j);
    XmlRoundTrip.FoundHere(src, k, form.keyStart);
    XmlRoundTrip.FoundInPlace(src, k + |form.keyStart|, key, form.keyValSep);
    AfterKeySteps(src, form, at, key, ToolName(src, name), []);
    KeySteps(src, form, k + |form.keyStart|, ToolName(src, name), []);
    ArgsSteps(src, form, k, ToolName(src, name), [], true);
    CallSteps(src, form, j, true);
    CallsSteps(src, form, 0, i, calls, true);
    if form.scopeStart == "" {
      NoScope(src, form, 0, calls);
    } else {
      ScopeOpened(src, form, 0, calls, i);
    }
  }

  /** A text that ends in its first value, a string, an object or an array that the shipped reader completed: the
      attempt fails the assertion exactly when the value is cut in an escape whose completion is dumped as something
      else. */
  lemma CutValueExactly(src: Source, form: Format, name: string, key: string, at: nat, calls: seq<ToolCall>,
                        marker: string)
    requires FirstValueAt(src, form, name, key, at) && HealsAsShipped(src.readJson, marker)
    requires var json := JsonAt(src, at);
             && json.Read? && json.marker != "" && json.size == |src.input| - at && Structured(json.value)
             && Once(Dump([(key, json.value)]), marker)
    ensures TryConsume(src, form, 0, calls).ending.AssertFails? <==> LosesPadding(src.input[at..])
  {
    hide *;
    FirstValueParts(src, form, name, key, at);
    var json, call := JsonAt(src, at), ToolName(src, name);
    PutFirst(key, json.value);
    EndIsEnd(src.input);
    assert src.input[at..at + json.size] == src.input[at..];
    AssertFailsExactlyOnCuts(src, form, at, key, call, [], marker);
    ValueSteps(src, form, at, key, call, []);
    JsonSteps(src, form, at, json, key, call, []);
    OpenJsonEnds(form, json, key, call, []);
    ReachesValue(src, form, name, key, at, calls);
  }

  lemma EndIsEnd(s: string)
    ensures SkipSpaces(s, |s|) == |s|
  {}

  /** Up to the last of what completed the value, the marker is not there, if it is there only once. */
  lemma BeforeMarker(dumped: string, added: string, marker: string)
    requires EndsWith(added, marker) && marker != "" && Once(dumped, marker) && Contains(dumped, added)
    ensures var k := FindLast(dumped, added, |dumped|);
            k.Some? && OccursAt(dumped, added, k.value) && !Contains(dumped[..k.value], marker)
  {
    hide OccursAt; hide EndsWith; hide FindLast; hide Contains;
    ContainsMeans(dumped, added);
    FindLastMeans(dumped, added, |dumped|);
    OccursEarly(dumped, added);
    var k := FindLast(dumped, added, |dumped|).value;
    MarkerInside(dumped, added, marker, k);
    ContainsMeans(dumped[..k], marker);
    forall i: nat ensures !OccursAt(dumped[..k], marker, i) {
      if OccursAt(dumped[..k], marker, i) { OccursBefore(dumped, marker, k, i); }
    }
  }

  lemma OccursBefore(s: string, t: string, k: nat, i: nat)
    requires k <= |s| && OccursAt(s[..k], t, i)
    ensures OccursAt(s, t, i) && i + |t| <= k
  {
    assert s[i..i + |t|] == s[..k][i..i + |t|];
  }

  lemma MarkerInside(dumped: string, added: string, marker: string, k: nat)
    requires EndsWith(added, marker) && OccursAt(dumped, added, k)
    ensures |marker| <= |added| && OccursAt(dumped, marker, k + |added| - |marker|)
  {
    var j := k + |added| - |marker|;
    assert dumped[j..j + |marker|] == dumped[k..k + |added|][|added| - |marker|..];
  }

  /** And what is shown of such a value, unless the assertion fails, is the dump of the object up to where the value
      was completed: the marker is not shown. */
  lemma CutValueShows(src: Source, form: Format, name: string, key: string, at: nat, calls: seq<ToolCall>,
                      marker: string) returns (shown: string)
    requires FirstValueAt(src, form, name, key, at) && HealsAsShipped(src.readJson, marker)
    requires var json := JsonAt(src, at);
             && json.Read? && json.marker != "" && json.size == |src.input| - at && Structured(json.value)
             && Once(Dump([(key, json.value)]), marker)
    requires !LosesPadding(src.input[at..]) && ToolName(src, name) != ""
    ensures TryConsume(src, form, 0, calls) ==
            Outcome(PartialError, 0, calls + [ToolCall(ToolName(src, name), shown, "")])
    ensures var json := JsonAt(src, at);
            shown + json.dumpMarker <= Dump([(key, json.value)]) && !Contains(shown, marker)
  {
    hide *;
    FirstValueParts(src, form, name, key, at);
    var json, call := JsonAt(src, at), ToolName(src, name);
    var dumped := Dump([(key, json.value)]);
    PutFirst(key, json.value);
    EndIsEnd(src.input);
    assert src.input[at..at + json.size] == src.input[at..];
    HealedAt(src, at, marker);
    var a, b := DumpAround([], key, json.value);
    MarkerKeptExactly(src.input[at..], json, marker, a, b);
    EndsInMarker(src.input[at..], json, marker);
    EndsNotEmpty(json.dumpMarker, marker);
    BeforeMarker(dumped, json.dumpMarker, marker);
    var k := FindLast(dumped, json.dumpMarker, |dumped|).value;
    shown := dumped[..k];
    TakesBoth(dumped, json.dumpMarker, k);
    ValueSteps(src, form, at, key, call, []);
    JsonSteps(src, form, at, json, key, call, []);
    OpenSteps(form, json, key, call, []);
    NamedIs(call, shown);
    ReachesValue(src, form, name, key, at, calls);
  }

  lemma EndsNotEmpty(s: string, x: string)
    requires EndsWith(s, x) && x != ""
    ensures s != ""
  {}

  lemma TakesBoth(s: string, t: string, k: nat)
    requires OccursAt(s, t, k)
    ensures k <= |s| && s[..k] + t <= s
  {
    assert s[..k] + s[k..k + |t|] == s[..k + |t|];
  }

  // ------------------------------------------------------------ the formats and the texts

  lemma NoSpace(s: string)
    requires s != "" && !IsSpace(s[0])
    ensures !AllSpace(s)
  {}

  lemma FirstByteOfEnds()
    ensures KIMI_K2.toolSep[0] == '<' && KIMI_K2.toolEnd[1] == '<' && KIMI_K2.keyValSep[0] == '"'
    ensures XIAOMI_MIMO.toolSep[0] == '"' && XIAOMI_MIMO.toolEnd[2] == '<' && XIAOMI_MIMO.keyValSep[0] == '"'
    ensures KIMI_K2.toolSep != "" && KIMI_K2.keyValSep != "" && XIAOMI_MIMO.toolSep != "" && XIAOMI_MIMO.keyValSep != ""
  {}

  lemma KimiIsStrict()
    ensures StrictFormat(KIMI_K2)
  {
    NoSpace(KIMI_K2.scopeStart);
    NoSpace(KIMI_K2.toolSep);
  }

  lemma XiaomiIsStrict()
    ensures StrictFormat(XIAOMI_MIMO)
  {
    NoSpace(XIAOMI_MIMO.toolSep);
  }

  lemma NotHeld(text: string, tag: string, n: nat)
    requires n < |tag| && tag[n] !in text
    ensures !Contains(text, tag)
  {
    ContainsMeans(text, tag);
    forall i: nat ensures !OccursAt(text, tag, i) {
      assert i + |tag| <= |text| ==> text[i..i + |tag|][n] == text[i + n];
    }
  }

  /** The delimiters of Kimi-K2 and Xiaomi MiMo are such a format, for names and keys of ordinary characters. */
  lemma DeployedFirstValue(src: Source, form: Format, name: string, key: string, at: nat)
    requires form in {KIMI_K2, XIAOMI_MIMO} && at <= |src.input| && src.input[..at] == OpenedValue(form, name, key)
    requires '<' !in name && '"' !in name && '"' !in key
    ensures FirstValueAt(src, form, name, key, at)
  {
    hide StrictFormat; hide OpenedValue; hide Contains; hide FirstAt;
    FirstByteOfEnds();
    KimiIsStrict();
    XiaomiIsStrict();
    FirstByByte(name, form.toolSep);
    FirstByByte(key, form.keyValSep);
    NotHeld(name, form.toolEnd, if form == KIMI_K2 then 1 else 2);
  }

  /** On the text of such a call, a structured value cut after the first half of a surrogate pair, wherever in it the
      string is that holds the pair, fails the assertion. */
  lemma HalfPairFails(src: Source, form: Format, name: string, key: string, at: nat, calls: seq<ToolCall>,
                      marker: string, lead: string, front: string, e: string)
    requires FirstValueAt(src, form, name, key, at) && HealsAsShipped(src.readJson, marker)
    requires var json := JsonAt(src, at);
             && json.Read? && json.marker != "" && json.size == |src.input| - at && Structured(json.value)
             && Once(Dump([(key, json.value)]), marker)
    requires src.input[at..] == lead + (front + e)
    requires OpenAt(lead, 0, None) == Some(|lead|) && Utf8.WellFormed(front) && Decode(front).Some? && HalfPair(e)
    ensures TryConsume(src, form, 0, calls).ending.AssertFails?
  {
    hide *;
    HalfPairText(lead, front, e);
    CutValueExactly(src, form, name, key, at, calls, marker);
  }

  /** Such a value: `{"k":"\ud83d`. */
  lemma HalfPairInObject()
    ensures LosesPadding("{\"k\":\"\\ud83d")
  {
    HalfIsHalf();
    LeadIsOpen();
    hide *;
    NothingDecoded();
    HalfPairText("{\"k\":\"", "", "\\ud83d");
    assert "{\"k\":\"" + ("" + "\\ud83d") == "{\"k\":\"\\ud83d";
  }

  lemma NothingDecoded()
    ensures Decode("") == Some("") && Utf8.WellFormed("")
  {}

  lemma HalfIsHalf()
    ensures HalfPair("\\ud83d")
  {
    assert "\\ud83d"[2..6] == "d83d";
  }

  lemma LeadIsOpen()
    ensures OpenAt("{\"k\":\"", 0, None) == Some(|"{\"k\":\""|)
  {
    var t := "{\"k\":\"";
    assert OpenAt(t, 6, Some(6)) == Some(6);
    assert OpenAt(t, 5, None) == OpenAt(t, 6, Some(6));
    assert OpenAt(t, 4, None) == OpenAt(t, 5, None);
    assert OpenAt(t, 3, Some(2)) == OpenAt(t, 4, None);
    assert OpenAt(t, 2, Some(2)) == OpenAt(t, 3, Some(2));
    assert OpenAt(t, 1, None) == OpenAt(t, 2, Some(2));
  }
}
