/** Inputs on which the parser of tool calls reads an empty optional. */
module XmlFaults {
  import opened Wrappers
  import opened Text
  import opened ChatTypes
  import opened LiteralSearch
  import opened XmlSpec
  import opened XmlFormats
  import opened XmlLaws
  import XmlRoundTrip

  lemma SliceStarts(s: string, i: nat, k: nat, t: string)
    requires i < k <= |s| && s[i..k] == t
    ensures t != "" && s[i] == t[0] && (|t| > 1 ==> i + 1 < |s| && s[i + 1] == t[1])
  {}

  lemma PrefixStarts(t: string, literal: string)
    requires t <= literal && t != ""
    ensures literal != "" && t[0] == literal[0] && (|t| > 1 ==> |literal| > 1 && t[1] == literal[1])
  {}

  /** A match, whole or at the end of the input, starts with the first bytes of the literal. */
  lemma MatchStarts(src: Source, pos: nat, literal: string)
    requires pos <= |src.input| && literal != ""
    ensures var r := FindLiteral(src.input, src.partial, pos, literal);
            r.Some? ==>
              && pos <= r.value.begin < |src.input| && src.input[r.value.begin] == literal[0]
              && (|literal| > 1 && r.value.begin + 1 < |src.input| ==> src.input[r.value.begin + 1] == literal[1])
  {
    hide *;
    var s := src.input;
    if FindLiteral(s, src.partial, pos, literal).Some? {
      var r := FindLiteral(s, src.partial, pos, literal).value;
      ConsumesPreludeAndMatch(s, src.partial, pos, literal);
      SliceStarts(s, r.begin, r.end, s[r.begin..r.end]);
      PrefixStarts(s[r.begin..r.end], literal);
    }
  }

  // ------------------------------------------------------------ searches behind a name

  /** Some brace from `at` on is followed, after spaces, by what agrees with `scope`. */
  predicate BraceAgrees(s: string, at: nat, scope: string) {
    exists k: nat :: at <= k < |s| && s[k] == '}' && AgreesAt(s, scope, SkipSpaces(s, k + 1))
  }

  lemma BraceFound(src: Source, at: nat)
    requires at <= |src.input|
    ensures var r := FindLiteral(src.input, src.partial, at, "}");
            && (r.Some? ==> src.input[r.value.begin] == '}' && r.value.end == r.value.begin + 1)
            && forall k: nat | at <= k < |src.input| && src.input[k] == '}' :: r.Some? && r.value.begin <= k
  {
    var s := src.input;
    FindIsFirst(s, "}", at);
    forall k: nat | at <= k < |s| && s[k] == '}' ensures OccursAt(s, "}", k) {
      assert s[k..k + 1] == "}";
    }
    MatchStarts(src, at, "}");
    var r := FindLiteral(s, src.partial, at, "}");
    if r.Some? { ConsumesPreludeAndMatch(s, src.partial, at, "}"); }
  }

  lemma {:induction false} FindTwoExactly(src: Source, start: nat, at: nat, scope: string)
    requires start <= at <= |src.input|
    ensures FindTwoFrom(src, start, at, "}", scope).Some? <==> BraceAgrees(src.input, at, scope)
    decreases |src.input| - at
  {
    hide AgreesAt; hide SkipSpaces; hide FindLiteral; hide FindTwoFrom;
    FindTwoStep(src, start, at, "}", scope);
    BraceFound(src, at);
    var m := FindLiteral(src.input, src.partial, at, "}");
    if m.Some? {
      FindTwoExactly(src, start, m.value.begin + 1, scope);
    }
  }

  /** A tool name, up to the end of the text, and the separator after it. */
  predicate NamedLast(s: string, pos: nat, name: string, sep: string) {
    && OccursAt(s, name + sep, pos) && pos + |name + sep| == |s|
    && '"' !in name && |sep| > 2 && sep[0] == '"' && '}' !in sep
  }

  lemma NamedChar(s: string, pos: nat, name: string, sep: string, i: nat)
    requires NamedLast(s, pos, name, sep) && pos <= i < |s|
    ensures s[i] == if i < pos + |name| then name[i - pos] else sep[i - pos - |name|]
  {
    assert s[pos..pos + |name + sep|][i - pos] == s[i];
  }

  lemma PlainEndInName(src: Source, pos: nat, name: string, sep: string) returns (i: nat)
    requires NamedLast(src.input, pos, name, sep) && FindLiteral(src.input, src.partial, pos, "}, ").Some?
    ensures OccursAt(name, "}, ", i)
  {
    hide FindLiteral;
    var s, tag := src.input, "}, ";
    var k := FindLiteral(s, src.partial, pos, tag).value.begin;
    ConsumesPreludeAndMatch(s, src.partial, pos, tag);
    MatchStarts(src, pos, tag);
    NamedChar(s, pos, name, sep, k);
    assert OccursAt(s, tag, k);
    TagInName(s, pos, name, sep, tag, k);
    i := k - pos;
  }

  /** A closing tag found in a text of which the rest holds no brace lies in the name. */
  lemma PlainEndExactly(src: Source, pos: nat, name: string, sep: string)
    requires NamedLast(src.input, pos, name, sep)
    ensures FindLiteral(src.input, src.partial, pos, "}, ").Some? <==> Contains(name, "}, ")
  {
    hide FindLiteral; hide OccursAt; hide Contains;
    var s, tag := src.input, "}, ";
    XmlRoundTrip.OccursFits(s, name + sep, pos);
    hide NamedLast;
    ContainsMeans(name, tag);
    if FindLiteral(s, src.partial, pos, tag).Some? {
      var k := PlainEndInName(src, pos, name, sep);
      assert OccursAt(name, tag, k);
    }
    if Contains(name, tag) {
      var i: nat :| OccursAt(name, tag, i);
      NameInText(s, pos, name, sep, tag, i);
      FoundSomewhere(src, pos, tag, pos + i);
    }
  }

  lemma FoundSomewhere(src: Source, pos: nat, tag: string, k: nat)
    requires pos <= k && OccursAt(src.input, tag, k)
    ensures pos <= |src.input| && FindLiteral(src.input, src.partial, pos, tag).Some?
  {
    FindIsFirst(src.input, tag, pos);
  }

  lemma StopsBefore(s: string, tag: string, k: nat, q: nat)
    requires k <= q < |s| && OccursAt(s, tag, k) && s[q] !in tag
    ensures k + |tag| <= q
  {
    var t := s[k..k + |tag|];
    assert forall i | k <= i < k + |tag| :: s[i] == t[i - k];
  }

  /** What occurs in the text from inside the name on, and holds no quote, occurs in the name. */
  lemma TagInName(s: string, pos: nat, name: string, sep: string, tag: string, k: nat)
    requires NamedLast(s, pos, name, sep) && pos <= k < pos + |name| && OccursAt(s, tag, k) && '"' !in tag
    ensures OccursAt(name, tag, k - pos)
  {
    var q := pos + |name|;
    NamedChar(s, pos, name, sep, q);
    StopsBefore(s, tag, k, q);
    forall i | 0 <= i < |tag| ensures name[k - pos + i] == tag[i] {
      NamedChar(s, pos, name, sep, k + i);
      assert s[k..k + |tag|][i] == s[k + i];
    }
    assert name[k - pos..k - pos + |tag|] == tag;
  }

  lemma NameInText(s: string, pos: nat, name: string, sep: string, tag: string, i: nat)
    requires NamedLast(s, pos, name, sep) && OccursAt(name, tag, i)
    ensures OccursAt(s, tag, pos + i)
  {
    forall j | 0 <= j < |tag| ensures s[pos + i + j] == tag[j] {
      NamedChar(s, pos, name, sep, pos + i + j);
      assert name[i..i + |tag|][j] == name[i + j];
    }
    assert s[pos + i..pos + i + |tag|] == tag;
  }

  lemma SpacesInName(s: string, pos: nat, name: string, sep: string, i: nat)
    requires NamedLast(s, pos, name, sep) && i <= |name|
    ensures pos + i <= |s| && SkipSpaces(s, pos + i) == pos + SkipSpaces(name, i)
  {
    var n := SkipSpaces(name, i);
    SkipsExactlySpaces(name, i);
    forall j | pos + i <= j < pos + n ensures IsSpace(s[j]) { NamedChar(s, pos, name, sep, j); }
    NamedChar(s, pos, name, sep, pos + n);
    SkipSpacesIs(s, pos + i, pos + n);
  }

  /** Some brace of the name is followed, after spaces, by `scope`. */
  predicate ScopeInside(name: string, scope: string) {
    exists k | 0 <= k < |name| :: name[k] == '}' && OccursAt(name, scope, SkipSpaces(name, k + 1))
  }

  /** A tool end can be found in the name. */
  predicate EndsInside(name: string) {
    Contains(name, "}, ") || ScopeInside(name, "]</tool_calls>")
  }

  lemma InPrefix(t: string, tag: string, q: nat)
    requires t <= tag && q < |t|
    ensures t[q] in tag
  {
    assert tag[q] == t[q];
  }

  lemma AgreesWhole(t: string, tag: string, q: nat)
    requires (t <= tag || tag <= t) && q < |t| && t[q] !in tag
    ensures tag <= t
  {
    if t <= tag { InPrefix(t, tag, q); }
  }

  lemma TailAgrees(s: string, tag: string, i: nat)
    requires i <= |s|
    ensures tag <= s[i..] <==> OccursAt(s, tag, i)
  {
    if i + |tag| <= |s| { assert s[i..][..|tag|] == s[i..i + |tag|]; }
  }

  lemma QuoteAhead(s: string, pos: nat, name: string, sep: string, i: nat)
    requires NamedLast(s, pos, name, sep) && i <= |name|
    ensures pos + i <= |s| && |name| - i < |s[pos + i..]| && s[pos + i..][|name| - i] == '"'
  {
    NamedChar(s, pos, name, sep, pos + |name|);
  }

  lemma ScopeAgrees(s: string, pos: nat, name: string, sep: string, k: nat, scope: string)
    requires NamedLast(s, pos, name, sep) && k < |name| && '"' !in scope && scope != ""
    ensures pos + k + 1 <= |s|
    ensures AgreesAt(s, scope, SkipSpaces(s, pos + k + 1)) <==> OccursAt(name, scope, SkipSpaces(name, k + 1))
  {
    hide NamedLast; hide OccursAt; hide SkipSpaces;
    var n := SkipSpaces(name, k + 1);
    SpacesInName(s, pos, name, sep, k + 1);
    QuoteAhead(s, pos, name, sep, n);
    TailAgrees(s, scope, pos + n);
    if OccursAt(name, scope, n) { NameInText(s, pos, name, sep, scope, n); }
    if AgreesAt(s, scope, pos + n) {
      AgreesWhole(s[pos + n..], scope, |name| - n);
      InsideName(s, pos, name, sep, scope, n);
    }
  }

  lemma InsideName(s: string, pos: nat, name: string, sep: string, tag: string, n: nat)
    requires NamedLast(s, pos, name, sep) && n <= |name| && OccursAt(s, tag, pos + n) && '"' !in tag && tag != ""
    ensures OccursAt(name, tag, n)
  {
    var q := pos + |name|;
    NamedChar(s, pos, name, sep, q);
    StopsBefore(s, tag, pos + n, q);
    TagInName(s, pos, name, sep, tag, pos + n);
  }

  lemma ScopeEndExactly(src: Source, pos: nat, name: string, sep: string, scope: string)
    requires NamedLast(src.input, pos, name, sep) && '"' !in scope && scope != ""
    ensures FindTwo(src, pos, "}", scope).Some? <==> ScopeInside(name, scope)
  {
    hide AgreesAt; hide SkipSpaces; hide FindLiteral; hide FindTwoFrom; hide NamedLast; hide OccursAt;
    var s := src.input;
    NamedBounds(s, pos, name, sep);
    FindTwoExactly(src, pos, pos, scope);
    if k: nat :| pos <= k < |s| && s[k] == '}' && AgreesAt(s, scope, SkipSpaces(s, k + 1)) {
      BraceInName(s, pos, name, sep, k);
      ScopeAgrees(s, pos, name, sep, k - pos, scope);
      assert name[k - pos] == '}';
    }
    if k :| 0 <= k < |name| && name[k] == '}' && OccursAt(name, scope, SkipSpaces(name, k + 1)) {
      NamedChar(s, pos, name, sep, pos + k);
      ScopeAgrees(s, pos, name, sep, k, scope);
      assert BraceAgrees(s, pos, scope);
    }
  }

  lemma NamedBounds(s: string, pos: nat, name: string, sep: string)
    requires NamedLast(s, pos, name, sep)
    ensures pos + |name| < |s|
  {}

  lemma BraceInName(s: string, pos: nat, name: string, sep: string, k: nat)
    requires NamedLast(s, pos, name, sep) && pos <= k < |s| && s[k] == '}'
    ensures k < pos + |name| && name[k - pos] == '}'
  {
    NamedChar(s, pos, name, sep, k);
  }

  lemma ToolEndExactly(src: Source, pos: nat, name: string, sep: string)
    requires NamedLast(src.input, pos, name, sep)
    ensures FindToolEnd(src, APRIEL, pos).found.Some? <==> EndsInside(name)
  {
    hide FindLiteral; hide FindTwo; hide Contains; hide ScopeInside; hide NamedLast;
    PlainEndExactly(src, pos, name, sep);
    ScopeEndExactly(src, pos, name, sep, "]</tool_calls>");
  }

  /** With the delimiters of the Apriel format, and the text complete or not, the name step reads an empty optional
      exactly when the name holds a closing brace and no tool end. */
  lemma BraceInNameDerefsExactly(src: Source, pos: nat, name: string)
    requires '"' !in name && OccursAt(src.input, name + APRIEL.toolSep, pos)
    requires pos + |name + APRIEL.toolSep| == |src.input|
    ensures FindName(src, APRIEL, pos) == NoName(NullDeref) <==> '}' in name && !EndsInside(name)
  {
    hide *;
    SeparatorIs();
    AprielEnds();
    SeparatorFound(src, pos, name);
    BraceHeld(name);
    NamedLastIs(src.input, pos, name, APRIEL.toolSep);
    ToolEndExactly(src, pos, name, APRIEL.toolSep);
    NullDerefExactlyWhen(src, APRIEL, pos);
  }

  lemma NamedLastIs(s: string, pos: nat, name: string, sep: string)
    requires OccursAt(s, name + sep, pos) && pos + |name + sep| == |s|
    requires '"' !in name && |sep| > 2 && sep[0] == '"' && '}' !in sep
    ensures NamedLast(s, pos, name, sep)
  {}

  lemma AprielEnds()
    ensures APRIEL.lastToolEnd == Some("}")
  {}

  lemma SeparatorIs()
    ensures |APRIEL.toolSep| > 2 && APRIEL.toolSep[0] == '"' && !AllSpace(APRIEL.toolSep) && '}' !in APRIEL.toolSep
    ensures NameSeparator(APRIEL) == APRIEL.toolSep
  {
    assert !IsSpace(APRIEL.toolSep[0]);
  }

  lemma FirstByByte(text: string, tag: string)
    requires tag != "" && tag[0] !in text
    ensures FirstAt(text, tag)
  {
    forall i: nat | i < |text| ensures !OccursAt(text + tag, tag, i) {
      assert (text + tag)[i] == text[i] != tag[0];
      NotHere(text + tag, tag, i);
    }
  }

  lemma SeparatorFound(src: Source, pos: nat, name: string)
    requires '"' !in name && OccursAt(src.input, name + APRIEL.toolSep, pos)
    ensures FindLiteral(src.input, src.partial, pos, NameSeparator(APRIEL)) ==
            Some(Match(name, pos + |name|, pos + |name| + |APRIEL.toolSep|))
  {
    hide *;
    SeparatorIs();
    FirstByByte(name, APRIEL.toolSep);
    XmlRoundTrip.Splits(src.input, name, APRIEL.toolSep, pos);
    XmlRoundTrip.FoundInPlace(src, pos, name, APRIEL.toolSep);
  }

  lemma BraceHeld(name: string)
    ensures Contains(name, "}") <==> '}' in name
  {
    ContainsMeans(name, "}");
    if i: nat :| OccursAt(name, "}", i) {
      assert name[i] == name[i..i + 1][0];
    }
    if '}' in name {
      var i :| 0 <= i < |name| && name[i] == '}';
      assert name[i..i + 1] == "}";
      assert OccursAt(name, "}", i);
    }
  }

  /** The text of a call as far as its arguments. */
  function CallText(name: string): string {
    APRIEL.scopeStart + (APRIEL.toolStart + (name + APRIEL.toolSep))
  }

  /** With such a name the whole attempt on that text ends there. */
  lemma BracedCallDerefs(src: Source, name: string, calls: seq<ToolCall>)
    requires '"' !in name && src.input == CallText(name) && '}' in name && !EndsInside(name)
    ensures TryConsume(src, APRIEL, 0, calls).ending == NullDeref
  {
    hide *;
    var i, j := |APRIEL.scopeStart|, |APRIEL.scopeStart| + |APRIEL.toolStart|;
    CallParts(src.input, name);
    XmlRoundTrip.FoundHere(src, 0, APRIEL.scopeStart);
    XmlRoundTrip.FoundHere(src, i, APRIEL.toolStart);
    ScopeIsText();
    BraceInNameDerefsExactly(src, j, name);
    CallSteps(src, APRIEL, j, true);
    EmptyIsSpace();
    CallsSteps(src, APRIEL, 0, i, calls, true);
    ScopeOpened(src, APRIEL, 0, calls, i);
  }

  lemma CallParts(input: string, name: string)
    requires input == CallText(name)
    ensures var i, j := |APRIEL.scopeStart|, |APRIEL.scopeStart| + |APRIEL.toolStart|;
            && OccursAt(input, APRIEL.scopeStart, 0) && OccursAt(input, APRIEL.toolStart, i)
            && OccursAt(input, name + APRIEL.toolSep, j) && j + |name + APRIEL.toolSep| == |input|
  {
    hide APRIEL; hide OccursAt;
    var rest := name + APRIEL.toolSep;
    WholeOccurs(input);
    XmlRoundTrip.Splits(input, APRIEL.scopeStart, APRIEL.toolStart + rest, 0);
    XmlRoundTrip.Splits(input, APRIEL.toolStart, rest, |APRIEL.scopeStart|);
  }

  lemma WholeOccurs(s: string)
    ensures OccursAt(s, s, 0)
  {
    assert s[0..|s|] == s;
  }

  lemma EmptyIsSpace()
    ensures AllSpace("")
  {}

  lemma ScopeIsText()
    ensures !AllSpace(APRIEL.scopeStart)
  {
    assert APRIEL.scopeStart[0] == '<';
  }
}
