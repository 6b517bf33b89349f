/** Delimiters, and the text before them, while the text grows. */
module XmlGrowth {
  import opened Wrappers
  import opened Text
  import opened LiteralSearch
  import opened XmlSpec
  import Utf8

  // ------------------------------------------------------------ delimiters in a growing text

  /** Begins with a character that is no space and occurs once, and begins and ends with single bytes. */
  predicate Sharp(tag: string) {
    && tag != "" && !IsSpace(tag[0]) && tag[0] as int < 0x80 && tag[|tag| - 1] as int < 0x80
    && forall i | 0 < i < |tag| :: tag[i] != tag[0]
  }

  function Search(src: Source, pos: nat, tag: string): (r: Option<Match>)
    requires pos <= |src.input|
    ensures r.Some? ==> pos <= r.value.begin <= r.value.end <= |src.input| && PreludeFrom(src.input, pos, r.value)
  {
    FindLiteral(src.input, src.partial, pos, tag)
  }

  /** The whole delimiter was found. */
  predicate Whole(r: Option<Match>, tag: string) {
    r.Some? && r.value.end - r.value.begin == |tag|
  }

  /** Where the text before a delimiter surely ends: at its match, or at the end of the text. */
  function Bound(src: Source, pos: nat, tag: string): (b: nat)
    requires pos <= |src.input|
    ensures pos <= b <= |src.input|
  {
    var r := Search(src, pos, tag);
    if r.Some? then r.value.begin else |src.input|
  }

  /** The text of `src` is still growing, and becomes that of `src'`. */
  ghost predicate Grows(src: Source, src': Source) {
    && src.partial && src.input <= src'.input && src.kimiK2 == src'.kimiK2 && src.readJson == src'.readJson
  }

  lemma WholeOccurs(src: Source, pos: nat, tag: string)
    requires pos <= |src.input| && tag != "" && Whole(Search(src, pos, tag), tag)
    ensures var r := Search(src, pos, tag).value;
            Find(src.input, tag, pos) == Some(r.begin) && OccursAt(src.input, tag, r.begin)
  {
    var r := Search(src, pos, tag).value;
    ConsumesPreludeAndMatch(src.input, src.partial, pos, tag);
    FindIsFirst(src.input, tag, pos);
    assert r.end == |src.input| ==> src.input[r.begin..r.end] == src.input[r.begin..];
    assert OccursAt(src.input, tag, r.begin);
  }

  /** A whole match stays. */
  lemma WholeStays(src: Source, src': Source, pos: nat, tag: string)
    requires Grows(src, src') && pos <= |src.input| && tag != "" && Whole(Search(src, pos, tag), tag)
    ensures pos <= |src'.input| && Search(src', pos, tag) == Search(src, pos, tag)
  {
    WholeOccurs(src, pos, tag);
    FindExtends(src.input, src'.input, tag, pos);
    var r := Search(src, pos, tag).value;
    assert src.input[pos..r.begin] == src'.input[pos..r.begin];
  }

  /** A sharp delimiter can begin at one place at most in the end of a text. */
  lemma OneTail(s: string, tag: string, i: nat, j: nat)
    requires Sharp(tag) && PartialAt(s, tag, i) && PartialAt(s, tag, j)
    ensures i == j
  {
    if i < j {
      TailByte(s, tag, i, j);
    } else if j < i {
      TailByte(s, tag, j, i);
    }
  }

  lemma TailByte(s: string, tag: string, i: nat, j: nat)
    requires Sharp(tag) && PartialAt(s, tag, i) && i < j
    ensures !PartialAt(s, tag, j)
  {
    if j < |s| {
      assert s[i..][j - i] == s[j] == s[j..][0];
    }
  }

  lemma NotWhole(src: Source, pos: nat, tag: string)
    requires pos <= |src.input| && tag != "" && !Whole(Search(src, pos, tag), tag)
    ensures Find(src.input, tag, pos).None?
    ensures var r := Search(src, pos, tag); r.Some? ==> PartialAt(src.input, tag, r.value.begin)
  {
    PartialIsFirst(src.input, tag, 0);
  }

  lemma MatchByte(src: Source, pos: nat, tag: string)
    requires pos <= |src.input| && Sharp(tag) && Search(src, pos, tag).Some?
    ensures var b := Search(src, pos, tag).value.begin; b < |src.input| && src.input[b] == tag[0]
  {
    ConsumesPreludeAndMatch(src.input, src.partial, pos, tag);
    var r := Search(src, pos, tag).value;
    hide FindLiteral;
    var t := src.input[r.begin..r.end];
    assert t[0] == src.input[r.begin];
    assert t[0] == tag[0];
  }

  lemma NothingAtEnd(src: Source, tag: string)
    requires Sharp(tag)
    ensures Search(src, |src.input|, tag).None?
  {
    if Search(src, |src.input|, tag).Some? { MatchByte(src, |src.input|, tag); }
  }

  /** The text before a delimiter only grows, and a delimiter once bounded is never found before its bound. */
  lemma BoundGrows(src: Source, src': Source, pos: nat, tag: string)
    requires Grows(src, src') && pos <= |src.input| && Sharp(tag)
    ensures pos <= |src'.input| && Bound(src, pos, tag) <= Bound(src', pos, tag)
    ensures Whole(Search(src, pos, tag), tag) ==> Search(src', pos, tag) == Search(src, pos, tag)
  {
    if Whole(Search(src, pos, tag), tag) {
      WholeStays(src, src', pos, tag);
    } else {
      NotWhole(src, pos, tag);
      var r' := Search(src', pos, tag);
      if r'.Some? && r'.value.begin < |src.input| {
        TailOfMatch(src.input, src'.input, src'.partial, pos, tag);
        PartialIsFirst(src.input, tag, 0);
        OneTail(src.input, tag, r'.value.begin, PartialStop(src.input, tag).value);
      }
    }
  }

  /** The text agrees with the delimiter at `e`, as far as a growing text goes, or to the end of the delimiter. */
  predicate Begins(src: Source, tag: string, e: nat)
    requires e <= |src.input|
  {
    AgreesAt(src.input, tag, e) && (src.partial || e + |tag| <= |src.input|)
  }

  lemma NothingInside(src: Source, pos: nat, e: nat, tag: string)
    requires pos <= e <= |src.input| && Sharp(tag) && forall i | pos <= i < e :: src.input[i] != tag[0]
    ensures var r := Search(src, pos, tag); r.Some? ==> e <= r.value.begin
  {
    if Search(src, pos, tag).Some? {
      var b := Search(src, pos, tag).value.begin;
      ConsumesPreludeAndMatch(src.input, src.partial, pos, tag);
      var r := Search(src, pos, tag).value;
      hide FindLiteral;
      var t := src.input[r.begin..r.end];
      assert t[0] == src.input[r.begin];
      assert t[0] == tag[0];
    }
  }

  /** A delimiter that agrees with the text at `e`, and begins nowhere before, is found there in a growing text. */
  lemma FoundAt(src: Source, pos: nat, e: nat, tag: string)
    requires pos <= e < |src.input| && Sharp(tag) && Begins(src, tag, e)
    requires forall i | pos <= i < e :: src.input[i] != tag[0]
    ensures var r := Search(src, pos, tag);
            && r.Some? && r.value.begin == e && r.value.prelude == src.input[pos..e]
            && r.value.end == (if e + |tag| <= |src.input| then e + |tag| else |src.input|)
  {
    var s := src.input;
    NothingInside(src, pos, e, tag);
    if tag <= s[e..] {
      assert s[e..e + |tag|] == s[e..][..|tag|];
      forall i: nat | pos <= i < e ensures !OccursAt(s, tag, i) { NotHere(s, tag, i); }
      FindIs(s, tag, pos, e);
    } else {
      assert PartialAt(s, tag, e);
      PartialIsFirst(s, tag, 0);
      OneTail(s, tag, PartialStop(s, tag).value, e);
      FindIsFirst(s, tag, pos);
    }
  }

  // ------------------------------------------------------------ bytes at the end of a growing text

  lemma {:induction false} ScanPastAscii(s: string, i: nat, back: nat, k: nat)
    requires i <= |s| && k < i && s[k] as int < 0x80 && |s| - i == back <= 4
    ensures Utf8.ScanBack(s, i, back) > k
    decreases i
  {
    if back < 4 && i > 0 && 0x80 <= s[i - 1] as int < 0xC0 {
      assert i - 1 != k;
      ScanPastAscii(s, i - 1, back + 1, k);
    }
  }

  /** The cut drops no single-byte character. */
  lemma CutAfterAscii(s: string, k: nat)
    requires k < |s| && s[k] as int < 0x80
    ensures Utf8.TruncateSafe(s) > k
  {
    ScanPastAscii(s, |s|, 0, k);
  }

  /** In a growing well-formed text the cut moves forward. */
  lemma CutGrows(a: string, b: string, w: string)
    requires a <= b <= w && Utf8.WellFormed(w)
    ensures Utf8.TruncateSafe(a) <= Utf8.TruncateSafe(b)
  {
    Utf8.CutIsLongestWellFormedPrefix(a, w);
    Utf8.CutIsLongestWellFormedPrefix(b, w);
    var r := Utf8.TruncateSafe(a);
    assert a[..r] == b[..r];
  }

  /** A character starts at `pos`. */
  predicate AtChar(w: string, pos: nat) {
    pos <= |w| && Utf8.WellFormed(w[pos..])
  }

  lemma {:induction false} AfterAscii(w: string, pos: nat, k: nat)
    requires AtChar(w, pos) && pos <= k < |w| && w[k] as int < 0x80
    ensures AtChar(w, k + 1)
    decreases k - pos
  {
    var n := Utf8.CharLength(w[pos..]);
    assert w[pos..][n..] == w[pos + n..];
    if k >= pos + n {
      AfterAscii(w, pos + n, k);
    } else {
      assert w[k] == w[pos..][k - pos];
      assert k == pos && n == 1;
    }
  }

  lemma AtAscii(w: string, pos: nat, k: nat)
    requires AtChar(w, pos) && pos <= k < |w| && w[k] as int < 0x80
    ensures AtChar(w, k)
    decreases k - pos
  {
    if pos < k {
      var n := Utf8.CharLength(w[pos..]);
      assert w[pos..][n..] == w[pos + n..];
      if k < pos + n { TailIsHigh(w, pos, k); }
      if k >= pos + n { AtAscii(w, pos + n, k); }
    }
  }

  lemma TailIsHigh(w: string, pos: nat, k: nat)
    requires pos < k < |w| && k < pos + Utf8.CharLength(w[pos..])
    ensures w[k] as int >= 0x80
  {
    assert w[k] == w[pos..][k - pos];
  }

  lemma AfterFirst(a: string, w: string)
    requires a <= w && a != "" && Utf8.WellFormed(a)
    ensures var n := Utf8.CharLength(a);
            n == Utf8.CharLength(w) && 0 < n <= |a| && Utf8.WellFormed(a[n..]) && a[n..] <= w[n..]
  {
    Utf8.CharLengthOfExtension(a, w);
  }

  lemma DropTwice(s: string, n: nat, pos: nat)
    requires n <= pos <= |s|
    ensures s[n..][pos - n..] == s[pos..]
  {}

  /** From a character on, a well-formed text is well-formed. */
  lemma {:induction false} FromChar(a: string, w: string, pos: nat)
    requires a <= w && Utf8.WellFormed(a) && pos <= |a| && AtChar(w, pos)
    ensures Utf8.WellFormed(a[pos..])
    decreases pos
  {
    hide Utf8.WellFormed; hide Utf8.CharLength;
    if pos == 0 {
      assert a[0..] == a;
    } else {
      AfterFirst(a, w);
      var n := Utf8.CharLength(a);
      if pos >= n {
        DropTwice(a, n, pos);
        DropTwice(w, n, pos);
        FromChar(a[n..], w[n..], pos - n);
      } else {
        InsideChar(w, pos);
      }
    }
  }

  /** Inside a character no other starts. */
  lemma InsideChar(w: string, pos: nat)
    requires 0 < pos < Utf8.CharLength(w)
    ensures !Utf8.WellFormed(w[pos..])
  {
    assert w[pos..][0] == w[pos];
    assert Utf8.CharLength(w[pos..]) == 0;
  }

  /** Up to a single-byte character, a well-formed text is well-formed. */
  lemma {:induction false} UpToAscii(t: string, k: nat)
    requires Utf8.WellFormed(t) && k < |t| && t[k] as int < 0x80
    ensures Utf8.WellFormed(t[..k])
    decreases k
  {
    if k > 0 {
      var n := Utf8.CharLength(t);
      if k >= n {
        UpToAscii(t[n..], k - n);
        assert t[..k][n..] == t[n..][..k - n];
        Utf8.CharLengthOfPrefix(t[..k], t);
      }
    }
  }

  // ------------------------------------------------------------ the text seen so far

  /** A delimiter search reads the whole, well-formed text `w` from a character on. */
  predicate Reads(src: Source, w: string, pos: nat) {
    src.input <= w && Utf8.WellFormed(w) && pos <= |src.input| && AtChar(w, pos)
  }

  /** The text before the delimiter: up to its match, or as far as it has arrived, without half a character. */
  function SeenText(src: Source, pos: nat, tag: string): string
    requires pos <= |src.input|
  {
    var r := Search(src, pos, tag);
    if r.Some? then r.value.prelude else SafeRest(src, pos)
  }

  lemma SeenIsPrefix(src: Source, pos: nat, tag: string)
    requires pos <= |src.input|
    ensures var b := Bound(src, pos, tag); SeenText(src, pos, tag) <= src.input[pos..b]
    ensures Search(src, pos, tag).Some? ==> SeenText(src, pos, tag) == src.input[pos..Bound(src, pos, tag)]
  {
    hide FindLiteral;
    assert src.input[pos..] == src.input[pos..|src.input|];
  }

  /** Of a text that is well-formed in the end, whole characters have been seen. */
  lemma SeenIsWhole(src: Source, w: string, pos: nat, tag: string)
    requires Reads(src, w, pos) && Sharp(tag)
    ensures Utf8.WellFormed(SeenText(src, pos, tag))
  {
    hide FindLiteral; hide Utf8.WellFormed; hide Utf8.TruncateSafe;
    var v := w[pos..];
    if Search(src, pos, tag).Some? {
      BegunByte(src, pos, tag);
      var b := Search(src, pos, tag).value.begin;
      assert v[b - pos] == w[b] == src.input[b];
      UpToAscii(v, b - pos);
      assert src.input[pos..b] == v[..b - pos];
    } else {
      var rest := src.input[pos..];
      assert rest <= v;
      Utf8.CutIsLongestWellFormedPrefix(rest, v);
    }
  }

  lemma SafeRestGrows(src: Source, src': Source, pos: nat, w: string)
    requires Grows(src, src') && Reads(src', w, pos) && pos <= |src.input|
    ensures SafeRest(src, pos) <= SafeRest(src', pos)
  {
    hide Utf8.TruncateSafe; hide Utf8.WellFormed;
    var a, b := src.input[pos..], src'.input[pos..];
    assert a <= b <= w[pos..];
    CutGrows(a, b, w[pos..]);
  }

  /** Once a delimiter has begun, what stands before it stays, even if it was not the delimiter after all. */
  lemma BegunStays(src: Source, src': Source, pos: nat, tag: string)
    requires Grows(src, src') && pos <= |src.input| && Sharp(tag)
    requires Search(src, pos, tag).Some? && Search(src', pos, tag).None?
    ensures pos <= |src'.input| && SeenText(src, pos, tag) <= SafeRest(src', pos)
  {
    hide Utf8.TruncateSafe; hide Sharp;
    BegunByte(src, pos, tag);
    var b := Search(src, pos, tag).value.begin;
    var rest := src'.input[pos..];
    assert rest[b - pos] == src.input[b];
    CutAfterAscii(rest, b - pos);
    assert src.input[pos..b] == rest[..b - pos];
    hide FindLiteral;
  }

  lemma BegunByte(src: Source, pos: nat, tag: string)
    requires pos <= |src.input| && Sharp(tag) && Search(src, pos, tag).Some?
    ensures var b := Search(src, pos, tag).value.begin; b < |src.input| && src.input[b] as int < 0x80
  {
    var r := Search(src, pos, tag).value;
    ConsumesPreludeAndMatch(src.input, src.partial, pos, tag);
    hide FindLiteral;
    var t := src.input[r.begin..r.end];
    assert t[0] == src.input[r.begin];
    assert t[0] == tag[0];
  }

  lemma SeenGrows(src: Source, src': Source, pos: nat, tag: string, w: string)
    requires Grows(src, src') && Reads(src', w, pos) && pos <= |src.input| && Sharp(tag)
    ensures SeenText(src, pos, tag) <= SeenText(src', pos, tag)
  {
    hide FindLiteral; hide Sharp; hide Utf8.TruncateSafe; hide AtChar; hide Utf8.WellFormed;
    BoundGrows(src, src', pos, tag);
    SeenIsPrefix(src, pos, tag);
    SeenIsPrefix(src', pos, tag);
    if Search(src', pos, tag).Some? {
      var b, b' := Bound(src, pos, tag), Bound(src', pos, tag);
      assert src.input[pos..b] <= src'.input[pos..b'];
    } else if Search(src, pos, tag).Some? {
      BegunStays(src, src', pos, tag);
    } else {
      SafeRestGrows(src, src', pos, w);
    }
  }

  /** After a whole sharp delimiter a character starts. */
  lemma AfterWhole(src: Source, w: string, pos: nat, tag: string)
    requires Reads(src, w, pos) && Sharp(tag) && Whole(Search(src, pos, tag), tag)
    ensures Reads(src, w, Search(src, pos, tag).value.end)
  {
    hide Utf8.WellFormed; hide FindLiteral;
    var r := Search(src, pos, tag).value;
    WholeOccurs(src, pos, tag);
    assert w[r.end - 1] == src.input[r.begin..r.end][|tag| - 1] == tag[|tag| - 1];
    AfterAscii(w, pos, r.end - 1);
  }

  // ------------------------------------------------------------ the test for a scalar

  lemma {:induction false} DigitsAgree(s: string, t: string, i: nat)
    requires s <= t && i <= |s|
    ensures var a, b := SkipDigits(s, i), SkipDigits(t, i); a <= b && (a < |s| ==> a == b) && (b <= |s| ==> a == b)
    decreases |s| - i
  {
    if i < |s| && '0' <= s[i] <= '9' {
      DigitsAgree(s, t, i + 1);
    }
  }

  /** A non-empty beginning of what may become a number may become one. */
  lemma NumberBegins(s: string, t: string)
    requires s <= t && s != "" && NumberText(t)
    ensures NumberText(s)
  {
    hide SkipDigits;
    DigitsAgree(s, t, 1);
    DigitsEnd(s);
    var whole := SkipDigits(s, 1);
    if whole < |s| {
      if s[whole] == '.' { DigitsAgree(s, t, whole + 1); }
      var fraction := if s[whole] == '.' then SkipDigits(s, whole + 1) else whole;
      if fraction < |s| {
        var sign := fraction + 1;
        DigitsAgree(s, t, sign);
        if sign < |s| { DigitsAgree(s, t, sign + 1); }
      }
    }
  }

  lemma DigitsEnd(s: string)
    ensures SkipDigits(s, |s|) == |s|
  {}

  predicate ScalarText(rest: string) {
    (|rest| < 6 && (rest <= "null" || rest <= "true" || rest <= "false")) || NumberText(rest)
  }

  lemma ScalarBegins(s: string, t: string)
    requires s <= t && ScalarText(t)
    ensures ScalarText(s)
  {
    hide NumberText;
    if NumberText(t) && s != "" { NumberBegins(s, t); }
  }

  function ScalarRest(src: Source, pos: nat): string
    requires pos <= |src.input|
  {
    var from, to := SkipSpaces(src.input, pos), Utf8.TruncateSafe(src.input);
    if from <= to then src.input[from..to] else ""
  }

  lemma ScalarIs(src: Source, pos: nat)
    requires pos <= |src.input|
    ensures ScalarAhead(src, pos) <==> ScalarText(ScalarRest(src, pos))
  {
    hide NumberText; hide SkipSpaces; hide Utf8.TruncateSafe;
  }

  /** What is no scalar does not become one. */
  lemma ScalarShrinks(src: Source, src': Source, pos: nat, w: string)
    requires Grows(src, src') && pos <= |src.input| && src'.input <= w && Utf8.WellFormed(w)
    requires ScalarAhead(src', pos)
    ensures ScalarAhead(src, pos)
  {
    hide ScalarAhead; hide ScalarText; hide Utf8.TruncateSafe; hide SkipSpaces; hide Utf8.WellFormed;
    ScalarIs(src, pos);
    ScalarIs(src', pos);
    CutGrows(src.input, src'.input, w);
    SkipSpacesExtends(src.input, src'.input, pos);
    assert ScalarRest(src, pos) <= ScalarRest(src', pos);
    ScalarBegins(ScalarRest(src, pos), ScalarRest(src', pos));
  }
}