/** Byte strings as the C++ code sees them (one `char` per byte), with the searches and trims
    that the chat parsers are built from. */
module Text {
  import opened Wrappers

  /** `std::isspace` in the C locale: space, \t, \n, \v, \f, \r. */
  predicate IsSpace(c: char) {
    c == ' ' || '\t' <= c <= '\r'
  }

  predicate AllSpace(s: string) {
    forall i | 0 <= i < |s| :: IsSpace(s[i])
  }

  predicate OccursAt(s: string, t: string, i: nat) {
    i + |t| <= |s| && s[i..i + |t|] == t
  }

  /** `std::string::find(t, from)`. */
  function Find(s: string, t: string, from: nat): (r: Option<nat>)
    requires from <= |s|
    ensures r.Some? ==> from <= r.value && r.value + |t| <= |s|
    decreases |s| - from
  {
    if OccursAt(s, t, from) then Some(from)
    else if from == |s| then None
    else Find(s, t, from + 1)
  }

  predicate Contains(s: string, t: string) {
    Find(s, t, 0).Some?
  }

  /** A non-empty tail of `s`, starting at `i`, is the beginning of `stop`. */
  predicate PartialAt(s: string, stop: string, i: nat) {
    i < |s| && s[i..] <= stop
  }

  function PartialFrom(s: string, stop: string, from: nat): (r: Option<nat>)
    requires from <= |s|
    ensures r.Some? ==> from <= r.value < |s|
    decreases |s| - from
  {
    if PartialAt(s, stop, from) then Some(from)
    else if from == |s| then None
    else PartialFrom(s, stop, from + 1)
  }

  /** Where the longest tail of `s` that could still become `stop` starts. */
  function PartialStop(s: string, stop: string): Option<nat> {
    PartialFrom(s, stop, 0)
  }

  /** The first position at or after `i` that does not hold a space. */
  function SkipSpaces(s: string, i: nat): (r: nat)
    requires i <= |s|
    ensures i <= r <= |s|
    decreases |s| - i
  {
    if i < |s| && IsSpace(s[i]) then SkipSpaces(s, i + 1) else i
  }

  /** The end of `s[lo..hi]` once its trailing spaces are dropped. */
  function TrimEnd(s: string, lo: nat, hi: nat): (r: nat)
    requires lo <= hi <= |s|
    ensures lo <= r <= hi
    decreases hi
  {
    if lo < hi && IsSpace(s[hi - 1]) then TrimEnd(s, lo, hi - 1) else hi
  }

  function Strip(s: string): string {
    var lo := SkipSpaces(s, 0);
    s[lo..TrimEnd(s, lo, |s|)]
  }

  /** The rest of `s` from `i` and `tag` agree as far as both go. */
  predicate AgreesAt(s: string, tag: string, i: nat)
    requires i <= |s|
  {
    s[i..] <= tag || tag <= s[i..]
  }

  // ---------------------------------------------------------------- searching

  /** `Find` returns the first occurrence, and nothing only when there is none. */
  lemma {:induction false} FindIsFirst(s: string, t: string, from: nat)
    requires from <= |s|
    ensures match Find(s, t, from)
            case Some(k) => from <= k && OccursAt(s, t, k) && forall i: nat | from <= i < k :: !OccursAt(s, t, i)
            case None => forall i: nat | from <= i :: !OccursAt(s, t, i)
    decreases |s| - from
  {
    if !OccursAt(s, t, from) && from < |s| {
      FindIsFirst(s, t, from + 1);
    }
  }

  lemma NotHere(s: string, t: string, i: nat)
    requires i < |s| && t != "" && s[i] != t[0]
    ensures !OccursAt(s, t, i)
  {
    assert i + |t| <= |s| ==> s[i..i + |t|][0] == s[i];
  }

  lemma FindIs(s: string, t: string, from: nat, k: nat)
    requires from <= k && OccursAt(s, t, k)
    requires forall i: nat | from <= i < k :: !OccursAt(s, t, i)
    ensures from <= |s| && Find(s, t, from) == Some(k)
  {
    FindIsFirst(s, t, from);
  }

  lemma ContainsMeans(s: string, t: string)
    ensures Contains(s, t) <==> exists i: nat :: OccursAt(s, t, i)
  {
    FindIsFirst(s, t, 0);
  }

  lemma ContainedInside(a: string, b: string, c: string, t: string)
    requires Contains(b, t)
    ensures Contains(a + (b + c), t)
  {
    FindIsFirst(b, t, 0);
    FindIsFirst(a + (b + c), t, 0);
    var i := Find(b, t, 0).value;
    assert (a + (b + c))[|a| + i..|a| + i + |t|] == b[i..i + |t|];
    assert OccursAt(a + (b + c), t, |a| + i);
  }

  /** `PartialStop` returns the start of the longest tail that is a beginning of `stop`. */
  lemma {:induction false} PartialIsFirst(s: string, stop: string, from: nat)
    requires from <= |s|
    ensures match PartialFrom(s, stop, from)
            case Some(k) =>
              from <= k && PartialAt(s, stop, k) && forall i: nat | from <= i < k :: !PartialAt(s, stop, i)
            case None => forall i: nat | from <= i :: !PartialAt(s, stop, i)
    decreases |s| - from
  {
    if !PartialAt(s, stop, from) && from < |s| {
      PartialIsFirst(s, stop, from + 1);
    }
  }

  lemma SliceOfSlice(s: string, a: nat, b: nat, i: nat, j: nat)
    requires a <= b <= |s| && i <= j <= b - a
    ensures s[a..b][i..j] == s[a + i..a + j]
  {
    var inner := s[a..b];
    forall k | 0 <= k < j - i ensures inner[i..j][k] == s[a + i..a + j][k] {
      assert inner[i..j][k] == inner[i + k] == s[a + i + k];
    }
  }

  lemma OccursInExtension(s: string, s': string, t: string, i: nat)
    requires s <= s'
    ensures OccursAt(s, t, i) ==> OccursAt(s', t, i)
    ensures i + |t| <= |s| ==> (OccursAt(s, t, i) <==> OccursAt(s', t, i))
  {
    if i + |t| <= |s| {
      assert s[i..i + |t|] == s'[i..i + |t|];
    }
  }

  /** Text that arrives later cannot change a match that was already complete; a new match must
      reach into the new text. */
  lemma {:induction false} FindExtends(s: string, s': string, t: string, from: nat)
    requires s <= s' && from <= |s|
    ensures Find(s, t, from).Some? ==> Find(s', t, from) == Find(s, t, from)
    ensures Find(s, t, from).None? && Find(s', t, from).Some? ==> |s| < Find(s', t, from).value + |t|
  {
    FindIsFirst(s, t, from);
    FindIsFirst(s', t, from);
    forall i: nat | i + |t| <= |s|
      ensures OccursAt(s, t, i) <==> OccursAt(s', t, i)
    {
      OccursInExtension(s, s', t, i);
    }
    match Find(s, t, from) {
      case Some(k) => FindIs(s', t, from, k);
      case None =>
    }
  }

  /** Searching a view that starts at `from` is searching the whole text from there. */
  lemma {:induction false} PartialStopOfView(s: string, stop: string, from: nat)
    requires from <= |s|
    ensures PartialStop(s[from..], stop).None? <==> PartialFrom(s, stop, from).None?
    ensures PartialStop(s[from..], stop).Some? ==>
              PartialFrom(s, stop, from) == Some(from + PartialStop(s[from..], stop).value)
  {
    var v := s[from..];
    PartialIsFirst(v, stop, 0);
    PartialIsFirst(s, stop, from);
    forall i: nat
      ensures PartialAt(v, stop, i) <==> PartialAt(s, stop, from + i)
    {
      if from + i < |s| {
        assert v[i..] == s[from + i..];
      }
    }
    if PartialFrom(s, stop, from).Some? {
      var k := PartialFrom(s, stop, from).value;
      assert PartialAt(v, stop, k - from);
    }
  }

  /** How much of `s[from..]` may be shown while `tag` is awaited: up to the tag when it is there,
      otherwise up to the longest tail that could still grow into it. */
  function ShownEnd(s: string, tag: string, from: nat): (r: nat)
    requires from <= |s|
    ensures from <= r <= |s|
  {
    match Find(s, tag, from)
    case Some(k) => k
    case None =>
      match PartialFrom(s, tag, from)
      case Some(k) => k
      case None => |s|
  }

  /** What is shown only grows when more text arrives. */
  lemma {:induction false} ShownEndMonotone(s: string, s': string, tag: string, from: nat)
    requires s <= s' && from <= |s|
    ensures ShownEnd(s, tag, from) <= ShownEnd(s', tag, from)
  {
    FindExtends(s, s', tag, from);
    PartialIsFirst(s, tag, from);
    if Find(s, tag, from).None? && ShownEnd(s', tag, from) < |s| {
      PendingTail(s, s', tag, from);
    }
  }

  /** Where the extension stops showing text, the shorter text already held a possible start. */
  lemma PendingTail(s: string, s': string, tag: string, from: nat)
    requires s <= s' && from <= |s| && Find(s, tag, from).None?
    requires ShownEnd(s', tag, from) < |s|
    ensures PartialAt(s, tag, ShownEnd(s', tag, from))
  {
    FindExtends(s, s', tag, from);
    FindIsFirst(s', tag, from);
    PartialIsFirst(s', tag, from);
    var e' := ShownEnd(s', tag, from);
    if Find(s', tag, from).Some? {
      assert s'[e'..e' + |tag|][..|s| - e'] == s[e'..];
    } else {
      assert s'[e'..][..|s| - e'] == s[e'..];
    }
  }

  lemma AgreesInExtension(s: string, s': string, tag: string, i: nat)
    requires s <= s' && i <= |s|
    ensures AgreesAt(s', tag, i) ==> AgreesAt(s, tag, i)
    ensures |tag| <= |s| - i ==> (AgreesAt(s, tag, i) <==> AgreesAt(s', tag, i))
  {
    assert s'[i..][..|s| - i] == s[i..];
  }

  /** `tag` cannot be found in `text + tag` before its own place. */
  predicate FirstAt(text: string, tag: string) {
    forall i: nat | i < |text| :: !OccursAt(text + tag, tag, i)
  }

  lemma TagFoundAfter(a: string, text: string, tag: string, b: string)
    requires FirstAt(text, tag)
    ensures Find(a + text + tag + b, tag, |a|) == Some(|a + text|)
  {
    var s := a + text + tag + b;
    assert s[|a + text|..|a + text| + |tag|] == tag;
    forall i: nat | |a| <= i < |a + text|
      ensures !OccursAt(s, tag, i)
    {
      assert !OccursAt(text + tag, tag, i - |a|);
      assert s[i..i + |tag|] == (text + tag)[i - |a|..i - |a| + |tag|];
    }
    FindIs(s, tag, |a|, |a + text|);
  }

  // ---------------------------------------------------------------- trimming

  /** The characters that count as spaces, by their codes. */
  lemma SpacesExactly(c: char)
    ensures IsSpace(c) <==> c as int in {9, 10, 11, 12, 13, 32}
  {}

  lemma {:induction false} SkipsExactlySpaces(s: string, i: nat)
    requires i <= |s|
    ensures forall k | i <= k < SkipSpaces(s, i) :: IsSpace(s[k])
    ensures SkipSpaces(s, i) < |s| ==> !IsSpace(s[SkipSpaces(s, i)])
    decreases |s| - i
  {
    if i < |s| && IsSpace(s[i]) {
      SkipsExactlySpaces(s, i + 1);
    }
  }

  lemma {:induction false} TrimsExactlySpaces(s: string, lo: nat, hi: nat)
    requires lo <= hi <= |s|
    ensures forall k | TrimEnd(s, lo, hi) <= k < hi :: IsSpace(s[k])
    ensures lo < TrimEnd(s, lo, hi) ==> !IsSpace(s[TrimEnd(s, lo, hi) - 1])
    decreases hi
  {
    if lo < hi && IsSpace(s[hi - 1]) {
      TrimsExactlySpaces(s, lo, hi - 1);
    }
  }

  lemma SkipSpacesIs(s: string, i: nat, k: nat)
    requires i <= k <= |s|
    requires forall j | i <= j < k :: IsSpace(s[j])
    requires k < |s| ==> !IsSpace(s[k])
    ensures SkipSpaces(s, i) == k
  {
    SkipsExactlySpaces(s, i);
  }

  lemma {:induction false} SkipSpacesExtends(s: string, s': string, i: nat)
    requires s <= s' && i <= |s|
    ensures SkipSpaces(s, i) < |s| ==> SkipSpaces(s', i) == SkipSpaces(s, i)
    ensures SkipSpaces(s, i) <= SkipSpaces(s', i)
  {
    var k := SkipSpaces(s, i);
    SkipsExactlySpaces(s, i);
    SkipsExactlySpaces(s', i);
    if k < |s| {
      SkipSpacesIs(s', i, k);
    }
  }

  lemma {:induction false} StripMonotone(t: string, t': string)
    requires t <= t'
    ensures Strip(t) <= Strip(t')
  {
    var lo := SkipSpaces(t, 0);
    SkipSpacesExtends(t, t', 0);
    var hi, hi' := TrimEnd(t, lo, |t|), TrimEnd(t', SkipSpaces(t', 0), |t'|);
    SkipsExactlySpaces(t, 0);
    TrimsExactlySpaces(t, lo, |t|);
    TrimsExactlySpaces(t', SkipSpaces(t', 0), |t'|);
    if lo < |t| {
      assert lo < hi;
      assert !IsSpace(t'[hi - 1]);
      assert hi <= hi';
      assert t[lo..hi] == t'[lo..hi] <= t'[lo..hi'];
    }
  }

  /** Stripping removes exactly the outer spaces. */
  lemma StripMeaning(s: string)
    ensures Stripped(Strip(s)) && exists a: string, b: string :: AllSpace(a) && AllSpace(b) && s == a + Strip(s) + b
  {
    var a, b := StripWitnesses(s);
  }

  lemma StripWitnesses(s: string) returns (a: string, b: string)
    ensures AllSpace(a) && AllSpace(b) && s == a + Strip(s) + b && Stripped(Strip(s))
  {
    hide *;
    StripParts(s);
    var lo := SkipSpaces(s, 0);
    var hi := TrimEnd(s, lo, |s|);
    a, b := s[..lo], s[hi..];
    SpacesAround(s);
    ThreeParts(s, lo, hi);
    StrippedParts(s);
  }

  lemma StripParts(s: string)
    ensures var lo := SkipSpaces(s, 0); Strip(s) == s[lo..TrimEnd(s, lo, |s|)]
  {}

  lemma ThreeParts(s: string, lo: nat, hi: nat)
    requires lo <= hi <= |s|
    ensures s == s[..lo] + s[lo..hi] + s[hi..]
  {}

  lemma SpacesAround(s: string)
    ensures var lo := SkipSpaces(s, 0); AllSpace(s[..lo]) && AllSpace(s[TrimEnd(s, lo, |s|)..])
  {
    SkipsExactlySpaces(s, 0);
    TrimsExactlySpaces(s, SkipSpaces(s, 0), |s|);
  }

  lemma StrippedParts(s: string)
    ensures Stripped(Strip(s))
  {
    var lo := SkipSpaces(s, 0);
    var hi := TrimEnd(s, lo, |s|);
    SkipsExactlySpaces(s, 0);
    TrimsExactlySpaces(s, lo, |s|);
    hide SkipSpaces; hide TrimEnd;
    if lo < hi {
      assert Strip(s)[0] == s[lo] && Strip(s)[hi - lo - 1] == s[hi - 1];
    }
  }

  predicate Stripped(s: string) {
    s == "" || (!IsSpace(s[0]) && !IsSpace(s[|s| - 1]))
  }

  lemma StripPadded(a: string, s: string, b: string)
    requires AllSpace(a) && AllSpace(b) && Stripped(s)
    ensures Strip(a + s + b) == s
  {
    var t := a + s + b;
    if s == "" {
      assert forall j | 0 <= j < |t| :: IsSpace(t[j]);
      SkipSpacesIs(t, 0, |t|);
    } else {
      assert t[|a|] == s[0] && t[|a| + |s| - 1] == s[|s| - 1];
      SkipSpacesIs(t, 0, |a|);
      TrimsExactlySpaces(t, |a|, |t|);
      assert forall k | |a| + |s| <= k < |t| :: t[k] == b[k - |a| - |s|];
      assert TrimEnd(t, |a|, |t|) == |a| + |s|;
    }
  }
}
