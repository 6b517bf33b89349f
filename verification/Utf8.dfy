/** Cutting a byte string so that no multi-byte character is left half (section 4 of RFC 3629). */
module Utf8 {

  /** The byte count announced by a lead byte, or none when it announces nothing. */
  function ExpectedLength(lead: char): nat {
    var c := lead as int;
    if 0xC0 <= c < 0xE0 then 2 else if 0xE0 <= c < 0xF0 then 3 else if 0xF0 <= c < 0xF8 then 4 else 0
  }

  function ScanBack(s: string, i: nat, back: nat): (r: nat)
    requires i <= |s|
    ensures r <= |s|
    decreases i
  {
    if back < 4 && i > 0 then
      var c := s[i - 1] as int;
      if c < 0x80 then |s|
      else if c < 0xC0 then ScanBack(s, i - 1, back + 1)
      else
        var expected := ExpectedLength(s[i - 1]);
        if expected != 0 && |s| - (i - 1) >= expected then |s| else i - 1
    else |s| - if |s| < 3 then |s| else 3
  }

  function TruncateSafe(s: string): (r: nat)
    ensures r <= |s|
  {
    ScanBack(s, |s|, 0)
  }

  /** `utf8_truncate_safe` */
  method TruncateSafeLength(s: string) returns (r: nat)
    ensures r == TruncateSafe(s)
  {
    if |s| == 0 {
      return 0;
    }
    var i, back := |s|, 0;
    while back < 4 && i > 0
      invariant 0 <= i <= |s| && 0 <= back && ScanBack(s, i, back) == TruncateSafe(s)
    {
      i := i - 1;
      var c := s[i] as int;
      if c < 0x80 {
        return |s|;
      } else if c >= 0xC0 {
        var expected := ExpectedLength(s[i]);
        if expected == 0 {
          return i;
        }
        if |s| - i >= expected {
          return |s|;
        } else {
          return i;
        }
      }
      back := back + 1;
    }
    return |s| - if |s| < 3 then |s| else 3;
  }

  // ------------------------------------------------------------ well-formed byte strings

  predicate Tail(c: char) {
    0x80 <= c as int <= 0xBF
  }

  /** The range of the second byte that the lead byte allows. */
  predicate Second(lead: char, c: char) {
    var (l, b) := (lead as int, c as int);
    if l == 0xE0 then 0xA0 <= b <= 0xBF
    else if l == 0xED then 0x80 <= b <= 0x9F
    else if l == 0xF0 then 0x90 <= b <= 0xBF
    else if l == 0xF4 then 0x80 <= b <= 0x8F
    else Tail(c)
  }

  /** The length of the character that starts `s`, or 0 when none does. */
  function CharLength(s: string): (n: nat)
    ensures n <= |s|
  {
    if s == "" then 0
    else
      var l := s[0] as int;
      if l <= 0x7F then 1
      else if 0xC2 <= l <= 0xDF && |s| >= 2 && Tail(s[1]) then 2
      else if 0xE0 <= l <= 0xEF && |s| >= 3 && Second(s[0], s[1]) && Tail(s[2]) then 3
      else if 0xF0 <= l <= 0xF4 && |s| >= 4 && Second(s[0], s[1]) && Tail(s[2]) && Tail(s[3]) then 4
      else 0
  }

  predicate WellFormed(s: string) {
    s == "" || (CharLength(s) > 0 && WellFormed(s[CharLength(s)..]))
  }

  /** `k` ends the last complete character of `p`; what follows is the beginning of one more. */
  ghost predicate SplitsAt(p: string, k: nat) {
    && k <= |p| && WellFormed(p[..k])
    && (k < |p| ==> exists c: string :: p[k..] < c && CharLength(c) == |c|)
  }

  lemma CharLengthOfExtension(s: string, t: string)
    requires s <= t && CharLength(s) > 0
    ensures CharLength(t) == CharLength(s)
  {}

  /** Ascii characters after a well-formed string keep it well-formed. */
  lemma {:induction false} AsciiFollows(s: string, t: string)
    requires WellFormed(s) && forall i | 0 <= i < |t| :: t[i] as int < 0x80
    ensures WellFormed(s + t)
    decreases |s|, |t|
  {
    if s != "" {
      var n := CharLength(s);
      CharLengthOfExtension(s, s + t);
      assert (s + t)[n..] == s[n..] + t;
      AsciiFollows(s[n..], t);
    } else if t != "" {
      assert s + t == t;
      assert WellFormed("");
      AsciiFollows("", t[1..]);
      assert "" + t[1..] == t[1..];
    } else {
      assert s + t == "";
    }
  }

  /** Every prefix of a well-formed string splits into complete characters and a proper beginning. */
  lemma {:induction false} PrefixSplits(p: string, w: string) returns (k: nat)
    requires p <= w && WellFormed(w)
    ensures SplitsAt(p, k)
    decreases |w|
  {
    if w == "" {
      return 0;
    }
    var n := CharLength(w);
    if |p| < n {
      CutInFirst(p, w);
      return 0;
    }
    CharLengthOfPrefix(p, w);
    var j := PrefixSplits(p[n..], w[n..]);
    k := n + j;
    SplitsLater(p, k);
  }

  lemma CharLengthOfPrefix(p: string, w: string)
    requires p <= w && CharLength(w) <= |p|
    ensures CharLength(p) == CharLength(w)
  {}

  lemma CutInFirst(p: string, w: string)
    requires p <= w && |p| < CharLength(w)
    ensures SplitsAt(p, 0)
  {
    var c := w[..CharLength(w)];
    CharLengthOfPrefix(c, w);
    hide CharLength;
    assert p[0..] == p < c;
    assert p[..0] == "";
  }

  lemma SplitsLater(p: string, k: nat)
    requires 0 < CharLength(p) <= k <= |p| && SplitsAt(p[CharLength(p)..], k - CharLength(p))
    ensures SplitsAt(p, k)
  {
    var n := CharLength(p);
    SlicesAfter(p, n, k);
    CharLengthOfPrefix(p[..k], p);
    hide CharLength;
  }

  lemma SlicesAfter(p: string, n: nat, k: nat)
    requires n <= k <= |p|
    ensures p[..k][n..] == p[n..][..k - n] && p[k..] == p[n..][k - n..]
  {}

  /** Well-formed text ends with a complete character: the backward scan accepts it. */
  lemma {:induction false} ScanAcceptsWellFormed(a: string, s: string)
    requires WellFormed(s) && s != ""
    ensures TruncateSafe(a + s) == |a + s|
    decreases |s|
  {
    var n := CharLength(s);
    if n < |s| {
      ScanAcceptsWellFormed(a + s[..n], s[n..]);
      assert a + s[..n] + s[n..] == a + s;
    } else {
      ScanAcceptsChar(a, s);
    }
  }

  lemma ScanAcceptsChar(a: string, c: string)
    requires c != "" && CharLength(c) == |c|
    ensures TruncateSafe(a + c) == |a + c|
  {
    var t := a + c;
    assert forall i | 0 <= i < |c| :: t[|a| + i] == c[i];
    if |c| >= 2 { assert Tail(t[|t| - 1]); ScanSkips(t, |t|, 0); }
    if |c| >= 3 { assert Tail(t[|t| - 2]); ScanSkips(t, |t| - 1, 1); }
    if |c| >= 4 { assert Tail(t[|t| - 3]); ScanSkips(t, |t| - 2, 2); }
  }

  lemma ScanSkips(t: string, i: nat, back: nat)
    requires 0 < i <= |t| && back < 4 && Tail(t[i - 1])
    ensures ScanBack(t, i, back) == ScanBack(t, i - 1, back + 1)
  {}

  /** The beginning of a character is cut off entirely. */
  lemma ScanCutsBeginning(a: string, q: string, c: string)
    requires q != "" && q < c && CharLength(c) == |c|
    ensures TruncateSafe(a + q) == |a|
  {
    var t := a + q;
    assert forall i | 0 <= i < |q| :: t[|a| + i] == q[i] == c[i];
    assert ExpectedLength(c[0]) == |c|;
    if |q| >= 2 { assert Tail(t[|t| - 1]); ScanSkips(t, |t|, 0); }
    if |q| >= 3 { assert Tail(t[|t| - 2]); ScanSkips(t, |t| - 1, 1); }
  }

  lemma {:induction false} CancelPrefix(a: string, b: string)
    requires WellFormed(a) && WellFormed(a + b)
    ensures WellFormed(b)
    decreases |a|
  {
    if a == "" {
      assert a + b == b;
    } else {
      var n := CharLength(a);
      CharLengthOfExtension(a, a + b);
      assert (a + b)[n..] == a[n..] + b;
      CancelPrefix(a[n..], b);
    }
  }

  lemma BeginningIsNotWellFormed(q: string, c: string)
    requires q != "" && q < c && CharLength(c) == |c|
    ensures !WellFormed(q)
  {
    if CharLength(q) > 0 {
      CharLengthOfExtension(q, c);
    }
  }

  lemma NoLongerPrefix(p: string, k: nat, c: string, j: nat)
    requires k < j <= |p| && WellFormed(p[..k]) && p[k..] < c && CharLength(c) == |c|
    ensures !WellFormed(p[..j])
  {
    var q := p[k..j];
    assert p[..j] == p[..k] + q;
    assert q == p[k..][..j - k] < c;
    BeginningIsNotWellFormed(q, c);
    if WellFormed(p[..j]) {
      CancelPrefix(p[..k], q);
      assert false;
    }
  }

  /** For every byte prefix of a well-formed string the cut is the longest well-formed prefix, and it
      drops at most three bytes. */
  lemma CutIsLongestWellFormedPrefix(p: string, w: string)
    requires p <= w && WellFormed(w)
    ensures var r := TruncateSafe(p);
            && WellFormed(p[..r])
            && (forall k | r < k <= |p| :: !WellFormed(p[..k]))
            && |p| - r <= 3
  {
    hide CharLength; hide TruncateSafe; hide WellFormed;
    var k := PrefixSplits(p, w);
    assert p == p[..k] + p[k..];
    if k < |p| {
      var c: string :| p[k..] < c && CharLength(c) == |c|;
      ScanCutsBeginning(p[..k], p[k..], c);
      AtMostFour(c);
      forall j | k < j <= |p|
        ensures !WellFormed(p[..j])
      {
        NoLongerPrefix(p, k, c, j);
      }
    } else if p != "" {
      assert p[..k] == p && "" + p == p;
      ScanAcceptsWellFormed("", p);
    } else {
      NothingToCut();
    }
  }

  lemma AtMostFour(c: string)
    ensures CharLength(c) <= 4
  {}

  lemma NothingToCut()
    ensures TruncateSafe("") == 0 && WellFormed("")
  {}

  /** Cutting twice is cutting once. */
  lemma CutIsIdempotent(p: string, w: string)
    requires p <= w && WellFormed(w)
    ensures TruncateSafe(p[..TruncateSafe(p)]) == TruncateSafe(p)
  {
    CutIsLongestWellFormedPrefix(p, w);
    var q := p[..TruncateSafe(p)];
    if q != "" {
      ScanAcceptsWellFormed("", q);
      assert "" + q == q;
    }
  }
}
