/** `try_find_literal`: a complete occurrence first, otherwise, while the text is still growing, the
    tail that may become one. */
module LiteralSearch {
  import opened Wrappers
  import opened Text

  /** `find_regex_result` with its one group, `[begin, end)`. */
  datatype Match = Match(prelude: string, begin: nat, end: nat)

  /** The prelude is the text from `pos` to the match. */
  predicate PreludeFrom(input: string, pos: nat, m: Match) {
    pos <= m.begin <= |input| && m.prelude == input[pos..m.begin]
  }

  function FindLiteral(input: string, partial: bool, pos: nat, literal: string): (r: Option<Match>)
    requires pos <= |input|
    ensures r.Some? ==> pos <= r.value.begin <= r.value.end <= |input|
    ensures r.Some? ==> PreludeFrom(input, pos, r.value)
    ensures r.Some? && literal != "" ==> r.value.begin < r.value.end
  {
    match Find(input, literal, pos)
    case Some(k) => Some(Match(input[pos..k], k, k + |literal|))
    case None =>
      match PartialStop(input, literal)
      case Some(k) => if partial && pos <= k then Some(Match(input[pos..k], k, |input|)) else None
      case None => None
  }

  /** The prelude and the match together are exactly the text consumed, and the match is the whole
      literal, or the end of the input and the beginning of the literal. */
  lemma ConsumesPreludeAndMatch(input: string, partial: bool, pos: nat, literal: string)
    requires pos <= |input| && FindLiteral(input, partial, pos, literal).Some?
    ensures var r := FindLiteral(input, partial, pos, literal).value;
            && input[pos..r.end] == r.prelude + input[r.begin..r.end]
            && (input[r.begin..r.end] == literal || (partial && r.end == |input| && input[r.begin..] < literal))
  {
    var r := FindLiteral(input, partial, pos, literal).value;
    FindIsFirst(input, literal, pos);
    PartialIsFirst(input, literal, 0);
    assert r.end == |input| ==> input[r.begin..r.end] == input[r.begin..];
  }

  /** A match seen early, whole or partial, is never moved to an earlier place by later text. */
  lemma MatchNeverMovesBack(s: string, s': string, partial': bool, pos: nat, literal: string)
    requires s <= s' && pos <= |s|
    requires FindLiteral(s, true, pos, literal).Some?
    requires FindLiteral(s', partial', pos, literal).Some?
    ensures var r, r' := FindLiteral(s, true, pos, literal).value, FindLiteral(s', partial', pos, literal).value;
            r.begin <= r'.begin && r.prelude <= r'.prelude
  {
    var r, r' := FindLiteral(s, true, pos, literal).value, FindLiteral(s', partial', pos, literal).value;
    FindExtends(s, s', literal, pos);
    PartialIsFirst(s, literal, 0);
    if Find(s, literal, pos).None? && r'.begin < |s| {
      TailOfMatch(s, s', partial', pos, literal);
    }
    assert s[pos..r.begin] == s'[pos..r.begin] <= s'[pos..r'.begin];
  }

  /** Where the longer text matches, the shorter one already ends with the beginning of the literal. */
  lemma TailOfMatch(s: string, s': string, partial': bool, pos: nat, literal: string)
    requires s <= s' && pos <= |s| && Find(s, literal, pos).None?
    requires FindLiteral(s', partial', pos, literal).Some?
    requires FindLiteral(s', partial', pos, literal).value.begin < |s|
    ensures PartialAt(s, literal, FindLiteral(s', partial', pos, literal).value.begin)
  {
    var k := FindLiteral(s', partial', pos, literal).value.begin;
    FindExtends(s, s', literal, pos);
    FindIsFirst(s', literal, pos);
    PartialIsFirst(s', literal, 0);
    if Find(s', literal, pos).Some? {
      assert s'[k..k + |literal|][..|s| - k] == s[k..];
    } else {
      assert s'[k..][..|s| - k] == s[k..];
    }
  }

  /** When the search finds nothing, a later match can still begin inside the text already seen in
      exactly one situation: the longest candidate tail starts before the cursor and hides a shorter
      one that starts after it. */
  lemma MissedExactlyWhenHidden(s: string, pos: nat, literal: string)
    requires pos <= |s| && FindLiteral(s, true, pos, literal).None?
    ensures (exists s': string :: s <= s' && StartsInside(s, s', pos, literal)) <==>
            (PartialStop(s, literal).Some? && PartialStop(s, literal).value < pos &&
             PartialFrom(s, literal, pos).Some?)
  {
    PartialIsFirst(s, literal, 0);
    PartialIsFirst(s, literal, pos);
    forall s': string | s <= s' && StartsInside(s, s', pos, literal)
      ensures PartialFrom(s, literal, pos).Some?
    {
      TailOfMatch(s, s', false, pos, literal);
    }
    if PartialFrom(s, literal, pos).Some? {
      var s' := CompletingText(s, pos, literal);
    }
  }

  lemma CompletingText(s: string, pos: nat, literal: string) returns (s': string)
    requires pos <= |s| && PartialFrom(s, literal, pos).Some?
    ensures s <= s' && StartsInside(s, s', pos, literal)
  {
    PartialIsFirst(s, literal, pos);
    var i := PartialFrom(s, literal, pos).value;
    s' := s + literal[|s| - i..];
    assert s[i..] == literal[..|s| - i];
    assert s'[i..i + |literal|] == s[i..] + literal[|s| - i..] == literal;
    assert OccursAt(s', literal, i);
    FindIsFirst(s', literal, pos);
  }

  /** The complete search of `s'` finds a match that begins within `s`. */
  predicate StartsInside(s: string, s': string, pos: nat, literal: string)
    requires pos <= |s| && s <= s'
  {
    var r := FindLiteral(s', false, pos, literal);
    r.Some? && r.value.begin < |s|
  }

  /** The situation of `MissedExactlyWhenHidden` does occur. */
  lemma HiddenTailExample()
    ensures FindLiteral("aa", true, 1, "aab").None?
    ensures FindLiteral("aaab", false, 1, "aab") == Some(Match("", 1, 4))
  {
    FindIsFirst("aa", "aab", 1);
    PartialIsFirst("aa", "aab", 0);
    FindIsFirst("aaab", "aab", 1);
    assert "aa"[0..] == "aa" <= "aab";
    assert PartialAt("aa", "aab", 0);
    assert "aaab"[1..4] == "aab";
    assert OccursAt("aaab", "aab", 1);
    assert "aaab"[1..1] == "";
  }
}
