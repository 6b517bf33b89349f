/** When the marker of a completed value stands in the dump: decided on the text that was cut. */
module HealingLaws {
  import opened Wrappers
  import opened Text
  import opened Json
  import opened JsonHealing
  import Utf8

  // ------------------------------------------------------------ decoding piece by piece

  lemma SameUnit(r: string, s: string, i: nat)
    requires i + 6 <= |r| && i + 6 <= |s| && r[..i + 6] == s[..i + 6]
    ensures UnitAt(r, i) <==> UnitAt(s, i)
    ensures UnitAt(r, i) ==> CodeAt(r, i) == CodeAt(s, i)
  {
    assert r[i + 2..i + 6] == r[..i + 6][i + 2..] && s[i + 2..i + 6] == s[..i + 6][i + 2..];
    assert r[i] == r[..i + 6][i] && s[i] == s[..i + 6][i];
    assert r[i + 1] == r[..i + 6][i + 1] && s[i + 1] == s[..i + 6][i + 1];
  }

  /** The first piece depends on its own bytes only. */
  lemma SamePiece(r: string, s: string, n: nat)
    requires r != "" && FirstPiece(r).Some? && FirstPiece(r).value.size == n <= |s| && r[..n] == s[..n]
    ensures FirstPiece(s) == FirstPiece(r)
  {
    assert r[0] == r[..n][0] == s[..n][0] == s[0];
    if n >= 2 {
      assert r[1] == r[..n][1] == s[..n][1] == s[1];
    }
    if n >= 6 {
      assert r[..6] == r[..n][..6] == s[..n][..6] == s[..6];
      SameUnit(r, s, 0);
    }
    if n >= 12 {
      assert r[..12] == r[..n][..12] == s[..n][..12] == s[..12];
      SameUnit(r, s, 6);
    }
  }

  lemma DecodeStep(r: string, x: string)
    requires r != "" && FirstPiece(r).Some?
    ensures var p := FirstPiece(r).value;
            Decode(r + x) == (match Decode(r[p.size..] + x) case None => None case Some(d) => Some(p.text + d))
  {
    var p := FirstPiece(r).value;
    assert (r + x)[..p.size] == r[..p.size];
    SamePiece(r, r + x, p.size);
    assert (r + x)[p.size..] == r[p.size..] + x;
  }

  lemma WholeEndStep(r: string)
    requires r != "" && FirstPiece(r).Some?
    ensures var n := FirstPiece(r).value.size; WholeEnd(r) == n + WholeEnd(r[n..]) && Rest(r) == Rest(r[n..])
  {
    hide FirstPiece;
    var n := FirstPiece(r).value.size;
    assert r[n..][WholeEnd(r[n..])..] == r[n + WholeEnd(r[n..])..];
  }

  /** The finished part of a body, from its first piece on. */
  lemma WholeStep(r: string)
    requires r != "" && FirstPiece(r).Some?
    ensures var p, w := FirstPiece(r).value, WholeEnd(r);
            var rest := r[p.size..];
            Decode(r[..w]) == match Decode(rest[..WholeEnd(rest)]) case None => None case Some(d) => Some(p.text + d)
  {
    hide FirstPiece; hide WholeEnd;
    WholeEndStep(r);
    var n, w := FirstPiece(r).value.size, WholeEnd(r);
    assert r[..w][..n] == r[..n] && r[..w][n..] == r[n..][..w - n];
    SamePiece(r, r[..w], n);
  }

  lemma NothingDecodes()
    ensures Decode("") == Some("")
  {}

  lemma NothingWhole(r: string)
    requires r == "" || FirstPiece(r).None?
    ensures WholeEnd(r) == 0 && Rest(r) == r && r[..0] == ""
  {}

  lemma Joins3(a: string, b: string, c: string)
    ensures a + (b + c) == (a + b) + c && "" + a == a
  {}

  /** Decoding what is added to a body starts at its unfinished piece. */
  lemma {:induction false} DecodeSplits(r: string, x: string)
    ensures var w := WholeEnd(r);
            && Decode(r[..w]).Some? && (Rest(r) != "" ==> FirstPiece(Rest(r)).None?)
            && Decode(r + x) == (match Decode(Rest(r) + x)
                                 case None => None
                                 case Some(d) => Some(Decode(r[..w]).value + d))
    decreases |r|
  {
    hide *;
    if r == "" || FirstPiece(r).None? {
      NothingWhole(r);
      NothingDecodes();
      if Decode(r + x).Some? { Joins3(Decode(r + x).value, "", ""); }
    } else {
      var p := FirstPiece(r).value;
      var rest := r[p.size..];
      DecodeSplits(rest, x);
      DecodeStep(r, x);
      WholeEndStep(r);
      WholeStep(r);
      if Decode(Rest(r) + x).Some? {
        Joins3(p.text, Decode(rest[..WholeEnd(rest)]).value, Decode(Rest(r) + x).value);
      }
    }
  }

  // ------------------------------------------------------------ where a completed body is cut

  lemma EscapeIsUnique(s: string, j: nat, k: nat)
    requires EscapeFrom(s, j) && EscapeFrom(s, k)
    ensures j == k
  {
    if j < k {
      OnlyFirstSlash(s, j, k);
    } else if k < j {
      OnlyFirstSlash(s, k, j);
    }
  }

  lemma OnlyFirstSlash(s: string, j: nat, k: nat)
    requires EscapeFrom(s, j) && j < k < |s|
    ensures s[k] != '\\'
  {
    if k >= j + 2 { assert s[k] == s[j + 2..][k - j - 2]; }
  }

  lemma LastEscapeIs(s: string, k: nat)
    requires EscapeFrom(s, k)
    ensures LastEscape(s) == Some(k)
  {
    hide EscapeFrom;
    EscapeBounds(s, k);
    if LastEscape(s).Some? { EscapeIsUnique(s, k, LastEscape(s).value); }
  }

  lemma EscapeBounds(s: string, k: nat)
    requires EscapeFrom(s, k)
    ensures k + 2 <= |s| <= k + 6
  {}

  lemma NoEscapeAfterSlash(s: string)
    requires s != "" && s[|s| - 1] == '\\'
    ensures LastEscape(s).None?
  {
    forall k: nat ensures !EscapeFrom(s, k) {
      if k + 2 <= |s| <= k + 6 {
        assert |s| > k + 2 ==> s[|s| - 1] == s[k + 2..][|s| - k - 3];
      }
    }
    hide EscapeFrom;
  }

  /** The beginning of `\uXXXX` at `i`, cut anywhere after the `u`. */
  lemma CutUnit(r: string, x: string, i: nat)
    requires UnitAt(r + x, i) && i + 2 <= |r| <= i + 6
    ensures EscapeFrom(r, i)
  {
    var s := r + x;
    assert r[i] == s[i] && r[i + 1] == s[i + 1];
    var h := r[i + 2..];
    forall k | 0 <= k < |h| ensures HexDigit(h[k]) {
      assert h[k] == s[i + 2..i + 6][k];
    }
  }

  /** In a body that `x` completes, the escape that is cut takes all of `x`. */
  lemma TakesAll(e: string, x: string)
    requires e != "" && FirstPiece(e).None? && Decode(e + x).Some?
    ensures var p := FirstPiece(e + x);
            p.Some? && |e| < p.value.size && e[0] == '\\'
            && (|e| + |x| == p.value.size ==> Decode(e + x) == Some(p.value.text))
  {
    var whole := e + x;
    var p := FirstPiece(whole).value;
    assert whole[0] == e[0];
    if p.size <= |e| {
      assert whole[..p.size] == e[..p.size];
      SamePiece(whole, e, p.size);
    }
    if |whole| == p.size {
      assert whole[p.size..] == "";
      assert p.text + "" == p.text;
    }
  }

  lemma HighMeans(s: string, i: nat, n: nat)
    requires UnitAt(s, i) && i + 4 <= n <= |s|
    ensures High(CodeAt(s, i)) <==> HighStart(s[i..n])
  {
    var h, e := s[i + 2..i + 6], s[i..n];
    assert e[0] == s[i] && e[1] == s[i + 1] && e[2] == h[0] && e[3] == h[1];
    HighDigits(h);
  }

  lemma HighDigits(h: string)
    requires |h| == 4 && HexRun(h)
    ensures High(Code(h)) <==> HexValue(h[0]) == 13 && 8 <= HexValue(h[1]) < 12
  {}

  lemma ShortIsNotHigh(e: string)
    requires |e| < 4
    ensures !HighStart(e)
  {}

  lemma EscapeShifts(r: string, w: nat, i: nat)
    requires w <= |r|
    ensures EscapeFrom(r[w..], i) <==> EscapeFrom(r, w + i)
  {
    if i + 2 <= |r| - w {
      assert r[w..][i + 2..] == r[w + i + 2..];
    }
  }

  lemma SlashCompletes(r: string)
    requires Rest(r) == "\\"
    ensures EndsInSlash(r)
  {
    hide WholeEnd;
    DecodeSplits(r, "\\");
    assert r[|r| - 1] == Rest(r)[0];
    SlashPair();
  }

  lemma SlashPair()
    ensures Decode("\\" + "\\") == Some("\\")
  {
    var s := "\\" + "\\";
    assert FirstPiece(s) == Some(Piece("\\", 2));
    assert s[2..] == "";
    NothingDecodes();
    assert "\\" + "" == "\\";
  }

  /** The padding of an escape cut at `k`. */
  lemma PaddingAt(s: string, k: nat)
    requires EscapeFrom(s, k)
    ensures var n := |s| - k;
            if HighStart(s[k..]) then Padding(s) == Zeros(6 - n) + "\\udc00"
            else |Padding(s)| == 6 - n && (n > 3 ==> Padding(s) == Zeros(6 - n))
                 && (n == 2 ==> Padding(s) == "0000" || Padding(s) == "dc00")
                 && (n == 3 ==> Padding(s) == "000" || Padding(s) == "c00")
  {
    hide *;
    LastEscapeIs(s, k);
    EscapeBounds(s, k);
    PaddingIs(s, k);
    ZerosAre();
  }

  lemma PaddingIs(s: string, k: nat)
    requires LastEscape(s) == Some(k) && k + 2 <= |s| <= k + 6
    ensures var n := |s| - k;
            if HighStart(s[k..]) then Padding(s) == Zeros(6 - n) + "\\udc00"
            else Padding(s) == Zeros(6 - n) || (n == 2 && Padding(s) == "dc00") || (n == 3 && Padding(s) == "c00")
    ensures |Zeros(6 - (|s| - k))| == 6 - (|s| - k)
  {
    hide LastEscape; hide HighStart;
  }

  /** The padding of the second half of a pair, cut after its `u`. */
  lemma PaddingOfPair(s: string, k: nat)
    requires EscapeFrom(s, k) && !HighStart(s[k..]) && k >= 6
    requires EscapeFrom(s[..k], k - 6) && HighStart(s[k - 6..k])
    ensures |Padding(s)| == 6 - (|s| - k)
  {
    PaddingAt(s, k);
  }

  /** The completed escape is all that follows the finished part. */
  lemma CompletedSize(r: string)
    requires Decode(r).None? && !EndsInSlash(r) && Decode(r + Padding(r)).Some?
    ensures var e, x := Rest(r), Padding(r);
            && e != "" && FirstPiece(e + x).Some? && FirstPiece(e + x).value.size == |e + x| && UnitAt(e + x, 0)
            && Decode(r[..WholeEnd(r)]).Some?
            && Decode(r + x) == Some(Decode(r[..WholeEnd(r)]).value + FirstPiece(e + x).value.text)
  {
    hide Padding; hide Decode; hide FirstPiece; hide WholeEnd; hide EndsInSlash;
    var e, x := Rest(r), Padding(r);
    DecodeSplits(r, "");
    assert r + "" == r && Rest(r) + "" == Rest(r);
    NothingDecodes();
    DecodeSplits(r, x);
    TakesAll(e, x);
    UnfinishedIsUnit(r, x);
    if |e| <= 6 { CutInFirst(r, x); } else { CutInSecond(r, x); }
  }

  lemma UnfinishedIsUnit(r: string, x: string)
    requires !EndsInSlash(r) && Rest(r) != "" && Rest(r)[0] == '\\'
    requires FirstPiece(Rest(r) + x).Some? && FirstPiece(Rest(r) + x).value.size > |Rest(r)|
    ensures |Rest(r)| >= 2 && UnitAt(Rest(r) + x, 0) && !Low(CodeAt(Rest(r) + x, 0))
    ensures FirstPiece(Rest(r) + x).value.size == if High(CodeAt(Rest(r) + x, 0)) then 12 else 6
    ensures High(CodeAt(Rest(r) + x, 0)) ==> UnitAt(Rest(r) + x, 6) && Low(CodeAt(Rest(r) + x, 6))
  {
    if |Rest(r)| == 1 {
      assert Rest(r) == "\\";
      SlashCompletes(r);
    }
  }

  lemma CutInFirst(r: string, x: string)
    requires 2 <= |Rest(r)| <= 6 && x == Padding(r) && UnitAt(Rest(r) + x, 0)
    ensures |Rest(r) + x| == if High(CodeAt(Rest(r) + x, 0)) then 12 else 6
  {
    var e, w := Rest(r), WholeEnd(r);
    CutUnit(e, x, 0);
    EscapeShifts(r, w, 0);
    PaddingAt(r, w);
    if |e| >= 4 {
      HighMeans(e + x, 0, |e|);
      assert (e + x)[0..|e|] == e;
    } else {
      ShortIsNotHigh(e);
      HighDigits((e + x)[2..6]);
      assert (e + x)[2..6][1] == (e + x)[3] == x[3 - |e|];
    }
  }

  lemma CutInSecond(r: string, x: string)
    requires 6 < |Rest(r)| < 12 && x == Padding(r)
    requires UnitAt(Rest(r) + x, 0) && High(CodeAt(Rest(r) + x, 0))
    requires UnitAt(Rest(r) + x, 6) && Low(CodeAt(Rest(r) + x, 6))
    ensures |Rest(r) + x| == 12
  {
    hide *;
    var e, w := Rest(r), WholeEnd(r);
    RestMeans(r);
    if |e| == 7 {
      SlashAt(e + x, 6);
      assert r[|r| - 1] == e[6] == (e + x)[6];
      NoEscapeAfterSlash(r);
      NoEscapePadding(r);
    } else {
      CutUnit(e, x, 6);
      EscapeShifts(r, w, 6);
      SecondIsNotHigh(r, x);
      HighMeans(e + x, 0, 6);
      assert (e + x)[0..6] == e[..6] == r[w..w + 6];
      FirstStands(r, w, x);
      PaddingOfPair(r, w + 6);
    }
  }

  lemma SlashAt(s: string, i: nat)
    requires UnitAt(s, i)
    ensures i < |s| && s[i] == '\\'
  {}

  lemma NoEscapePadding(s: string)
    requires LastEscape(s).None?
    ensures |Padding(s)| == 5
  {
    hide LastEscape;
  }

  lemma FirstStands(r: string, w: nat, x: string)
    requires w + 6 <= |r| && UnitAt(r[w..] + x, 0)
    ensures EscapeFrom(r[..w + 6], w)
  {
    var s, f := r[w..] + x, r[..w + 6];
    assert f[w] == s[0] && f[w + 1] == s[1];
    assert f[w + 2..] == s[2..6];
  }

  /** The second half of a pair does not begin like a first half. */
  lemma SecondIsNotHigh(r: string, x: string)
    requires 8 <= |Rest(r)| < 12 && UnitAt(Rest(r) + x, 6) && Low(CodeAt(Rest(r) + x, 6))
    ensures !HighStart(r[WholeEnd(r) + 6..])
  {
    var e, w := Rest(r), WholeEnd(r);
    if |e| >= 10 {
      HighMeans(e + x, 6, |e|);
      assert (e + x)[6..|e|] == r[w + 6..];
    }
  }

  // ------------------------------------------------------------ what the dump prints for the completed escape

  lemma {:induction false} HighBytesStay(s: string)
    requires forall i | 0 <= i < |s| :: s[i] as int >= 0x80
    ensures EscapeAll(s) == s
  {
    if s != "" {
      HighBytesStay(s[1..]);
      assert EscapeChar(s[0]) == [s[0]];
    }
  }

  lemma EscapedCode(n: nat)
    requires n < 0x110000
    ensures var q := EscapeAll(Encoded(n));
            q != "" && if n < 0x80 then q == EscapeChar(n as char) else q[|q| - 1] as int >= 0x80
  {
    var u := Encoded(n);
    if n < 0x80 {
      assert u[1..] == "";
      assert EscapeChar(u[0]) + "" == EscapeChar(u[0]);
    } else {
      HighBytesStay(u);
    }
  }

  /** The digits that `x` adds leave few characters below 0x80. */
  predicate Fits(n: nat, x: string) {
    || (x == "0" && n % 16 == 0) || (x == "00" && n % 256 == 0)
    || (x == "000" && n % 4096 == 0) || (x == "c00" && n % 4096 == 0xC00) || (x == "0000" && n == 0)
  }

  lemma FewFit(n: nat, x: string)
    requires n < 0x80 && Fits(n, x)
    ensures n % 16 == 0 && (n > 0 ==> x == "0")
    ensures x in {"0", "00", "000", "0000"}
  {}

  lemma NullEnds(x: string)
    requires x in {"0", "00", "000", "0000"}
    ensures EndsWith("\\u0000", x)
  {}

  lemma Escapes(c: char)
    ensures c as int == 0 ==> EscapeChar(c) == "\\u0000"
    ensures c as int == 0x10 ==> EscapeChar(c) == "\\u0010"
    ensures 0x20 <= c as int && c != '"' && c != '\\' ==> EscapeChar(c) == [c]
  {}

  lemma AsciiEnds(n: nat, x: string)
    requires n < 0x80 && Fits(n, x)
    ensures var q := EscapeChar(n as char);
            if n in {0, 0x10, 0x30} then EndsWith(q, x) else q[|q| - 1] != '0'
  {
    FewFit(n, x);
    Escapes(n as char);
    hide EscapeChar; hide Fits;
    if n == 0 { NullEnds(x); }
  }

  lemma CodeEnds(n: nat, x: string)
    requires n < 0x10000 && Fits(n, x)
    ensures var q := EscapeAll(Encoded(n));
            q != "" && if n in {0, 0x10, 0x30} then EndsWith(q, x) else q[|q| - 1] != '0'
  {
    EscapedCode(n);
    if n < 0x80 { AsciiEnds(n, x); }
  }

  lemma AddedDigits(e: string, x: string)
    requires |e + x| == 6 && UnitAt(e + x, 0) && 2 <= |e| && !Low(CodeAt(e + x, 0))
    requires x in {"0", "00", "000", "c00", "0000", "dc00"}
    ensures Fits(CodeAt(e + x, 0), x)
  {
    var s := e + x;
    var h := s[2..6];
    assert h[3] == s[5] == x[|x| - 1];
    assert |x| >= 2 ==> h[2] == s[4] == x[|x| - 2];
    assert |x| >= 3 ==> h[1] == s[3] == x[|x| - 3];
    assert |x| >= 4 ==> h[0] == s[2] == x[|x| - 4];
    LastDigits(HexValue(h[0]), HexValue(h[1]), HexValue(h[2]), HexValue(h[3]));
  }

  lemma LastDigits(a: nat, b: nat, c: nat, d: nat)
    requires a < 16 && b < 16 && c < 16 && d < 16
    ensures var n := a * 4096 + b * 256 + c * 16 + d;
            n % 16 == d && n % 256 == c * 16 + d && n % 4096 == b * 256 + c * 16 + d
  {
    var n := a * 4096 + b * 256 + c * 16 + d;
    assert n == 16 * (a * 256 + b * 16 + c) + d;
    assert n == 256 * (a * 16 + b) + (c * 16 + d);
  }

  /** What a single completed unit was completed with. */
  lemma AddedIs(r: string)
    requires 2 <= |Rest(r)| < 6 && |Rest(r) + Padding(r)| == 6 && UnitAt(Rest(r) + Padding(r), 0)
    ensures Padding(r) in {"0", "00", "000", "c00", "0000", "dc00"}
  {
    hide *;
    var e, w := Rest(r), WholeEnd(r);
    RestMeans(r);
    CutUnit(e, Padding(r), 0);
    EscapeShifts(r, w, 0);
    PaddingAt(r, w);
    ZerosAre();
  }

  predicate EndsOther(s: string) {
    s != "" && s[|s| - 1] != '0'
  }

  /** The completed escape ends the dumped body with the padding, or with another character than the padding. */
  lemma PaddingEnds(r: string)
    requires Utf8.WellFormed(r) && Decode(r).None? && !EndsInSlash(r) && Decode(r + Padding(r)).Some?
    ensures var d := EscapeAll(Decode(r + Padding(r)).value);
            if Loses(r) then EndsOther(d) else EndsWith(d, Padding(r))
    ensures Padding(r) != "" && Padding(r)[|Padding(r)| - 1] == '0'
  {
    hide Decode; hide EndsInSlash; hide Padding; hide EscapeAll; hide FirstPiece; hide WholeEnd;
    var e, x := Rest(r), Padding(r);
    CompletedSize(r);
    var front, p := Decode(r[..WholeEnd(r)]).value, FirstPiece(e + x).value;
    EscapeAllJoins(front, p.text);
    var q := EscapeAll(p.text);
    UnfinishedAgain(r);
    PaddingZero(r);
    if |e + x| == 6 {
      AddedIs(r);
      UnitText(e + x);
      AddedDigits(e, x);
      CodeEnds(CodeAt(e + x, 0), x);
      EndsJoined(EscapeAll(front), q, x);
    } else {
      PairText(e + x);
      EndsJoined(EscapeAll(front), q, x);
    }
  }

  lemma EndsJoined(a: string, b: string, x: string)
    ensures EndsWith(b, x) ==> EndsWith(a + b, x)
    ensures EndsOther(b) ==> EndsOther(a + b)
  {
    if EndsWith(b, x) {
      assert (a + b)[|a + b| - |x|..] == b[|b| - |x|..];
    }
  }

  lemma UnfinishedAgain(r: string)
    requires Decode(r).None? && !EndsInSlash(r) && Decode(r + Padding(r)).Some?
    ensures |Rest(r)| >= 2 && |Rest(r)| < |Rest(r) + Padding(r)| && |Rest(r) + Padding(r)| in {6, 12}
  {
    hide Padding; hide Decode; hide FirstPiece; hide WholeEnd; hide EndsInSlash;
    var x := Padding(r);
    DecodeSplits(r, "");
    assert r + "" == r && Rest(r) + "" == Rest(r);
    NothingDecodes();
    DecodeSplits(r, x);
    TakesAll(Rest(r), x);
    UnfinishedIsUnit(r, x);
    CompletedSize(r);
  }

  lemma UnitText(s: string)
    requires |s| == 6 && UnitAt(s, 0) && FirstPiece(s).Some?
    ensures FirstPiece(s).value.text == Encoded(CodeAt(s, 0)) && !Low(CodeAt(s, 0))
  {}

  lemma PairText(s: string)
    requires |s| == 12 && UnitAt(s, 0) && FirstPiece(s).Some? && FirstPiece(s).value.size == 12
    ensures EndsOther(EscapeAll(FirstPiece(s).value.text))
  {
    var n := 0x10000 + (CodeAt(s, 0) - 0xD800) * 1024 + (CodeAt(s, 6) - 0xDC00);
    assert FirstPiece(s).value.text == Encoded(n);
    EscapedCode(n);
  }

  lemma PaddingZero(r: string)
    ensures Padding(r) == "" || Padding(r)[|Padding(r)| - 1] == '0'
  {}

  lemma SlashEnds(r: string)
    requires Decode(r).None? && EndsInSlash(r)
    ensures EndsWith(EscapeAll(Decode(r + "\\").value), "\\")
  {
    hide Decode; hide EscapeAll; hide WholeEnd;
    DecodeSplits(r, "");
    assert r + "" == r && Rest(r) + "" == Rest(r);
    NothingDecodes();
    DecodeSplits(r, "\\");
    SlashPiece(Rest(r));
    var front := Decode(r[..WholeEnd(r)]).value;
    EscapeAllJoins(front, "\\");
    SlashIsDoubled();
    EndsJoined(EscapeAll(front), EscapeAll("\\"), "\\");
  }

  lemma SlashIsDoubled()
    ensures EscapeAll("\\") == "\\\\"
  {
    assert "\\"[1..] == "";
  }

  lemma SlashPiece(e: string)
    requires e != "" && FirstPiece(e).None? && Decode(e + "\\").Some?
    ensures Decode(e + "\\") == Some("\\")
  {
    hide Decode;
    TakesAll(e, "\\");
    var s := e + "\\";
    assert s[|s| - 1] == '\\';
    UnitEndsInDigit(s, 0);
    UnitEndsInDigit(s, 6);
  }

  lemma UnitEndsInDigit(s: string, i: nat)
    ensures UnitAt(s, i) ==> s[i + 5] != '\\'
  {
    if UnitAt(s, i) { assert s[i + 2..i + 6][3] == s[i + 5]; }
  }

  /** Before the marker, the dump of a completed body ends in what completed it, unless the body was cut in an
      escape that is dumped as something else. */
  lemma CompletionEnds(r: string)
    requires Completion(r).Some?
    ensures Decode(r + Completion(r).value).Some?
    ensures var x, d := Completion(r).value, EscapeAll(Decode(r + Completion(r).value).value);
            if Loses(r) then EndsOther(d) && x != "" && x[|x| - 1] == '0' else EndsWith(d, x)
  {
    hide Decode; hide EscapeAll; hide Padding; hide Rest;
    if Decode(r).Some? {
      assert r + "" == r;
    } else if EndsInSlash(r) {
      SlashEnds(r);
    } else {
      PaddingEnds(r);
    }
  }

  // ------------------------------------------------------------ the marker in the dumped object

  lemma HealedParts(t: string, json: Attempt, marker: string)
    returns (d: string, x: string, front: string, back: string)
    requires json.Read? && Healed(t, json, marker) && CutString(t).Some? && Completion(CutString(t).value).Some?
    ensures json.dumpMarker == x + marker && DumpValue(json.value) == front + (d + (marker + back))
    ensures if LosesPadding(t) then EndsOther(d) && x != "" && x[|x| - 1] == '0' else EndsWith(d, x)
  {
    hide Decode; hide EscapeAll; hide Loses; hide CutString; hide DumpValue; hide Completion;
    var r := CutString(t).value;
    CompletionEnds(r);
    x := Completion(r).value;
    d := EscapeAll(Decode(r + x).value);
    front, back :| DumpValue(json.value) == front + (d + (marker + back));
  }

  lemma MarkerStands(a: string, d: string, x: string, marker: string, b: string)
    requires EndsWith(d, x)
    ensures |x| <= |d| && OccursAt(a + (d + (marker + b)), x + marker, |a| + |d| - |x|)
  {
    var s := a + (d + (marker + b));
    assert s[|a|..|a| + |d|] == d;
    assert s[|a| + |d| - |x|..|a| + |d|] == d[|d| - |x|..];
    assert s[|a| + |d|..|a| + |d| + |marker|] == marker;
    assert s[|a| + |d| - |x|..|a| + |d| + |marker|] == x + marker;
  }

  lemma MarkerStandsAlone(a: string, d: string, x: string, marker: string, b: string, i: nat)
    requires EndsOther(d) && x != "" && x[|x| - 1] == '0'
    requires Once(a + (d + (marker + b)), marker)
    ensures !OccursAt(a + (d + (marker + b)), x + marker, i)
  {
    var s, k := a + (d + (marker + b)), |a| + |d|;
    assert s[k..k + |marker|] == marker;
    assert OccursAt(s, marker, k) && s[k - 1] == d[|d| - 1];
    if OccursAt(s, x + marker, i) { BothOccur(s, x, marker, i); }
  }

  lemma BothOccur(s: string, x: string, y: string, i: nat)
    requires OccursAt(s, x + y, i) && x != ""
    ensures OccursAt(s, y, i + |x|) && s[i + |x| - 1] == x[|x| - 1]
  {
    var t := s[i..i + |x + y|];
    assert s[i + |x|..i + |x| + |y|] == t[|x|..] == y;
    assert s[i + |x| - 1] == t[|x| - 1];
  }

  /** Whatever stands around the value in the dumped object, its marker is there unless the text was cut in an
      escape that is dumped as something else; and then it is not, if the plain marker is there only once. */
  lemma MarkerKeptExactly(t: string, json: Attempt, marker: string, a: string, b: string)
    requires json.Read? && Healed(t, json, marker)
    ensures var dumped := a + (DumpValue(json.value) + b);
            && (!LosesPadding(t) ==> Contains(dumped, json.dumpMarker))
            && (LosesPadding(t) && Once(dumped, marker) ==> !Contains(dumped, json.dumpMarker))
  {
    hide *;
    var dumped := a + (DumpValue(json.value) + b);
    FindIsFirst(dumped, json.dumpMarker, 0);
    ContainsMeans(dumped, json.dumpMarker);
    if CutString(t).Some? && Completion(CutString(t).value).Some? {
      var d, x, front, back := HealedParts(t, json, marker);
      assert dumped == (a + front) + (d + (marker + (back + b)));
      if !LosesPadding(t) {
        MarkerStands(a + front, d, x, marker, back + b);
        assert OccursAt(dumped, json.dumpMarker, |a + front| + |d| - |x|);
      } else if Once(dumped, marker) {
        forall i: nat ensures !OccursAt(dumped, json.dumpMarker, i) {
          MarkerStandsAlone(a + front, d, x, marker, back + b, i);
        }
      }
    } else {
      NotCompleted(t, json, marker);
      ContainedInside(a, DumpValue(json.value), b, json.dumpMarker);
    }
  }

  lemma NotCompleted(t: string, json: Attempt, marker: string)
    requires json.Read? && Healed(t, json, marker)
    requires CutString(t).None? || Completion(CutString(t).value).None?
    ensures Contains(DumpValue(json.value), json.dumpMarker) && !LosesPadding(t)
  {
    hide Decode; hide CutString; hide Padding; hide DumpValue;
  }

  /** What completed a value ends with the marker. */
  lemma EndsInMarker(t: string, json: Attempt, marker: string)
    requires json.Read? && Healed(t, json, marker)
    ensures EndsWith(json.dumpMarker, marker)
  {
    hide Decode; hide CutString; hide Padding; hide DumpValue;
    if CutString(t).Some? && Completion(CutString(t).value).Some? {
      var x := Completion(CutString(t).value).value;
      assert (x + marker)[|x|..] == marker;
    }
  }

  /** A text that loses its padding ends in the cut escape, not in a space. */
  lemma LosesAtEnd(t: string)
    requires LosesPadding(t)
    ensures t != "" && !IsSpace(t[|t| - 1])
  {
    hide Decode; hide FirstPiece; hide Padding; hide WholeEnd; hide IsSpace; hide OpenAt; hide Kept;
    var r := CutString(t).value;
    UnfinishedAgain(r);
    CompletedSize(r);
    CompletedUnits(r);
    var e := Rest(r);
    LastOfUnit(e, Padding(r));
    assert t[|t| - 1] == r[|r| - 1] == e[|e| - 1];
  }

  lemma CompletedUnits(r: string)
    requires Decode(r).None? && !EndsInSlash(r) && Decode(r + Padding(r)).Some?
    ensures var s := Rest(r) + Padding(r); UnitAt(s, 0) && (|s| == 12 ==> UnitAt(s, 6))
  {
    hide Decode; hide Padding; hide WholeEnd; hide EndsInSlash;
    CompletedSize(r);
  }

  lemma LastOfUnit(e: string, x: string)
    requires 2 <= |e| < |e + x| && |e + x| in {6, 12} && UnitAt(e + x, 0) && (|e + x| == 12 ==> UnitAt(e + x, 6))
    ensures !IsSpace(e[|e| - 1])
  {
    var s, n := e + x, |e| - 1;
    assert e[n] == s[n];
    if n >= 8 {
      assert s[n] == s[8..12][n - 8];
    } else if 2 <= n < 6 {
      assert s[n] == s[2..6][n - 2];
    }
  }

  // ------------------------------------------------------------ a single escape, exactly

  /** The completed escape is the second half of a pair, which stands for nothing alone. */
  predicate LowStart(h: string) {
    |h| >= 2 && (h[0] == 'd' || h[0] == 'D') && (h[1] in "cdef" || h[1] in "CDEF")
  }

  lemma LowDigits(h: string)
    requires |h| == 4 && HexRun(h)
    ensures Low(Code(h)) <==> LowStart(h)
  {}

  lemma SmallCode(h: string)
    requires |h| == 4 && HexRun(h)
    ensures Code(h) in {0, 0x10, 0x30} <==> h[0] == h[1] == h[3] == '0' && h[2] in "013"
  {}

  function Filled(h: string): string
    requires |h| <= 4
  {
    h + Zeros(4 - |h|)
  }

  lemma FilledIs(h: string)
    requires |h| < 4 && HexRun(h)
    ensures |Filled(h)| == 4 && HexRun(Filled(h)) && (LowStart(Filled(h)) <==> LowStart(h))
    ensures Code(Filled(h)) in {0, 0x10, 0x30} <==> h in {"", "0", "00", "000", "001", "003"}
  {
    var f := Filled(h);
    SmallCode(f);
    assert forall i | 0 <= i < |h| :: f[i] == h[i];
    hide HexDigit;
    if |h| == 0 {
      assert h == "";
    } else if |h| == 1 {
      assert h == [h[0]];
    } else if |h| == 2 {
      assert h == [h[0], h[1]];
    } else {
      assert h == [h[0], h[1], h[2]];
    }
  }

  // ------------------------------------------------------------ half a pair always loses

  predicate Plain(t: string, i: nat, j: nat)
    requires i <= j <= |t|
  {
    forall k | i <= k < j :: t[k] != '"' && t[k] != '\\'
  }

  lemma {:induction false} OpenSkips(t: string, i: nat, j: nat, open: nat)
    requires open <= i <= j <= |t| && Plain(t, i, j)
    ensures OpenAt(t, i, Some(open)) == OpenAt(t, j, Some(open))
    decreases j - i
  {
    if i < j { OpenSkips(t, i + 1, j, open); }
  }

  lemma UnitIsPlain(t: string, i: nat)
    requires UnitAt(t, i)
    ensures Plain(t, i + 2, i + 6)
  {
    forall k | i + 2 <= k < i + 6 ensures HexDigit(t[k]) {
      assert t[k] == t[i + 2..i + 6][k - i - 2];
    }
  }

  lemma UnitShifts(t: string, i: nat, j: nat)
    requires i + j <= |t|
    ensures UnitAt(t[i..], j) <==> UnitAt(t, i + j)
    ensures UnitAt(t, i + j) ==> CodeAt(t[i..], j) == CodeAt(t, i + j)
  {
    if i + j + 6 <= |t| {
      assert t[i..][j + 2..j + 6] == t[i + j + 2..i + j + 6];
    }
  }

  lemma OverUnit(t: string, i: nat, open: nat)
    requires open <= i && UnitAt(t, i)
    ensures OpenAt(t, i, Some(open)) == OpenAt(t, i + 6, Some(open))
  {
    UnitIsPlain(t, i);
    OpenSkips(t, i + 2, i + 6, open);
  }

  /** The piece at `i` does not close the string. */
  lemma OverPiece(t: string, i: nat, open: nat)
    requires open <= i < |t| && FirstPiece(t[i..]).Some?
    ensures OpenAt(t, i, Some(open)) == OpenAt(t, i + FirstPiece(t[i..]).value.size, Some(open))
  {
    var n := FirstPiece(t[i..]).value.size;
    assert t[i] == t[i..][0] && (n > 1 ==> t[i + 1] == t[i..][1]);
    if n >= 6 {
      UnitShifts(t, i, 0);
      UnitShifts(t, i, 6);
      OverUnit(t, i, open);
      if n == 12 { OverUnit(t, i + 6, open); }
    }
  }

  /** A body that decodes leaves its string open. */
  lemma {:induction false} BodyStaysOpen(t: string, i: nat, j: nat, open: nat)
    requires open <= i <= j <= |t| && Decode(t[i..j]).Some?
    ensures OpenAt(t, i, Some(open)) == OpenAt(t, j, Some(open))
    decreases j - i
  {
    hide FirstPiece; hide OpenAt;
    if i < j {
      var n := FirstPiece(t[i..j]).value.size;
      assert t[i..j][..n] == t[i..][..n] && t[i..j][n..] == t[i + n..j];
      SamePiece(t[i..j], t[i..], n);
      OverPiece(t, i, open);
      BodyStaysOpen(t, i + n, j, open);
    }
  }

  lemma {:induction false} OpenAtJoin(lead: string, body: string, i: nat, open: Option<nat>)
    requires i <= |lead| && (open.Some? ==> open.value <= i) && OpenAt(lead, i, open) == Some(|lead|)
    ensures OpenAt(lead + body, i, open) == OpenAt(lead + body, |lead|, Some(|lead|))
    decreases |lead| - i
  {
    var t := lead + body;
    if i < |lead| {
      assert t[i] == lead[i];
      if open.None? {
        OpenAtJoin(lead, body, i + 1, if t[i] == '"' then Some(i + 1) else None);
      } else if t[i] == '\\' {
        OpenAtJoin(lead, body, if i + 2 <= |lead| then i + 2 else |lead|, open);
      } else {
        OpenAtJoin(lead, body, i + 1, if t[i] == '"' then None else open);
      }
    }
  }

  /** The first half of a pair. */
  predicate HalfPair(e: string) {
    |e| == 6 && UnitAt(e, 0) && High(CodeAt(e, 0))
  }

  lemma {:induction false} WholeEndIs(front: string, e: string)
    requires Decode(front).Some? && e != "" && FirstPiece(e).None?
    ensures WholeEnd(front + e) == |front|
    decreases |front|
  {
    hide FirstPiece;
    if front == "" {
      assert front + e == e;
    } else {
      var n := FirstPiece(front).value.size;
      assert (front + e)[..n] == front[..n] && (front + e)[n..] == front[n..] + e;
      SamePiece(front, front + e, n);
      WholeEndIs(front[n..], e);
    }
  }

  lemma HalfPairCut(e: string)
    requires HalfPair(e)
    ensures FirstPiece(e).None? && e[0] == '\\' && e[5] != '\\'
    ensures Decode(e + "\\udc00").Some?
  {
    var s := e + "\\udc00";
    UnitEndsInDigit(e, 0);
    assert s[..6] == e[..6];
    SameUnit(e, s, 0);
    assert s[8..12] == "dc00";
    assert UnitAt(s, 6) && CodeAt(s, 6) == 0xDC00;
    assert s[12..] == "";
    NothingDecodes();
  }

  /** A body cut after the first half of a pair loses its padding. */
  lemma HalfPairLoses(front: string, e: string)
    requires Utf8.WellFormed(front) && Decode(front).Some? && HalfPair(e)
    ensures Loses(front + e)
  {
    hide *;
    var r := front + e;
    HalfPairSize(e);
    UnitIsAscii(e);
    Utf8.AsciiFollows(front, e);
    HalfPairCut(e);
    WholeEndIs(front, e);
    BothParts(front, e);
    RestIs(r, |front|);
    assert e + "" == e && r + "" == r;
    DecodeSplits(r, "");
    CutHasNoValue(e);
    HalfPairEscape(r, e);
    DecodeSplits(r, "\\udc00");
    NoSlashNoCompletion(r);
    LosesMeans(r);
    NotKeptPair(e + "\\udc00");
  }

  lemma HalfPairSize(e: string)
    requires HalfPair(e)
    ensures |e + "\\udc00"| == 12 && |e| == 6
  {}

  lemma UnitIsAscii(e: string)
    requires HalfPair(e)
    ensures forall i | 0 <= i < |e| :: e[i] as int < 0x80
  {
    forall i | 0 <= i < |e| ensures e[i] as int < 0x80 {
      if i >= 2 { assert e[i] == e[2..6][i - 2]; }
    }
  }

  lemma CutHasNoValue(e: string)
    requires e != "" && FirstPiece(e).None?
    ensures Decode(e).None?
  {}

  lemma HalfPairEscape(r: string, e: string)
    requires HalfPair(e) && WholeEnd(r) <= |r| && Rest(r) == e
    ensures Padding(r) == "\\udc00"
  {
    hide *;
    var w := WholeEnd(r);
    RestMeans(r);
    HalfPairStarts(e);
    EscapeShifts(r, w, 0);
    PaddingAt(r, w);
    NoZeros("\\udc00");
  }

  lemma HalfPairStarts(e: string)
    requires HalfPair(e)
    ensures |e| == 6 && EscapeFrom(e, 0) && HighStart(e)
  {
    hide *;
    HalfPairMeans(e);
    AllOf(e);
    CutUnit(e, "", 0);
    HighMeans(e, 0, 6);
  }

  lemma NoZeros(s: string)
    ensures Zeros(0) + s == s
  {}

  lemma AllOf(e: string)
    ensures e + "" == e && "" + e == e && e[0..|e|] == e
  {}

  lemma HalfPairMeans(e: string)
    requires HalfPair(e)
    ensures |e| == 6 && UnitAt(e, 0) && High(CodeAt(e, 0))
  {}

  lemma RestMeans(r: string)
    ensures Rest(r) == r[WholeEnd(r)..]
  {}

  lemma ZerosAre()
    ensures Zeros(0) == "" && Zeros(1) == "0" && Zeros(2) == "00" && Zeros(3) == "000" && Zeros(4) == "0000"
  {}

  /** Whatever comes before, a text that is cut after the first half of a pair loses its padding. */
  lemma HalfPairText(lead: string, front: string, e: string)
    requires OpenAt(lead, 0, None) == Some(|lead|) && Utf8.WellFormed(front) && Decode(front).Some? && HalfPair(e)
    ensures LosesPadding(lead + (front + e))
  {
    hide *;
    var t, i := lead + (front + e), |lead|;
    var j := i + |front|;
    OpenAtJoin(lead, front + e, 0, None);
    ThreeParts(lead, front, e);
    BodyStaysOpen(t, i, j, i);
    HalfPairMeans(e);
    UnitShifts(t, j, 0);
    OverUnit(t, j, i);
    AtTheEnd(t, i);
    HalfPairLoses(front, e);
    LosesText(t, i);
  }

  lemma ThreeParts(a: string, b: string, c: string)
    ensures var t := a + (b + c);
            t[|a|..|a| + |b|] == b && t[|a|..] == b + c && t[|a| + |b|..] == c && |t| == |a| + |b| + |c|
  {}

  lemma LosesText(t: string, i: nat)
    requires OpenAt(t, 0, None) == Some(i) && i <= |t| && Loses(t[i..])
    ensures LosesPadding(t)
  {
    hide OpenAt; hide Loses;
  }

  lemma AtTheEnd(t: string, open: nat)
    requires open <= |t|
    ensures OpenAt(t, |t|, Some(open)) == Some(open)
  {}

  // ------------------------------------------------------------ a single cut escape, exactly

  lemma UnitOf(h: string)
    requires |h| == 4 && HexRun(h)
    ensures UnitAt("\\u" + h, 0) && CodeAt("\\u" + h, 0) == Code(h)
  {
    assert ("\\u" + h)[2..6] == h;
  }

  lemma SingleDecodes(h: string)
    requires |h| == 4 && HexRun(h) && !High(Code(h))
    ensures Decode("\\u" + h).Some? <==> !Low(Code(h))
  {
    UnitOf(h);
    var s := "\\u" + h;
    assert s[6..] == "";
    NothingDecodes();
  }

  lemma PairDecodes(h: string)
    requires |h| == 4 && HexRun(h) && High(Code(h))
    ensures Decode(("\\u" + h) + "\\udc00").Some? && HalfPair("\\u" + h)
  {
    UnitOf(h);
    HalfPairCut("\\u" + h);
  }

  lemma CutIsNoPiece(e: string)
    requires 2 <= |e| < 6 && e[0] == '\\' && e[1] == 'u'
    ensures FirstPiece(e).None? && Decode(e).None?
  {}

  /** The padding of an escape that nothing like an escape precedes. */
  lemma PlainPadding(r: string, w: nat)
    requires EscapeFrom(r, w) && LastEscape(r[..w]).None?
    ensures Padding(r) == Zeros(6 - (|r| - w)) + if HighStart(r[w..]) then "\\udc00" else ""
  {
    LastEscapeIs(r, w);
    hide LastEscape; hide HighStart; hide EscapeFrom;
    var zeros := Zeros(6 - (|r| - w));
    assert zeros + "" == zeros;
  }

  lemma FilledHigh(h: string)
    requires |h| < 4 && HexRun(h)
    ensures HexRun(Filled(h)) && (High(Code(Filled(h))) <==> HighStart("\\u" + h))
  {
    FilledIs(h);
    var e, f := "\\u" + h, Filled(h);
    HighDigits(f);
    assert |h| >= 2 ==> e[2] == h[0] == f[0] && e[3] == h[1] == f[1];
    assert |h| < 2 ==> f[1] == '0';
  }

  /** A body cut after `\u` and at most three digits, with no escape just before: completing it loses the padding
      unless the digits make it U+0000, U+0010 or `0`, or the second half of a pair, which nothing completes. */
  lemma SingleLosesExactly(front: string, h: string)
    requires Utf8.WellFormed(front) && Decode(front).Some? && LastEscape(front).None? && |h| < 4 && HexRun(h)
    ensures Loses(front + ("\\u" + h)) <==> h !in {"", "0", "00", "000", "001", "003"} && !LowStart(h)
  {
    hide *;
    var e := "\\u" + h;
    var r, f := front + e, Filled(h);
    SingleCut(front, h);
    CutIsAscii(h);
    Utf8.AsciiFollows(front, e);
    FilledIs(h);
    FilledHigh(h);
    LowDigits(f);
    assert e + "" == e && r + "" == r;
    DecodeSplits(r, "");
    DecodeSplits(r, Padding(r));
    LosesMeans(r);
    UnitOf(f);
    if HighStart(e) {
      assert e + Padding(r) == ("\\u" + f) + "\\udc00";
      PairDecodes(f);
      NotKeptPair(e + Padding(r));
      HighIsLarge(f);
    } else {
      assert e + Padding(r) == "\\u" + f;
      SingleDecodes(f);
      KeptMeans("\\u" + f);
    }
  }

  lemma HighIsLarge(h: string)
    requires |h| == 4 && HexRun(h) && High(Code(h))
    ensures Code(h) !in {0, 0x10, 0x30} && !Low(Code(h))
  {}

  lemma NotKeptPair(s: string)
    requires |s| == 12
    ensures !Kept(s)
  {}

  lemma KeptMeans(s: string)
    requires |s| == 6 && UnitAt(s, 0)
    ensures Kept(s) <==> CodeAt(s, 0) in {0, 0x10, 0x30}
  {}

  lemma LosesMeans(r: string)
    ensures Loses(r) <==>
            && Utf8.WellFormed(r) && Decode(r).None? && !EndsInSlash(r) && Decode(r + Padding(r)).Some?
            && !Kept(Rest(r) + Padding(r))
  {}

  /** Where the cut escape is, and with what it is completed. */
  lemma SingleCut(front: string, h: string)
    requires Decode(front).Some? && LastEscape(front).None? && |h| < 4 && HexRun(h)
    ensures var e := "\\u" + h;
            var r := front + e;
            && WholeEnd(r) == |front| && Rest(r) == e && r[..|front|] == front && Decode(e).None? && !EndsInSlash(r)
            && Padding(r) == Zeros(4 - |h|) + (if HighStart(e) then "\\udc00" else "")
            && Filled(h) == h + Zeros(4 - |h|)
  {
    hide *;
    var e := "\\u" + h;
    var r, w := front + e, |front|;
    CutStarts(h);
    CutIsNoPiece(e);
    WholeEndIs(front, e);
    BothParts(front, e);
    RestIs(r, w);
    EscapeAfter(front, h);
    PlainPadding(r, w);
    HexIsNoSlash(h);
    NoSlashNoCompletion(r);
    FilledMeans(h);
  }

  lemma CutIsAscii(h: string)
    requires HexRun(h)
    ensures var e := "\\u" + h; forall i | 0 <= i < |e| :: e[i] as int < 0x80
  {}

  lemma CutStarts(h: string)
    requires |h| < 4
    ensures var e := "\\u" + h;
            2 <= |e| < 6 && e[0] == '\\' && e[1] == 'u' && e[|e| - 1] == if h == "" then 'u' else h[|h| - 1]
  {}

  lemma BothParts(a: string, b: string)
    requires b != ""
    ensures var r := a + b; r[..|a|] == a && r[|a|..] == b && r[|r| - 1] == b[|b| - 1]
  {}

  lemma RestIs(r: string, w: nat)
    requires WholeEnd(r) == w <= |r|
    ensures Rest(r) == r[w..]
  {}

  lemma EscapeAfter(front: string, h: string)
    requires |h| < 4 && HexRun(h)
    ensures EscapeFrom(front + ("\\u" + h), |front|)
  {
    hide HexDigit;
    var r, w := front + ("\\u" + h), |front|;
    assert r[w + 2..] == h && r[w] == '\\' && r[w + 1] == 'u';
  }

  lemma NoSlashNoCompletion(r: string)
    requires r != "" && r[|r| - 1] != '\\'
    ensures !EndsInSlash(r)
  {}

  lemma FilledMeans(h: string)
    requires |h| <= 4
    ensures Filled(h) == h + Zeros(4 - |h|)
  {}

  lemma HexIsNoSlash(h: string)
    requires HexRun(h)
    ensures h != "" ==> h[|h| - 1] != '\\'
  {}
}
