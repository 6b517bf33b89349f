/** Strings written as `dump` writes them, and what the shipped reader of JSON makes of them while they arrive. */
module JsonStrings {
  import opened Wrappers
  import opened Text
  import opened Json
  import opened JsonHealing
  import Utf8

  // ------------------------------------------------------------ a string that arrives

  /** A letter after a backslash that `dump` writes too. */
  predicate Lettered(c: char) {
    c == '"' || c == '\\' || c == 'b' || c == 'f' || c == 'n' || c == 'r' || c == 't'
  }

  /** The first character or escape: how long it is. */
  function Unit(t: string): (n: nat)
    requires t != ""
    ensures 0 < n <= |t|
  {
    if t[0] == '\\' && |t| > 1 then 2 else 1
  }

  /** It is no control character, and no escape that `dump` writes otherwise. */
  predicate GoodUnit(t: string)
    requires t != ""
  {
    if t[0] == '\\' then |t| > 1 && Lettered(t[1]) else t[0] != '"' && t[0] as int >= 0x20
  }

  /** `t` follows an opening quote: up to a closing quote, or as far as it has arrived, it is written as `dump` writes
      it, without escapes of four digits. */
  predicate PlainString(t: string)
    decreases |t|
  {
    t == "" || t[0] == '"' || t == "\\" || (GoodUnit(t) && PlainString(t[Unit(t)..]))
  }

  /** The string up to its closing quote, or as far as it has arrived. */
  function Taken(t: string): (r: string)
    ensures r <= t
    decreases |t|
  {
    if t == "" then ""
    else if t[0] == '"' then "\""
    else t[..Unit(t)] + Taken(t[Unit(t)..])
  }

  predicate Closes(t: string)
    decreases |t|
  {
    t != "" && (t[0] == '"' || Closes(t[Unit(t)..]))
  }

  /** The body ends with a backslash that waits for its letter. */
  predicate CutSlash(t: string)
    decreases |t|
  {
    t != "" && t[0] != '"' && (t == "\\" || CutSlash(t[Unit(t)..]))
  }

  /** The body between the quotes. */
  function Inside(t: string): string
    decreases |t|
  {
    if t == "" || t[0] == '"' then "" else t[..Unit(t)] + Inside(t[Unit(t)..])
  }

  lemma SameUnit(t: string, t': string)
    requires t <= t' && t != "" && t != "\\"
    ensures Unit(t') == Unit(t) && t'[..Unit(t)] == t[..Unit(t)] && t[Unit(t)..] <= t'[Unit(t)..]
    ensures GoodUnit(t') <==> GoodUnit(t)
  {
    var n := Unit(t);
    assert t[n..] == t'[n..][..|t| - n];
  }

  lemma SlashIsTaken(t': string)
    requires "\\" <= t'
    ensures Taken("\\") == "\\" <= Taken(t') && !Closes("\\")
  {
    hide Taken;
    TakenFirst("\\");
    TakenFirst(t');
    assert "\\"[1..] == "";
    assert t'[..Unit(t')][0] == '\\';
  }

  lemma TakenFirst(t: string)
    ensures t == "" ==> Taken(t) == "" && !Closes(t)
    ensures t != "" && t[0] == '"' ==> Taken(t) == "\"" && Closes(t)
    ensures t != "" && t[0] != '"' ==>
              Taken(t) == t[..Unit(t)] + Taken(t[Unit(t)..]) && (Closes(t) <==> Closes(t[Unit(t)..]))
  {}

  lemma JoinGrows(a: string, b: string, c: string)
    requires b <= c
    ensures a + b <= a + c
  {}

  /** As the text grows more is taken, until the string is closed. */
  lemma {:induction false} TakenGrows(t: string, t': string)
    requires t <= t'
    ensures Taken(t) <= Taken(t')
    ensures Closes(t) ==> Closes(t') && Taken(t') == Taken(t)
    decreases |t|
  {
    hide Taken; hide Closes;
    TakenFirst(t);
    TakenFirst(t');
    if t == "\\" {
      SlashIsTaken(t');
    } else if t != "" && t[0] != '"' {
      SameUnit(t, t');
      TakenGrows(t[Unit(t)..], t'[Unit(t)..]);
      JoinGrows(t[..Unit(t)], Taken(t[Unit(t)..]), Taken(t'[Unit(t)..]));
    }
  }

  lemma {:induction false} PlainShorter(t: string, t': string)
    requires t <= t' && PlainString(t')
    ensures PlainString(t)
    decreases |t|
  {
    hide GoodUnit; hide Unit;
    if t != "" && t[0] != '"' && t != "\\" {
      SameUnit(t, t');
      LongerThanSlash(t, t');
      PlainShorter(t[Unit(t)..], t'[Unit(t)..]);
    }
  }

  lemma LongerThanSlash(t: string, t': string)
    requires t <= t' && t != "" && t != "\\"
    ensures t' != "\\" && t' != "" && t'[0] == t[0]
  {}

  lemma {:induction false} TakenAll(t: string)
    ensures !Closes(t) ==> Taken(t) == t
    decreases |t|
  {
    hide Unit;
    if t != "" && t[0] != '"' {
      TakenAll(t[Unit(t)..]);
      assert t == t[..Unit(t)] + t[Unit(t)..];
    }
  }

  // ------------------------------------------------------------ what such a string stands for

  function LetterOf(c: char): char
    requires Lettered(c)
  {
    if c == 'b' then 8 as char else if c == 'f' then 12 as char else if c == 'n' then 10 as char
    else if c == 'r' then 13 as char else if c == 't' then 9 as char else c
  }

  function UnitChar(t: string): char
    requires t != "" && GoodUnit(t)
  {
    if t[0] == '\\' then LetterOf(t[1]) else t[0]
  }

  lemma LetterIsEscape(c: char)
    requires Lettered(c)
    ensures Simple(c) == Some(LetterOf(c)) && EscapeChar(LetterOf(c)) == ['\\', c]
  {}

  lemma UnitMeans(t: string)
    requires t != "" && GoodUnit(t)
    ensures FirstPiece(t) == Some(Piece([UnitChar(t)], Unit(t))) && EscapeChar(UnitChar(t)) == t[..Unit(t)]
  {
    if t[0] == '\\' {
      LetterIsEscape(t[1]);
      assert t[..2] == ['\\', t[1]];
    } else {
      assert t[..1] == [t[0]];
    }
  }

  lemma DecodeFirst(t: string)
    requires t != "" && GoodUnit(t)
    ensures Decode(t) ==
            match Decode(t[Unit(t)..]) case None => None case Some(d) => Some([UnitChar(t)] + d)
  {
    hide FirstPiece; hide Unit; hide UnitChar; hide GoodUnit;
    UnitMeans(t);
  }

  lemma EscapeFirst(c: char, rest: string)
    ensures EscapeAll([c] + rest) == EscapeChar(c) + EscapeAll(rest)
  {
    hide EscapeChar;
    assert ([c] + rest)[1..] == rest;
  }

  /** The text that the body `b` stands for, if it is complete. */
  lemma {:induction false} BodyMeans(b: string) returns (d: string)
    requires PlainString(b) && !Closes(b) && !CutSlash(b)
    ensures Decode(b) == Some(d) && EscapeAll(d) == b
    decreases |b|
  {
    hide Unit; hide UnitChar; hide GoodUnit; hide Decode; hide EscapeAll;
    if b == "" {
      d := "";
      NothingDecodes();
    } else {
      var rest := BodyMeans(b[Unit(b)..]);
      d := [UnitChar(b)] + rest;
      DecodeFirst(b);
      UnitMeans(b);
      EscapeFirst(UnitChar(b), rest);
      assert b == b[..Unit(b)] + b[Unit(b)..];
    }
  }

  lemma NothingDecodes()
    ensures Decode("") == Some("") && EscapeAll("") == ""
  {}

  lemma LoneSlash()
    ensures Decode("\\").None? && Decode("\\\\") == Some("\\")
  {
    assert FirstPiece("\\\\") == Some(Piece("\\", 2));
    assert "\\\\"[2..] == "";
    NothingDecodes();
    assert "\\" + "" == "\\";
  }

  lemma UnitBefore(b: string, x: string)
    requires b != "" && b != "\\"
    ensures b + x != "" && Unit(b + x) == Unit(b) && (b + x)[Unit(b)..] == b[Unit(b)..] + x
    ensures GoodUnit(b + x) <==> GoodUnit(b)
    ensures GoodUnit(b) ==> UnitChar(b + x) == UnitChar(b)
  {
    assert (b + x)[0] == b[0] && (|b| > 1 ==> (b + x)[1] == b[1]);
  }

  /** A body that ends with a waiting backslash is completed by one more. */
  lemma {:induction false} SlashParts(b: string)
    requires PlainString(b) && !Closes(b) && CutSlash(b)
    ensures b != "" && b[|b| - 1] == '\\'
    ensures var b0 := b[..|b| - 1]; PlainString(b0) && !Closes(b0) && !CutSlash(b0)
    ensures Decode(b).None?
    ensures Decode(b[..|b| - 1]).Some? ==> Decode(b + "\\") == Some(Decode(b[..|b| - 1]).value + "\\")
    decreases |b|
  {
    hide Decode; hide Unit; hide UnitChar; hide GoodUnit;
    if b == "\\" {
      LoneSlash();
      NothingDecodes();
      assert b[..0] == "" && "" + "\\" == "\\" && "\\" + "\\" == "\\\\";
    } else {
      var n := Unit(b);
      var r := b[n..];
      SlashParts(r);
      var b0, r0 := b[..|b| - 1], r[..|r| - 1];
      FrontOfBody(b, n);
      DecodeFirst(b);
      UnitBefore(b, "\\");
      DecodeFirst(b + "\\");
      DecodeFirst(b0);
      if Decode(r0).Some? {
        assert [UnitChar(b)] + (Decode(r0).value + "\\") == ([UnitChar(b)] + Decode(r0).value) + "\\";
      }
    }
  }

  lemma FrontOfBody(b: string, n: nat)
    requires b != "" && b != "\\" && n == Unit(b) < |b| && b[0] != '"' && GoodUnit(b)
    requires b[n..][|b| - n - 1] == '\\'
    ensures var b0 := b[..|b| - 1];
            && b[|b| - 1] == '\\' && b0 != "" && b0 != "\\" && b0[0] == b[0] && Unit(b0) == n && GoodUnit(b0)
            && UnitChar(b0) == UnitChar(b) && b0[n..] == b[n..][..|b| - n - 1]
  {}

  lemma InsideFirst(t: string)
    ensures t == "" || t[0] == '"' ==> Inside(t) == ""
    ensures t != "" && t[0] != '"' ==> Inside(t) == t[..Unit(t)] + Inside(t[Unit(t)..])
  {}

  lemma {:induction false} ClosedParts(t: string)
    requires PlainString(t) && Closes(t)
    ensures var b := Inside(t); |b| < |t| && Taken(t) == b + "\"" && t == b + ("\"" + t[|b| + 1..])
    ensures var b := Inside(t); PlainString(b) && !Closes(b) && !CutSlash(b)
    decreases |t|
  {
    hide Taken; hide Unit; hide GoodUnit; hide Inside;
    InsideFirst(t);
    TakenFirst(t);
    if t[0] == '"' {
      assert t == "" + ("\"" + t[1..]) && "" + "\"" == "\"";
    } else {
      NotSlash(t);
      var n := Unit(t);
      var r := t[n..];
      ClosedParts(r);
      var c := Inside(r);
      Pieces(t, n, c);
      InsideUnit(t, c);
    }
  }

  lemma NotSlash(t: string)
    requires Closes(t) && t[0] != '"'
    ensures t != "\\"
  {
    assert "\\"[1..] == "";
  }

  lemma Pieces(t: string, n: nat, c: string)
    requires n <= |t| && |c| < |t| - n && t[n..] == c + ("\"" + t[n..][|c| + 1..])
    ensures var b := t[..n] + c; t == b + ("\"" + t[|b| + 1..]) && t[..n] + (c + "\"") == b + "\""
  {
    assert t[n..][|c| + 1..] == t[n + |c| + 1..];
  }

  lemma InsideUnit(t: string, c: string)
    requires t != "" && t[0] != '"' && t != "\\" && GoodUnit(t) && PlainString(c) && !Closes(c) && !CutSlash(c)
    ensures var b := t[..Unit(t)] + c; PlainString(b) && !Closes(b) && !CutSlash(b)
  {
    var n, b := Unit(t), t[..Unit(t)] + c;
    assert b[0] == t[0] && (n == 2 ==> b[1] == t[1]) && b[n..] == c;
    assert Unit(b) == n && GoodUnit(b);
  }

  // ------------------------------------------------------------ the reader on strings

  /** What may follow a value: spaces and the end of the text, or a comma or a closing brace. */
  predicate AfterValue(rest: string) {
    var n := SkipSpaces(rest, 0);
    n == |rest| || rest[n] == ',' || rest[n] == '}'
  }

  predicate ClosedRead(a: Attempt, text: string, size: nat, rest: string) {
    && a.Read? && a.value == Str(text) && a.marker == "" && a.dumpMarker == ""
    && size <= a.size <= size + SkipSpaces(rest, 0)
  }

  predicate Digits(s: string) {
    s != "" && forall i | 0 <= i < |s| :: '0' <= s[i] <= '9'
  }

  /** The spaces that JSON allows around a value (section 2 of RFC 8259). */
  predicate JsonSpaces(s: string) {
    forall i | 0 <= i < |s| :: s[i] == ' ' || s[i] == '\t' || s[i] == '\n' || s[i] == '\r'
  }

  function Quoted(lead: string, t: string): string {
    lead + ("\"" + t)
  }

  /** The reader takes strings as json-partial.cpp does, after spaces: a closed one with some of the spaces after it,
      and an open one up to the end of the text, completed with the marker, after one more backslash where it ends
      with one. Of spaces alone it reads nothing. */
  ghost predicate ReadsStrings(read: Reader, marker: string) {
    && Digits(marker)
    && (forall lead: string | JsonSpaces(lead) :: read(lead).NoJson?)
    && (forall lead: string, t: string | JsonSpaces(lead) && Utf8.WellFormed(t) && Decode(t).Some? ::
          read(Quoted(lead, t)) == Read(Str(Decode(t).value + marker), |lead| + |t| + 1, marker, marker))
    && (forall lead: string, t: string |
          JsonSpaces(lead) && Utf8.WellFormed(t) && Decode(t).None? && EndsInSlash(t) ::
          read(Quoted(lead, t)) ==
          Read(Str(Decode(t + "\\").value + marker), |lead| + |t| + 1, marker, "\\" + marker))
    && (forall lead: string, t: string, rest: string |
          JsonSpaces(lead) && Utf8.WellFormed(t) && Decode(t).Some? && AfterValue(rest) ::
          ClosedRead(read(Quoted(lead, t + ("\"" + rest))), Decode(t).value, |lead| + |t| + 2, rest))
  }

  lemma ReaderMeans(read: Reader, marker: string, lead: string, t: string)
    requires ReadsStrings(read, marker) && JsonSpaces(lead) && Utf8.WellFormed(t)
    ensures Digits(marker) && read(lead).NoJson?
    ensures Decode(t).Some? ==>
              read(Quoted(lead, t)) == Read(Str(Decode(t).value + marker), |lead| + |t| + 1, marker, marker)
    ensures Decode(t).None? && t != "" && t[|t| - 1] == '\\' && Decode(t + "\\").Some? ==>
              read(Quoted(lead, t)) ==
              Read(Str(Decode(t + "\\").value + marker), |lead| + |t| + 1, marker, "\\" + marker)
  {
    hide Decode; hide Utf8.WellFormed; hide AfterValue; hide ClosedRead; hide Quoted; hide JsonSpaces; hide Digits;
  }

  lemma ReaderCloses(read: Reader, marker: string, lead: string, t: string, rest: string)
    requires ReadsStrings(read, marker) && JsonSpaces(lead)
    requires Utf8.WellFormed(t) && Decode(t).Some? && AfterValue(rest)
    ensures ClosedRead(read(Quoted(lead, t + ("\"" + rest))), Decode(t).value, |lead| + |t| + 2, rest)
  {
    hide Decode; hide Utf8.WellFormed; hide AfterValue; hide ClosedRead; hide EndsInSlash; hide Quoted;
    hide JsonSpaces; hide Digits;
  }

  lemma ReadsOpen(read: Reader, marker: string, lead: string, b: string) returns (d: string)
    requires ReadsStrings(read, marker) && JsonSpaces(lead)
    requires Utf8.WellFormed(b) && PlainString(b) && !Closes(b) && !CutSlash(b)
    ensures EscapeAll(d) == b && read(Quoted(lead, b)) == Read(Str(d + marker), |lead| + |b| + 1, marker, marker)
  {
    hide *;
    d := BodyMeans(b);
    ReaderMeans(read, marker, lead, b);
  }

  lemma ReadsSlash(read: Reader, marker: string, lead: string, b: string) returns (d: string)
    requires ReadsStrings(read, marker) && JsonSpaces(lead)
    requires Utf8.WellFormed(b) && PlainString(b) && !Closes(b) && CutSlash(b)
    ensures EscapeAll(d) + "\\" == b
    ensures read(Quoted(lead, b)) == Read(Str((d + "\\") + marker), |lead| + |b| + 1, marker, "\\" + marker)
  {
    hide *;
    SlashParts(b);
    d := BodyMeans(b[..|b| - 1]);
    ReaderMeans(read, marker, lead, b);
    assert b[..|b| - 1] + [b[|b| - 1]] == b;
  }

  lemma ReadsClosed(read: Reader, marker: string, lead: string, t: string) returns (d: string)
    requires ReadsStrings(read, marker) && JsonSpaces(lead)
    requires PlainString(t) && Closes(t) && Utf8.WellFormed(Inside(t)) && AfterValue(t[|Taken(t)|..])
    ensures EscapeAll(d) + "\"" == Taken(t) && Decode(Inside(t)) == Some(d)
    ensures ClosedRead(read(Quoted(lead, t)), d, |lead| + |Taken(t)| + 1, t[|Taken(t)|..])
  {
    hide *;
    ClosedParts(t);
    var b := Inside(t);
    d := BodyMeans(b);
    assert t[|Taken(t)|..] == t[|b| + 1..];
    ReaderCloses(read, marker, lead, b, t[|b| + 1..]);
  }
}
