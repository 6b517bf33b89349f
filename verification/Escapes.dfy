/** Backslash escapes in command-line texts, replaced in place. Characters are bytes. */
module Escapes {
  import opened Wrappers
  import opened Text

  /** One step: what the front of a text stands for, and how many characters that takes. */
  datatype Chunk = Chunk(text: string, size: nat)

  function HexDigit(c: char): int {
    if '0' <= c <= '9' then c as int - '0' as int
    else if 'a' <= c <= 'f' then c as int - 'a' as int + 10
    else if 'A' <= c <= 'F' then c as int - 'A' as int + 10
    else -1
  }

  /** Both characters are consumed by `strtol` in base 16: a digit, after another digit, a space or a sign. */
  predicate HexPair(c: char, d: char) {
    HexDigit(d) >= 0 && (HexDigit(c) >= 0 || IsSpace(c) || c == '+' || c == '-')
  }

  /** The value of the pair, as a byte. */
  function HexValue(c: char, d: char): char
    requires HexPair(c, d)
  {
    if HexDigit(c) >= 0 then (HexDigit(c) * 16 + HexDigit(d)) as char
    else if c == '-' && HexDigit(d) > 0 then (256 - HexDigit(d)) as char
    else HexDigit(d) as char
  }

  function Simple(c: char): Option<char> {
    match c
    case 'n' => Some('\n')
    case 'r' => Some('\r')
    case 't' => Some('\t')
    case '\'' => Some('\'')
    case '"' => Some('"')
    case '\\' => Some('\\')
    case _ => None
  }

  function First(s: string): (c: Chunk)
    requires s != ""
    ensures 1 <= |c.text| <= c.size <= |s|
  {
    if s[0] != '\\' || |s| == 1 then Chunk([s[0]], 1)
    else if Simple(s[1]).Some? then Chunk([Simple(s[1]).value], 2)
    else if s[1] == 'x' && |s| > 3 && HexPair(s[2], s[3]) then Chunk([HexValue(s[2], s[3])], 4)
    else Chunk(['\\', s[1]], 2)
  }

  /** The text with its escapes replaced, from left to right. */
  function Unescape(s: string): string {
    if s == "" then "" else First(s).text + Unescape(s[First(s).size..])
  }

  // ------------------------------------------------------------ in place

  lemma UnescapeNext(s: string, i: nat, front: string)
    requires i < |s|
    ensures var c := First(s[i..]);
            i + c.size <= |s| && front + Unescape(s[i..]) == (front + c.text) + Unescape(s[i + c.size..])
  {
    var c := First(s[i..]);
    hide First;
    assert s[i..][c.size..] == s[i + c.size..];
  }

  method Put(a: array<char>, at: nat, c: char)
    requires at < a.Length
    modifies a
    ensures a[..at + 1] == old(a[..at]) + [c] && forall k | 0 <= k < a.Length && k != at :: a[k] == old(a[k])
  {
    a[at] := c;
  }

  /** The cells from `i` on are still those of the original text. */
  ghost predicate Unread(a: array<char>, s: string, i: nat)
    reads a
  {
    a.Length == |s| && forall k | i <= k < |s| :: a[k] == s[k]
  }

  /** The body of the loop: reads the chunk at `i` and writes it at `at`, which is not past `i`. */
  method ProcessOne(a: array<char>, ghost s: string, i: nat, at: nat) returns (i': nat, at': nat)
    requires at <= i < a.Length && Unread(a, s, i)
    modifies a
    ensures i' == i + First(s[i..]).size && at' == at + |First(s[i..]).text|
    ensures at' <= i' <= a.Length && Unread(a, s, i')
    ensures a[..at'] == old(a[..at]) + First(s[i..]).text
  {
    hide Simple;
    hide HexPair;
    hide HexValue;
    ghost var rest := s[i..];
    assert rest[0] == a[i] && forall k | 0 <= k < |rest| :: rest[k] == a[i + k];
    i', at' := i, at;
    if a[i'] == '\\' && i' + 1 < a.Length {
      i' := i' + 1;
      var c := a[i'];
      var simple := Simple(c);
      if simple.Some? {
        Put(a, at', simple.value);
        at' := at' + 1;
      } else if c == 'x' && i' + 2 < a.Length && HexPair(a[i' + 1], a[i' + 2]) {
        var v := HexValue(a[i' + 1], a[i' + 2]);
        i' := i' + 2;
        Put(a, at', v);
        at' := at' + 1;
      } else {
        Put(a, at', '\\');
        at' := at' + 1;
        Put(a, at', c);
        at' := at' + 1;
      }
    } else {
      Put(a, at', a[i']);
      at' := at' + 1;
    }
    i' := i' + 1;
  }

  /** `string_process_escapes`: what is left of the text is its first `n` characters. The position written
      never passes the position read. */
  method ProcessEscapes(a: array<char>) returns (n: nat)
    modifies a
    ensures n <= a.Length && a[..n] == Unescape(old(a[..]))
  {
    hide First;
    ghost var s := a[..];
    var i := 0;
    n := 0;
    assert s[0..] == s;
    while i < a.Length
      invariant n <= i <= a.Length && Unread(a, s, i)
      invariant a[..n] + Unescape(s[i..]) == Unescape(s)
    {
      UnescapeNext(s, i, a[..n]);
      i, n := ProcessOne(a, s, i, n);
    }
    assert s[i..] == "";
    assert a[..n] + "" == a[..n];
  }

  // ------------------------------------------------------------ laws

  /** Every backslash written twice. */
  function Doubled(s: string): string {
    if s == "" then "" else DoubledChar(s[0]) + Doubled(s[1..])
  }

  function DoubledChar(c: char): string { if c == '\\' then "\\\\" else [c] }

  lemma FirstDoubled(c: char, tail: string)
    ensures First(DoubledChar(c) + tail) == Chunk([c], |DoubledChar(c)|)
    ensures (DoubledChar(c) + tail)[|DoubledChar(c)|..] == tail
  {}

  /** A text whose backslashes were doubled comes back as it was, whatever follows it. */
  lemma {:induction false} UnescapeUndoesDoubling(s: string, rest: string)
    ensures Unescape(Doubled(s) + rest) == s + Unescape(rest)
  {
    hide First;
    hide DoubledChar;
    if s != "" {
      UnescapeUndoesDoubling(s[1..], rest);
      var tail := Doubled(s[1..]) + rest;
      FirstDoubled(s[0], tail);
      assert Doubled(s) + rest == DoubledChar(s[0]) + tail;
      assert s + Unescape(rest) == [s[0]] + (s[1..] + Unescape(rest));
    } else {
      assert Doubled(s) + rest == rest && s + Unescape(rest) == Unescape(rest);
    }
  }

  /** Somewhere a left-to-right reading meets an escape it knows. */
  predicate HasEscape(s: string) {
    s != "" && (First(s).size > |First(s).text| || HasEscape(s[First(s).size..]))
  }

  lemma FirstUnchanged(s: string)
    requires s != ""
    ensures First(s).size == |First(s).text| ==> First(s).text == s[..First(s).size]
  {}

  /** The text never grows, and stays as it is exactly when it has no escape. */
  lemma {:induction false} UnescapeShrinks(s: string)
    ensures |Unescape(s)| <= |s|
    ensures HasEscape(s) ==> |Unescape(s)| < |s|
    ensures Unescape(s) == s <==> !HasEscape(s)
  {
    hide First;
    if s != "" {
      var c := First(s);
      UnescapeShrinks(s[c.size..]);
      FirstUnchanged(s);
      assert s == s[..c.size] + s[c.size..];
    }
  }

  // ------------------------------------------------------------ what a text stands for

  /** A text is made of plain characters, letters that stand for a character, codes of two characters, backslashes
      that are kept with what follows them, and perhaps one at the end. */
  datatype Piece =
    | Plain(c: char)
    | Letter(c: char, stands: nat)
    | Code(hi: char, lo: char, byte: nat)
    | Kept(c: char)
    | Slash

  /** The letters, and the codes of the characters that they stand for. */
  const Letters := "nrt'\"\\"
  const Stands := [10, 13, 9, 39, 34, 92]

  predicate DigitOf(c: char, v: nat) {
    v < 16 && ("0123456789abcdef"[v] == c || "0123456789ABCDEF"[v] == c)
  }

  /** `strtol` takes both characters as this byte: two digits, or one after a space or a sign. */
  predicate CodeWith(hi: char, lo: char, byte: nat, v: nat, w: nat) {
    && DigitOf(lo, w)
    && (|| (DigitOf(hi, v) && byte == 16 * v + w)
        || ((IsSpace(hi) || hi == '+') && byte == w)
        || (hi == '-' && byte == (256 - w) % 256))
  }

  ghost predicate CodeOf(hi: char, lo: char, byte: nat) {
    exists v: nat, w: nat :: CodeWith(hi, lo, byte, v, w)
  }

  /** The piece, with `rest` after it, is what it says. */
  ghost predicate Proper(p: Piece, rest: string) {
    match p
    case Plain(c) => c != '\\'
    case Letter(c, stands) => exists k | 0 <= k < 6 :: Letters[k] == c && Stands[k] == stands
    case Code(hi, lo, byte) => CodeOf(hi, lo, byte)
    case Kept(c) =>
      && c !in Letters
      && (c == 'x' && |rest| >= 2 ==> forall byte: nat :: !CodeOf(rest[0], rest[1], byte))
    case Slash => rest == ""
  }

  function Written(p: Piece): string {
    match p
    case Plain(c) => [c]
    case Letter(c, _) => ['\\', c]
    case Code(hi, lo, _) => ['\\', 'x', hi, lo]
    case Kept(c) => ['\\', c]
    case Slash => "\\"
  }

  function Meant(p: Piece): string {
    match p
    case Plain(c) => [c]
    case Letter(_, stands) => if stands < 256 then [stands as char] else ""
    case Code(_, _, byte) => if byte < 256 then [byte as char] else ""
    case Kept(c) => ['\\', c]
    case Slash => "\\"
  }

  function WrittenAll(ps: seq<Piece>): string {
    if ps == [] then "" else Written(ps[0]) + WrittenAll(ps[1..])
  }

  function MeantAll(ps: seq<Piece>): string {
    if ps == [] then "" else Meant(ps[0]) + MeantAll(ps[1..])
  }

  ghost predicate Reading(ps: seq<Piece>) {
    ps != [] ==> Proper(ps[0], WrittenAll(ps[1..])) && Reading(ps[1..])
  }

  lemma DigitIs(c: char, v: nat)
    ensures DigitOf(c, v) <==> HexDigit(c) == v
  {}

  lemma CodeWithIs(hi: char, lo: char, byte: nat, v: nat, w: nat)
    requires CodeWith(hi, lo, byte, v, w)
    ensures HexPair(hi, lo) && HexValue(hi, lo) as int == byte
  {
    DigitIs(lo, w);
    DigitIs(hi, v);
    hide DigitOf;
  }

  lemma PairHasCode(hi: char, lo: char)
    requires HexPair(hi, lo)
    ensures CodeOf(hi, lo, HexValue(hi, lo) as int)
  {
    var v: nat, w: nat := if HexDigit(hi) >= 0 then HexDigit(hi) else 0, HexDigit(lo);
    DigitIs(lo, w);
    DigitIs(hi, v);
    hide DigitOf;
    assert CodeWith(hi, lo, HexValue(hi, lo) as int, v, w);
  }

  lemma CodeIs(hi: char, lo: char, byte: nat)
    ensures CodeOf(hi, lo, byte) <==> HexPair(hi, lo) && HexValue(hi, lo) as int == byte
  {
    hide CodeWith; hide HexPair; hide HexValue;
    if CodeOf(hi, lo, byte) {
      var v: nat, w: nat :| CodeWith(hi, lo, byte, v, w);
      CodeWithIs(hi, lo, byte, v, w);
    }
    if HexPair(hi, lo) { PairHasCode(hi, lo); }
  }

  lemma LetterIs(c: char)
    ensures c in Letters <==> Simple(c).Some?
    ensures forall k | 0 <= k < 6 :: Letters[k] == c ==> Simple(c) == Some(Stands[k] as char)
  {}

  lemma CodeIsRead(hi: char, lo: char, byte: nat, rest: string)
    requires CodeOf(hi, lo, byte)
    ensures byte < 256 && First(['\\', 'x', hi, lo] + rest) == Chunk([byte as char], 4)
    ensures (['\\', 'x', hi, lo] + rest)[4..] == rest
  {
    hide HexPair; hide HexValue; hide CodeOf;
    CodeIs(hi, lo, byte);
    ByteIs(hi, lo);
  }

  lemma ByteIs(hi: char, lo: char)
    requires HexPair(hi, lo)
    ensures HexValue(hi, lo) as int < 256
  {}

  lemma FirstIsRead(p: Piece, rest: string)
    requires Proper(p, rest)
    ensures First(Written(p) + rest) == Chunk(Meant(p), |Written(p)|)
    ensures (Written(p) + rest)[|Written(p)|..] == rest
  {
    hide HexPair; hide HexValue; hide Simple; hide CodeOf;
    match p {
      case Plain(c) =>
      case Letter(c, stands) => LetterIs(c);
      case Code(hi, lo, byte) => CodeIsRead(hi, lo, byte, rest);
      case Kept(c) =>
        LetterIs(c);
        if c == 'x' && |rest| >= 2 && HexPair(rest[0], rest[1]) {
          CodeIs(rest[0], rest[1], HexValue(rest[0], rest[1]) as int);
        }
      case Slash =>
    }
  }

  /** A text stands for what its pieces stand for, in order. */
  lemma {:induction false} PiecesAreRead(ps: seq<Piece>)
    requires Reading(ps)
    ensures Unescape(WrittenAll(ps)) == MeantAll(ps)
    decreases |ps|
  {
    hide First; hide Proper; hide Written; hide Meant;
    if ps != [] {
      FirstIsRead(ps[0], WrittenAll(ps[1..]));
      PiecesAreRead(ps[1..]);
    }
  }

  lemma FirstHasPiece(s: string) returns (p: Piece)
    requires s != "" && forall i | 0 <= i < |s| :: s[i] as int < 256
    ensures |Written(p)| <= |s| && s == Written(p) + s[|Written(p)|..] && Written(p) != ""
    ensures Proper(p, s[|Written(p)|..])
  {
    hide HexPair; hide HexValue; hide Simple; hide CodeOf;
    if s[0] != '\\' {
      p := Plain(s[0]);
    } else if |s| == 1 {
      p := Slash;
    } else {
      LetterIs(s[1]);
      if s[1] in Letters {
        var k :| 0 <= k < 6 && Letters[k] == s[1];
        p := Letter(s[1], Stands[k]);
      } else if s[1] == 'x' && |s| > 3 && HexPair(s[2], s[3]) {
        p := Code(s[2], s[3], HexValue(s[2], s[3]) as int);
        CodeIs(s[2], s[3], p.byte);
      } else {
        p := Kept(s[1]);
        if s[1] == 'x' && |s| > 3 {
          forall byte: nat ensures !CodeOf(s[2], s[3], byte) { CodeIs(s[2], s[3], byte); }
        }
      }
    }
  }

  /** And every text of bytes is made of such pieces. */
  lemma {:induction false} EveryTextHasPieces(s: string) returns (ps: seq<Piece>)
    requires forall i | 0 <= i < |s| :: s[i] as int < 256
    ensures Reading(ps) && WrittenAll(ps) == s
    decreases |s|
  {
    hide Proper; hide Written;
    if s == "" {
      ps := [];
    } else {
      var p := FirstHasPiece(s);
      var rest := EveryTextHasPieces(s[|Written(p)|..]);
      ps := [p] + rest;
      assert ps[1..] == rest;
    }
  }
}
