/** A reader of JSON objects (sections 4 and 7 of RFC 8259), and the law that it undoes `dump`. */
module JsonReading {
  import opened Wrappers
  import opened Json
  import opened JsonHealing
  import Utf8

  // ------------------------------------------------------------ the reader

  /** The body of a string up to its closing quote, decoded, and what follows the quote. */
  function ReadBody(s: string): (r: Option<(string, string)>)
    ensures r.Some? ==> |r.value.1| < |s|
    decreases |s|
  {
    if s == "" then None
    else if s[0] == '"' then Some(("", s[1..]))
    else
      match FirstPiece(s)
      case None => None
      case Some(p) =>
        match ReadBody(s[p.size..])
        case None => None
        case Some(r) => Some((p.text + r.0, r.1))
  }

  function ReadString(s: string): (r: Option<(string, string)>)
    ensures r.Some? ==> |r.value.1| < |s|
  {
    if s == "" || s[0] != '"' then None else ReadBody(s[1..])
  }

  /** Where a value that is no string ends: at the first separator outside its brackets and strings. */
  function ValueEnd(s: string, i: nat): (n: nat)
    requires i <= |s|
    ensures i <= n <= |s|
    decreases |s| - i
  {
    if i == |s| || (ReadingAt(s, i) == Outside && Separator(s[i])) then i else ValueEnd(s, i + 1)
  }

  function ReadValue(s: string): (r: Option<(Value, string)>)
    ensures r.Some? ==> |r.value.1| <= |s|
  {
    if s != "" && s[0] == '"' then
      match ReadString(s)
      case None => None
      case Some(r) => Some((Str(r.0), r.1))
    else
      var n := ValueEnd(s, 0);
      Some((NonString(s[..n]), s[n..]))
  }

  function ReadMember(s: string): (r: Option<((string, Value), string)>)
    ensures r.Some? ==> |r.value.1| < |s|
  {
    match ReadString(s)
    case None => None
    case Some(key) =>
      if key.1 == "" || key.1[0] != ':' then None
      else
        match ReadValue(key.1[1..])
        case None => None
        case Some(v) => Some(((key.0, v.0), v.1))
  }

  /** The members up to the closing brace. */
  function ReadMembers(s: string): Option<(Members, string)>
    decreases |s|
  {
    match ReadMember(s)
    case None => None
    case Some(m) =>
      if m.1 != "" && m.1[0] == '}' then Some(([m.0], m.1[1..]))
      else if m.1 == "" || m.1[0] != ',' then None
      else
        match ReadMembers(m.1[1..])
        case None => None
        case Some(r) => Some(([m.0] + r.0, r.1))
  }

  function ReadObject(s: string): Option<(Members, string)> {
    if s == "" || s[0] != '{' then None
    else if |s| > 1 && s[1] == '}' then Some(([], s[2..]))
    else ReadMembers(s[1..])
  }

  // ------------------------------------------------------------ strings

  lemma ShortPiece(c: char, rest: string)
    requires c as int < 256 && |EscapeChar(c)| <= 2
    ensures FirstPiece(EscapeChar(c) + rest) == Some(Piece([c], |EscapeChar(c)|))
  {}

  lemma HexOf(i: nat)
    requires i < 16
    ensures HexDigit(Hex[i]) && HexValue(Hex[i]) == i
  {}

  lemma LongPiece(c: char, rest: string)
    requires |EscapeChar(c)| == 6
    ensures FirstPiece(EscapeChar(c) + rest) == Some(Piece([c], 6))
  {
    var n := c as int;
    LongShape(c);
    HexOf(n / 16);
    HexOf(n % 16);
    var r := EscapeChar(c) + rest;
    var h := r[2..6];
    assert h[0] == '0' && h[1] == '0' && h[2] == Hex[n / 16] && h[3] == Hex[n % 16];
    assert HexRun(h) && Code(h) == n;
  }

  /** The escape of a byte is read as that byte. */
  lemma EscapeIsRead(c: char, rest: string)
    requires c as int < 256
    ensures FirstPiece(EscapeChar(c) + rest) == Some(Piece([c], |EscapeChar(c)|))
  {
    EscapeShape(c);
    hide EscapeChar; hide FirstPiece;
    if |EscapeChar(c)| == 6 { LongPiece(c, rest); } else { ShortPiece(c, rest); }
  }

  /** Escapes are as short as they can be: a control character has a letter if there is one for it, and otherwise four
      digits in lower case; every other character but the quote and the backslash stands for itself. */
  lemma EscapeIsShortest(c: char)
    ensures var e, n := EscapeChar(c), c as int;
            && (|e| == 2 <==> c == '"' || c == '\\' || n in {8, 9, 10, 12, 13})
            && (|e| == 6 <==> n < 0x20 && n !in {8, 9, 10, 12, 13})
            && (|e| != 2 && |e| != 6 ==> e == [c])
            && (|e| == 2 ==> e[1] != 'u')
            && (|e| == 6 ==> e[2] == '0' && e[3] == '0' && !('A' <= e[4] <= 'F') && !('A' <= e[5] <= 'F'))
  {
    if |EscapeChar(c)| == 6 {
      LongShape(c);
      LowerCase(c as int / 16);
      LowerCase(c as int % 16);
    }
  }

  lemma LowerCase(i: nat)
    requires i < 16
    ensures !('A' <= Hex[i] <= 'F')
  {}

  /** Decoding undoes escaping, for every byte string. */
  lemma {:induction false} DecodeUndoesEscape(s: string)
    requires Bytes(s)
    ensures Decode(EscapeAll(s)) == Some(s)
    decreases |s|
  {
    hide EscapeChar; hide FirstPiece;
    if s != "" {
      var rest := EscapeAll(s[1..]);
      BytesParts(s);
      EscapeIsRead(s[0], rest);
      DecodeUndoesEscape(s[1..]);
      assert EscapeAll(s) == EscapeChar(s[0]) + rest && (EscapeChar(s[0]) + rest)[|EscapeChar(s[0])|..] == rest;
      assert [s[0]] + s[1..] == s;
    }
  }

  lemma {:induction false} BodyIsRead(s: string, rest: string)
    requires Bytes(s)
    ensures ReadBody(EscapeAll(s) + (['"'] + rest)) == Some((s, rest))
    decreases |s|
  {
    hide EscapeChar; hide FirstPiece;
    var tail := ['"'] + rest;
    EscapeAllNothing(tail);
    if s != "" {
      var after := EscapeAll(s[1..]) + tail;
      EscapeAllCons(s, tail);
      BytesParts(s);
      EscapeIsRead(s[0], after);
      BodyIsRead(s[1..], rest);
      assert (EscapeChar(s[0]) + after)[|EscapeChar(s[0])|..] == after;
      assert [s[0]] + s[1..] == s;
    } else {
      assert tail[1..] == rest;
    }
  }

  lemma StringIsRead(s: string, rest: string)
    requires Bytes(s)
    ensures ReadString(Quote(s) + rest) == Some((s, rest))
  {
    hide EscapeAll; hide ReadBody;
    QuoteParts(s, rest);
    BodyIsRead(s, rest);
    var text := EscapeAll(s) + (['"'] + rest);
    assert (['"'] + text)[1..] == text;
  }

  // ------------------------------------------------------------ members

  lemma {:induction false} ValueEndIs(s: string, i: nat, n: nat)
    requires i <= n < |s| && ReadingAt(s, n) == Outside && Separator(s[n])
    requires forall k | i <= k < n :: !(ReadingAt(s, k) == Outside && Separator(s[k]))
    ensures ValueEnd(s, i) == n
    decreases n - i
  {
    if i < n { ValueEndIs(s, i + 1, n); }
  }

  /** What `dump` prints for a value that is no string ends where the separator after it stands. */
  lemma PrintedIsRead(d: string, rest: string)
    requires Printed(d) && rest != "" && Separator(rest[0])
    ensures ValueEnd(d + rest, 0) == |d|
  {
    var s := d + rest;
    forall k | 0 <= k < |d| ensures !(ReadingAt(s, k) == Outside && Separator(s[k])) {
      SameReading(d, s, k);
      assert s[k] == d[k];
    }
    SameReading(d, s, |d|);
    assert s[|d|] == rest[0];
    ValueEndIs(s, 0, |d|);
  }

  lemma ValueIsRead(v: Value, rest: string)
    requires ProperValue(v) && rest != "" && Separator(rest[0])
    ensures ReadValue(DumpValue(v) + rest) == Some((v, rest))
  {
    hide Quote; hide ReadString; hide ReadingAt; hide ValueEnd;
    var s := DumpValue(v) + rest;
    assert s[0] == DumpValue(v)[0];
    if v.Str? {
      StringIsRead(v.text, rest);
    } else {
      PrintedIsRead(v.dump, rest);
      assert s[..|v.dump|] == v.dump && s[|v.dump|..] == rest;
    }
  }

  lemma MemberIsRead(key: string, v: Value, rest: string)
    requires Bytes(key) && ProperValue(v) && rest != "" && Separator(rest[0])
    ensures ReadMember(Quote(key) + ([':'] + (DumpValue(v) + rest))) == Some(((key, v), rest))
  {
    hide Quote; hide ReadString; hide ReadValue; hide DumpValue;
    var after := [':'] + (DumpValue(v) + rest);
    StringIsRead(key, after);
    ValueIsRead(v, rest);
    assert after[1..] == DumpValue(v) + rest;
  }

  lemma ReadMembersStep(s: string, m: (string, Value), after: string)
    requires ReadMember(s) == Some((m, after)) && after != ""
    ensures after[0] == '}' ==> ReadMembers(s) == Some(([m], after[1..]))
    ensures after[0] == ',' && ReadMembers(after[1..]).Some? ==>
              ReadMembers(s) == Some(([m] + ReadMembers(after[1..]).value.0, ReadMembers(after[1..]).value.1))
  {
    hide ReadMember;
  }

  lemma {:induction false} MembersAreRead(ms: Members, rest: string)
    requires ProperMembers(ms) && ms != []
    ensures ReadMembers(DumpMembers(ms) + (['}'] + rest)) == Some((ms, rest))
    decreases |ms|
  {
    hide *;
    var tail := ['}'] + rest;
    var after := AfterFirst(ms) + tail;
    ProperParts(ms);
    DumpMembersCons(ms, tail);
    AfterStarts(ms, tail);
    MemberIsRead(ms[0].0, ms[0].1, after);
    ReadMembersStep(DumpMembers(ms) + tail, ms[0], after);
    assert ms[0] == (ms[0].0, ms[0].1);
    if |ms| == 1 {
      assert after[1..] == rest && [ms[0]] == ms;
    } else {
      MembersAreRead(ms[1..], rest);
      assert [ms[0]] + ms[1..] == ms;
    }
  }

  lemma AfterStarts(ms: Members, tail: string)
    requires ms != [] && tail != "" && tail[0] == '}'
    ensures var after := AfterFirst(ms) + tail;
            after != "" && Separator(after[0]) &&
            if |ms| == 1 then after == tail else after[0] == ',' && after[1..] == DumpMembers(ms[1..]) + tail
  {
    hide DumpMembers;
    if |ms| > 1 { assert AfterFirst(ms) + tail == [','] + (DumpMembers(ms[1..]) + tail); }
  }

  /** A reader of JSON reads from a dump exactly the members that were dumped, in order. */
  lemma ReadUndoesDump(ms: Members, rest: string)
    requires ProperMembers(ms)
    ensures ReadObject(Dump(ms) + rest) == Some((ms, rest))
  {
    hide ReadMembers; hide DumpMembers;
    var text := DumpMembers(ms) + (['}'] + rest);
    assert Dump(ms) + rest == ['{'] + text;
    assert (['{'] + text)[1..] == text;
    if ms == [] {
      NothingDumped();
      assert text == ['}'] + rest && (['{'] + text)[2..] == rest;
    } else {
      MembersAreRead(ms, rest);
      FirstIsQuote(ms, ['}'] + rest);
    }
  }

  lemma NothingDumped()
    ensures DumpMembers([]) == ""
  {}

  lemma FirstIsQuote(ms: Members, rest: string)
    requires ms != []
    ensures (DumpMembers(ms) + rest)[0] == '"'
  {
    hide Quote;
    DumpMembersCons(ms, rest);
  }

  /** So the printed arguments determine the members and their order. */
  lemma DumpIsInjective(x: Members, y: Members)
    requires ProperMembers(x) && ProperMembers(y) && Dump(x) == Dump(y)
    ensures x == y
  {
    hide Dump; hide ReadObject;
    ReadUndoesDump(x, "");
    ReadUndoesDump(y, "");
  }

  // ------------------------------------------------------------ whole characters

  predicate ScalarCode(n: nat) {
    n < 0xD800 || 0xE000 <= n < 0x110000
  }

  /** The code point whose bytes these are. */
  function CodePoint(c: string): nat
    requires c != "" && Utf8.CharLength(c) == |c|
  {
    var l := c[0] as int;
    if |c| == 1 then l
    else if |c| == 2 then (l - 0xC0) * 64 + (c[1] as int - 0x80)
    else if |c| == 3 then (l - 0xE0) * 4096 + (c[1] as int - 0x80) * 64 + (c[2] as int - 0x80)
    else (l - 0xF0) * 262144 + (c[1] as int - 0x80) * 4096 + (c[2] as int - 0x80) * 64 + (c[3] as int - 0x80)
  }

  /** A character is whole exactly when it is the encoding of a code point, of which surrogates are none. */
  lemma WholeCharacter(c: string)
    ensures c != "" && Utf8.CharLength(c) == |c| <==> exists n: nat :: ScalarCode(n) && Encoded(n) == c
  {
    if c != "" && Utf8.CharLength(c) == |c| {
      EncodesIts(c);
      assert ScalarCode(CodePoint(c));
    }
    forall n: nat | ScalarCode(n) && Encoded(n) == c ensures c != "" && Utf8.CharLength(c) == |c| {
      EncodedIsWhole(n);
    }
  }

  lemma Digits2(x: nat, y: nat)
    requires y < 64
    ensures (x * 64 + y) / 64 == x && (x * 64 + y) % 64 == y
  {}

  lemma Digits3(x: nat, y: nat, z: nat)
    requires y < 64 && z < 64
    ensures var n := x * 4096 + y * 64 + z; n / 4096 == x && n / 64 % 64 == y && n % 64 == z
  {
    var n := x * 4096 + y * 64 + z;
    Digits2(x * 64 + y, z);
    Digits2(x, y);
    assert n == x * 4096 + (y * 64 + z);
  }

  lemma Digits4(w: nat, x: nat, y: nat, z: nat)
    requires x < 64 && y < 64 && z < 64
    ensures var n := w * 262144 + x * 4096 + y * 64 + z;
            n / 262144 == w && n / 4096 % 64 == x && n / 64 % 64 == y && n % 64 == z
  {
    var n := w * 262144 + x * 4096 + y * 64 + z;
    Digits3(w * 64 + x, y, z);
    Digits2(w, x);
    assert n == w * 262144 + (x * 4096 + y * 64 + z);
  }

  lemma EncodesTwo(c: string)
    requires Utf8.CharLength(c) == |c| == 2
    ensures ScalarCode(CodePoint(c)) && Encoded(CodePoint(c)) == c
  {
    Digits2(c[0] as int - 0xC0, c[1] as int - 0x80);
  }

  lemma EncodesThree(c: string)
    requires Utf8.CharLength(c) == |c| == 3
    ensures ScalarCode(CodePoint(c)) && Encoded(CodePoint(c)) == c
  {
    Digits3(c[0] as int - 0xE0, c[1] as int - 0x80, c[2] as int - 0x80);
    var n := CodePoint(c);
    assert 0x800 <= n < 0x10000 && ScalarCode(n);
  }

  lemma EncodesFour(c: string)
    requires Utf8.CharLength(c) == |c| == 4
    ensures ScalarCode(CodePoint(c)) && Encoded(CodePoint(c)) == c
  {
    Digits4(c[0] as int - 0xF0, c[1] as int - 0x80, c[2] as int - 0x80, c[3] as int - 0x80);
    var n := CodePoint(c);
    assert 0x10000 <= n < 0x110000;
  }

  lemma EncodesIts(c: string)
    requires c != "" && Utf8.CharLength(c) == |c|
    ensures ScalarCode(CodePoint(c)) && Encoded(CodePoint(c)) == c
  {
    if |c| == 2 {
      EncodesTwo(c);
    } else if |c| == 3 {
      EncodesThree(c);
    } else if |c| == 4 {
      EncodesFour(c);
    }
  }

  lemma TwoIsWhole(n: nat)
    requires 0x80 <= n < 0x800
    ensures Utf8.CharLength(Encoded(n)) == |Encoded(n)|
  {}

  lemma ThreeIsWhole(n: nat)
    requires 0x800 <= n < 0x10000 && ScalarCode(n)
    ensures Utf8.CharLength(Encoded(n)) == |Encoded(n)|
  {
    var x, y, z := n / 4096, n / 64 % 64, n % 64;
    assert n == x * 4096 + y * 64 + z;
    assert x == 0 ==> y >= 0x20;
    assert x == 0xD ==> y < 0x20;
  }

  lemma FourIsWhole(n: nat)
    requires 0x10000 <= n < 0x110000
    ensures Utf8.CharLength(Encoded(n)) == |Encoded(n)|
  {
    var w, x := n / 262144, n / 4096 % 64;
    assert n == w * 262144 + x * 4096 + n % 4096;
    assert w == 0 ==> x >= 0x10;
    assert w == 4 ==> x < 0x10;
  }

  lemma EncodedIsWhole(n: nat)
    requires ScalarCode(n)
    ensures Utf8.CharLength(Encoded(n)) == |Encoded(n)|
  {
    if n >= 0x10000 {
      FourIsWhole(n);
    } else if n >= 0x800 {
      ThreeIsWhole(n);
    } else if n >= 0x80 {
      TwoIsWhole(n);
    }
  }
}
