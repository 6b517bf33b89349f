/** The little of nlohmann's ordered JSON that tool-call arguments need: an object in insertion order,
    printed by `dump`. */
module Json {
  /** A string, or any other value by the text that `dump` prints for it. */
  datatype Value = Str(text: string) | NonString(dump: string)

  type Members = seq<(string, Value)>

  const Hex := "0123456789abcdef"

  function EscapeChar(c: char): (r: string)
    ensures r != ""
  {
    if c == '"' then "\\\""
    else if c == '\\' then "\\\\"
    else if c as int == 8 then "\\b"
    else if c as int == 9 then "\\t"
    else if c as int == 10 then "\\n"
    else if c as int == 12 then "\\f"
    else if c as int == 13 then "\\r"
    else if c as int < 0x20 then "\\u00" + [Hex[c as int / 16], Hex[c as int % 16]]
    else [c]
  }

  function EscapeAll(s: string): string {
    if s == "" then "" else EscapeChar(s[0]) + EscapeAll(s[1..])
  }

  function Quote(s: string): (r: string)
    ensures |r| >= 2 && r[0] == '"' && r[|r| - 1] == '"'
  {
    "\"" + EscapeAll(s) + "\""
  }

  function DumpValue(v: Value): string {
    if v.Str? then Quote(v.text) else v.dump
  }

  function DumpMembers(ms: Members): string {
    if ms == [] then ""
    else Quote(ms[0].0) + ":" + DumpValue(ms[0].1) + (if |ms| == 1 then "" else "," + DumpMembers(ms[1..]))
  }

  function Dump(ms: Members): (r: string)
    ensures r != "" && r[|r| - 1] == '}'
  {
    "{" + DumpMembers(ms) + "}"
  }

  /** `arguments[key] = value`: an existing member keeps its place. */
  function Put(ms: Members, key: string, value: Value): Members {
    if ms == [] then [(key, value)]
    else if ms[0].0 == key then [(key, value)] + ms[1..]
    else [ms[0]] + Put(ms[1..], key, value)
  }

  predicate HasKey(ms: Members, key: string) {
    exists i | 0 <= i < |ms| :: ms[i].0 == key
  }

  lemma {:induction false} PutNewKey(ms: Members, key: string, value: Value)
    requires !HasKey(ms, key)
    ensures Put(ms, key, value) == ms + [(key, value)]
  {
    if ms != [] {
      assert forall i | 0 <= i < |ms[1..]| :: ms[1..][i] == ms[i + 1];
      PutNewKey(ms[1..], key, value);
    }
  }

  /** A key that is there keeps its place, and every other member stays. */
  lemma {:induction false} PutOldKey(ms: Members, key: string, value: Value)
    requires HasKey(ms, key)
    ensures |Put(ms, key, value)| == |ms|
    ensures exists k | 0 <= k < |ms| :: ms[k].0 == key && Put(ms, key, value) == ms[k := (key, value)]
  {
    if ms[0].0 == key {
      assert Put(ms, key, value) == ms[0 := (key, value)];
    } else {
      var i :| 0 <= i < |ms| && ms[i].0 == key;
      assert ms[1..][i - 1].0 == key;
      PutOldKey(ms[1..], key, value);
      var k :| 0 <= k < |ms[1..]| && ms[1..][k].0 == key && Put(ms[1..], key, value) == ms[1..][k := (key, value)];
      assert ms[k + 1].0 == key && [ms[0]] + ms[1..][k := (key, value)] == ms[k + 1 := (key, value)];
    }
  }

  lemma PutFirst(key: string, value: Value)
    ensures Put([], key, value) == [(key, value)]
  {}

  lemma {:induction false} EscapeAllJoins(a: string, b: string)
    ensures EscapeAll(a + b) == EscapeAll(a) + EscapeAll(b)
  {
    hide EscapeChar;
    if a == "" {
      assert a + b == b;
      assert "" + EscapeAll(b) == EscapeAll(b);
    } else {
      assert (a + b)[1..] == a[1..] + b;
      EscapeAllJoins(a[1..], b);
    }
  }

  lemma {:induction false} EscapeAllMonotone(t: string, t': string)
    requires t <= t'
    ensures EscapeAll(t) <= EscapeAll(t')
  {
    hide EscapeChar;
    if t != "" {
      EscapeAllMonotone(t[1..], t'[1..]);
    }
  }

  // ------------------------------------------------------------ the shape of a dump

  lemma EscapeShape(c: char)
    ensures var e := EscapeChar(c);
            && (|e| == 1 || |e| == 2 || |e| == 6)
            && (|e| > 1 <==> e[0] == '\\') && (|e| == 6 <==> |e| > 1 && e[1] == 'u')
  {}

  lemma LongShape(c: char)
    requires |EscapeChar(c)| == 6
    ensures c as int / 16 < 2 && EscapeChar(c)[4] == Hex[c as int / 16] && EscapeChar(c)[5] == Hex[c as int % 16]
  {}

  ghost predicate Bytes(s: string) {
    forall i | 0 <= i < |s| :: s[i] as int < 256
  }

  /** Where a reader of JSON text is: the depth of nesting, whether inside a string, and there after a backslash. */
  datatype Reading = Reading(depth: int, quoted: bool, escaped: bool)

  const Outside := Reading(0, false, false)

  function ReadOn(r: Reading, c: char): Reading {
    if r.quoted then
      if r.escaped then r.(escaped := false)
      else if c == '\\' then r.(escaped := true)
      else if c == '"' then r.(quoted := false)
      else r
    else if c == '"' then r.(quoted := true)
    else if c == '{' || c == '[' then r.(depth := r.depth + 1)
    else if c == '}' || c == ']' then r.(depth := r.depth - 1)
    else r
  }

  function ReadingAt(s: string, i: nat): Reading
    requires i <= |s|
  {
    if i == 0 then Outside else ReadOn(ReadingAt(s, i - 1), s[i - 1])
  }

  predicate Separator(c: char) {
    c == ',' || c == '}'
  }

  /** What `dump` prints for a value that is not a string: no separator outside its own brackets and strings. */
  ghost predicate Printed(s: string) {
    && s != "" && s[0] != '"' && ReadingAt(s, |s|) == Outside
    && forall i | 0 <= i < |s| :: ReadingAt(s, i) == Outside ==> !Separator(s[i])
  }

  ghost predicate ProperValue(v: Value) {
    if v.Str? then Bytes(v.text) else Printed(v.dump)
  }

  ghost predicate ProperMembers(ms: Members) {
    forall i | 0 <= i < |ms| :: Bytes(ms[i].0) && ProperValue(ms[i].1)
  }

  lemma EscapeAllCons(a: string, rest: string)
    requires a != ""
    ensures EscapeAll(a) + rest == EscapeChar(a[0]) + (EscapeAll(a[1..]) + rest)
    ensures (EscapeAll(a) + rest)[0] != '"'
  {
    hide EscapeChar;
    NoQuoteInFront(a[0]);
    assert EscapeAll(a) == EscapeChar(a[0]) + EscapeAll(a[1..]);
  }

  lemma NoQuoteInFront(c: char)
    ensures EscapeChar(c)[0] != '"'
  {}

  lemma EscapeAllNothing(rest: string)
    ensures EscapeAll("") + rest == rest
  {}

  lemma BytesParts(s: string)
    requires Bytes(s) && s != ""
    ensures s[0] as int < 256 && Bytes(s[1..])
  {}

  lemma QuoteParts(a: string, s: string)
    ensures Quote(a) + s == ['"'] + (EscapeAll(a) + (['"'] + s))
  {
    hide EscapeAll;
    assert Quote(a) == ['"'] + (EscapeAll(a) + ['"']);
  }

  function AfterFirst(ms: Members): string
    requires ms != []
  {
    if |ms| == 1 then "" else "," + DumpMembers(ms[1..])
  }

  lemma DumpMembersCons(ms: Members, rest: string)
    requires ms != []
    ensures DumpMembers(ms) + rest == Quote(ms[0].0) + ([':'] + (DumpValue(ms[0].1) + (AfterFirst(ms) + rest)))
  {
    hide Quote; hide DumpValue;
    Regroup(Quote(ms[0].0), [':'], DumpValue(ms[0].1), AfterFirst(ms), rest);
  }

  lemma Regroup(a: string, b: string, c: string, d: string, rest: string)
    ensures a + b + c + d + rest == a + (b + (c + (d + rest)))
  {}

  lemma ProperParts(ms: Members)
    requires ProperMembers(ms) && ms != []
    ensures ProperMembers(ms[1..]) && Bytes(ms[0].0) && ProperValue(ms[0].1)
  {
    hide ProperValue;
    assert forall i | 0 <= i < |ms| - 1 :: ms[1..][i] == ms[i + 1];
  }

  lemma {:induction false} SameReading(u: string, v: string, i: nat)
    requires i <= |u| && u <= v
    ensures ReadingAt(u, i) == ReadingAt(v, i)
  {
    if i > 0 { SameReading(u, v, i - 1); }
  }

  /** The printed arguments determine the members and their order. */
  /** What reading JSON at the front of a text gives: the value, how much of the text it takes, and, when the
      text was unfinished, the marker that completed it, as it is and as it stands in the dump; or nothing, by
      returning false or by a `std::runtime_error`; or an exception that is not one. */
  datatype Attempt = Read(value: Value, size: nat, marker: string, dumpMarker: string) | NoJson | Throws

  /** `common_json_parse` with its healing marker: any reader that takes some of the text when it succeeds. */
  type Reader = read: string -> Attempt | forall s :: read(s).Read? ==> 0 < read(s).size <= |s|
    witness (s: string) => NoJson

  const NeverJson: Reader := (s: string) => NoJson

  /** `try_consume_json` at `pos`. It refuses a completed value in a finished text, with a `std::runtime_error`. */
  function AttemptAt(read: Reader, input: string, partial: bool, pos: nat): (r: Attempt)
    requires pos <= |input|
    ensures r.Read? ==> 0 < r.size <= |input| - pos
    ensures r.Read? && r.marker != "" ==> partial
  {
    var r := read(input[pos..]);
    if r.Read? && r.marker != "" && !partial then NoJson else r
  }
}
