/** How the shipped reader of JSON completes a text that is cut inside a string, and when the dump of the
    completed value no longer shows what was added. */
module JsonHealing {
  import opened Wrappers
  import opened Text
  import opened Json
  import Utf8

  // ------------------------------------------------------------ string bodies (section 7 of RFC 8259)

  predicate HexDigit(c: char) {
    '0' <= c <= '9' || 'a' <= c <= 'f' || 'A' <= c <= 'F'
  }

  function HexValue(c: char): (v: nat)
    requires HexDigit(c)
    ensures v < 16
  {
    if c <= '9' then c as int - '0' as int
    else if c <= 'F' then c as int - 'A' as int + 10
    else c as int - 'a' as int + 10
  }

  predicate HexRun(h: string) {
    forall i | 0 <= i < |h| :: HexDigit(h[i])
  }

  function Code(h: string): (n: nat)
    requires |h| == 4 && HexRun(h)
    ensures n < 0x10000
  {
    HexValue(h[0]) * 4096 + HexValue(h[1]) * 256 + HexValue(h[2]) * 16 + HexValue(h[3])
  }

  predicate High(n: nat) { 0xD800 <= n < 0xDC00 }

  predicate Low(n: nat) { 0xDC00 <= n < 0xE000 }

  /** The bytes of a code point (section 3 of RFC 3629). */
  function Encoded(n: nat): (s: string)
    requires n < 0x110000
    ensures s != ""
    ensures if n < 0x80 then s == [n as char] else s[|s| - 1] as int >= 0x80
  {
    if n < 0x80 then [n as char]
    else if n < 0x800 then [(0xC0 + n / 64) as char, (0x80 + n % 64) as char]
    else if n < 0x10000 then
      [(0xE0 + n / 4096) as char, (0x80 + n / 64 % 64) as char, (0x80 + n % 64) as char]
    else
      [(0xF0 + n / 262144) as char, (0x80 + n / 4096 % 64) as char, (0x80 + n / 64 % 64) as char,
       (0x80 + n % 64) as char]
  }

  /** What one character or escape stands for, and how long it is. */
  datatype Piece = Piece(text: string, size: nat)

  function Simple(c: char): Option<char> {
    if c == '"' || c == '\\' || c == '/' then Some(c)
    else if c == 'b' then Some(8 as char)
    else if c == 'f' then Some(12 as char)
    else if c == 'n' then Some(10 as char)
    else if c == 'r' then Some(13 as char)
    else if c == 't' then Some(9 as char)
    else None
  }

  /** `\uXXXX` at `i`. */
  predicate UnitAt(r: string, i: nat) {
    i + 6 <= |r| && r[i] == '\\' && r[i + 1] == 'u' && HexRun(r[i + 2..i + 6])
  }

  function CodeAt(r: string, i: nat): (n: nat)
    requires UnitAt(r, i)
    ensures n < 0x10000
  {
    Code(r[i + 2..i + 6])
  }

  function UnicodePiece(r: string): (p: Option<Piece>)
    ensures p.Some? ==> 6 <= p.value.size <= |r|
  {
    if !UnitAt(r, 0) || Low(CodeAt(r, 0)) then None
    else if !High(CodeAt(r, 0)) then Some(Piece(Encoded(CodeAt(r, 0)), 6))
    else if !UnitAt(r, 6) || !Low(CodeAt(r, 6)) then None
    else Some(Piece(Encoded(0x10000 + (CodeAt(r, 0) - 0xD800) * 1024 + (CodeAt(r, 6) - 0xDC00)), 12))
  }

  /** The first piece of the body of a string; none when it is malformed or unfinished. */
  function FirstPiece(r: string): (p: Option<Piece>)
    requires r != ""
    ensures p.Some? ==> 0 < p.value.size <= |r|
  {
    if r[0] != '\\' then if r[0] == '"' || r[0] as int < 0x20 then None else Some(Piece([r[0]], 1))
    else if |r| < 2 then None
    else if r[1] == 'u' then UnicodePiece(r)
    else
      match Simple(r[1])
      case None => None
      case Some(c) => Some(Piece([c], 2))
  }

  function Decode(r: string): (d: Option<string>)
    decreases |r|
  {
    if r == "" then Some("")
    else
      match FirstPiece(r)
      case None => None
      case Some(p) =>
        match Decode(r[p.size..])
        case None => None
        case Some(d) => Some(p.text + d)
  }

  // ------------------------------------------------------------ completing a cut string

  /** An unfinished or finished `\u` escape at the end: where it starts. */
  predicate EscapeFrom(s: string, k: nat) {
    k + 2 <= |s| <= k + 6 && s[k] == '\\' && s[k + 1] == 'u' && HexRun(s[k + 2..])
  }

  function LastEscape(s: string): (k: Option<nat>)
    ensures k.Some? ==> EscapeFrom(s, k.value)
  {
    var n := |s|;
    if n >= 2 && EscapeFrom(s, n - 2) then Some(n - 2)
    else if n >= 3 && EscapeFrom(s, n - 3) then Some(n - 3)
    else if n >= 4 && EscapeFrom(s, n - 4) then Some(n - 4)
    else if n >= 5 && EscapeFrom(s, n - 5) then Some(n - 5)
    else if n >= 6 && EscapeFrom(s, n - 6) then Some(n - 6)
    else None
  }

  /** `is_high_surrogate`: an escape that begins like the first half of a pair. */
  predicate HighStart(e: string) {
    && |e| >= 4 && e[0] == '\\' && e[1] == 'u' && (e[2] == 'd' || e[2] == 'D')
    && (e[3] == '8' || e[3] == '9' || e[3] == 'a' || e[3] == 'A' || e[3] == 'b' || e[3] == 'B')
  }

  function Zeros(n: nat): string {
    seq(n, _ => '0')
  }

  /** `unicode_marker_padding` */
  function Padding(s: string): string {
    match LastEscape(s)
    case None => "udc00"
    case Some(k) =>
      var zeros := Zeros(6 - (|s| - k));
      if HighStart(s[k..]) then zeros + "\\udc00"
      else
        match LastEscape(s[..k])
        case None => zeros
        case Some(j) =>
          if !HighStart(s[j..k]) then zeros
          else if |s| - k == 2 then "dc00"
          else if |s| - k == 3 then "c00"
          else zeros
  }

  /** After a backslash that a second one completes. */
  predicate EndsInSlash(r: string) {
    r != "" && r[|r| - 1] == '\\' && Decode(r + "\\").Some?
  }

  /** What is put between the body of a cut string and the marker: nothing, a second backslash, or the padding of
      an unfinished escape; none when the bytes are not well-formed or none of these completes the string. */
  function Completion(r: string): Option<string> {
    if !Utf8.WellFormed(r) then None
    else if Decode(r).Some? then Some("")
    else if EndsInSlash(r) then Some("\\")
    else if Decode(r + Padding(r)).Some? then Some(Padding(r))
    else None
  }

  /** Where the string that is open at the end of `t`, if any, begins. */
  function OpenAt(t: string, i: nat, open: Option<nat>): (k: Option<nat>)
    requires i <= |t| && (open.Some? ==> open.value <= i)
    ensures k.Some? ==> k.value <= |t|
    decreases |t| - i
  {
    if i == |t| then open
    else if open.None? then OpenAt(t, i + 1, if t[i] == '"' then Some(i + 1) else None)
    else if t[i] == '\\' then OpenAt(t, if i + 2 <= |t| then i + 2 else |t|, open)
    else OpenAt(t, i + 1, if t[i] == '"' then None else open)
  }

  function CutString(t: string): Option<string> {
    match OpenAt(t, 0, None)
    case None => None
    case Some(k) => Some(t[k..])
  }

  predicate EndsWith(s: string, x: string) {
    |x| <= |s| && s[|s| - |x|..] == x
  }

  /** The reader completed `t` as json-partial.cpp does: inside a string, what completes it and the marker follow
      what was there, and then whatever closes the value; anywhere else the dump holds what completed the value, which
      ends with the marker. */
  ghost predicate Healed(t: string, json: Attempt, marker: string)
    requires json.Read?
  {
    && json.marker == marker
    && if CutString(t).Some? && Completion(CutString(t).value).Some? then
         var r, x := CutString(t).value, Completion(CutString(t).value).value;
         && json.dumpMarker == x + marker && Decode(r + x).Some?
         && exists front: string, back: string ::
              DumpValue(json.value) == front + (EscapeAll(Decode(r + x).value) + (marker + back))
       else Contains(DumpValue(json.value), json.dumpMarker) && EndsWith(json.dumpMarker, marker)
  }

  ghost predicate HealsAsShipped(read: Reader, marker: string) {
    marker != "" &&
    forall s :: var a := read(s);
                a.Read? ==> if a.marker == "" then a.dumpMarker == "" else Healed(s[..a.size], a, marker)
  }

  // ------------------------------------------------------------ the part of a body that is finished

  function WholeEnd(r: string): (w: nat)
    ensures w <= |r|
    decreases |r|
  {
    if r == "" || FirstPiece(r).None? then 0
    else
      var n := FirstPiece(r).value.size;
      n + WholeEnd(r[n..])
  }

  /** The character or escape that is malformed or cut. */
  function Rest(r: string): string {
    r[WholeEnd(r)..]
  }

  /** An escape completed to one of the three characters whose dump ends in the digit that completes it. */
  predicate Kept(e: string) {
    |e| == 6 && UnitAt(e, 0) && CodeAt(e, 0) in {0, 0x10, 0x30}
  }

  /** The body is cut inside an escape, and the completed escape is dumped as something else. */
  predicate Loses(r: string) {
    && Utf8.WellFormed(r) && Decode(r).None? && !EndsInSlash(r) && Decode(r + Padding(r)).Some?
    && !Kept(Rest(r) + Padding(r))
  }

  /** The text is cut inside a string at an escape whose completion is dumped as something else. */
  predicate LosesPadding(t: string) {
    CutString(t).Some? && Loses(CutString(t).value)
  }

  ghost predicate Once(s: string, t: string) {
    forall i: nat, j: nat :: OccursAt(s, t, i) && OccursAt(s, t, j) ==> i == j
  }
}
