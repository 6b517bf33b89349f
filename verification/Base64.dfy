/** Base64 (sections 4 and 5 of RFC 4648): what the encoder and the decoder compute, stated on positions,
    and the round trip between them. Characters are bytes. */
module Base64 {
  import opened Wrappers
  import opened ByteStream

  type sextet = x: int | 0 <= x < 64

  datatype Alphabet = Auto | Standard | UrlSafe
  datatype Behavior = Moderate | Loose

  const PAD: byte := 61

  // ------------------------------------------------------------ symbols

  /** The symbol for a sextet; only the URL-safe alphabet differs, in its last two symbols. */
  function Symbol(alphabet: Alphabet, v: sextet): byte {
    if v < 26 then 65 + v
    else if v < 52 then 97 + v - 26
    else if v < 62 then 48 + v - 52
    else if v == 62 then (if alphabet == UrlSafe then 45 else 43)
    else if alphabet == UrlSafe then 95 else 47
  }

  predicate Plain(c: byte) { 65 <= c <= 90 || 97 <= c <= 122 || 48 <= c <= 57 }
  predicate StandardOnly(c: byte) { c == 43 || c == 47 }
  predicate UrlOnly(c: byte) { c == 45 || c == 95 }

  /** `_base64_value`: the value of a character, */
  function Value(alphabet: Alphabet, c: byte): Option<sextet> {
    if 65 <= c <= 90 then Some(c - 65)
    else if 97 <= c <= 122 then Some(c - 97 + 26)
    else if 48 <= c <= 57 then Some(c - 48 + 52)
    else if StandardOnly(c) && alphabet != UrlSafe then Some(if c == 43 then 62 else 63)
    else if UrlOnly(c) && alphabet != Standard then Some(if c == 45 then 62 else 63)
    else None
  }

  /** and the alphabet that is fixed by reading it. */
  function Detected(alphabet: Alphabet, c: byte): Alphabet {
    if alphabet != Auto then alphabet
    else if StandardOnly(c) then Standard
    else if UrlOnly(c) then UrlSafe
    else Auto
  }

  // ------------------------------------------------------------ encoding

  function At(s: seq<byte>, k: nat): byte { if k < |s| then s[k] else 0 }

  /** The `j`-th group of six bits of `s`, with zeros after its end. */
  function Sextet(s: seq<byte>, j: nat): sextet {
    var q := 3 * (j / 4);
    match j % 4
    case 0 => At(s, q) / 4
    case 1 => At(s, q) % 4 * 16 + At(s, q + 1) / 16
    case 2 => At(s, q + 1) % 16 * 4 + At(s, q + 2) / 64
    case _ => At(s, q + 2) % 64
  }

  /** How many groups of six bits hold the bits of `n` bytes. */
  function Groups(n: nat): nat { (4 * n + 2) / 3 }

  function Padding(n: nat): nat { if n % 3 == 0 then 0 else 3 - n % 3 }

  function Encoded(alphabet: Alphabet, s: seq<byte>): seq<byte> {
    seq(Groups(|s|), j requires 0 <= j => Symbol(alphabet, Sextet(s, j))) + seq(Padding(|s|), _ => PAD)
  }

  function RequiredEncodeSize(size: nat): nat { (size / 3 + if size % 3 != 0 then 1 else 0) * 4 }
  function MaxDecodeSize(size: nat): nat { (size / 4 + if size % 4 != 0 then 1 else 0) * 3 }

  // ------------------------------------------------------------ decoding

  predicate PadFirstAt(s: seq<byte>, n: nat) {
    n <= |s| && PAD !in s[..n] && (n < |s| ==> s[n] == PAD)
  }

  /** Where the first padding character is. */
  function Body(s: seq<byte>): (n: nat)
    ensures n <= |s| && PadFirstAt(s, n)
  {
    if s == [] || s[0] == PAD then 0 else 1 + Body(s[1..])
  }

  /** The alphabet in force after reading `s`. */
  function Alphabets(alphabet: Alphabet, s: seq<byte>): Alphabet {
    if s == [] then alphabet else Detected(Alphabets(alphabet, s[..|s| - 1]), s[|s| - 1])
  }

  /** The values of the characters of `s`, if they all have one. */
  function Values(alphabet: Alphabet, s: seq<byte>): (r: Option<seq<sextet>>)
    ensures r.Some? ==> |r.value| == |s|
  {
    if s == [] then Some([])
    else
      var front := s[..|s| - 1];
      match Values(alphabet, front)
      case None => None
      case Some(vs) =>
        match Value(Alphabets(alphabet, front), s[|s| - 1])
        case None => None
        case Some(v) => Some(vs + [v])
  }

  /** `(last << (8 - bits)) | (part >> (bits - 2))` in eight bits: the low `bits` bits of one value followed
      by the high bits of the next. */
  function Joined(last: int, part: int, bits: int): byte
    requires 0 <= last < 64 && 0 <= part < 64
  {
    if bits == 6 then last % 64 * 4 + part / 16
    else if bits == 4 then last % 16 * 16 + part / 4
    else last % 4 * 64 + part
  }

  /** The `k`-th byte of the bits of `vs`. */
  function Byte(vs: seq<sextet>, k: nat): byte
    requires 4 * k + 4 <= 3 * |vs|
  {
    var q := 4 * (k / 3);
    match k % 3
    case 0 => Joined(vs[q], vs[q + 1], 6)
    case 1 => Joined(vs[q + 1], vs[q + 2], 4)
    case _ => Joined(vs[q + 2], vs[q + 3], 2)
  }

  /** All the whole bytes in the bits of `vs`. */
  function Bytes(vs: seq<sextet>): seq<byte> {
    seq(|vs| * 3 / 4, k requires 0 <= k < |vs| * 3 / 4 => Byte(vs, k))
  }

  predicate OnlyPadding(s: seq<byte>) {
    forall k | 0 <= k < |s| :: s[k] == PAD
  }

  function Decoded(alphabet: Alphabet, behavior: Behavior, s: seq<byte>): Option<seq<byte>> {
    match Values(alphabet, s[..Body(s)])
    case None => None
    case Some(vs) =>
      if behavior == Moderate && !OnlyPadding(s[Body(s)..]) then None else Some(Bytes(vs))
  }

  // ------------------------------------------------------------ the encoder, step by step

  ghost predicate Covers(out: seq<byte>, alphabet: Alphabet, s: seq<byte>) {
    forall j | 0 <= j < |out| :: out[j] == Symbol(alphabet, Sextet(s, j))
  }

  lemma CoverNext(out: seq<byte>, alphabet: Alphabet, s: seq<byte>, v: sextet)
    requires Covers(out, alphabet, s) && v == Sextet(s, |out|)
    ensures Covers(out + [Symbol(alphabet, v)], alphabet, s)
  {}

  lemma CoverAll(out: seq<byte>, alphabet: Alphabet, s: seq<byte>)
    requires Covers(out, alphabet, s) && |out| == Groups(|s|)
    ensures Padding(|s|) == 0 ==> out == Encoded(alphabet, s)
    ensures Padding(|s|) == 1 ==> out + [PAD] == Encoded(alphabet, s)
    ensures Padding(|s|) == 2 ==> out + [PAD] + [PAD] == Encoded(alphabet, s)
  {}

  lemma GroupStart(s: seq<byte>, i: nat, j: nat)
    requires i % 3 == 0 && j == i / 3 * 4
    ensures Sextet(s, j) == At(s, i) / 4
    ensures Sextet(s, j + 1) == At(s, i) % 4 * 16 + At(s, i + 1) / 16
    ensures Sextet(s, j + 2) == At(s, i + 1) % 16 * 4 + At(s, i + 2) / 64
    ensures Sextet(s, j + 3) == At(s, i + 2) % 64
  {
    assert 3 * (j / 4) == i && j % 4 == 0;
    assert (j + 1) / 4 == j / 4 && (j + 2) / 4 == j / 4 && (j + 3) / 4 == j / 4;
  }

  /** The group of the bytes at `i`, in terms of the bytes there are. */
  lemma GroupAt(s: seq<byte>, i: nat, j: nat)
    requires i % 3 == 0 && j == i / 3 * 4 && i < |s|
    ensures Sextet(s, j) == s[i] / 4
    ensures i + 1 == |s| ==> Sextet(s, j + 1) == s[i] % 4 * 16
    ensures i + 1 < |s| ==> Sextet(s, j + 1) == s[i] % 4 * 16 + s[i + 1] / 16
    ensures i + 2 == |s| ==> Sextet(s, j + 2) == s[i + 1] % 16 * 4
    ensures i + 2 < |s| ==> Sextet(s, j + 2) == s[i + 1] % 16 * 4 + s[i + 2] / 64
    ensures i + 2 < |s| ==> Sextet(s, j + 3) == s[i + 2] % 64
  {
    hide Sextet;
    GroupStart(s, i, j);
  }

  lemma Finished(out: seq<byte>, alphabet: Alphabet, s: seq<byte>, i: nat)
    requires Covers(out, alphabet, s) && i % 3 == 0 && i <= |s| <= i + 2
    requires |out| == i / 3 * 4 + if |s| == i then 0 else if |s| == i + 1 then 2 else 3
    ensures |s| == i ==> out == Encoded(alphabet, s)
    ensures |s| == i + 1 ==> out + [PAD] + [PAD] == Encoded(alphabet, s)
    ensures |s| == i + 2 ==> out + [PAD] == Encoded(alphabet, s)
  {
    hide Covers;
    hide Encoded;
    CoverAll(out, alphabet, s);
  }

  method Encode(s: seq<byte>, alphabet: Alphabet) returns (out: seq<byte>)
    ensures out == Encoded(alphabet, s)
  {
    hide *;
    out := [];
    CoverNone(alphabet, s);
    var i := 0;
    while i < |s|
      invariant i <= |s| && i % 3 == 0 && |out| == i / 3 * 4
      invariant Covers(out, alphabet, s)
    {
      GroupAt(s, i, |out|);
      var i0: int := s[i];
      CoverNext(out, alphabet, s, i0 / 4);
      out := out + [Symbol(alphabet, i0 / 4)];
      if i + 1 == |s| {
        CoverNext(out, alphabet, s, i0 % 4 * 16);
        out := out + [Symbol(alphabet, i0 % 4 * 16)];
        Finished(out, alphabet, s, i);
        out := out + [PAD];
        out := out + [PAD];
        return;
      }
      var i1: int := s[i + 1];
      CoverNext(out, alphabet, s, i0 % 4 * 16 + i1 / 16);
      out := out + [Symbol(alphabet, i0 % 4 * 16 + i1 / 16)];
      if i + 2 == |s| {
        CoverNext(out, alphabet, s, i1 % 16 * 4);
        out := out + [Symbol(alphabet, i1 % 16 * 4)];
        Finished(out, alphabet, s, i);
        out := out + [PAD];
        return;
      }
      var i2: int := s[i + 2];
      CoverNext(out, alphabet, s, i1 % 16 * 4 + i2 / 64);
      out := out + [Symbol(alphabet, i1 % 16 * 4 + i2 / 64)];
      CoverNext(out, alphabet, s, i2 % 64);
      out := out + [Symbol(alphabet, i2 % 64)];
      NextGroup(i);
      i := i + 3;
    }
    Finished(out, alphabet, s, i);
  }

  lemma NextGroup(i: nat)
    requires i % 3 == 0
    ensures (i + 3) % 3 == 0 && (i + 3) / 3 * 4 == i / 3 * 4 + 4
  {}

  lemma CoverNone(alphabet: Alphabet, s: seq<byte>)
    ensures Covers([], alphabet, s)
  {}

  // ------------------------------------------------------------ the decoder, step by step

  /** How many bits of the last value are still to be written after `i` characters. */
  function Pending(i: nat): int {
    if i % 4 == 0 then 0 else 8 - 2 * (i % 4)
  }

  /** The state of the decoding loop after `i` characters. */
  ghost predicate Reading(alphabet: Alphabet, s: seq<byte>, i: nat, now: Alphabet, last: int, bits: int)
    requires i <= |s|
  {
    && PAD !in s[..i]
    && now == Alphabets(alphabet, s[..i])
    && Values(alphabet, s[..i]).Some?
    && 0 <= last < 64
    && (i > 0 ==> last == Values(alphabet, s[..i]).value[i - 1])
    && bits == Pending(i)
  }

  lemma ValuesSnoc(alphabet: Alphabet, s: seq<byte>, i: nat)
    requires i < |s|
    ensures Alphabets(alphabet, s[..i + 1]) == Detected(Alphabets(alphabet, s[..i]), s[i])
    ensures Values(alphabet, s[..i + 1]).Some? <==>
            Values(alphabet, s[..i]).Some? && Value(Alphabets(alphabet, s[..i]), s[i]).Some?
    ensures Values(alphabet, s[..i + 1]).Some? ==>
            Values(alphabet, s[..i + 1]).value ==
            Values(alphabet, s[..i]).value + [Value(Alphabets(alphabet, s[..i]), s[i]).value]
  {
    assert s[..i + 1][..i] == s[..i];
  }

  lemma ReadNext(alphabet: Alphabet, s: seq<byte>, i: nat, now: Alphabet, last: int, bits: int)
    requires i < |s| && Reading(alphabet, s, i, now, last, bits) && s[i] != PAD && Value(now, s[i]).Some?
    ensures Reading(alphabet, s, i + 1, Detected(now, s[i]), Value(now, s[i]).value,
                    if bits + 6 >= 8 then bits - 2 else bits + 6)
  {
    ValuesSnoc(alphabet, s, i);
    assert s[..i + 1] == s[..i] + [s[i]];
  }

  lemma {:induction false} ValuesPrefix(alphabet: Alphabet, s: seq<byte>, i: nat)
    requires i <= |s|
    ensures Values(alphabet, s).Some? ==> Values(alphabet, s[..i]).Some?
    decreases |s|
  {
    if i < |s| {
      var front := s[..|s| - 1];
      ValuesPrefix(alphabet, front, i);
      assert front[..i] == s[..i];
    } else {
      assert s[..i] == s;
    }
  }

  lemma BodyIs(s: seq<byte>, n: nat)
    requires PadFirstAt(s, n)
    ensures Body(s) == n
  {}

  lemma BodyAfter(s: seq<byte>, n: nat)
    requires n <= |s| && PAD !in s[..n]
    ensures n <= Body(s)
  {}

  /** A character without a value makes the whole text invalid. */
  lemma BadCharacter(alphabet: Alphabet, behavior: Behavior, s: seq<byte>, i: nat, now: Alphabet, last: int, bits: int)
    requires i < |s| && Reading(alphabet, s, i, now, last, bits) && s[i] != PAD && Value(now, s[i]).None?
    ensures Decoded(alphabet, behavior, s).None?
  {
    assert s[..i + 1] == s[..i] + [s[i]];
    BodyAfter(s, i + 1);
    ValuesSnoc(alphabet, s, i);
    assert s[..Body(s)][..i + 1] == s[..i + 1];
    ValuesPrefix(alphabet, s[..Body(s)], i + 1);
  }

  lemma ByteKept(vs: seq<sextet>, v: sextet, k: nat)
    requires 4 * k + 4 <= 3 * |vs|
    ensures Byte(vs + [v], k) == Byte(vs, k)
  {
    hide Joined;
  }

  lemma BytesNext(vs: seq<sextet>, v: sextet, last: sextet)
    requires |vs| > 0 ==> last == vs[|vs| - 1]
    ensures Bytes(vs + [v]) ==
            if Pending(|vs|) + 6 >= 8 then Bytes(vs) + [Joined(last, v, Pending(|vs|))] else Bytes(vs)
  {
    hide Joined;
    hide Byte;
    forall k: nat | k < |vs| * 3 / 4 ensures Bytes(vs + [v])[k] == Bytes(vs)[k] {
      ByteKept(vs, v, k);
    }
    if |vs| % 4 != 0 {
      LastByte(vs, v, last);
    }
  }

  lemma LastByte(vs: seq<sextet>, v: sextet, last: sextet)
    requires |vs| % 4 != 0 && last == vs[|vs| - 1]
    ensures (|vs| + 1) * 3 / 4 == |vs| * 3 / 4 + 1
    ensures Byte(vs + [v], |vs| * 3 / 4) == Joined(last, v, Pending(|vs|))
  {
    var k := |vs| * 3 / 4;
    assert k % 3 == |vs| % 4 - 1 && 4 * (k / 3) + |vs| % 4 == |vs|;
  }

  /** The scan over the padding: nothing else may follow it. */
  method CheckPadding(s: seq<byte>, start: nat) returns (ok: bool)
    requires start <= |s|
    ensures ok <==> OnlyPadding(s[start..])
  {
    var i := start;
    while i < |s|
      invariant start <= i <= |s| && forall k | start <= k < i :: s[k] == PAD
    {
      if s[i] != PAD {
        assert s[start..][i - start] != PAD;
        return false;
      }
      i := i + 1;
    }
    return true;
  }

  lemma DecodedIs(alphabet: Alphabet, behavior: Behavior, s: seq<byte>, i: nat, now: Alphabet, last: int, bits: int)
    requires i <= |s| && Reading(alphabet, s, i, now, last, bits) && (i < |s| ==> s[i] == PAD)
    ensures Decoded(alphabet, behavior, s) ==
            if behavior == Moderate && i < |s| && !OnlyPadding(s[i + 1..]) then None
            else Some(BytesRead(alphabet, s, i))
  {
    BodyIs(s, i);
    if i < |s| {
      assert s[i..] == [s[i]] + s[i + 1..];
    }
  }

  method Decode(s: seq<byte>, alphabet: Alphabet, behavior: Behavior) returns (r: Option<seq<byte>>)
    ensures r == Decoded(alphabet, behavior, s)
  {
    hide Reading;
    hide Decoded;
    hide Bytes;
    var now, last, bits, i := alphabet, 0, 0, 0;
    var out: seq<byte> := [];
    ReadNone(alphabet, s);
    while i < |s|
      invariant i <= |s| && Reading(alphabet, s, i, now, last, bits)
      invariant out == BytesRead(alphabet, s, i)
    {
      if s[i] == PAD { break; }
      var part := Value(now, s[i]);
      if part == None {
        BadCharacter(alphabet, behavior, s, i, now, last, bits);
        return None;
      }
      StepBytes(alphabet, s, i, now, last, bits);
      ReadNext(alphabet, s, i, now, last, bits);
      if bits + 6 >= 8 {
        out := out + [Joined(last, part.value, bits)];
        bits := bits - 2;
      } else {
        bits := bits + 6;
      }
      now, last, i := Detected(now, s[i]), part.value, i + 1;
    }
    DecodedIs(alphabet, behavior, s, i, now, last, bits);
    if behavior == Moderate && i < |s| {
      var ok := CheckPadding(s, i + 1);
      if !ok { return None; }
    }
    r := Some(out);
  }

  /** The bytes written once `i` characters have been read. */
  ghost function BytesRead(alphabet: Alphabet, s: seq<byte>, i: nat): seq<byte>
    requires i <= |s|
  {
    var vs := Values(alphabet, s[..i]);
    if vs.None? then [] else Bytes(vs.value)
  }

  lemma ReadNone(alphabet: Alphabet, s: seq<byte>)
    ensures Reading(alphabet, s, 0, alphabet, 0, 0) && BytesRead(alphabet, s, 0) == []
  {
    assert s[..0] == [];
  }

  lemma StepBytes(alphabet: Alphabet, s: seq<byte>, i: nat, now: Alphabet, last: int, bits: int)
    requires i < |s| && Reading(alphabet, s, i, now, last, bits) && Value(now, s[i]).Some?
    ensures BytesRead(alphabet, s, i + 1) ==
            if bits + 6 >= 8 then BytesRead(alphabet, s, i) + [Joined(last, Value(now, s[i]).value, bits)]
            else BytesRead(alphabet, s, i)
  {
    ValuesSnoc(alphabet, s, i);
    BytesNext(Values(alphabet, s[..i]).value, Value(now, s[i]).value, last);
  }

  lemma BytesReadSize(alphabet: Alphabet, s: seq<byte>, i: nat, now: Alphabet, last: int, bits: int)
    requires i <= |s| && Reading(alphabet, s, i, now, last, bits)
    ensures |BytesRead(alphabet, s, i)| == i * 3 / 4
  {}

  method WriteByte(a: array<byte>, w: nat, b: byte) returns (next: nat)
    requires w < a.Length
    modifies a
    ensures next == w + 1 && a[..next] == old(a[..w]) + [b] && a[next..] == old(a[..])[next..]
  {
    a[w] := b;
    next := w + 1;
  }

  /** Two texts that agree from `w` on agree from any later place on. */
  lemma SameLater(u: seq<byte>, s: seq<byte>, w: nat, i: nat)
    requires |u| == |s| && w <= i <= |s| && u[w..] == s[w..]
    ensures u[i..] == s[i..] && (i < |s| ==> u[i] == s[i])
  {
    assert u[i..] == u[w..][i - w..] && s[i..] == s[w..][i - w..];
    assert i < |s| ==> u[i] == u[w..][i - w] && s[i] == s[w..][i - w];
  }

  /** The loop stops after `n` characters: at the end, at padding, or at a character that has no value there. */
  ghost predicate StopsAt(alphabet: Alphabet, s: seq<byte>, n: nat) {
    && n <= |s| && PAD !in s[..n] && Values(alphabet, s[..n]).Some?
    && (n < |s| && s[n] != PAD ==> Values(alphabet, s[..n + 1]).None?)
  }

  lemma StopsNotBefore(alphabet: Alphabet, s: seq<byte>, n: nat, m: nat)
    requires StopsAt(alphabet, s, m) && n < m
    ensures !StopsAt(alphabet, s, n)
  {
    ValuesPrefix(alphabet, s[..m], n + 1);
    assert s[..m][..n + 1] == s[..n + 1];
    assert s[n] in s[..m];
  }

  /** The loop stops in one place. */
  lemma StopsOnce(alphabet: Alphabet, s: seq<byte>, n: nat, m: nat)
    requires StopsAt(alphabet, s, n) && StopsAt(alphabet, s, m)
    ensures n == m
  {
    hide StopsAt;
    if n < m {
      StopsNotBefore(alphabet, s, n, m);
    } else if m < n {
      StopsNotBefore(alphabet, s, m, n);
    }
  }

  lemma StopsHere(alphabet: Alphabet, s: seq<byte>, i: nat, now: Alphabet, last: int, bits: int)
    requires i <= |s| && Reading(alphabet, s, i, now, last, bits)
    requires i < |s| && s[i] != PAD ==> Value(now, s[i]).None?
    ensures StopsAt(alphabet, s, i)
  {
    if i < |s| { ValuesSnoc(alphabet, s, i); }
  }

  /** What the text holds once the loop has stopped after `n` characters. */
  ghost predicate Overwritten(now: seq<byte>, alphabet: Alphabet, s: seq<byte>, n: nat) {
    && StopsAt(alphabet, s, n) && n * 3 / 4 <= |s|
    && now == BytesRead(alphabet, s, n) + s[n * 3 / 4..]
  }

  lemma OverwrittenIf(now: seq<byte>, alphabet: Alphabet, s: seq<byte>, n: nat, w: nat)
    requires StopsAt(alphabet, s, n) && w == n * 3 / 4 <= |s| && |now| == |s|
    requires now[..w] == BytesRead(alphabet, s, n) && now[w..] == s[w..]
    ensures Overwritten(now, alphabet, s, n)
  {
    hide BytesRead; hide StopsAt;
    assert now == now[..w] + now[w..];
  }

  /** Decoding onto the text itself: the bytes are those of the out-of-place decoder; whether it succeeds or fails,
      exactly the bytes read so far are written, and the cells after them keep their old contents. */
  method DecodeInPlace(a: array<byte>, alphabet: Alphabet, behavior: Behavior) returns (r: Option<nat>)
    modifies a
    ensures r.None? <==> Decoded(alphabet, behavior, old(a[..])).None?
    ensures r.Some? ==> r.value <= a.Length && Decoded(alphabet, behavior, old(a[..])) == Some(a[..r.value])
    ensures exists n: nat :: Overwritten(a[..], alphabet, old(a[..]), n) && (r.Some? ==> r.value == n * 3 / 4)
  {
    hide *;
    ghost var s := a[..];
    var now, last, bits, i, w := alphabet, 0, 0, 0, 0;
    ReadNone(alphabet, s);
    while i < a.Length
      invariant w <= i <= a.Length && Reading(alphabet, s, i, now, last, bits)
      invariant w == i * 3 / 4
      invariant a[..w] == BytesRead(alphabet, s, i)
      invariant a[w..] == s[w..]
    {
      SameLater(a[..], s, w, i);
      var c := a[i];
      if c == PAD { break; }
      var part := Value(now, c);
      if part == None {
        BadCharacter(alphabet, behavior, s, i, now, last, bits);
        StopsHere(alphabet, s, i, now, last, bits);
        OverwrittenIf(a[..], alphabet, s, i, w);
        return None;
      }
      StepBytes(alphabet, s, i, now, last, bits);
      ReadNext(alphabet, s, i, now, last, bits);
      if bits + 6 >= 8 {
        BytesReadSize(alphabet, s, i, now, last, bits);
        BytesReadSize(alphabet, s, i + 1, Detected(now, c), part.value, bits - 2);
        SameLater(a[..], s, w, w + 1);
        w := WriteByte(a, w, Joined(last, part.value, bits));
        bits := bits - 2;
      } else {
        BytesReadSize(alphabet, s, i, now, last, bits);
        BytesReadSize(alphabet, s, i + 1, Detected(now, c), part.value, bits + 6);
        bits := bits + 6;
      }
      now, last, i := Detected(now, c), part.value, i + 1;
    }
    SameLater(a[..], s, w, i);
    DecodedIs(alphabet, behavior, s, i, now, last, bits);
    StopsHere(alphabet, s, i, now, last, bits);
    ghost var written := a[..];
    OverwrittenIf(written, alphabet, s, i, w);
    if behavior == Moderate && i < a.Length {
      SameLater(a[..], s, w, i + 1);
      var ok := CheckPadding(a[..], i + 1);
      assert a[..] == written;
      if !ok { return None; }
    }
    r := Some(w);
  }
}
