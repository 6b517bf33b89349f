/** The decoder undoes the encoder, accepts exactly the well-spelled texts, and stays within its buffers. */
module Base64Laws {
  import opened Wrappers
  import opened ByteStream
  import opened Base64

  // ------------------------------------------------------------ the round trip

  /** A reader set to `reader` understands what a writer set to `writer` produces. */
  predicate Compatible(reader: Alphabet, writer: Alphabet) {
    reader == Auto || (reader == UrlSafe <==> writer == UrlSafe)
  }

  lemma ReadsSymbol(reader: Alphabet, writer: Alphabet, v: sextet)
    requires Compatible(reader, writer)
    ensures Value(reader, Symbol(writer, v)) == Some(v)
    ensures Compatible(Detected(reader, Symbol(writer, v)), writer)
    ensures Symbol(writer, v) != PAD
  {}

  function Symbols(writer: Alphabet, vs: seq<sextet>): seq<byte> {
    seq(|vs|, k requires 0 <= k < |vs| => Symbol(writer, vs[k]))
  }

  lemma {:induction false} ReadsSymbols(reader: Alphabet, writer: Alphabet, vs: seq<sextet>)
    requires Compatible(reader, writer)
    ensures Values(reader, Symbols(writer, vs)) == Some(vs)
    ensures Compatible(Alphabets(reader, Symbols(writer, vs)), writer)
    ensures PAD !in Symbols(writer, vs)
  {
    hide Symbol; hide Value; hide Detected;
    if vs != [] {
      var front, v := vs[..|vs| - 1], vs[|vs| - 1];
      ReadsSymbols(reader, writer, front);
      ReadsSymbol(Alphabets(reader, Symbols(writer, front)), writer, v);
      SymbolsSnoc(writer, vs);
      assert vs == front + [v];
    }
  }

  lemma SymbolsSnoc(writer: Alphabet, vs: seq<sextet>)
    requires vs != []
    ensures var text, front := Symbols(writer, vs), Symbols(writer, vs[..|vs| - 1]);
            text == front + [Symbol(writer, vs[|vs| - 1])] && text[..|text| - 1] == front
  {
    hide Symbol;
  }

  function Sextets(s: seq<byte>): seq<sextet> {
    seq(Groups(|s|), j requires 0 <= j => Sextet(s, j))
  }

  lemma GroupsHoldBytes(n: nat)
    ensures Groups(n) * 3 / 4 == n
  {
    var q := n / 3;
    assert n == 3 * q || n == 3 * q + 1 || n == 3 * q + 2;
    assert Groups(3 * q) == 4 * q && Groups(3 * q + 1) == 4 * q + 2 && Groups(3 * q + 2) == 4 * q + 3;
  }

  lemma ByteFits(n: nat, k: nat)
    requires k < n
    ensures 4 * k + 4 <= 3 * Groups(n)
  {
    GroupsHoldBytes(n);
  }

  lemma ByteOfGroups(s: seq<byte>, q: nat, r: nat)
    requires r < 3 && 3 * q + r < |s|
    ensures 4 * (3 * q + r) + 4 <= 3 * Groups(|s|)
    ensures Byte(Sextets(s), 3 * q + r) ==
            Joined(Sextet(s, 4 * q + r), Sextet(s, 4 * q + r + 1), 6 - 2 * r)
  {
    hide Sextet;
    hide Joined;
    ByteFits(|s|, 3 * q + r);
    assert (3 * q + r) / 3 == q && (3 * q + r) % 3 == r;
  }

  lemma ByteOfSextets(s: seq<byte>, k: nat)
    requires k < |s|
    ensures 4 * k + 4 <= 3 * Groups(|s|)
    ensures Byte(Sextets(s), k) == s[k]
  {
    hide Sextet;
    hide Joined;
    hide Byte;
    hide Sextets;
    hide Groups;
    var (q, r) := (k / 3, k % 3);
    ByteOfGroups(s, q, r);
    GroupStart(s, 3 * q, 4 * q);
    if r == 0 {
      FirstByte(At(s, 3 * q), At(s, 3 * q + 1));
    } else if r == 1 {
      SecondByte(At(s, 3 * q), At(s, 3 * q + 1), At(s, 3 * q + 2));
    } else {
      ThirdByte(At(s, 3 * q + 1), At(s, 3 * q + 2));
    }
  }

  lemma FirstByte(x: byte, y: byte)
    ensures Joined(x / 4, x % 4 * 16 + y / 16, 6) == x
  {}

  lemma SecondByte(x: byte, y: byte, z: byte)
    ensures Joined(x % 4 * 16 + y / 16, y % 16 * 4 + z / 64, 4) == y
  {
    var (h, l) := (y / 16, y % 16);
    assert (x % 4 * 16 + h) * 16 % 256 == h * 16;
    assert (l * 4 + z / 64) / 4 == l;
  }

  lemma ThirdByte(y: byte, z: byte)
    ensures Joined(y % 16 * 4 + z / 64, z % 64, 2) == z
  {
    var (h, l) := (z / 64, z % 64);
    assert (y % 16 * 4 + h) % 4 == h;
    assert z == h * 64 + l;
  }

  lemma BytesOfSextets(s: seq<byte>)
    ensures Bytes(Sextets(s)) == s
  {
    hide Byte;
    GroupsHoldBytes(|s|);
    forall k: nat | k < |s| ensures Bytes(Sextets(s))[k] == s[k] {
      ByteOfSextets(s, k);
    }
  }

  lemma EncodedParts(writer: Alphabet, s: seq<byte>)
    ensures Encoded(writer, s) == Symbols(writer, Sextets(s)) + seq(Padding(|s|), _ => PAD)
  {
    hide Symbol;
    hide Sextet;
    assert Symbols(writer, Sextets(s)) == seq(Groups(|s|), j requires 0 <= j => Symbol(writer, Sextet(s, j)));
  }

  /** Decoding the encoding of any bytes returns them, whichever alphabet wrote the text and whether the
      reader was told the alphabet or detects it. */
  lemma DecodeUndoesEncode(reader: Alphabet, writer: Alphabet, behavior: Behavior, s: seq<byte>)
    requires Compatible(reader, writer)
    ensures Decoded(reader, behavior, Encoded(writer, s)) == Some(s)
  {
    hide Symbols;
    hide Sextets;
    hide Bytes;
    var text, body := Encoded(writer, s), Symbols(writer, Sextets(s));
    EncodedParts(writer, s);
    ReadsSymbols(reader, writer, Sextets(s));
    assert text[..|body|] == body;
    BodyIs(text, |body|);
    BytesOfSextets(s);
  }

  // ------------------------------------------------------------ what is written (section 4 of RFC 4648)

  const CAPITALS := "ABCDEFGHIJKLMNOPQRSTUVWXYZ"
  const SMALLS := "abcdefghijklmnopqrstuvwxyz"
  const DIGITS := "0123456789"

  /** The alphabet, of 64 characters. */
  function Letters(alphabet: Alphabet): (r: string)
    ensures |r| == 64
  {
    CAPITALS + (SMALLS + (DIGITS + if alphabet == UrlSafe then "-_" else "+/"))
  }

  lemma CapitalIs(v: nat)
    requires v < 26
    ensures CAPITALS[v] as int == 65 + v && SMALLS[v] as int == 97 + v
  {}

  lemma SymbolIs(alphabet: Alphabet, v: sextet)
    ensures Symbol(alphabet, v) == Letters(alphabet)[v] as int
  {
    if v < 26 {
      CapitalIs(v);
    } else if v < 52 {
      CapitalIs(v - 26);
    } else if v < 62 {
      assert DIGITS[v - 52] as int == 48 + v - 52;
    }
  }

  /** Three bytes as one number of 24 bits, with zeros after the end. */
  function Group(s: seq<byte>, q: nat): (g: nat) {
    At(s, 3 * q) * 65536 + At(s, 3 * q + 1) * 256 + At(s, 3 * q + 2)
  }

  lemma Quotient4096(t: nat, r: nat)
    requires r < 4096
    ensures (t * 4096 + r) / 4096 == t
  {}

  lemma Remainder64(h: nat, x: nat)
    requires x < 64
    ensures (h * 64 + x) % 64 == x
  {}

  lemma HighestBits(a: byte, b: byte, c: byte)
    ensures (a * 65536 + b * 256 + c) / 262144 == a / 4
  {
    assert a * 65536 + b * 256 + c == (a / 4) * 262144 + (a % 4 * 65536 + b * 256 + c);
  }

  lemma HighBits(a: byte, b: byte, c: byte)
    ensures (a * 65536 + b * 256 + c) / 4096 % 64 == a % 4 * 16 + b / 16
  {
    var (h, l, m, n) := (a / 4, a % 4, b / 16, b % 16);
    assert a == 4 * h + l && b == 16 * m + n;
    Quotient4096(h * 64 + (l * 16 + m), n * 256 + c);
    Remainder64(h, l * 16 + m);
  }

  lemma Quotient64(t: nat, r: nat)
    requires r < 64
    ensures (t * 64 + r) / 64 == t
  {}

  lemma LowBits(a: byte, b: byte, c: byte)
    ensures (a * 65536 + b * 256 + c) / 64 % 64 == b % 16 * 4 + c / 64
  {
    var (m, n, k, l) := (b / 16, b % 16, c / 64, c % 64);
    assert b == 16 * m + n && c == 64 * k + l;
    Quotient64((a * 16 + m) * 64 + (n * 4 + k), l);
    Remainder64(a * 16 + m, n * 4 + k);
  }

  lemma LowestBits(a: byte, b: byte, c: byte)
    ensures (a * 65536 + b * 256 + c) / 1 % 64 == c % 64
  {
    var (k, l) := (c / 64, c % 64);
    assert c == 64 * k + l;
    Remainder64(a * 1024 + b * 4 + k, l);
  }

  function Shift(k: nat): nat {
    match k % 4
    case 0 => 262144
    case 1 => 4096
    case 2 => 64
    case _ => 1
  }

  lemma SextetInGroup(s: seq<byte>, k: nat)
    ensures Sextet(s, k) == Group(s, k / 4) / Shift(k) % 64
  {
    var a, b, c := At(s, 3 * (k / 4)), At(s, 3 * (k / 4) + 1), At(s, 3 * (k / 4) + 2);
    HighestBits(a, b, c);
    HighBits(a, b, c);
    LowBits(a, b, c);
    LowestBits(a, b, c);
  }

  /** The encoding of `s`: character `k` stands, in the alphabet, for six bits of the 24 of its group, from the
      highest on; after those that hold bits of `s` stand equals signs. */
  lemma EncodedExactly(alphabet: Alphabet, s: seq<byte>, k: nat)
    requires k < |Encoded(alphabet, s)|
    ensures Encoded(alphabet, s)[k] as int ==
            if 3 * k < 4 * |s| then Letters(alphabet)[Group(s, k / 4) / Shift(k) % 64] as int else '=' as int
  {
    hide Symbol; hide Letters;
    if k < Groups(|s|) {
      var v := Sextet(s, k);
      SextetInGroup(s, k);
      SymbolIs(alphabet, v);
    }
  }

  // ------------------------------------------------------------ sizes

  lemma EncodedSize(writer: Alphabet, s: seq<byte>)
    ensures |Encoded(writer, s)| == RequiredEncodeSize(|s|)
  {
    var n, q := |s|, |s| / 3;
    assert n == 3 * q || n == 3 * q + 1 || n == 3 * q + 2;
    assert Groups(3 * q) == 4 * q && Groups(3 * q + 1) == 4 * q + 2 && Groups(3 * q + 2) == 4 * q + 3;
  }

  lemma DecodedSize(reader: Alphabet, behavior: Behavior, s: seq<byte>)
    requires Decoded(reader, behavior, s).Some?
    ensures |Decoded(reader, behavior, s).value| == Body(s) * 3 / 4 <= MaxDecodeSize(|s|)
  {}

  // ------------------------------------------------------------ which texts are accepted

  predicate Spelled(reader: Alphabet, t: seq<byte>) {
    && (forall k | 0 <= k < |t| :: Plain(t[k]) || StandardOnly(t[k]) || UrlOnly(t[k]))
    && (reader == Standard ==> forall k | 0 <= k < |t| :: !UrlOnly(t[k]))
    && (reader == UrlSafe ==> forall k | 0 <= k < |t| :: !StandardOnly(t[k]))
    && (forall j, k | 0 <= j < |t| && 0 <= k < |t| :: !(StandardOnly(t[j]) && UrlOnly(t[k])))
  }

  /** The alphabet detected is the one whose own characters have occurred. */
  lemma {:induction false} SpellingAccepted(reader: Alphabet, t: seq<byte>)
    ensures Values(reader, t).Some? <==> Spelled(reader, t)
    ensures Spelled(reader, t) && reader == Auto ==>
              (Alphabets(reader, t) == Standard <==> exists k | 0 <= k < |t| :: StandardOnly(t[k]))
    ensures Spelled(reader, t) && reader == Auto ==>
              (Alphabets(reader, t) == UrlSafe <==> exists k | 0 <= k < |t| :: UrlOnly(t[k]))
    ensures reader != Auto ==> Alphabets(reader, t) == reader
  {
    if t != [] {
      SpellingAccepted(reader, t[..|t| - 1]);
    }
  }

  /** A text is decoded exactly when the characters before its first padding are base64 characters of one
      alphabet, and, unless the reader is loose, only padding follows. */
  lemma DecodesExactly(reader: Alphabet, behavior: Behavior, s: seq<byte>)
    ensures Decoded(reader, behavior, s).Some? <==>
            Spelled(reader, s[..Body(s)]) && (behavior == Moderate ==> OnlyPadding(s[Body(s)..]))
  {
    SpellingAccepted(reader, s[..Body(s)]);
  }
}
