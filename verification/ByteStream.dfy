/** Bytes, and positions in a sequence of them. */
module ByteStream {
  type byte = x: int | 0 <= x < 256

  /** `chunk` stands in `data` from position `o` on. */
  predicate Stands(data: seq<byte>, o: nat, chunk: seq<byte>) {
    o + |chunk| <= |data| && data[o..o + |chunk|] == chunk
  }

  lemma StandsJoin(data: seq<byte>, o: nat, x: seq<byte>, y: seq<byte>)
    ensures Stands(data, o, x + y) <==> Stands(data, o, x) && Stands(data, o + |x|, y)
  {
    if Stands(data, o, x + y) {
      assert data[o..o + |x|] == (x + y)[..|x|] == x;
      assert data[o + |x|..o + |x| + |y|] == (x + y)[|x|..] == y;
    }
    if Stands(data, o, x) && Stands(data, o + |x|, y) {
      assert data[o..o + |x + y|] == data[o..o + |x|] + data[o + |x|..o + |x| + |y|];
    }
  }

  /** A slice as Python takes it: what there is of it. */
  function Slice(data: seq<byte>, o: nat, n: nat): seq<byte> {
    if o + n <= |data| then data[o..o + n] else if o <= |data| then data[o..] else []
  }

  const U32_SIZE: nat := 0x1_0000_0000

  /** Four bytes, the lowest first. */
  function Le32(v: nat): seq<byte>
    requires v < U32_SIZE
  {
    [v % 256, v / 256 % 256, v / 65536 % 256, v / 16777216]
  }

  function U32(data: seq<byte>, o: nat): (v: nat)
    requires o + 4 <= |data|
    ensures v < U32_SIZE
  {
    Word(data[o], data[o + 1], data[o + 2], data[o + 3])
  }

  function Word(b0: int, b1: int, b2: int, b3: int): int {
    b0 + 256 * b1 + 65536 * b2 + 16777216 * b3
  }

  lemma ReadsLe32(data: seq<byte>, o: nat, v: nat)
    requires v < U32_SIZE && Stands(data, o, Le32(v))
    ensures U32(data, o) == v
  {
    WordIs(v);
    var c := data[o..o + 4];
    hide Word;
    assert c == Le32(v);
    assert data[o] == c[0] && data[o + 1] == c[1] && data[o + 2] == c[2] && data[o + 3] == c[3];
  }

  lemma WordIs(v: nat)
    ensures Word(v % 256, v / 256 % 256, v / 65536 % 256, v / 16777216) == v
  {
    var (a, b) := (v / 256, v / 65536);
    assert a / 256 == b && b / 256 == v / 16777216;
    assert v == 256 * a + v % 256 && a == 256 * b + a % 256 && b == 256 * (v / 16777216) + b % 256;
  }

  predicate AllU32(vs: seq<nat>) {
    forall k | 0 <= k < |vs| :: vs[k] < U32_SIZE
  }

  function Le32s(vs: seq<nat>): (s: seq<byte>)
    requires AllU32(vs)
    ensures |s| == 4 * |vs|
  {
    if vs == [] then [] else Le32(vs[0]) + Le32s(vs[1..])
  }

  function U32s(data: seq<byte>, o: nat, n: nat): (vs: seq<nat>)
    requires o + 4 * n <= |data|
    ensures |vs| == n
    decreases n
  {
    if n == 0 then [] else [U32(data, o)] + U32s(data, o + 4, n - 1)
  }

  lemma {:induction false} ReadsLe32s(data: seq<byte>, o: nat, vs: seq<nat>)
    requires AllU32(vs) && Stands(data, o, Le32s(vs))
    ensures U32s(data, o, |vs|) == vs
    decreases |vs|
  {
    if vs != [] {
      StandsJoin(data, o, Le32(vs[0]), Le32s(vs[1..]));
      ReadsLe32(data, o, vs[0]);
      ReadsLe32s(data, o + 4, vs[1..]);
    }
  }
}
