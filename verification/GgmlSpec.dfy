/** The legacy GGML model files: what the loader reads from a byte sequence, step by step. */
module GgmlSpec {
  import opened Wrappers
  import opened ByteStream

  datatype FileFormat = GGML | GGMF | GGJT

  /** `read` is the position after what was read. */
  datatype Read<+T> = Read(item: T, read: nat)

  // ------------------------------------------------------------ header

  const GGUF_MAGIC: seq<byte> := [71, 71, 85, 70]
  const GGML_MAGIC: seq<byte> := [108, 109, 103, 103]
  const GGMF_MAGIC: seq<byte> := [102, 109, 103, 103]
  const GGJT_MAGIC: seq<byte> := [116, 106, 103, 103]

  datatype Header = Header(format: FileFormat, version: nat)

  function LoadHeader(data: seq<byte>, o: nat): Result<Read<Header>> {
    var magic := Slice(data, o, 4);
    if magic == GGUF_MAGIC then Err("File is already in GGUF format.")
    else if magic == GGML_MAGIC then Ok(Read(Header(GGML, 1), o + 4))
    else if |data| < o + 8 then Err("struct.error")
    else
      var version := U32(data, o + 4);
      if magic == GGMF_MAGIC then
        if version != 1 then Err("Cannot handle unexpected GGMF file version")
        else Ok(Read(Header(GGMF, version), o + 8))
      else if magic == GGJT_MAGIC then
        if version < 1 || version > 3 then Err("Cannot handle unexpected GGJT file version")
        else Ok(Read(Header(GGJT, version), o + 8))
      else Err("Unexpected file magic")
  }

  // ------------------------------------------------------------ hyperparameters

  datatype Hyper = Hyper(nVocab: nat, nEmbd: nat, nMult: nat, nHead: nat, nLayer: nat, nRot: nat, ftype: nat)

  predicate KnownFType(f: nat) { f <= 4 || 7 <= f <= 18 }

  function LoadHyper(data: seq<byte>, o: nat): Result<Read<Hyper>> {
    if |data| < o + 28 then Err("struct.error")
    else
      var v := U32s(data, o, 7);
      if !KnownFType(v[6]) then Err("Invalid ftype")
      else Ok(Read(Hyper(v[0], v[1], v[2], v[3], v[4], v[5], v[6]), o + 28))
  }

  /** `validate_conversion`: the quantizations changed in GGJT versions 2 and 3. */
  predicate Convertible(h: Header, ftype: nat) {
    if h.format != GGJT || h.version < 2 then ftype == 0 || ftype == 1
    else if h.version == 2 then ftype != 2 && ftype != 3 && ftype != 4 && ftype != 7
    else true
  }

  // ------------------------------------------------------------ vocabulary

  const NAME_LIMIT: nat := 4096

  /** A token with the four bytes of its score. */
  datatype Token = Token(text: seq<byte>, score: seq<byte>)

  const NO_SCORE: seq<byte> := [0, 0, 0, 0]

  function LoadToken(data: seq<byte>, o: nat, scores: bool): Result<Read<Token>> {
    if |data| < o + 4 then Err("struct.error")
    else
      var n := U32(data, o);
      if n >= NAME_LIMIT then Err("Absurd vocab item length")
      else if !scores then Ok(Read(Token(Slice(data, o + 4, n), NO_SCORE), o + 4 + n))
      else if |data| < o + 4 + n + 4 then Err("struct.error")
      else Ok(Read(Token(Slice(data, o + 4, n), data[o + 4 + n..o + 4 + n + 4]), o + 4 + n + 4))
  }

  function LoadVocab(data: seq<byte>, o: nat, n: nat, scores: bool): Result<Read<seq<Token>>>
    decreases n
  {
    if n == 0 then Ok(Read([], o))
    else
      match LoadToken(data, o, scores)
      case Err(e) => Err(e)
      case Ok(t) =>
        match LoadVocab(data, t.read, n - 1, scores)
        case Err(e) => Err(e)
        case Ok(rest) => Ok(Read([t.item] + rest.item, rest.read))
  }

  // ------------------------------------------------------------ tensors

  /** Where a tensor's data is: `bytes` bytes from `start` on. */
  datatype TensorInfo = TensorInfo(name: seq<byte>, dims: seq<nat>, dtype: nat, start: nat, bytes: nat)

  datatype Quant = Unknown | Blocks(elements: nat, size: nat)

  /** `GGML_QUANT_SIZES` */
  function QuantSize(dtype: nat): (q: Quant)
    ensures q.Blocks? ==> q.elements > 0 && dtype < U32_SIZE
  {
    if dtype == 0 || dtype == 26 then Blocks(1, 4)
    else if dtype == 1 || dtype == 25 || dtype == 30 then Blocks(1, 2)
    else if dtype == 24 then Blocks(1, 1)
    else if dtype == 27 || dtype == 28 then Blocks(1, 8)
    else if dtype == 2 || dtype == 20 then Blocks(32, 18)
    else if dtype == 3 then Blocks(32, 20)
    else if dtype == 6 then Blocks(32, 22)
    else if dtype == 7 then Blocks(32, 24)
    else if dtype == 8 then Blocks(32, 34)
    else if dtype == 9 then Blocks(32, 40)
    else if dtype == 39 then Blocks(32, 17)
    else KQuantSize(dtype)
  }

  function KQuantSize(dtype: nat): (q: Quant)
    ensures q.Blocks? ==> q.elements > 0 && dtype < U32_SIZE
  {
    if dtype == 10 then Blocks(256, 84)
    else if dtype == 11 then Blocks(256, 110)
    else if dtype == 12 then Blocks(256, 144)
    else if dtype == 13 then Blocks(256, 176)
    else if dtype == 14 then Blocks(256, 210)
    else if dtype == 15 then Blocks(256, 292)
    else if dtype == 16 then Blocks(256, 66)
    else if dtype == 17 then Blocks(256, 74)
    else if dtype == 18 then Blocks(256, 98)
    else if dtype == 19 then Blocks(256, 50)
    else if dtype == 21 then Blocks(256, 110)
    else if dtype == 22 then Blocks(256, 82)
    else if dtype == 23 then Blocks(256, 136)
    else if dtype == 29 then Blocks(256, 56)
    else if dtype == 34 then Blocks(256, 54)
    else if dtype == 35 then Blocks(256, 66)
    else Unknown
  }

  function Elements(dims: seq<nat>): nat {
    if dims == [] then 1 else dims[0] * Elements(dims[1..])
  }

  function DataSize(dims: seq<nat>, dtype: nat): nat
    requires QuantSize(dtype).Blocks?
  {
    Elements(dims) * QuantSize(dtype).size / QuantSize(dtype).elements
  }

  /** The distance to the next multiple of 32. */
  function Padding(o: nat): nat { (32 - o % 32) % 32 }

  /** Where the data begins, after a header with this many dimensions and name bytes. */
  function DataStart(o: nat, dims: nat, nameBytes: nat, padded: bool): nat {
    var end := o + 12 + 4 * dims + nameBytes;
    if padded then end + Padding(end) else end
  }

  function LoadTensor(data: seq<byte>, o: nat, padded: bool): Result<Read<TensorInfo>> {
    if |data| < o + 12 then Err("struct.error")
    else
      var (nDims, nameLen, dtype) := (U32(data, o), U32(data, o + 4), U32(data, o + 8));
      if nDims > 4 then Err("Invalid tensor dimensions")
      else if nameLen >= NAME_LIMIT then Err("Absurd tensor name length")
      else if QuantSize(dtype) == Unknown then Err("Unknown tensor type")
      else if |data| < o + 12 + 4 * nDims then Err("struct.error")
      else
        var dims := U32s(data, o + 12, nDims);
        var start, bytes := DataStart(o, nDims, nameLen, padded), DataSize(dims, dtype);
        Ok(Read(TensorInfo(Slice(data, o + 12 + 4 * nDims, nameLen), dims, dtype, start, bytes), start + bytes))
  }

  lemma TensorTakesTwelve(data: seq<byte>, o: nat, padded: bool)
    requires LoadTensor(data, o, padded).Ok?
    ensures LoadTensor(data, o, padded).value.read >= o + 12
  {}

  function LoadTensors(data: seq<byte>, o: nat, padded: bool): Result<Read<seq<TensorInfo>>>
    decreases |data| - o
  {
    if o >= |data| then Ok(Read([], o))
    else
      match LoadTensor(data, o, padded)
      case Err(e) => Err(e)
      case Ok(t) =>
        TensorTakesTwelve(data, o, padded);
        match LoadTensors(data, t.read, padded)
        case Err(e) => Err(e)
        case Ok(rest) => Ok(Read([t.item] + rest.item, rest.read))
  }

  // ------------------------------------------------------------ the model

  /** The position of the last tensor with this name. */
  function LastNamed(ts: seq<TensorInfo>, name: seq<byte>): Result<nat> {
    if ts == [] then Err("KeyError")
    else if ts[|ts| - 1].name == name then Ok(|ts| - 1)
    else LastNamed(ts[..|ts| - 1], name)
  }

  /** `layers.0.feed_forward.w1.weight` */
  const FF_NAME: seq<byte> := [108, 97, 121, 101, 114, 115, 46, 48, 46, 102, 101, 101, 100, 95, 102, 111, 114, 119,
                               97, 114, 100, 46, 119, 49, 46, 119, 101, 105, 103, 104, 116]

  lemma LastNamedIs(ts: seq<TensorInfo>, name: seq<byte>)
    ensures LastNamed(ts, name).Ok? <==> exists k | 0 <= k < |ts| :: ts[k].name == name
    ensures LastNamed(ts, name).Ok? ==>
              var i := LastNamed(ts, name).value;
              i < |ts| && ts[i].name == name && forall k | i < k < |ts| :: ts[k].name != name
  {
    if ts != [] { LastNamedIs(ts[..|ts| - 1], name); }
  }

  /** `set_n_ff` */
  function FeedForward(ts: seq<TensorInfo>): Result<nat> {
    LastNamedIs(ts, FF_NAME);
    match LastNamed(ts, FF_NAME)
    case Err(_) => Err("Missing layer 0 FF tensor")
    case Ok(i) => if |ts[i].dims| < 2 then Err("IndexError") else Ok(ts[i].dims[1])
  }

  datatype Model = Model(header: Header, hyper: Hyper, vocab: seq<Token>, tensors: seq<TensorInfo>, nFf: nat)

  /** All of it but the size that the tensors determine. */
  datatype Parts = Parts(header: Header, hyper: Hyper, vocab: seq<Token>, tensors: seq<TensorInfo>)

  function ReadBody(data: seq<byte>, h: Header, hp: Hyper, o: nat): Result<Read<Parts>> {
    match LoadVocab(data, o, hp.nVocab, h.format != GGML)
    case Err(e) => Err(e)
    case Ok(v) =>
      match LoadTensors(data, v.read, h.format == GGJT)
      case Err(e) => Err(e)
      case Ok(ts) => Ok(Read(Parts(h, hp, v.item, ts.item), ts.read))
  }

  function ReadModel(data: seq<byte>, o: nat): Result<Read<Parts>> {
    match LoadHeader(data, o)
    case Err(e) => Err(e)
    case Ok(h) =>
      match LoadHyper(data, h.read)
      case Err(e) => Err(e)
      case Ok(hp) =>
        if !Convertible(h.item, hp.item.ftype) then Err("not eligible for conversion")
        else ReadBody(data, h.item, hp.item, hp.read)
  }

  function Complete(parts: Result<Read<Parts>>): Result<Read<Model>> {
    match parts
    case Err(e) => Err(e)
    case Ok(p) =>
      match FeedForward(p.item.tensors)
      case Err(e) => Err(e)
      case Ok(n) => Ok(Read(Model(p.item.header, p.item.hyper, p.item.vocab, p.item.tensors, n), p.read))
  }

  function LoadModel(data: seq<byte>, o: nat): Result<Read<Model>> {
    Complete(ReadModel(data, o))
  }
}
