/** The loader of legacy GGML files, object by object, as it advances its offset through the file. */
module GgmlModel {
  import opened Wrappers
  import opened ByteStream
  import opened GgmlSpec

  class Hyperparameters {
    var nVocab: nat
    var nEmbd: nat
    var nMult: nat
    var nHead: nat
    var nLayer: nat
    var nRot: nat
    var nFf: nat
    var ftype: nat

    constructor ()
      ensures nFf == 0
    {
      nVocab, nEmbd, nMult, nHead := 0, 0, 0, 0;
      nLayer, nRot, nFf, ftype := 0, 0, 0, 0;
    }

    ghost function Contents(): (h: Hyper)
      reads this
      ensures h.nVocab == nVocab
    {
      Hyper(nVocab, nEmbd, nMult, nHead, nLayer, nRot, ftype)
    }

    method Load(data: seq<byte>, offset: nat) returns (r: Result<nat>)
      modifies this
      ensures nFf == old(nFf)
      ensures match LoadHyper(data, offset)
              case Err(e) => r == Err(e)
              case Ok(h) => Contents() == h.item && r.Ok? && offset + r.value == h.read
    {
      if |data| < offset + 28 { return Err("struct.error"); }
      var v := U32s(data, offset, 7);
      nVocab, nEmbd, nMult, nHead := v[0], v[1], v[2], v[3];
      nLayer, nRot := v[4], v[5];
      if !KnownFType(v[6]) { return Err("Invalid ftype"); }
      ftype := v[6];
      return Ok(28);
    }

    method SetNFf(model: GGMLModel) returns (r: Result<nat>)
      requires model.Indexed()
      modifies this
      ensures r == FeedForward(Infos(model.tensors))
      ensures r.Ok? ==> nFf == r.value
      ensures r.Err? ==> nFf == old(nFf)
      ensures Contents() == old(Contents())
    {
      hide LastNamed; hide Infos;
      ghost var infos := Infos(model.tensors);
      LastNamedIs(infos, FF_NAME);
      if FF_NAME !in model.tensorMap { return Err("Missing layer 0 FF tensor"); }
      var i := model.tensorMap[FF_NAME];
      var ffTensor := model.tensors[i];
      assert infos[i] == ffTensor.Info();
      if |ffTensor.dims| < 2 { return Err("IndexError"); }
      nFf := ffTensor.dims[1];
      return Ok(nFf);
    }
  }

  /** What has been read so far, followed by the rest. */
  function Then<T>(front: seq<T>, rest: Result<Read<seq<T>>>): Result<Read<seq<T>>> {
    match rest
    case Err(e) => Err(e)
    case Ok(r) => Ok(Read(front + r.item, r.read))
  }

  lemma ThenNext<T>(front: seq<T>, t: T, rest: Result<Read<seq<T>>>)
    ensures Then(front + [t], rest) == Then(front, Then([t], rest))
  {
    if rest.Ok? { assert front + [t] + rest.value.item == front + ([t] + rest.value.item); }
  }

  lemma ThenNothing<T>(r: Result<Read<seq<T>>>)
    ensures Then([], r) == r
  {
    if r.Ok? { assert [] + r.value.item == r.value.item; }
  }

  class Vocab {
    var items: seq<Token>
    const loadScores: bool

    constructor (loadScores: bool)
      ensures items == [] && this.loadScores == loadScores
    {
      items := [];
      this.loadScores := loadScores;
    }

    method Load(data: seq<byte>, offset: nat, nVocab: nat) returns (r: Result<nat>)
      modifies this
      ensures match LoadVocab(data, offset, nVocab, loadScores)
              case Err(e) => r == Err(e)
              case Ok(v) => items == old(items) + v.item && r.Ok? && offset + r.value == v.read
    {
      hide LoadToken;
      var now := offset;
      ghost var front: seq<Token> := [];
      ghost var n := nVocab;
      ThenNothing(LoadVocab(data, offset, nVocab, loadScores));
      for i := 0 to nVocab
        invariant n == nVocab - i && now >= offset
        invariant items == old(items) + front
        invariant LoadVocab(data, offset, nVocab, loadScores) == Then(front, LoadVocab(data, now, n, loadScores))
      {
        ghost var before := now;
        var item, size := LoadItem(data, now);
        if size.Err? { return Err(size.message); }
        now := now + size.value;
        items := items + [item];
        ThenNext(front, item, LoadVocab(data, now, n - 1, loadScores));
        assert LoadVocab(data, before, n, loadScores) == Then([item], LoadVocab(data, now, n - 1, loadScores));
        front, n := front + [item], n - 1;
      }
      assert LoadVocab(data, now, 0, loadScores) == Ok(Read([], now));
      return Ok(now - offset);
    }

    /** One turn of the loop. */
    method LoadItem(data: seq<byte>, offset: nat) returns (item: Token, r: Result<nat>)
      ensures match LoadToken(data, offset, loadScores)
              case Err(e) => r == Err(e)
              case Ok(t) => item == t.item && r.Ok? && offset + r.value == t.read
    {
      item := Token([], NO_SCORE);
      if |data| < offset + 4 { return item, Err("struct.error"); }
      var itemLen := U32(data, offset);
      if itemLen >= NAME_LIMIT { return item, Err("Absurd vocab item length"); }
      var now := offset + 4;
      var text := Slice(data, now, itemLen);
      now := now + itemLen;
      var score := NO_SCORE;
      if loadScores {
        if |data| < now + 4 { return item, Err("struct.error"); }
        score := data[now..now + 4];
        now := now + 4;
      }
      return Token(text, score), Ok(now - offset);
    }
  }

  class Tensor {
    var name: seq<byte>
    var dims: seq<nat>
    var dtype: nat
    var startOffset: nat
    var lenBytes: nat
    const usePadding: bool

    constructor (usePadding: bool)
      ensures this.usePadding == usePadding
    {
      name, dims, dtype, startOffset, lenBytes := [], [], 0, 0, 0;
      this.usePadding := usePadding;
    }

    ghost function Info(): (t: TensorInfo)
      reads this
      ensures t.name == name
    {
      TensorInfo(name, dims, dtype, startOffset, lenBytes)
    }

    method Load(data: seq<byte>, offset: nat) returns (r: Result<nat>)
      modifies this
      ensures match LoadTensor(data, offset, usePadding)
              case Err(e) => r == Err(e)
              case Ok(t) => Info() == t.item && r.Ok? && offset + r.value == t.read
    {
      hide U32;
      hide U32s;
      hide Slice;
      hide DataSize;
      if |data| < offset + 12 { return Err("struct.error"); }
      var nDims, nameLen, code := U32(data, offset), U32(data, offset + 4), U32(data, offset + 8);
      if nDims > 4 { return Err("Invalid tensor dimensions"); }
      if nameLen >= NAME_LIMIT { return Err("Absurd tensor name length"); }
      if QuantSize(code) == Unknown { return Err("Unknown tensor type"); }
      var now := offset + 12;
      dtype := code;
      if |data| < now + 4 * nDims { return Err("struct.error"); }
      dims := U32s(data, now, nDims);
      now := now + 4 * nDims;
      name := Slice(data, now, nameLen);
      now := now + nameLen;
      var pad := if usePadding then Padding(now) else 0;
      now := now + pad;
      startOffset := now;
      lenBytes := DataSize(dims, dtype);
      now := now + lenBytes;
      return Ok(now - offset);
    }
  }

  ghost function Infos(ts: seq<Tensor>): (infos: seq<TensorInfo>)
    reads ts
    ensures |infos| == |ts| && forall k | 0 <= k < |ts| :: infos[k] == ts[k].Info()
  {
    if ts == [] then [] else Infos(ts[..|ts| - 1]) + [ts[|ts| - 1].Info()]
  }

  /** The map leads every name to the last tensor that has it. */
  ghost predicate Indexes(tensorMap: map<seq<byte>, nat>, infos: seq<TensorInfo>) {
    && (forall name :: name in tensorMap <==> LastNamed(infos, name).Ok?)
    && (forall name | name in tensorMap :: LastNamed(infos, name) == Ok(tensorMap[name]))
  }

  lemma IndexNext(tensorMap: map<seq<byte>, nat>, infos: seq<TensorInfo>, t: TensorInfo)
    requires Indexes(tensorMap, infos)
    ensures Indexes(tensorMap[t.name := |infos|], infos + [t])
  {
    var after := tensorMap[t.name := |infos|];
    forall name ensures LastNamed(infos + [t], name) ==
                        if name == t.name then Ok(|infos|) else LastNamed(infos, name)
    {
      assert (infos + [t])[..|infos|] == infos;
    }
    assert forall name :: name in after <==> name == t.name || name in tensorMap;
  }

  lemma NothingIndexed()
    ensures Indexes(map[], [])
  {}

  lemma TensorsNext(data: seq<byte>, o: nat, padded: bool, front: seq<TensorInfo>)
    requires o < |data|
    ensures match LoadTensor(data, o, padded)
            case Err(e) => Then(front, LoadTensors(data, o, padded)) == Err(e)
            case Ok(t) =>
              t.read >= o + 12 &&
              Then(front, LoadTensors(data, o, padded)) == Then(front + [t.item], LoadTensors(data, t.read, padded))
  {
    hide LoadTensor;
    if LoadTensor(data, o, padded).Ok? {
      TensorTakesTwelve(data, o, padded);
      var t := LoadTensor(data, o, padded).value;
      ThenNext(front, t.item, LoadTensors(data, t.read, padded));
    }
  }

  lemma TensorsEnd(data: seq<byte>, o: nat, padded: bool, front: seq<TensorInfo>)
    ensures o >= |data| ==> Then(front, LoadTensors(data, o, padded)) == Ok(Read(front, o))
    ensures front == [] ==> Then(front, LoadTensors(data, o, padded)) == LoadTensors(data, o, padded)
  {
    ThenNothing(LoadTensors(data, o, padded));
    assert front + [] == front;
  }

  lemma BodySteps(data: seq<byte>, h: Header, hp: Hyper, o: nat)
    ensures match LoadVocab(data, o, hp.nVocab, h.format != GGML)
            case Err(e) => ReadBody(data, h, hp, o) == Err(e)
            case Ok(v) =>
              match LoadTensors(data, v.read, h.format == GGJT)
              case Err(e) => ReadBody(data, h, hp, o) == Err(e)
              case Ok(ts) => ReadBody(data, h, hp, o) == Ok(Read(Parts(h, hp, v.item, ts.item), ts.read))
  {}

  lemma InfosNext(ts: seq<Tensor>, t: Tensor)
    ensures Infos(ts + [t]) == Infos(ts) + [t.Info()]
  {
    assert (ts + [t])[..|ts|] == ts;
  }

  class GGMLModel {
    var fileFormat: FileFormat
    var formatVersion: nat
    var hyperparameters: Hyperparameters?
    var vocab: Vocab?
    var tensorMap: map<seq<byte>, nat>
    var tensors: seq<Tensor>

    constructor ()
      ensures tensors == [] && tensorMap == map[] && hyperparameters == null && vocab == null
    {
      fileFormat, formatVersion := GGML, 1;
      hyperparameters, vocab := null, null;
      tensorMap, tensors := map[], [];
    }

    ghost predicate Indexed()
      reads this, tensors
    {
      && Indexes(tensorMap, Infos(tensors))
      && forall name | name in tensorMap :: tensorMap[name] < |tensors|
    }

    /** What is stored once everything is read. */
    ghost predicate Holds(p: Parts)
      reads this, tensors, hyperparameters, vocab
    {
      && Header(fileFormat, formatVersion) == p.header
      && hyperparameters != null && hyperparameters.Contents() == p.hyper
      && vocab != null && vocab.items == p.vocab
      && Infos(tensors) == p.tensors
      && Indexed()
    }

    method ValidateHeader(data: seq<byte>, offset: nat) returns (r: Result<nat>)
      modifies this`fileFormat, this`formatVersion
      ensures match LoadHeader(data, offset)
              case Err(e) => r == Err(e) && unchanged(this)
              case Ok(h) =>
                Header(fileFormat, formatVersion) == h.item && r.Ok? && offset + r.value == h.read
    {
      hide U32;
      var magic := Slice(data, offset, 4);
      if magic == GGUF_MAGIC { return Err("File is already in GGUF format."); }
      if magic == GGML_MAGIC {
        fileFormat, formatVersion := GGML, 1;
        return Ok(4);
      }
      if |data| < offset + 8 { return Err("struct.error"); }
      var version := U32(data, offset + 4);
      if magic == GGMF_MAGIC {
        if version != 1 { return Err("Cannot handle unexpected GGMF file version"); }
        fileFormat, formatVersion := GGMF, version;
        return Ok(8);
      }
      if magic == GGJT_MAGIC {
        if version < 1 || version > 3 { return Err("Cannot handle unexpected GGJT file version"); }
        fileFormat, formatVersion := GGJT, version;
        return Ok(8);
      }
      return Err("Unexpected file magic");
    }

    method ValidateConversion(ftype: nat) returns (ok: bool)
      ensures ok <==> Convertible(Header(fileFormat, formatVersion), ftype)
    {
      ok := true;
      if fileFormat == GGML || fileFormat == GGMF || formatVersion < 2 {
        if ftype !in {0, 1} { ok := false; }
      } else if fileFormat == GGJT && formatVersion == 2 {
        if ftype in {2, 3, 4, 7} { ok := false; }
      }
    }

    /** The loop over the tensors: every turn reads at least twelve bytes. */
    method LoadAll(data: seq<byte>, offset: nat)
      returns (ts: seq<Tensor>, index: map<seq<byte>, nat>, r: Result<nat>)
      ensures fresh(ts)
      ensures match LoadTensors(data, offset, fileFormat == GGJT)
              case Err(e) => r == Err(e)
              case Ok(all) => Infos(ts) == all.item && Indexes(index, Infos(ts)) && r == Ok(all.read)
      ensures forall name | name in index :: index[name] < |ts|
    {
      hide *;
      var now, padded := offset, fileFormat == GGJT;
      ts, index := [], map[];
      ghost var infos: seq<TensorInfo> := [];
      assert Infos(ts) == infos;
      NothingIndexed();
      TensorsEnd(data, offset, padded, []);
      while now < |data|
        invariant fresh(ts) && infos == Infos(ts) && |infos| == |ts|
        invariant Indexes(index, infos) && forall name | name in index :: index[name] < |ts|
        invariant LoadTensors(data, offset, padded) == Then(infos, LoadTensors(data, now, padded))
        decreases |data| - now
      {
        var tensor := new Tensor(padded);
        var size := tensor.Load(data, now);
        TensorsNext(data, now, padded, infos);
        if size.Err? { return ts, index, Err(size.message); }
        IndexNext(index, infos, tensor.Info());
        InfosNext(ts, tensor);
        now := now + size.value;
        index := index[tensor.name := |ts|];
        ts := ts + [tensor];
        infos := infos + [tensor.Info()];
      }
      TensorsEnd(data, now, padded, infos);
      return ts, index, Ok(now);
    }

    lemma IndexedIf()
      requires Indexes(tensorMap, Infos(tensors)) && forall name | name in tensorMap :: tensorMap[name] < |tensors|
      ensures Indexed()
    {}

    lemma HoldsIf(p: Parts)
      requires Header(fileFormat, formatVersion) == p.header && Infos(tensors) == p.tensors && Indexed()
      requires hyperparameters != null && hyperparameters.Contents() == p.hyper
      requires vocab != null && vocab.items == p.vocab
      ensures Holds(p)
    {}

    /** The end of the last tensor and the feed-forward size, or the error of a missing one. */
    ghost predicate Finishes(p: Read<Parts>, r: Result<nat>)
      reads this, hyperparameters
    {
      match FeedForward(p.item.tensors)
      case Err(e) => r == Err(e)
      case Ok(n) => r == Ok(p.read) && hyperparameters != null && hyperparameters.nFf == n
    }

    lemma FinishesIf(p: Read<Parts>, r: Result<nat>)
      requires match FeedForward(p.item.tensors)
               case Err(e) => r == Err(e)
               case Ok(n) => r == Ok(p.read) && hyperparameters != null && hyperparameters.nFf == n
      ensures Finishes(p, r)
    {
      hide FeedForward;
    }

    /** The fields, once everything is read, and the feed-forward size that the tensors determine. */
    method Finish(hp: Hyperparameters, words: Vocab, ts: seq<Tensor>, index: map<seq<byte>, nat>)
        returns (r: Result<nat>)
      requires Indexes(index, Infos(ts)) && forall name | name in index :: index[name] < |ts|
      modifies this`hyperparameters, this`vocab, this`tensors, this`tensorMap, hp
      ensures hyperparameters == hp && r == FeedForward(Infos(ts)) && (r.Ok? ==> hp.nFf == r.value)
      ensures Holds(Parts(Header(fileFormat, formatVersion), old(hp.Contents()), words.items, Infos(ts)))
    {
      hide *;
      ghost var contents := hp.Contents();
      hyperparameters, vocab, tensors, tensorMap := hp, words, ts, index;
      IndexedIf();
      r := hp.SetNFf(this);
      IndexedIf();
      HoldsIf(Parts(Header(fileFormat, formatVersion), contents, words.items, Infos(ts)));
    }

    /** What follows the hyperparameters. */
    method LoadRest(data: seq<byte>, offset: nat, hp: Hyperparameters) returns (r: Result<nat>)
      modifies this`hyperparameters, this`vocab, this`tensors, this`tensorMap, hp
      ensures match ReadBody(data, Header(fileFormat, formatVersion), old(hp.Contents()), offset)
              case Err(e) =>
                r == Err(e) && unchanged(this`hyperparameters, this`vocab, this`tensors, this`tensorMap)
              case Ok(p) => Holds(p.item) && Finishes(p, r)
    {
      hide *;
      BodySteps(data, Header(fileFormat, formatVersion), hp.Contents(), offset);
      var words := new Vocab(fileFormat != GGML);
      var size := words.Load(data, offset, hp.nVocab);
      if size.Err? { return size; }
      ghost var loaded := LoadVocab(data, offset, hp.nVocab, fileFormat != GGML).value.item;
      assert words.items == [] + loaded == loaded;
      var ts, index, end := LoadAll(data, offset + size.value);
      if end.Err? { return end; }
      var ff := Finish(hp, words, ts, index);
      r := if ff.Err? then Err(ff.message) else end;
      FinishesIf(Read(Parts(Header(fileFormat, formatVersion), old(hp.Contents()), words.items, Infos(ts)), end.value),
                 r);
    }

    /** The whole file: once everything is read the object holds what the file says, even when the feed-forward
        tensor is then missing; on any earlier error nothing but the format is stored. */
    method Load(data: seq<byte>, offset: nat) returns (r: Result<nat>)
      modifies this
      ensures match ReadModel(data, offset)
              case Err(e) =>
                r == Err(e) && unchanged(this`hyperparameters, this`vocab, this`tensors, this`tensorMap)
              case Ok(p) => Holds(p.item) && Finishes(p, r)
      ensures r == match LoadModel(data, offset) case Err(e) => Err(e) case Ok(m) => Ok(m.read)
    {
      hide LoadHeader;
      hide LoadHyper;
      hide ReadBody;
      hide FeedForward;
      hide Convertible;
      hide Holds;
      var head := ValidateHeader(data, offset);
      if head.Err? { return head; }
      var now := offset + head.value;
      var hp := new Hyperparameters();
      var size := hp.Load(data, now);
      if size.Err? { return size; }
      now := now + size.value;
      var ok := ValidateConversion(hp.ftype);
      if !ok { return Err("not eligible for conversion"); }
      r := LoadRest(data, now, hp);
    }
  }
}
