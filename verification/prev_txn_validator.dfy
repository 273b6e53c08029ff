/** btc_validate_inputs (apps/btc_family/btc_inputs_validator.c): nested loops over a chunked
    stream that feed a SHA-256 context, proved to compute PrevTxnWalk.Run. */
module PrevTxnValidator {
  import opened Bytes
  import opened ByteStreams
  import opened HashContexts
  import opened PrevTxnWalk

  const SLICE_SIZE := 1024

  datatype Verdict = InvalidParams | ReadStream | InvalidTxHash | InvalidOutputValue | Success

  datatype TxnInput = TxnInput(prevTxnHash: Digest, prevOutputIndex: nat, value: nat)

  ghost predicate Stands(stream: ByteStream, ctx: HashContext, p: Place)
    reads stream, ctx
  {
    stream.Valid() && p.left == stream.Script() && p.hashed == ctx.absorbed
  }

  /** The verdict as a function of what the stream can deliver and of the peeked byte. */
  function VerdictOn(h: Hash, s: Script, peek: byte, input: TxnInput): Verdict {
    match Run(s, peek == 0, input.prevOutputIndex)
    case Stopped(_) => ReadStream
    case At((p, found)) =>
      if h(h(p.hashed)) != input.prevTxnHash then InvalidTxHash
      else if found != input.value then InvalidOutputValue
      else Success
  }

  method DecodeVarint(stream: ByteStream, ctx: HashContext?) returns (value: nat)
    requires stream.Valid()
    modifies stream, ctx
    ensures stream.Valid()
    ensures value == ReadCount(old(stream.Script())).value
    ensures stream.Script() == ReadCount(old(stream.Script())).left
    ensures ctx != null ==> ctx.absorbed == old(ctx.absorbed) + ReadCount(old(stream.Script())).raw
  {
    var ok, first := stream.Process(1, true);
    if !ok {
      return 0;
    }
    var buffer := first;
    if first[0] >= 0xfd {
      var more;
      ok, more := stream.Process(if first[0] == 0xfd then 2 else if first[0] == 0xfe then 4 else 8, true);
      if !ok {
        return 0;
      }
      buffer := first + more;
      assert buffer[1..] == more;
    }
    if ctx != null {
      ctx.Update(buffer);
    }
    value := if first[0] < 0xfd then first[0] else FromLE((buffer[1..] + Zeros(4))[..4]);
  }

  /** A fixed-size field: read, give up on failure, hash. */
  method HashField(stream: ByteStream, ctx: HashContext, n: nat, ghost p: Place) returns (ok: bool, bytes: seq<byte>)
    requires Stands(stream, ctx, p)
    modifies stream, ctx
    ensures stream.Valid()
    ensures ok <==> Fixed(p, n, true).At?
    ensures ok ==> Stands(stream, ctx, Fixed(p, n, true).value) && bytes == p.left[0][..n]
    ensures ok && n > 0 ==> stream.Peek(0) == old(stream.Peek(n))
  {
    ok, bytes := stream.Process(n, true);
    if ok {
      ctx.Update(bytes);
    }
  }

  method HashCount(stream: ByteStream, ctx: HashContext, ghost p: Place) returns (value: nat)
    requires Stands(stream, ctx, p)
    modifies stream, ctx
    ensures value == ReadCount(p.left).value && Stands(stream, ctx, AfterCount(p, true))
  {
    value := DecodeVarint(stream, ctx);
  }

  /** Reading n bytes and then m more is reading n + m bytes. */
  lemma SplitRead(p: Place, n: nat, m: nat, hashing: bool)
    requires n > 0
    ensures Fixed(p, n, hashing).Stopped? ==> Body(p, n + m, hashing) == Fixed(p, n, hashing)
    ensures Fixed(p, n, hashing).At? ==> Body(p, n + m, hashing) == Body(Fixed(p, n, hashing).value, m, hashing)
  {
    if n + m <= |p.left[0]| {
      DropDrop(p.left, n, m);
      assert p.hashed + p.left[0][..n] + Drop(p.left, n)[0][..m] == p.hashed + p.left[0][..n + m];
    }
  }

  method HashScript(stream: ByteStream, ctx: HashContext, length: nat, ghost p: Place) returns (ok: bool)
    requires Stands(stream, ctx, p)
    modifies stream, ctx
    ensures stream.Valid()
    ensures ok <==> Body(p, length, true).At?
    ensures ok ==> Stands(stream, ctx, Body(p, length, true).value)
  {
    var left: nat := length;
    ghost var now := p;
    while left > 0
      invariant Stands(stream, ctx, now) && Body(p, length, true) == Body(now, left, true)
    {
      var slice := if left < SLICE_SIZE then left else SLICE_SIZE;
      SplitRead(now, slice, left - slice, true);
      var bytes;
      ok, bytes := HashField(stream, ctx, slice, now);
      if !ok {
        return;
      }
      now := Fixed(now, slice, true).value;
      left := left - slice;
    }
    ok := true;
  }

  method SkipBody(stream: ByteStream, length: nat, ghost p: Place) returns (ok: bool)
    requires stream.Valid() && p.left == stream.Script()
    modifies stream
    ensures stream.Valid()
    ensures ok <==> Body(p, length, false).At?
    ensures ok ==> stream.Script() == Body(p, length, false).value.left
  {
    var left: nat := length;
    ghost var now := p;
    while left > 0
      invariant stream.Valid() && now.left == stream.Script() && Body(p, length, false) == Body(now, left, false)
    {
      var slice := if left < SLICE_SIZE then left else SLICE_SIZE;
      SplitRead(now, slice, left - slice, false);
      var none;
      ok, none := stream.Process(slice, false);
      if !ok {
        return;
      }
      now := Fixed(now, slice, false).value;
      left := left - slice;
    }
    ok := true;
  }

  method HashInput(stream: ByteStream, ctx: HashContext, ghost p: Place) returns (ok: bool)
    requires Stands(stream, ctx, p)
    modifies stream, ctx
    ensures stream.Valid()
    ensures ok <==> Input(p).At?
    ensures ok ==> Stands(stream, ctx, Input(p).value)
  {
    var bytes;
    ok, bytes := HashField(stream, ctx, 32, p);
    if !ok { return; }
    ghost var p1 := Fixed(p, 32, true).value;
    ok, bytes := HashField(stream, ctx, 4, p1);
    if !ok { return; }
    ghost var p2 := Fixed(p1, 4, true).value;
    var length := HashCount(stream, ctx, p2);
    ok := HashScript(stream, ctx, length, AfterCount(p2, true));
    if !ok { return; }
    ok, bytes := HashField(stream, ctx, 4, Body(AfterCount(p2, true), length, true).value);
  }

  method HashInputs(stream: ByteStream, ctx: HashContext, count: nat, ghost p: Place) returns (ok: bool)
    requires Stands(stream, ctx, p)
    modifies stream, ctx
    ensures stream.Valid()
    ensures ok <==> Inputs(count, p).At?
    ensures ok ==> Stands(stream, ctx, Inputs(count, p).value)
  {
    hide Input;
    var index := 0;
    ghost var now, left: nat := p, count;
    while index < count
      invariant 0 <= index <= count && left == count - index && Stands(stream, ctx, now)
      invariant Inputs(count, p) == Inputs(left, now)
    {
      ok := HashInput(stream, ctx, now);
      if !ok { return; }
      left := left - 1;
      now := Input(now).value;
      index := index + 1;
    }
    ok := true;
  }

  method HashOutputs(stream: ByteStream, ctx: HashContext, count: nat, target: nat, ghost p: Place)
    returns (ok: bool, found: nat)
    requires Stands(stream, ctx, p)
    modifies stream, ctx
    ensures stream.Valid()
    ensures ok <==> Outputs(0, count, target, 0, p).At?
    ensures ok ==> Stands(stream, ctx, Outputs(0, count, target, 0, p).value.0)
    ensures ok ==> found == Outputs(0, count, target, 0, p).value.1
  {
    var index := 0;
    found := 0;
    ghost var now := p;
    while index < count
      invariant index <= count && Stands(stream, ctx, now)
      invariant Outputs(0, count, target, 0, p) == Outputs(index, count, target, found, now)
    {
      ghost var p0 := now;
      var value;
      ok, value := HashField(stream, ctx, 8, now);
      if !ok { return; }
      now := Fixed(now, 8, true).value;
      var length := HashCount(stream, ctx, now);
      now := AfterCount(now, true);
      ok := HashScript(stream, ctx, length, now);
      if !ok { return; }
      now := Body(now, length, true).value;
      assert Output(p0) == At(now);
      if index == target {
        found := FromLE(value);
      }
      index := index + 1;
    }
    ok := true;
  }

  method SkipWitnessItems(stream: ByteStream, count: nat, ghost p: Place) returns (ok: bool)
    requires stream.Valid() && p.left == stream.Script()
    modifies stream
    ensures stream.Valid()
    ensures ok <==> WitnessItems(count, p).At?
    ensures ok ==> stream.Script() == WitnessItems(count, p).value.left
  {
    var left: nat := count;
    ghost var now := p;
    while left > 0
      invariant stream.Valid() && now.left == stream.Script() && WitnessItems(count, p) == WitnessItems(left, now)
    {
      left := left - 1;
      var length := DecodeVarint(stream, null);
      now := AfterCount(now, false);
      ok := SkipBody(stream, length, now);
      if !ok { return; }
      now := Body(now, length, false).value;
    }
    ok := true;
  }

  method SkipWitnesses(stream: ByteStream, count: nat, ghost p: Place) returns (ok: bool)
    requires stream.Valid() && p.left == stream.Script()
    modifies stream
    ensures stream.Valid()
    ensures ok <==> Witnesses(count, p).At?
    ensures ok ==> stream.Script() == Witnesses(count, p).value.left && Witnesses(count, p).value.hashed == p.hashed
  {
    var left: nat := count;
    ghost var now := p;
    while left > 0
      invariant stream.Valid() && now.left == stream.Script() && Witnesses(count, p) == Witnesses(left, now)
      invariant now.hashed == p.hashed
    {
      left := left - 1;
      var items := DecodeVarint(stream, null);
      now := AfterCount(now, false);
      ok := SkipWitnessItems(stream, items, now);
      if !ok { return; }
      WitnessItemsHashNothing(items, now);
      now := WitnessItems(items, now).value;
    }
    ok := true;
  }

  lemma WitnessItemsHashNothing(n: nat, p: Place)
    ensures WitnessItems(n, p).At? ==> WitnessItems(n, p).value.hashed == p.hashed
  {
  }

  method ValidateInputs(h: Hash, stream: ByteStream?, input: Option<TxnInput>) returns (verdict: Verdict)
    requires stream != null ==> stream.Valid()
    modifies stream
    ensures stream == null || input.None? ==> verdict == InvalidParams
    ensures stream != null && input.Some? ==>
      verdict == VerdictOn(h, old(stream.Script()), old(stream.Peek(4)), input.value)
  {
    var ctx := new HashContext();
    if stream == null || input.None? {
      return InvalidParams;
    }
    var txin := input.value;
    ghost var now := Place([], stream.Script(), false);
    var ok, bytes := HashField(stream, ctx, 4, now);
    if !ok { return ReadStream; }
    now := Fixed(now, 4, true).value;

    // No refill happens here: at the end of a chunk the stale byte is read.
    var isSegwit := (if stream.offset < |stream.data| then stream.data[stream.offset] else stream.after) == 0;
    if isSegwit {
      ok, bytes := stream.Process(2, false);
      if !ok { return ReadStream; }
      now := Fixed(now, 2, false).value;
    }
    ghost var header := now;

    var inCount := HashCount(stream, ctx, now);
    now := AfterCount(now, true);
    ok := HashInputs(stream, ctx, inCount, now);
    if !ok { return ReadStream; }
    now := Inputs(inCount, now).value;

    var outCount := HashCount(stream, ctx, now);
    now := AfterCount(now, true);
    var found;
    ok, found := HashOutputs(stream, ctx, outCount, txin.prevOutputIndex, now);
    if !ok { return ReadStream; }
    now := Outputs(0, outCount, txin.prevOutputIndex, 0, now).value.0;

    if isSegwit {
      ok := SkipWitnesses(stream, inCount, now);
      if !ok { return ReadStream; }
      now := Witnesses(inCount, now).value;
    }

    ok, bytes := HashField(stream, ctx, 4, now);
    if !ok { return ReadStream; }
    now := Fixed(now, 4, true).value;
    assert AfterHeader(header, isSegwit, txin.prevOutputIndex) == At((now, found));

    var hash := ctx.Final(h);
    hash := h(hash);
    if hash != txin.prevTxnHash {
      return InvalidTxHash;
    }
    if found != txin.value {
      return InvalidOutputValue;
    }
    return Success;
  }
}
