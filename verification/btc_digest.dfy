/** Signature digests of Bitcoin inputs (apps/btc_family/btc_txn_helpers.c). */
module BtcDigest {
  import opened Bytes
  import opened HashContexts
  import opened BtcScript
  import PrevTxnFormat

  const MAX_COUNT := 200
  const MAX_SCRIPT := 67

  datatype Input = Input(prevHash: Digest, prevIndex: nat, value: nat, script: seq<byte>, sequence: nat,
                         changeIndex: nat, addressIndex: nat)
  datatype Output = Output(value: nat, script: seq<byte>, isChange: bool, changesIndex: Option<nat>)
  datatype Meta = Meta(version: nat, lockTime: nat, sighash: nat)

  /** What is signed: the metadata, the inputs and the outputs. */
  datatype Tx = Tx(meta: Meta, inputs: seq<Input>, outputs: seq<Output>)

  /** The limits of fetch_transaction_meta and of the message fields. */
  predicate Fits(t: Tx) {
    && |t.inputs| <= MAX_COUNT && |t.outputs| <= MAX_COUNT
    && (forall i <- t.inputs :: |i.script| <= MAX_SCRIPT) && (forall o <- t.outputs :: |o.script| <= MAX_SCRIPT)
  }

  datatype Cache = Cache(filled: bool, prevouts: Digest, sequences: Digest, outputs: Digest)

  function Sha256d(h: Hash, b: seq<byte>): Digest { h(h(b)) }

  // ---- The preimages of the specifications.

  function Outpoint(i: Input): seq<byte> { i.prevHash + LE(i.prevIndex, 4) }

  function Outpoints(inputs: seq<Input>): seq<byte> {
    if inputs == [] then [] else Outpoints(inputs[..|inputs| - 1]) + Outpoint(inputs[|inputs| - 1])
  }

  function Sequences(inputs: seq<Input>): seq<byte> {
    if inputs == [] then [] else Sequences(inputs[..|inputs| - 1]) + LE(inputs[|inputs| - 1].sequence, 4)
  }

  /** A script with its CompactSize length. */
  function Sized(script: seq<byte>): seq<byte>
    requires |script| < U32
  {
    PrevTxnFormat.Compact(|script|) + script
  }

  function OutputBytes(o: Output): seq<byte>
    requires |o.script| < U32
  {
    LE(o.value, 8) + Sized(o.script)
  }

  function OutputsBytes(outputs: seq<Output>): seq<byte>
    requires forall o <- outputs :: |o.script| < U32
  {
    if outputs == [] then []
    else OutputsBytes(outputs[..|outputs| - 1]) + OutputBytes(outputs[|outputs| - 1])
  }

  function CacheOf(h: Hash, t: Tx): (c: Cache)
    requires Fits(t)
    ensures c.filled
  {
    Cache(true, Sha256d(h, Outpoints(t.inputs)), Sha256d(h, Sequences(t.inputs)), Sha256d(h, OutputsBytes(t.outputs)))
  }

  /** "Specification" of BIP-143 for SIGHASH_ALL; the scriptCode of P2WPKH is the P2PKH script of its
      key hash. */
  function Bip143(h: Hash, t: Tx, k: nat): seq<byte>
    requires Fits(t) && k < |t.inputs| && IsP2wpkh(t.inputs[k].script)
  {
    var i := t.inputs[k];
    LE(t.meta.version, 4) + Sha256d(h, Outpoints(t.inputs)) + Sha256d(h, Sequences(t.inputs)) + Outpoint(i)
    + Sized(P2pkhScript(i.script[2..])) + LE(i.value, 8) + LE(i.sequence, 4)
    + Sha256d(h, OutputsBytes(t.outputs)) + LE(t.meta.lockTime, 4) + LE(t.meta.sighash, 4)
  }

  /** The same preimage with the three hashes taken from a cache. */
  function WithCache(t: Tx, c: Cache, k: nat): seq<byte>
    requires k < |t.inputs| && IsP2wpkh(t.inputs[k].script)
  {
    var i := t.inputs[k];
    LE(t.meta.version, 4) + c.prevouts + c.sequences + Outpoint(i)
    + Sized(P2pkhScript(i.script[2..])) + LE(i.value, 8) + LE(i.sequence, 4)
    + c.outputs + (LE(t.meta.lockTime, 4) + LE(t.meta.sighash, 4))
  }

  lemma CacheGivesBip143(h: Hash, t: Tx, k: nat)
    requires Fits(t) && k < |t.inputs| && IsP2wpkh(t.inputs[k].script)
    ensures WithCache(t, CacheOf(h, t), k) == Bip143(h, t, k)
  {
    hide LE, Outpoints, Sequences, OutputsBytes, Outpoint, Sized;
  }

  /** An input of the legacy SIGHASH_ALL serialization: all scripts but the signed one are blank. */
  function LegacyInput(i: Input, signed: bool): seq<byte>
    requires |i.script| < U32
  {
    Outpoint(i) + Sized(if signed then i.script else []) + LE(i.sequence, 4)
  }

  function LegacyInputs(inputs: seq<Input>, k: nat): seq<byte>
    requires forall i <- inputs :: |i.script| < U32
  {
    if inputs == [] then []
    else
      var n := |inputs| - 1;
      LegacyInputs(inputs[..n], k) + LegacyInput(inputs[n], n == k)
  }

  function Legacy(t: Tx, k: nat): seq<byte>
    requires Fits(t)
  {
    LE(t.meta.version, 4) + PrevTxnFormat.Compact(|t.inputs|) + LegacyInputs(t.inputs, k)
    + PrevTxnFormat.Compact(|t.outputs|) + OutputsBytes(t.outputs) + LE(t.meta.lockTime, 4) + LE(t.meta.sighash, 4)
  }

  /** The digest that input k's signature is made over, when its script is one the device can sign. */
  function SighashOf(h: Hash, t: Tx, k: nat): Option<Digest>
    requires Fits(t) && k < |t.inputs|
  {
    var ty := TypeOf(t.inputs[k].script);
    if ty == P2WPKH then Some(Sha256d(h, Bip143(h, t, k)))
    else if ty == P2PKH then Some(Sha256d(h, Legacy(t, k)))
    else None
  }

  /** Only the outpoints, the sequences and the outputs enter the cache. */
  lemma {:induction false} CacheIgnoresScripts(a: seq<Input>, b: seq<Input>)
    requires |a| == |b|
    requires forall k | 0 <= k < |a| :: Outpoint(a[k]) == Outpoint(b[k]) && a[k].sequence == b[k].sequence
    ensures Outpoints(a) == Outpoints(b) && Sequences(a) == Sequences(b)
  {
    if a != [] {
      CacheIgnoresScripts(a[..|a| - 1], b[..|b| - 1]);
    }
  }

  lemma ThreeParts(before: seq<byte>, o: Output)
    requires |o.script| <= MAX_SCRIPT
    ensures before + LE(o.value, 8) + [|o.script|] + o.script == before + OutputBytes(o)
  {
    hide LE;
  }

  lemma OneMoreOutput(outputs: seq<Output>, k: nat)
    requires k < |outputs| && forall o <- outputs :: |o.script| < U32
    ensures OutputsBytes(outputs[..k + 1]) == OutputsBytes(outputs[..k]) + OutputBytes(outputs[k])
  {
    hide OutputBytes;
    assert outputs[..k + 1][..k] == outputs[..k];
  }

  lemma NoOutputs()
    ensures OutputsBytes([]) == []
  {
  }

  // ---- The transaction context.

  class TxnContext {
    var tx: Tx
    var cache: Cache

    constructor (tx: Tx)
      ensures this.tx == tx && !cache.filled
    {
      this.tx := tx;
      cache := Cache(false, Zeros(32), Zeros(32), Zeros(32));
    }

    /** digest_outputs. */
    method DigestOutputs(ctx: HashContext)
      requires Fits(tx)
      modifies ctx
      ensures ctx.absorbed == old(ctx.absorbed) + OutputsBytes(tx.outputs)
    {
      hide LE, OutputBytes, OutputsBytes;
      assert OutputsBytes([]) == [] by { NoOutputs(); }
      var outs := tx.outputs;
      for k := 0 to |outs|
        invariant tx == old(tx)
        invariant ctx.absorbed == old(ctx.absorbed) + OutputsBytes(outs[..k])
      {
        ghost var before := ctx.absorbed;
        ctx.Update(LE(outs[k].value, 8));
        ctx.Update([|outs[k].script|]);
        ctx.Update(outs[k].script);
        assert ctx.absorbed == before + OutputBytes(outs[k]) by { ThreeParts(before, outs[k]); }
        OneMoreOutput(outs, k);
      }
      assert outs[..|outs|] == outs;
    }

    method HashOutpoints(ctx: HashContext)
      requires ctx.absorbed == []
      modifies ctx
      ensures ctx.absorbed == Outpoints(tx.inputs)
    {
      hide LE;
      var ins := tx.inputs;
      for k := 0 to |ins|
        invariant tx == old(tx) && ctx.absorbed == Outpoints(ins[..k])
      {
        ctx.Update(ins[k].prevHash);
        ctx.Update(LE(ins[k].prevIndex, 4));
        assert ins[..k + 1][..k] == ins[..k];
      }
      assert ins[..|ins|] == ins;
    }

    method HashSequences(ctx: HashContext)
      requires ctx.absorbed == []
      modifies ctx
      ensures ctx.absorbed == Sequences(tx.inputs)
    {
      hide LE;
      var ins := tx.inputs;
      for k := 0 to |ins|
        invariant tx == old(tx) && ctx.absorbed == Sequences(ins[..k])
      {
        ctx.Update(LE(ins[k].sequence, 4));
        assert ins[..k + 1][..k] == ins[..k];
      }
      assert ins[..|ins|] == ins;
    }

    /** btc_segwit_init_cache. */
    method InitCache(h: Hash)
      requires Fits(tx)
      modifies this`cache
      ensures cache == CacheOf(h, tx)
    {
      hide Outpoints, Sequences, OutputsBytes;
      var ctx := new HashContext();
      HashOutpoints(ctx);
      var once := ctx.Final(h);
      var prevouts := h(once);
      ctx.Init();
      HashSequences(ctx);
      once := ctx.Final(h);
      var sequences := h(once);
      ctx.Init();
      DigestOutputs(ctx);
      assert [] + OutputsBytes(tx.outputs) == OutputsBytes(tx.outputs);
      once := ctx.Final(h);
      cache := Cache(true, prevouts, sequences, h(once));
    }

    method HashLegacyInputs(ctx: HashContext, index: nat)
      requires Fits(tx)
      modifies ctx
      ensures ctx.absorbed == old(ctx.absorbed) + LegacyInputs(tx.inputs, index)
    {
      hide LegacyInput;
      var ins := tx.inputs;
      for k := 0 to |ins|
        invariant tx == old(tx) && ctx.absorbed == old(ctx.absorbed) + LegacyInputs(ins[..k], index)
      {
        HashLegacyInput(ctx, ins[k], k == index);
        assert ins[..k + 1][..k] == ins[..k];
      }
      assert ins[..|ins|] == ins;
    }

    /** calculate_p2pkh_digest. */
    method P2pkhDigest(h: Hash, index: nat) returns (digest: Digest)
      requires Fits(tx) && index < |tx.inputs|
      ensures digest == Sha256d(h, Legacy(tx, index))
    {
      hide LE, OutputsBytes, LegacyInputs;
      var ctx := new HashContext();
      ctx.Update(LE(tx.meta.version, 4) + [|tx.inputs|]);
      HashLegacyInputs(ctx, index);
      ctx.Update([|tx.outputs|]);
      DigestOutputs(ctx);
      ghost var body := ctx.absorbed;
      var tail := LE(tx.meta.lockTime, 4) + LE(tx.meta.sighash, 4);
      ctx.Update(tail);
      assert body + tail == body + LE(tx.meta.lockTime, 4) + LE(tx.meta.sighash, 4);
      assert [] + (LE(tx.meta.version, 4) + [|tx.inputs|]) == LE(tx.meta.version, 4) + [|tx.inputs|];
      var once := ctx.Final(h);
      digest := h(once);
    }

    method HashLegacyInput(ctx: HashContext, i: Input, signed: bool)
      requires |i.script| <= MAX_SCRIPT
      modifies ctx
      ensures ctx.absorbed == old(ctx.absorbed) + LegacyInput(i, signed)
    {
      hide LE;
      ctx.Update(i.prevHash);
      ctx.Update(LE(i.prevIndex, 4));
      if signed {
        ctx.Update([|i.script|]);
        ctx.Update(i.script);
      } else {
        ctx.Update([0]);
      }
      ctx.Update(LE(i.sequence, 4));
    }

    /** calculate_p2wpkh_digest; it fails on an empty cache. */
    method P2wpkhDigest(h: Hash, index: nat) returns (digest: Option<Digest>)
      requires Fits(tx) && index < |tx.inputs| && IsP2wpkh(tx.inputs[index].script)
      ensures digest.None? <==> !cache.filled
      ensures cache == CacheOf(h, tx) ==> digest == Some(Sha256d(h, Bip143(h, tx, index)))
    {
      hide LE, CacheOf, Bip143, Sized, Outpoint;
      if !cache.filled {
        return None;
      }
      var i := tx.inputs[index];
      var ctx := new HashContext();
      ctx.Update(LE(tx.meta.version, 4));
      assert ctx.absorbed == LE(tx.meta.version, 4);
      ctx.Update(cache.prevouts);
      ctx.Update(cache.sequences);
      HashOutpoint(ctx, i);
      HashScriptCode(ctx, i.script);
      ctx.Update(LE(i.value, 8));
      ctx.Update(LE(i.sequence, 4));
      ctx.Update(cache.outputs);
      ctx.Update(LE(tx.meta.lockTime, 4) + LE(tx.meta.sighash, 4));
      assert ctx.absorbed == WithCache(tx, cache, index);
      if cache == CacheOf(h, tx) { CacheGivesBip143(h, tx, index); }
      var once := ctx.Final(h);
      digest := Some(h(once));
    }

    method HashOutpoint(ctx: HashContext, i: Input)
      modifies ctx
      ensures ctx.absorbed == old(ctx.absorbed) + Outpoint(i)
    {
      ctx.Update(i.prevHash);
      ctx.Update(LE(i.prevIndex, 4));
    }

    method HashScriptCode(ctx: HashContext, script: seq<byte>)
      requires IsP2wpkh(script)
      modifies ctx
      ensures ctx.absorbed == old(ctx.absorbed) + Sized(P2pkhScript(script[2..]))
    {
      ctx.Update([|script| + 2 + 2 - 1, OP_DUP, OP_HASH160]);
      ctx.Update(script[1..]);
      ctx.Update([OP_EQUALVERIFY, OP_CHECKSIG]);
      assert script[1..] == [0x14] + script[2..];
      assert Sized(P2pkhScript(script[2..])) == [25] + P2pkhScript(script[2..]);
    }

    /** btc_digest_input. */
    method DigestInput(h: Hash, index: nat) returns (digest: Option<Digest>)
      requires Fits(tx) && index < |tx.inputs| && cache == CacheOf(h, tx)
      ensures digest == SighashOf(h, tx, index)
    {
      hide Bip143, Legacy, CacheOf, Sha256d;
      var ty := TypeOf(tx.inputs[index].script);
      if ty == P2WPKH {
        digest := P2wpkhDigest(h, index);
      } else if ty == P2PKH {
        var d := P2pkhDigest(h, index);
        digest := Some(d);
      } else {
        digest := None;
      }
    }
  }
}
