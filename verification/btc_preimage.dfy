/** The preimages of signature digests, byte by byte. */
module BtcPreimages {
  import opened Bytes
  import opened BtcScript
  import opened BtcDigest
  import F = PrevTxnFormat
  import PrevTxnLayout

  // ---- What is hashed of all inputs and outputs, item by item.

  /** 36 bytes an input: transaction hash and output index. */
  lemma {:induction false} OutpointAt(inputs: seq<Input>, k: nat)
    requires k < |inputs|
    ensures |Outpoints(inputs)| == 36 * |inputs|
    ensures Outpoints(inputs)[36 * k..36 * k + 32] == inputs[k].prevHash
    ensures Outpoints(inputs)[36 * k + 32..36 * k + 36] == LE(inputs[k].prevIndex, 4)
  {
    hide LE;
    var n := |inputs| - 1;
    var front := Outpoints(inputs[..n]);
    if n == 0 {
      assert front == [];
    } else {
      OutpointAt(inputs[..n], if k < n then k else 0);
      var all := Outpoints(inputs);
      assert all[..36 * n] == front;
      if k < n {
        assert all[36 * k..36 * k + 32] == front[36 * k..36 * k + 32];
        assert all[36 * k + 32..36 * k + 36] == front[36 * k + 32..36 * k + 36];
      }
    }
  }

  /** Four bytes an input: its sequence number. */
  lemma {:induction false} SequenceAt(inputs: seq<Input>, k: nat)
    requires k < |inputs|
    ensures |Sequences(inputs)| == 4 * |inputs|
    ensures Sequences(inputs)[4 * k..4 * k + 4] == LE(inputs[k].sequence, 4)
  {
    hide LE;
    var n := |inputs| - 1;
    var front := Sequences(inputs[..n]);
    if n == 0 {
      assert front == [];
    } else {
      SequenceAt(inputs[..n], if k < n then k else 0);
      var all := Sequences(inputs);
      assert all[..4 * n] == front;
      if k < n { assert all[4 * k..4 * k + 4] == front[4 * k..4 * k + 4]; }
    }
  }

  /** An output as it stands in a transaction. */
  function AsTxOut(o: Output): F.TxOut
    requires |o.script| < U32
  {
    F.TxOut(LE(o.value, 8), F.Compact(|o.script|), o.script)
  }

  function AsTxOuts(outputs: seq<Output>): (outs: seq<F.TxOut>)
    requires forall o <- outputs :: |o.script| < U32
    ensures |outs| == |outputs| && forall k | 0 <= k < |outs| :: outs[k] == AsTxOut(outputs[k])
  {
    seq(|outputs|, k requires 0 <= k < |outputs| => AsTxOut(outputs[k]))
  }

  lemma {:induction false} OutputsAsFormat(outputs: seq<Output>)
    requires forall o <- outputs :: |o.script| < U32
    ensures OutputsBytes(outputs) == F.OutsBytes(AsTxOuts(outputs))
  {
    hide LE, F.Compact, OutputBytes, F.OutsBytes;
    if outputs == [] {
      PrevTxnLayout.OutputsLaidOut([], F.TxOut([], [], []));
    } else {
      var n := |outputs| - 1;
      OutputsAsFormat(outputs[..n]);
      OneMoreOutput(outputs, n);
      assert outputs[..n + 1] == outputs;
      assert AsTxOuts(outputs) == AsTxOuts(outputs[..n]) + [AsTxOut(outputs[n])];
      PrevTxnLayout.OutputsLaidOut(AsTxOuts(outputs[..n]), AsTxOut(outputs[n]));
      OutputAsFormat(OutputsBytes(outputs[..n]), outputs[n]);
    }
  }

  lemma OutputAsFormat(before: seq<byte>, o: Output)
    requires |o.script| < U32
    ensures before + OutputBytes(o) == before + LE(o.value, 8) + F.Compact(|o.script|) + o.script
  {
    hide LE, F.Compact;
  }

  // ---- BIP-143.

  /** The digest of a P2WPKH input hashes 182 bytes twice. */
  lemma SegwitPreimage(h: Hash, t: Tx, k: nat) returns (b: seq<byte>, outs: seq<F.TxOut>)
    requires Fits(t) && k < |t.inputs| && |t.inputs[k].script| == 22 && t.inputs[k].script[..2] == [0, 0x14]
    ensures SighashOf(h, t, k) == Some(h(h(b))) && |b| == 182
    ensures b[..4] == LE(t.meta.version, 4)
    ensures b[4..36] == h(h(Outpoints(t.inputs))) && b[36..68] == h(h(Sequences(t.inputs)))
    ensures b[68..100] == t.inputs[k].prevHash && b[100..104] == LE(t.inputs[k].prevIndex, 4)
    ensures b[104..108] == [0x19, 0x76, 0xa9, 0x14] && b[108..128] == t.inputs[k].script[2..]
    ensures b[128..130] == [0x88, 0xac]
    ensures b[130..138] == LE(t.inputs[k].value, 8) && b[138..142] == LE(t.inputs[k].sequence, 4)
    ensures b[142..174] == h(h(F.OutsBytes(outs))) && |outs| == |t.outputs|
    ensures forall j | 0 <= j < |outs| :: var o := t.outputs[j];
      outs[j].value == LE(o.value, 8) && F.Counts(outs[j].length, |o.script|) && outs[j].script == o.script
    ensures b[174..178] == LE(t.meta.lockTime, 4) && b[178..] == LE(t.meta.sighash, 4)
  {
    hide LE, Outpoints, Sequences, OutputsBytes, F.OutsBytes, F.Compact;
    TypesOnBytes(t.inputs[k].script);
    IsWitnessKeyHash(t.inputs[k].script);
    OutputsAsFormat(t.outputs);
    b, outs := Bip143(h, t, k), AsTxOuts(t.outputs);
    ScriptCode(t.inputs[k].script);
    ScriptsOnBytes(t.inputs[k].script[2..]);
  }

  lemma IsWitnessKeyHash(s: seq<byte>)
    requires |s| == 22 && s[..2] == [0, 0x14]
    ensures IsP2wpkh(s)
  {
  }

  lemma ScriptCode(script: seq<byte>)
    requires |script| == 22
    ensures Sized(P2pkhScript(script[2..])) == [25] + P2pkhScript(script[2..])
  {
  }

  /** Scripts of other types have no digest. */
  lemma OtherTypesHaveNone(h: Hash, t: Tx, k: nat)
    requires Fits(t) && k < |t.inputs|
    ensures SighashOf(h, t, k).None? <==> TypeOf(t.inputs[k].script) !in {P2WPKH, P2PKH}
  {
    hide Bip143, Legacy;
  }

  /** The cache holds each list hashed twice. */
  lemma CacheHolds(h: Hash, t: Tx)
    requires Fits(t)
    ensures var c := CacheOf(h, t);
      && c.filled && c.prevouts == h(h(Outpoints(t.inputs))) && c.sequences == h(h(Sequences(t.inputs)))
      && c.outputs == h(h(F.OutsBytes(AsTxOuts(t.outputs))))
  {
    hide Outpoints, Sequences, OutputsBytes, F.OutsBytes;
    OutputsAsFormat(t.outputs);
  }

  // ---- The legacy form.

  function AsTxIn(i: Input, signed: bool): F.TxIn
    requires |i.script| < U32
  {
    var script := if signed then i.script else [];
    F.TxIn(i.prevHash + LE(i.prevIndex, 4), F.Compact(|script|), script, LE(i.sequence, 4))
  }

  function AsTxIns(inputs: seq<Input>, k: nat): (ins: seq<F.TxIn>)
    requires forall i <- inputs :: |i.script| < U32
    ensures |ins| == |inputs| && forall j | 0 <= j < |ins| :: ins[j] == AsTxIn(inputs[j], j == k)
  {
    seq(|inputs|, j requires 0 <= j < |inputs| => AsTxIn(inputs[j], j == k))
  }

  lemma {:induction false} InputsAsFormat(inputs: seq<Input>, k: nat)
    requires forall i <- inputs :: |i.script| < U32
    ensures LegacyInputs(inputs, k) == F.InsBytes(AsTxIns(inputs, k))
  {
    hide LE, F.Compact, LegacyInput, F.InsBytes;
    if inputs == [] {
      PrevTxnLayout.InputsLaidOut([], F.TxIn([], [], [], []));
    } else {
      var n := |inputs| - 1;
      InputsAsFormat(inputs[..n], k);
      assert AsTxIns(inputs, k) == AsTxIns(inputs[..n], k) + [AsTxIn(inputs[n], n == k)];
      PrevTxnLayout.InputsLaidOut(AsTxIns(inputs[..n], k), AsTxIn(inputs[n], n == k));
      InputAsFormat(LegacyInputs(inputs[..n], k), inputs[n], n == k);
    }
  }

  lemma InputAsFormat(before: seq<byte>, i: Input, signed: bool)
    requires |i.script| < U32
    ensures var script := if signed then i.script else [];
      before + LegacyInput(i, signed)
      == before + (i.prevHash + LE(i.prevIndex, 4)) + F.Compact(|script|) + script + LE(i.sequence, 4)
  {
    hide LE, F.Compact;
  }

  /** The digest of a P2PKH input hashes a transaction in wire format and the four bytes of the
      signature hash type twice: all scripts but its own are empty. */
  lemma LegacyPreimage(h: Hash, t: Tx, k: nat) returns (p: F.Tx)
    requires Fits(t) && k < |t.inputs| && TypeOf(t.inputs[k].script) == P2PKH
    ensures SighashOf(h, t, k) == Some(h(h(F.NonWitness(p) + LE(t.meta.sighash, 4))))
    ensures F.ValidBody(p) && p.flag.None? && p.version == LE(t.meta.version, 4) && p.lockTime == LE(t.meta.lockTime, 4)
    ensures |p.ins| == |t.inputs| && |p.outs| == |t.outputs|
    ensures forall j | 0 <= j < |p.ins| :: var i := t.inputs[j];
      && p.ins[j].outpoint == i.prevHash + LE(i.prevIndex, 4) && p.ins[j].sequence == LE(i.sequence, 4)
      && p.ins[j].script == (if j == k then i.script else [])
    ensures forall j | 0 <= j < |p.outs| ::
      p.outs[j].value == LE(t.outputs[j].value, 8) && p.outs[j].script == t.outputs[j].script
  {
    hide LE, F.Compact, F.InsBytes, F.OutsBytes, LegacyInputs, OutputsBytes, TypeOf, Bip143;
    p := F.Tx(LE(t.meta.version, 4), None, F.Compact(|t.inputs|), AsTxIns(t.inputs, k), F.Compact(|t.outputs|),
              AsTxOuts(t.outputs), [], LE(t.meta.lockTime, 4));
    InputsAsFormat(t.inputs, k);
    OutputsAsFormat(t.outputs);
    LegacyJoined(t, k, p);
    PrevTxnLayout.WellFormedParts(p);
  }

  lemma LegacyJoined(t: Tx, k: nat, p: F.Tx)
    requires Fits(t) && p.version == LE(t.meta.version, 4) && p.lockTime == LE(t.meta.lockTime, 4)
    requires p.inCount == F.Compact(|t.inputs|) && p.outCount == F.Compact(|t.outputs|)
    requires F.InsBytes(p.ins) == LegacyInputs(t.inputs, k) && F.OutsBytes(p.outs) == OutputsBytes(t.outputs)
    ensures Legacy(t, k) == F.NonWitness(p) + LE(t.meta.sighash, 4)
  {
    hide LE, F.Compact, F.InsBytes, F.OutsBytes, LegacyInputs, OutputsBytes;
  }
}
