/** What is known once signatures exist, in terms of paths, scripts, addresses and bytes. */
module BtcAuthorized {
  import opened Bytes
  import opened BtcScript
  import opened BtcDigest
  import opened BtcPreimages
  import opened BtcSigning
  import F = PrevTxnFormat
  import V = PrevTxnValidator
  import X = Exchange
  import XR = ExchangeRuns

  // ---- What may be signed at all.

  /** At most 200 inputs and outputs together, none of them missing, SIGHASH_ALL. */
  lemma MetaLimits(m: HostMeta)
    ensures MetaAccepted(m) <==>
      m.meta.sighash == 1 && m.inputCount >= 1 && m.outputCount >= 1 && m.inputCount + m.outputCount <= 200
  {
  }

  /** Only the outputs that can be shown with an address, and empty data carriers. */
  lemma OutputKinds(env: Env, o: Output)
    ensures OutputAccepted(o) <==>
      match TypeOf(o.script)
      case NonStandard => false
      case P2PK => false
      case P2MS => false
      case NullData => o.value == 0
      case _ => true
    ensures TypeOf(o.script) in {NonStandard, P2PK, P2MS, NullData} ==> AddressOf(env, o.script).None?
    ensures TypeOf(o.script) !in {NonStandard, P2PK, P2MS, NullData} ==>
      AddressOf(env, o.script) == env.encode(o.script)
    ensures HasAddress(env, o) <==> o.isChange || AddressOf(env, o.script) != None
  {
    hide TypeOf;
  }

  /** No signature without a proper initiation, the seed, the send's turn in a swap if there is one, inputs
      of the three spendable kinds with a validated previous transaction, and a yes to every page. */
  lemma SigningNeeds(env: Env, x: X.Env, s: X.State, i: Initiation, m: HostMeta, ins: seq<Option<HostInput>>,
                     outs: seq<Option<Output>>)
    requires |s.shared| == 256 && MaySign(env, x, s, i, m, ins, outs)
    ensures i.proper && env.seed && (s.queue == [] || s.queue[0] == X.Task(i.applet, i.wallet + [4] + Zeros(95)))
    ensures m.inputCount <= |ins| && m.outputCount <= |outs|
    ensures forall k | 0 <= k < m.inputCount ::
      && ins[k].Some? && TypeOf(ins[k].value.input.script) in {P2PKH, P2SH, P2WPKH}
      && var hi := ins[k].value;
         V.VerdictOn(env.h, StreamOf(hi), Peeked(hi),
                     V.TxnInput(hi.input.prevHash, hi.input.prevIndex, hi.input.value)) == V.Success
    ensures forall k | 0 <= k < m.outputCount :: outs[k].Some? && OutputAccepted(outs[k].value)
    ensures exists k :: 0 <= k < m.outputCount && outs[k].value.value > 0
    ensures var pages := Pages(env, HostTx(env, m, ins, outs));
      forall n | 0 <= n < |pages| :: env.user(pages[..n], pages[n])
  {
    hide V.VerdictOn, TypeOf, Pages, Pass, OutputAccepted, StreamOf, Peeked;
    forall k | 0 <= k < m.inputCount
      ensures ins[k].Some? && TypeOf(ins[k].value.input.script) in {P2PKH, P2SH, P2WPKH}
      ensures var hi := ins[k].value;
        V.VerdictOn(env.h, StreamOf(hi), Peeked(hi),
                    V.TxnInput(hi.input.prevHash, hi.input.prevIndex, hi.input.value)) == V.Success
    {
      InputNeeds(env, ins[k].value);
    }
  }

  lemma InputNeeds(env: Env, hi: HostInput)
    requires InputAccepted(env, hi)
    ensures TypeOf(hi.input.script) in {P2PKH, P2SH, P2WPKH}
    ensures V.VerdictOn(env.h, StreamOf(hi), Peeked(hi),
                        V.TxnInput(hi.input.prevHash, hi.input.prevIndex, hi.input.value)) == V.Success
  {
    hide V.VerdictOn, TypeOf, StreamOf;
  }

  // ---- What was shown.

  /** Every output: the user accepted a page with its address and one with its value, or it is change
      and its script pays the wallet's change key in one of three ways. */
  lemma OutputIsAccountedFor(env: Env, host: seq<Option<HostInput>>, t: Tx, confirmed: seq<Screen>,
                             signatures: seq<seq<byte>>, k: nat)
    requires Authorized(env, host, t, confirmed, signatures) && k < |t.outputs|
    ensures var o := t.outputs[k];
      || (exists a: string ::
            env.encode(o.script) == Some(a) && Receiver(k, a) in confirmed && Value(k, o.value) in confirmed)
      || (o.isChange && o.changesIndex.Some? &&
          var key := env.key((1, o.changesIndex.value));
          || o.script == [0x76, 0xa9, 0x14] + env.h160(key) + [0x88, 0xac]
          || o.script == [0, 0x14] + env.h160(key)
          || o.script == [0xa9, 0x14] + env.h160([0, 0x14] + env.h160(key)) + [0x87])
    ensures t.outputs[k].isChange ==> forall j | 0 <= j < |t.outputs| && j != k :: !t.outputs[j].isChange
    ensures forall i | 0 <= i < |confirmed| :: env.user(confirmed[..i], confirmed[i])
  {
    hide InputAccepted, SignatureIsOver, Fits, FeeOf, TypeOf;
    var o := t.outputs[k];
    if Shown(env, t, confirmed, k) {
      assert env.encode(o.script) == Some(AddressOf(env, o.script).value);
    } else {
      var key := env.key((1, o.changesIndex.value));
      ScriptsOnBytes(env.h160(key));
      ScriptsOnBytes(env.h160([0, 0x14] + env.h160(key)));
    }
  }

  // ---- What was signed.

  /** The signature of input k is made with the key of the input's own path, over the digest of the
      transaction in which its script, if it is P2SH, is replaced by P2WPKH of that key. */
  lemma SignatureInFull(env: Env, t: Tx, k: nat, signature: seq<byte>)
    requires Fits(t) && k < |t.inputs|
    ensures SignatureIsOver(env, t, k, signature) <==>
      var i := t.inputs[k];
      var path := (i.changeIndex, i.addressIndex);
      var script := if TypeOf(i.script) == P2SH then [0, 0x14] + env.h160(env.key(path)) else i.script;
      var u := t.(inputs := t.inputs[k := i.(script := script)]);
      Fits(u) && SighashOf(env.h, u, k).Some? && signature == env.scriptSig(path, SighashOf(env.h, u, k).value)
  {
    hide TypeOf, SighashOf, Fits;
    var i := t.inputs[k];
    assert i.(script := i.script) == i && t.inputs[k := i] == t.inputs;
    ScriptsOnBytes(env.h160(env.key((i.changeIndex, i.addressIndex))));
  }

  /** The bytes that are hashed twice and signed for an input that pays to a witness key hash, plain or
      nested in P2SH. */
  lemma SignedSegwitBytes(env: Env, t: Tx, k: nat, signature: seq<byte>)
    returns (keyHash: seq<byte>, b: seq<byte>, outs: seq<F.TxOut>)
    requires Fits(t) && k < |t.inputs| && SignatureIsOver(env, t, k, signature)
    requires TypeOf(t.inputs[k].script) in {P2WPKH, P2SH}
    ensures var i := t.inputs[k];
      && signature == env.scriptSig((i.changeIndex, i.addressIndex), env.h(env.h(b))) && |b| == 182
      && keyHash == (if TypeOf(i.script) == P2WPKH then i.script[2..]
                     else env.h160(env.key((i.changeIndex, i.addressIndex))))
      && b[68..100] == i.prevHash && b[100..104] == LE(i.prevIndex, 4)
      && b[104..130] == [0x19, 0x76, 0xa9, 0x14] + keyHash + [0x88, 0xac]
      && b[130..138] == LE(i.value, 8) && b[138..142] == LE(i.sequence, 4)
    ensures b[..4] == LE(t.meta.version, 4) && b[174..178] == LE(t.meta.lockTime, 4)
    ensures b[178..] == LE(t.meta.sighash, 4)
    ensures b[4..36] == env.h(env.h(Outpoints(t.inputs))) && b[36..68] == env.h(env.h(Sequences(t.inputs)))
    ensures b[142..174] == env.h(env.h(F.OutsBytes(outs))) && |outs| == |t.outputs|
    ensures forall j | 0 <= j < |outs| :: var o := t.outputs[j];
      outs[j].value == LE(o.value, 8) && F.Counts(outs[j].length, |o.script|) && outs[j].script == o.script
  {
    hide TypeOf, SighashOf, Fits, LE, Outpoints, Sequences, F.OutsBytes, F.Counts, Outpoint;
    SignatureInFull(env, t, k, signature);
    var i := t.inputs[k];
    var path := (i.changeIndex, i.addressIndex);
    TypesOnBytes(i.script);
    var script := if TypeOf(i.script) == P2SH then [0, 0x14] + env.h160(env.key(path)) else i.script;
    var u := t.(inputs := t.inputs[k := i.(script := script)]);
    assert script[..2] == [0, 0x14] && |script| == 22;
    b, outs := SegwitPreimage(env.h, u, k);
    keyHash := script[2..];
    assert b[104..130] == b[104..108] + b[108..128] + b[128..130];
    SameOutpoints(t.inputs, u.inputs);
  }

  lemma SameOutpoints(a: seq<Input>, b: seq<Input>)
    requires |a| == |b| && forall j | 0 <= j < |a| :: a[j] == b[j].(script := a[j].script)
    ensures Outpoints(a) == Outpoints(b) && Sequences(a) == Sequences(b)
  {
    hide LE;
    CacheIgnoresScripts(a, b);
  }

  /** And for an input that pays to a key hash: a transaction in wire format and the hash type. */
  lemma SignedLegacyBytes(env: Env, t: Tx, k: nat, signature: seq<byte>) returns (p: F.Tx)
    requires Fits(t) && k < |t.inputs| && SignatureIsOver(env, t, k, signature) && TypeOf(t.inputs[k].script) == P2PKH
    ensures var i := t.inputs[k];
      signature == env.scriptSig((i.changeIndex, i.addressIndex),
                                 env.h(env.h(F.NonWitness(p) + LE(t.meta.sighash, 4))))
    ensures F.ValidBody(p) && p.flag.None? && p.version == LE(t.meta.version, 4) && p.lockTime == LE(t.meta.lockTime, 4)
    ensures |p.ins| == |t.inputs| && |p.outs| == |t.outputs|
    ensures forall j | 0 <= j < |p.ins| :: var i := t.inputs[j];
      && p.ins[j].outpoint == i.prevHash + LE(i.prevIndex, 4) && p.ins[j].sequence == LE(i.sequence, 4)
      && p.ins[j].script == (if j == k then i.script else [])
    ensures forall j | 0 <= j < |p.outs| ::
      p.outs[j].value == LE(t.outputs[j].value, 8) && p.outs[j].script == t.outputs[j].script
  {
    hide TypeOf, SighashOf, Fits, LE, F.ValidBody, F.NonWitness;
    SignatureInFull(env, t, k, signature);
    var i := t.inputs[k];
    assert i.(script := i.script) == i && t.inputs[k := i] == t.inputs;
    p := LegacyPreimage(env.h, t, k);
  }

  /** One signature for each proper request, in order, until the first improper one or the last signature. */
  lemma SentInFull(signatures: seq<seq<byte>>, requests: seq<bool>, sent: seq<seq<byte>>)
    ensures Answered(signatures, requests, sent) <==>
      exists n: nat :: n <= |signatures| && n <= |requests| && sent == signatures[..n]
        && (forall i | 0 <= i < n :: requests[i]) && (n == |signatures| || n == |requests| || !requests[n])
  {
    if Answered(signatures, requests, sent) {
      assert sent == signatures[..|sent|];
    }
  }

  // ---- What was checked in a swap.

  /** The first output that is not declared as change. */
  predicate IsFirstShown(t: Tx, k: nat) {
    k < |t.outputs| && !t.outputs[k].isChange && forall j | 0 <= j < k :: t.outputs[j].isChange
  }

  lemma {:induction false} FirstReceiver(env: Env, t: Tx, k: nat, n: nat)
    requires IsFirstShown(t, k) && k < n <= |t.outputs|
    ensures Receivers(env, t, n) != [] && Receivers(env, t, n)[0] == AddressBytes(AddressText(env, t.outputs[k].script))
    decreases n
  {
    hide AddressBytes, AddressText;
    if k < n - 1 { FirstReceiver(env, t, k, n - 1); } else { NoReceivers(env, t, k); }
  }

  lemma {:induction false} NoReceivers(env: Env, t: Tx, n: nat)
    requires n <= |t.outputs| && forall j | 0 <= j < n :: t.outputs[j].isChange
    ensures Receivers(env, t, n) == []
  {
    if n > 0 { NoReceivers(env, t, n - 1); }
  }

  /** In a swap, signatures exist only if the server's signature that was stored in this swap is over
      the address of the first output that is not change. */
  lemma SwapPaysTheCheckedAddress(env: Env, x: X.Env, run: seq<X.Command>, i: Initiation, m: HostMeta,
                                  ins: seq<Option<HostInput>>, outs: seq<Option<Output>>, k: nat)
    returns (start: nat, l: nat, address: string, bytes: seq<byte>)
    requires |XR.After(x, run).shared| == 256 && XR.After(x, run).queue != []
    requires MaySign(env, x, XR.After(x, run), i, m, ins, outs) && IsFirstShown(HostTx(env, m, ins, outs), k)
    ensures start < l < |run| && run[l].StoreSignature? && run[l].wanted && run[l].applet == 24
    ensures run[start].Initiate? && run[start].wanted
    ensures run[start].swap.fromApplet == i.applet && run[start].swap.fromWallet == i.wallet
    ensures env.encode(HostTx(env, m, ins, outs).outputs[k].script) == Some(address)
    ensures |bytes| == |address| && forall c | 0 <= c < |bytes| :: bytes[c] == address[c] as int % 256
    ensures x.verify(run[l].signature, x.h(bytes))
  {
    hide Fetched, UserAgrees, ChangesAreOwn, TypeOf, Receivers, AddressText, AddressBytes;
    var t := HostTx(env, m, ins, outs);
    var receivers := Receivers(env, t, |t.outputs|);
    FirstReceiver(env, t, k, |t.outputs|);
    address := AddressOfShown(env, t, k);
    bytes := receivers[0];
    var send := X.Send(i.applet, i.wallet, receivers);
    assert (run + [send])[..|run|] == run;
    SwapSendPasses(env, x, XR.After(x, run), i, receivers);
    var b, c;
    start, b, c, l := XR.CheckedSendEndsASwap(x, run + [send]);
  }

  /** The first output that is not change is checked against the stored signature, every later one
      against 64 zeros. */
  predicate AddressPasses(env: Env, t: Tx, x: X.Env, shared: seq<byte>, k: nat)
    requires k < |t.outputs| && |shared| == 256
  {
    t.outputs[k].isChange ||
    x.verify(if IsFirstShown(t, k) then shared[..64] else Zeros(64),
             x.h(AddressBytes(AddressText(env, t.outputs[k].script))))
  }

  /** What the receivers' checks are in all. */
  lemma {:induction false} ReceiversInFull(env: Env, t: Tx, x: X.Env, shared: seq<byte>, n: nat)
    requires n <= |t.outputs| && |shared| == 256
    ensures Pass(x, shared, Receivers(env, t, n)) <==> forall k | 0 <= k < n :: AddressPasses(env, t, x, shared, k)
  {
    hide Pass, AddressPasses, Receivers;
    if n == 0 {
      NoReceivers(env, t, 0);
      NothingChecked(x, shared);
    } else {
      ReceiversInFull(env, t, x, shared, n - 1);
      LastReceiver(env, t, x, shared, n - 1);
    }
  }

  lemma LastReceiver(env: Env, t: Tx, x: X.Env, shared: seq<byte>, n: nat)
    requires n < |t.outputs| && |shared| == 256
    ensures Pass(x, shared, Receivers(env, t, n + 1)) <==>
      Pass(x, shared, Receivers(env, t, n)) && AddressPasses(env, t, x, shared, n)
  {
    hide Pass, AddressBytes, AddressText, Receivers;
    BtcSigning.OneMoreOutput(env, t, n);
    if !t.outputs[n].isChange {
      if IsFirstShown(t, n) { NoReceivers(env, t, n); } else { SomeReceiver(env, t, n); }
      PassStep(x, shared, Receivers(env, t, n), AddressBytes(AddressText(env, t.outputs[n].script)));
    }
  }

  lemma SomeReceiver(env: Env, t: Tx, n: nat)
    requires n < |t.outputs| && !t.outputs[n].isChange && !IsFirstShown(t, n)
    ensures Receivers(env, t, n) != []
  {
    var j :| 0 <= j < n && !t.outputs[j].isChange;
    ShownHasReceiver(env, t, j, n);
  }

  lemma {:induction false} ShownHasReceiver(env: Env, t: Tx, j: nat, n: nat)
    requires j < n <= |t.outputs| && !t.outputs[j].isChange
    ensures Receivers(env, t, n) != []
  {
    if j < n - 1 { ShownHasReceiver(env, t, j, n - 1); }
  }

  lemma PassStep(x: X.Env, shared: seq<byte>, done: seq<seq<byte>>, receiver: seq<byte>)
    requires |shared| == 256
    ensures Pass(x, shared, done + [receiver]) <==>
      Pass(x, shared, done) && x.verify(if done == [] then shared[..64] else Zeros(64), x.h(receiver))
  {
    assert Zeros(X.CONTEXT_SIZE)[..64] == Zeros(64);
    var all := done + [receiver];
    assert all[|done|] == receiver;
    if Pass(x, shared, all) {
      forall i | 0 <= i < |done|
        ensures X.CheckPasses(x, if i == 0 then shared else Zeros(X.CONTEXT_SIZE), done[i])
      {
        assert all[i] == done[i];
      }
    }
  }

  lemma SwapSendPasses(env: Env, x: X.Env, s: X.State, i: Initiation, receivers: seq<seq<byte>>)
    requires |s.shared| == 256 && s.queue != [] && X.Validate(s.queue, SendTask(i)) != X.Reset
    requires X.Validate(s.queue, SendTask(i)) == X.Matched ==> Pass(x, s.shared, receivers)
    ensures X.IsNext(s, X.Send(i.applet, i.wallet, receivers))
    ensures X.SendPasses(x, s, i.applet, i.wallet, receivers)
  {
  }

  lemma AddressOfShown(env: Env, t: Tx, k: nat) returns (address: string)
    requires UserAgrees(env, t) && k < |t.outputs| && !t.outputs[k].isChange
    ensures env.encode(t.outputs[k].script) == Some(address)
    ensures var bytes := AddressBytes(AddressText(env, t.outputs[k].script));
      |bytes| == |address| && forall c | 0 <= c < |bytes| :: bytes[c] == address[c] as int % 256
  {
    hide TypeOf, Pages, AllAccepted;
    assert HasAddress(env, t.outputs[k]);
    address := AddressOf(env, t.outputs[k].script).value;
  }
}
