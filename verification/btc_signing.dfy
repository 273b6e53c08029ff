/** The Bitcoin signing flow (apps/btc_family/btc_txn.c): what is fetched, shown, checked and signed. */
module BtcSigning {
  import opened Bytes
  import opened ByteStreams
  import opened BtcScript
  import opened BtcDigest
  import V = PrevTxnValidator
  import PrevTxnTheorems
  import PrevTxnHosts
  import PrevTxnRefusals
  import PrevTxnAnyHost
  import X = Exchange

  /** A page the user has to accept. */
  datatype Screen =
    Receiver(output: nat, address: string) | Value(output: nat, amount: nat) | FeeTooHigh | Fee(amount: nat)

  type Path = (nat, nat)

  /** Cryptography, address encoding, the fee threshold and the user. The user answers in view of all
      pages accepted before. */
  datatype Env = Env(h: Hash, h160: Hash160, key: Path -> seq<byte>, scriptSig: (Path, Digest) -> seq<byte>,
                     encode: seq<byte> -> Option<string>, threshold: Tx -> nat,
                     user: (seq<Screen>, Screen) -> bool, seed: bool)

  /** Input message and the chunks of its previous transaction; a missing chunk is a wrong query. */
  datatype HostInput = HostInput(input: Input, data: seq<byte>, after: byte, replies: seq<Reply>)

  /** What the host sends; None stands for a query of the wrong kind. */
  datatype HostMeta = HostMeta(meta: Meta, inputCount: nat, outputCount: nat)

  /** btc_get_script_pub_address: only five kinds of script have an address at all. */
  function AddressOf(env: Env, script: seq<byte>): Option<string> {
    if TypeOf(script) in {P2PKH, P2SH, P2WPKH, P2WSH, P2TR, UnknownSegwit} then env.encode(script) else None
  }

  predicate Spendable(script: seq<byte>) {
    TypeOf(script) in {P2PKH, P2WPKH, P2SH}
  }

  // ---- Metadata, inputs and outputs.

  /** fetch_transaction_meta. */
  predicate MetaAccepted(m: HostMeta) {
    && m.meta.sighash == 1 && 0 < m.inputCount <= MAX_COUNT && 0 < m.outputCount <= MAX_COUNT
    && m.inputCount + m.outputCount <= 200
  }

  function StreamOf(i: HostInput): Script {
    if i.data == [] then [[]] else Prepend(i.data, Segments(i.replies))
  }

  function TxnInputOf(i: Input): V.TxnInput {
    V.TxnInput(i.prevHash, i.prevIndex, i.value)
  }

  /** The previous transaction the host streamed is the one the input names, and carries its value. */
  predicate InputAccepted(env: Env, i: HostInput) {
    && Spendable(i.input.script)
    && V.VerdictOn(env.h, StreamOf(i), PeekAt(i.data, i.after, 0, i.replies, 4), TxnInputOf(i.input)) == V.Success
  }

  predicate InputFits(i: Input) { |i.script| <= MAX_SCRIPT }
  predicate OutputFits(o: Output) { |o.script| <= MAX_SCRIPT }

  /** fetch_valid_input. */
  method FetchInputs(env: Env, count: nat, host: seq<Option<HostInput>>) returns (ok: bool, inputs: seq<Input>)
    requires forall x <- host :: x.Some? ==> InputFits(x.value.input)
    ensures ok <==> count <= |host| && forall k | 0 <= k < count :: host[k].Some? && InputAccepted(env, host[k].value)
    ensures ok ==> |inputs| == count && forall k | 0 <= k < count :: inputs[k] == host[k].value.input
  {
    hide InputAccepted;
    inputs := [];
    for k := 0 to count
      invariant k <= |host| && |inputs| == k
      invariant forall j | 0 <= j < k ::
        host[j].Some? && InputAccepted(env, host[j].value) && inputs[j] == host[j].value.input
    {
      if k >= |host| || host[k].None? {
        return false, [];
      }
      inputs := inputs + [host[k].value.input];
      ok := FetchInput(env, host[k].value);
      if !ok {
        return false, [];
      }
    }
    ok := true;
  }

  /** The previous transaction is streamed and validated, then the script type is looked at. */
  method FetchInput(env: Env, i: HostInput) returns (ok: bool)
    ensures ok <==> InputAccepted(env, i)
  {
    hide V.VerdictOn, TypeOf, Segments, PeekAt;
    var stream := new ByteStream(i.data, i.after, i.replies);
    assert stream.Peek(4) == PeekAt(i.data, i.after, 0, i.replies, 4);
    var verdict := V.ValidateInputs(env.h, stream, Some(TxnInputOf(i.input)));
    ok := Spendable(i.input.script) && verdict == V.Success;
  }

  /** The kinds of outputs fetch_valid_output lets pass. */
  predicate OutputAccepted(o: Output) {
    TypeOf(o.script) !in {P2MS, P2PK, NonStandard} && (TypeOf(o.script) == NullData ==> o.value == 0)
  }

  /** All are there and pass, at most one is declared as change, and not all are worth nothing. */
  predicate OutputsAccepted(count: nat, host: seq<Option<Output>>) {
    && count <= |host| && (forall k | 0 <= k < count :: host[k].Some? && OutputAccepted(host[k].value))
    && (forall j, k | 0 <= j < k < count :: !(host[j].value.isChange && host[k].value.isChange))
    && (exists k :: 0 <= k < count && host[k].value.value != 0)
  }

  /** change is the index of the declared change output, or -1. */
  predicate ChangeAt(outputs: seq<Output>, change: int) {
    -1 <= change < |outputs| && forall k | 0 <= k < |outputs| :: outputs[k].isChange <==> k == change
  }

  /** fetch_valid_output. */
  method FetchOutputs(count: nat, host: seq<Option<Output>>) returns (ok: bool, outputs: seq<Output>, change: int)
    ensures ok <==> OutputsAccepted(count, host)
    ensures ok ==> |outputs| == count && ChangeAt(outputs, change)
    ensures ok ==> forall k | 0 <= k < count :: outputs[k] == host[k].value
  {
    hide TypeOf;
    outputs, change := [], -1;
    var zeroValue, changeDetected := true, false;
    for k := 0 to count
      invariant k <= |host| && |outputs| == k && ChangeAt(outputs, change) && (changeDetected <==> change >= 0)
      invariant forall j | 0 <= j < k :: host[j].Some? && OutputAccepted(host[j].value) && outputs[j] == host[j].value
      invariant zeroValue <==> forall j | 0 <= j < k :: outputs[j].value == 0
    {
      if k >= |host| || host[k].None? {
        return false, [], -1;
      }
      var o := host[k].value;
      outputs := outputs + [o];
      if o.value != 0 {
        zeroValue := false;
      }
      var ty := TypeOf(o.script);
      assert changeDetected && o.isChange ==> host[change].value.isChange && host[k].value.isChange;
      if ty == P2MS || ty == P2PK || ty == NonStandard || (ty == NullData && o.value != 0)
        || (changeDetected && o.isChange)
      {
        return false, [], -1;
      }
      if o.isChange {
        changeDetected, change := true, k;
      }
    }
    ok := !zeroValue;
  }

  // ---- The fee.

  function Sum(values: seq<nat>): nat {
    if values == [] then 0 else Sum(values[..|values| - 1]) + values[|values| - 1]
  }

  function InputValues(inputs: seq<Input>): seq<nat> { seq(|inputs|, k requires 0 <= k < |inputs| => inputs[k].value) }
  function OutputValues(outputs: seq<Output>): seq<nat> {
    seq(|outputs|, k requires 0 <= k < |outputs| => outputs[k].value)
  }

  /** A uint64 accumulator. */
  method WrappedSum(values: seq<nat>) returns (sum: nat)
    ensures sum == Sum(values) % U64
  {
    sum := 0;
    for k := 0 to |values|
      invariant sum == Sum(values[..k]) % U64
    {
      assert values[..k + 1][..k] == values[..k];
      sum := (sum + values[k]) % U64;
    }
    assert values[..|values|] == values;
  }

  /** btc_get_txn_fee: None when the transaction overspends. */
  function FeeOf(t: Tx): Option<nat> {
    var ins, outs := Sum(InputValues(t.inputs)) % U64, Sum(OutputValues(t.outputs)) % U64;
    if ins < outs then None else Some(ins - outs)
  }

  method GetTxnFee(t: Tx) returns (fee: Option<nat>)
    ensures fee == FeeOf(t)
  {
    var input := WrappedSum(InputValues(t.inputs));
    var output := WrappedSum(OutputValues(t.outputs));
    fee := if input < output then None else Some(input - output);
  }

  /** A fee is found that makes up for the difference exactly when the outputs spend no more than the
      inputs hold and both totals have wrapped around equally often; in particular when the totals
      fit in 64 bits, where overspending is the only way to fail. */
  lemma FeeBalances(t: Tx)
    ensures var ins, outs := Sum(InputValues(t.inputs)), Sum(OutputValues(t.outputs));
      && ((FeeOf(t).Some? && FeeOf(t).value + outs == ins) <==> (outs <= ins && ins / U64 == outs / U64))
      && (ins < U64 && outs < U64 ==> (FeeOf(t).Some? <==> outs <= ins))
  {
    hide Sum, InputValues, OutputValues;
    var ins, outs := Sum(InputValues(t.inputs)), Sum(OutputValues(t.outputs));
    assert ins == ins / U64 * U64 + ins % U64 && outs == outs / U64 * U64 + outs % U64;
  }

  function InputWorth(value: nat): Input { Input(Zeros(32), 0, value, [], 0, 0, 0) }

  /** Two inputs whose sum wraps: 2 satoshi are asked for as the fee, and 2^64 more are gone. */
  lemma WrappedFee()
    ensures var t := Tx(Meta(1, 0, 1), [InputWorth(U64 - 1), InputWorth(6)], [Output(3, [], false, None)]);
      FeeOf(t) == Some(2) && FeeOf(t).value + Sum(OutputValues(t.outputs)) + U64 == Sum(InputValues(t.inputs))
  {
    var t := Tx(Meta(1, 0, 1), [InputWorth(U64 - 1), InputWorth(6)], [Output(3, [], false, None)]);
    assert InputValues(t.inputs) == [U64 - 1, 6] && OutputValues(t.outputs) == [3];
    TwoSum(U64 - 1, 6, 3);
  }

  lemma TwoSum(a: nat, b: nat, c: nat)
    ensures Sum([a, b]) == a + b && Sum([c]) == c
  {
    assert [a, b][..1] == [a] && [a][..0] == [] && [c][..0] == [];
    assert Sum([a]) == Sum([]) + a && Sum([a, b]) == Sum([a]) + b && Sum([c]) == Sum([]) + c;
  }

  // ---- What the user is asked.

  predicate Shown(env: Env, t: Tx, confirmed: seq<Screen>, k: nat)
    requires k < |t.outputs|
  {
    && AddressOf(env, t.outputs[k].script).Some?
    && Receiver(k, AddressOf(env, t.outputs[k].script).value) in confirmed
    && Value(k, t.outputs[k].value) in confirmed
  }

  /** The user said yes to every page, in view of those before it. */
  predicate AllAccepted(env: Env, confirmed: seq<Screen>) {
    forall i | 0 <= i < |confirmed| :: env.user(confirmed[..i], confirmed[i])
  }

  /** One page: accepted pages are remembered. */
  method Ask(env: Env, screen: Screen, confirmed: seq<Screen>) returns (ok: bool, now: seq<Screen>)
    requires AllAccepted(env, confirmed)
    ensures ok == env.user(confirmed, screen) && now == if ok then confirmed + [screen] else confirmed
    ensures AllAccepted(env, now)
  {
    ok := env.user(confirmed, screen);
    now := if ok then confirmed + [screen] else confirmed;
    assert forall i | 0 <= i < |confirmed| :: (confirmed + [screen])[..i] == confirmed[..i];
    assert (confirmed + [screen])[..|confirmed|] == confirmed;
  }

  /** The pages for the first k outputs: address and value of each that is not declared as change. */
  function OutputPages(env: Env, t: Tx, k: nat): seq<Screen>
    requires k <= |t.outputs|
  {
    if k == 0 then []
    else
      var o := t.outputs[k - 1];
      OutputPages(env, t, k - 1) +
      if o.isChange then [] else [Receiver(k - 1, AddressText(env, o.script)), Value(k - 1, o.value)]
  }

  function AddressText(env: Env, script: seq<byte>): string {
    if AddressOf(env, script).Some? then AddressOf(env, script).value else ""
  }

  function FeePages(env: Env, t: Tx): seq<Screen> {
    match FeeOf(t)
    case None => []
    case Some(fee) => (if fee > env.threshold(t) then [FeeTooHigh] else []) + [Fee(fee)]
  }

  function Pages(env: Env, t: Tx): seq<Screen> {
    OutputPages(env, t, |t.outputs|) + FeePages(env, t)
  }

  predicate HasAddress(env: Env, o: Output) {
    o.isChange || AddressOf(env, o.script).Some?
  }

  /** Everything can be shown, and the user accepts every page. */
  predicate UserAgrees(env: Env, t: Tx) {
    && (forall o <- t.outputs :: HasAddress(env, o)) && FeeOf(t).Some? && AllAccepted(env, Pages(env, t))
  }

  lemma {:induction false} OutputPagesGrow(env: Env, t: Tx, k: nat, n: nat)
    requires k <= n <= |t.outputs|
    ensures OutputPages(env, t, k) <= OutputPages(env, t, n) <= OutputPages(env, t, n) + FeePages(env, t)
  {
    if k < n {
      OutputPagesGrow(env, t, k, n - 1);
    }
  }

  lemma RefusedPage(env: Env, confirmed: seq<Screen>, screen: Screen, all: seq<Screen>)
    requires confirmed + [screen] <= all && !env.user(confirmed, screen)
    ensures !AllAccepted(env, all)
  {
    assert all[..|confirmed|] == confirmed && all[|confirmed|] == screen;
  }

  /** The pages show what they are for. */
  lemma {:induction false} PagesShow(env: Env, t: Tx, k: nat, n: nat)
    requires k < n <= |t.outputs| && !t.outputs[k].isChange && AddressOf(env, t.outputs[k].script).Some?
    ensures Shown(env, t, OutputPages(env, t, n), k)
  {
    if k < n - 1 {
      PagesShow(env, t, k, n - 1);
    } else {
      var pages := OutputPages(env, t, n);
      assert pages[|pages| - 1] == Value(k, t.outputs[k].value);
      assert pages[|pages| - 2] == Receiver(k, AddressOf(env, t.outputs[k].script).value);
    }
  }

  // ---- The swap check of the receivers.

  function AddressBytes(s: string): seq<byte> {
    seq(|s|, i requires 0 <= i < |s| => s[i] as int % 256)
  }

  /** The addresses of the first k outputs that are not declared as change. */
  function Receivers(env: Env, t: Tx, k: nat): seq<seq<byte>>
    requires k <= |t.outputs|
  {
    if k == 0 then []
    else
      var o := t.outputs[k - 1];
      Receivers(env, t, k - 1) + if o.isChange then [] else [AddressBytes(AddressText(env, o.script))]
  }

  lemma {:induction false} ReceiversGrow(env: Env, t: Tx, k: nat, n: nat)
    requires k <= n <= |t.outputs|
    ensures Receivers(env, t, k) <= Receivers(env, t, n)
  {
    hide AddressBytes, AddressText;
    if k < n {
      ReceiversGrow(env, t, k, n - 1);
    }
  }

  /** The first receiver is checked against the stored signature, all others against a cleared one. */
  predicate Pass(x: X.Env, shared: seq<byte>, receivers: seq<seq<byte>>)
    requires |shared| == X.CONTEXT_SIZE
  {
    forall i | 0 <= i < |receivers| ::
      X.CheckPasses(x, if i == 0 then shared else Zeros(X.CONTEXT_SIZE), receivers[i])
  }

  lemma FailedCheck(x: X.Env, shared: seq<byte>, done: seq<seq<byte>>, receiver: seq<byte>, all: seq<seq<byte>>)
    requires |shared| == X.CONTEXT_SIZE && done + [receiver] <= all
    requires !X.CheckPasses(x, if done == [] then shared else Zeros(X.CONTEXT_SIZE), receiver)
    ensures !Pass(x, shared, all)
  {
    assert all[|done|] == receiver;
  }

  lemma OneMorePasses(x: X.Env, shared: seq<byte>, done: seq<seq<byte>>, receiver: seq<byte>)
    requires |shared| == X.CONTEXT_SIZE && Pass(x, shared, done)
    requires X.CheckPasses(x, if done == [] then shared else Zeros(X.CONTEXT_SIZE), receiver)
    ensures Pass(x, shared, done + [receiver])
  {
  }

  /** exchange_validate_stored_signature inside the loop; done are the receivers checked before. */
  method CheckReceiver(x: X.Env, device: X.Device, receiver: seq<byte>, ghost was: seq<byte>,
                       ghost done: seq<seq<byte>>, ghost all: seq<seq<byte>>)
    returns (ok: bool)
    requires device.Valid() && |was| == X.CONTEXT_SIZE && Pass(x, was, done) && done + [receiver] <= all
    requires device.shared == if done == [] then was else Zeros(X.CONTEXT_SIZE)
    modifies device`shared
    ensures device.Valid() && device.shared == Zeros(X.CONTEXT_SIZE)
    ensures ok ==> Pass(x, was, done + [receiver])
    ensures !ok ==> !Pass(x, was, all)
  {
    hide Pass;
    ok := device.ValidateStoredSignature(x, receiver);
    if ok {
      OneMorePasses(x, was, done, receiver);
    } else {
      FailedCheck(x, was, done, receiver, all);
    }
  }

  lemma OneMoreOutput(env: Env, t: Tx, k: nat)
    requires k < |t.outputs|
    ensures OutputPages(env, t, |t.outputs|) <= Pages(env, t)
    ensures t.outputs[k].isChange ==>
      OutputPages(env, t, k + 1) == OutputPages(env, t, k) && Receivers(env, t, k + 1) == Receivers(env, t, k)
    ensures !t.outputs[k].isChange ==>
      var address := AddressText(env, t.outputs[k].script);
      && OutputPages(env, t, k + 1)
        == OutputPages(env, t, k) + [Receiver(k, address)] + [Value(k, t.outputs[k].value)]
      && Receivers(env, t, k + 1) == Receivers(env, t, k) + [AddressBytes(address)]
  {
    hide AddressText, AddressBytes, FeePages;
  }

  /** One output: its address, its check if there is one, its two pages. */
  method ShowOutput(env: Env, t: Tx, k: nat, x: X.Env, device: X.Device, checking: bool, confirmed: seq<Screen>,
                    ghost all: seq<Screen>, ghost was: seq<byte>, ghost done: seq<seq<byte>>)
    returns (ok: bool, now: seq<Screen>, ghost reached: seq<seq<byte>>)
    requires k < |t.outputs| && all == Pages(env, t) && device.Valid() && |was| == X.CONTEXT_SIZE
    requires AllAccepted(env, confirmed) && confirmed == OutputPages(env, t, k)
    requires done == (if checking then Receivers(env, t, k) else []) && Pass(x, was, done)
    requires device.shared == if done == [] then was else Zeros(X.CONTEXT_SIZE)
    modifies device`shared
    ensures device.Valid() && reached <= Receivers(env, t, |t.outputs|) && (!checking ==> reached == [])
    ensures device.shared == if reached == [] then was else Zeros(X.CONTEXT_SIZE)
    ensures AllAccepted(env, now) && now <= all
    ensures ok ==> now == OutputPages(env, t, k + 1) && HasAddress(env, t.outputs[k])
    ensures ok ==> reached == (if checking then Receivers(env, t, k + 1) else []) && Pass(x, was, reached)
    ensures !ok ==> !UserAgrees(env, t) || (checking && !Pass(x, was, Receivers(env, t, |t.outputs|)))
  {
    hide AddressOf, FeeOf, AllAccepted, Pages, Pass, AddressBytes, OutputPages, Receivers;
    ghost var n := |t.outputs|;
    OutputPagesGrow(env, t, k, n);
    OutputPagesGrow(env, t, k + 1, n);
    ReceiversGrow(env, t, k, n);
    ReceiversGrow(env, t, k + 1, n);
    OneMoreOutput(env, t, k);
    var o := t.outputs[k];
    now, reached := confirmed, done;
    if o.isChange {
      return true, now, reached;
    }
    var address := AddressOf(env, o.script);
    if address.None? {
      assert !HasAddress(env, t.outputs[k]);
      return false, now, reached;
    }
    if checking {
      ok := CheckReceiver(x, device, AddressBytes(address.value), was, done, Receivers(env, t, n));
      reached := done + [AddressBytes(address.value)];
      if !ok { return; }
    }
    ok, now := Show(env, Receiver(k, address.value), now, all);
    if !ok { return; }
    ok, now := Show(env, Value(k, o.value), now, all);
  }

  /** The loop over the outputs; all is what there is to show, reached are the receivers checked. */
  method ShowOutputs(env: Env, t: Tx, x: X.Env, device: X.Device, checking: bool, ghost all: seq<Screen>)
    returns (ok: bool, confirmed: seq<Screen>, ghost reached: seq<seq<byte>>)
    requires all == Pages(env, t) && device.Valid()
    modifies device`shared
    ensures device.Valid() && reached <= Receivers(env, t, |t.outputs|) && (!checking ==> reached == [])
    ensures device.shared == if reached == [] then old(device.shared) else Zeros(X.CONTEXT_SIZE)
    ensures AllAccepted(env, confirmed) && confirmed <= all
    ensures ok ==> confirmed == OutputPages(env, t, |t.outputs|) && forall o <- t.outputs :: HasAddress(env, o)
    ensures ok && checking ==> Pass(x, old(device.shared), Receivers(env, t, |t.outputs|))
    ensures !ok ==> !UserAgrees(env, t) || (checking && !Pass(x, old(device.shared), Receivers(env, t, |t.outputs|)))
  {
    hide HasAddress, AllAccepted, Pass, Pages, UserAgrees, OutputPages, Receivers;
    ghost var was, n := device.shared, |t.outputs|;
    confirmed, reached := [], [];
    NothingAsked(env);
    NothingChecked(x, was);
    OutputPagesStart(env, t);
    for k := 0 to |t.outputs|
      invariant AllAccepted(env, confirmed) && confirmed == OutputPages(env, t, k) && confirmed <= all
      invariant forall j | 0 <= j < k :: HasAddress(env, t.outputs[j])
      invariant device.Valid() && reached == (if checking then Receivers(env, t, k) else []) && Pass(x, was, reached)
      invariant device.shared == if reached == [] then was else Zeros(X.CONTEXT_SIZE)
    {
      ok, confirmed, reached := ShowOutput(env, t, k, x, device, checking, confirmed, all, was, reached);
      if !ok { return; }
    }
    ok := true;
  }

  lemma OutputPagesStart(env: Env, t: Tx)
    ensures OutputPages(env, t, 0) == [] && [] <= Pages(env, t) && Receivers(env, t, 0) == []
  {
  }

  lemma NothingChecked(x: X.Env, shared: seq<byte>)
    requires |shared| == X.CONTEXT_SIZE
    ensures Pass(x, shared, [])
  {
  }

  /** get_user_verification: the pages one after the other, until one is refused or cannot be made, or
      in a swap until a receiver fails its check. */
  method GetUserVerification(env: Env, t: Tx, x: X.Env, device: X.Device, checking: bool)
    returns (ok: bool, confirmed: seq<Screen>, ghost reached: seq<seq<byte>>)
    requires device.Valid()
    modifies device`shared
    ensures device.Valid() && reached <= Receivers(env, t, |t.outputs|) && (!checking ==> reached == [])
    ensures device.shared == if reached == [] then old(device.shared) else Zeros(X.CONTEXT_SIZE)
    ensures ok <==> UserAgrees(env, t) && (checking ==> Pass(x, old(device.shared), Receivers(env, t, |t.outputs|)))
    ensures AllAccepted(env, confirmed) && confirmed <= Pages(env, t)
    ensures ok ==> confirmed == Pages(env, t)
  {
    hide AddressOf, FeeOf, AllAccepted, OutputPages, HasAddress, Pass, Receivers;
    ghost var all := Pages(env, t);
    ok, confirmed, reached := ShowOutputs(env, t, x, device, checking, all);
    if !ok { return; }
    var fee := GetTxnFee(t);
    if fee.None? {
      return false, confirmed, reached;
    }
    if fee.value > env.threshold(t) {
      ok, confirmed := Show(env, FeeTooHigh, confirmed, all);
      if !ok { return; }
    }
    assert confirmed + [Fee(fee.value)] == all;
    ok, confirmed := Show(env, Fee(fee.value), confirmed, all);
  }

  /** The next page of all. */
  method Show(env: Env, screen: Screen, confirmed: seq<Screen>, ghost all: seq<Screen>)
    returns (ok: bool, now: seq<Screen>)
    requires AllAccepted(env, confirmed) && confirmed + [screen] <= all
    ensures AllAccepted(env, now) && now <= all
    ensures ok ==> now == confirmed + [screen]
    ensures !ok ==> !AllAccepted(env, all)
  {
    ok, now := Ask(env, screen, confirmed);
    if !ok {
      RefusedPage(env, confirmed, screen, all);
    }
  }

  lemma NothingAsked(env: Env)
    ensures AllAccepted(env, [])
  {
  }

  // ---- Signing.

  /** The change output, if there is one, can be spent with the wallet's own change key. */
  predicate ChangeIsOwn(env: Env, t: Tx, k: nat)
    requires k < |t.outputs|
  {
    var o := t.outputs[k];
    o.changesIndex.Some? && PaysTo(env.h160, o.script, env.key((1, o.changesIndex.value)))
  }

  predicate ChangesAreOwn(env: Env, t: Tx) {
    forall k | 0 <= k < |t.outputs| && t.outputs[k].isChange :: ChangeIsOwn(env, t, k)
  }

  /** validate_change_address. */
  method ValidateChangeAddress(env: Env, t: Tx, change: int) returns (ok: bool)
    requires ChangeAt(t.outputs, change)
    ensures ok <==> ChangesAreOwn(env, t)
  {
    hide PaysTo;
    if change == -1 {
      return true;
    }
    var o := t.outputs[change];
    if o.changesIndex.None? {
      assert !ChangeIsOwn(env, t, change);
      return false;
    }
    ok := CheckScriptAddress(env.h160, o.script, env.key((1, o.changesIndex.value)));
    assert ok <==> ChangeIsOwn(env, t, change);
  }

  function PathOf(i: Input): Path { (i.changeIndex, i.addressIndex) }

  /** A P2SH script is replaced by the redeem script of the input's own key. */
  function Unwrapped(env: Env, i: Input): Input {
    if TypeOf(i.script) == P2SH then i.(script := Redeem(env.h160, env.key(PathOf(i)))) else i
  }

  function WithInput(t: Tx, k: nat, i: Input): Tx
    requires k < |t.inputs|
  {
    t.(inputs := t.inputs[k := i])
  }

  /** The transaction input k is signed in: the original with that input's script replaced only. */
  function SignedIn(env: Env, t: Tx, k: nat): Tx
    requires k < |t.inputs|
  {
    WithInput(t, k, Unwrapped(env, t.inputs[k]))
  }

  lemma UnwrappedIsSignable(env: Env, i: Input)
    requires Spendable(i.script)
    ensures TypeOf(Unwrapped(env, i).script) in {P2PKH, P2WPKH}
    ensures InputFits(i) ==> InputFits(Unwrapped(env, i))
  {
    var r := Redeem(env.h160, env.key(PathOf(i)));
    assert |r| == 22 && r[0] == 0 && r[1] == 0x14;
  }

  /** a and b agree on everything but the scripts of inputs other than k. */
  predicate AgreeAt(a: Tx, b: Tx, k: nat) {
    && a.meta == b.meta && a.outputs == b.outputs && |a.inputs| == |b.inputs|
    && (forall j | 0 <= j < |a.inputs| ::
          a.inputs[j] == b.inputs[j] || (j != k && a.inputs[j] == b.inputs[j].(script := a.inputs[j].script)))
  }

  lemma {:induction false} LegacyIgnoresOtherScripts(a: seq<Input>, b: seq<Input>, k: nat)
    requires |a| == |b| && (forall i <- a :: |i.script| < U32) && (forall i <- b :: |i.script| < U32)
    requires forall j | 0 <= j < |a| :: a[j] == b[j] || (j != k && a[j] == b[j].(script := a[j].script))
    ensures LegacyInputs(a, k) == LegacyInputs(b, k)
  {
    hide LE;
    if a != [] {
      LegacyIgnoresOtherScripts(a[..|a| - 1], b[..|b| - 1], k);
    }
  }

  /** Other inputs' scripts enter neither the digest nor the cache. */
  lemma OtherScriptsDoNotMatter(h: Hash, a: Tx, b: Tx, k: nat)
    requires Fits(a) && Fits(b) && k < |a.inputs| && AgreeAt(a, b, k)
    ensures SighashOf(h, a, k) == SighashOf(h, b, k)
    ensures CacheOf(h, a) == CacheOf(h, b)
  {
    hide LE, OutputsBytes, Outpoints, Sequences, LegacyInputs, TypeOf;
    LegacyIgnoresOtherScripts(a.inputs, b.inputs, k);
    CacheIgnoresScripts(a.inputs, b.inputs);
  }

  /** After the loop has passed the first k inputs. */
  predicate UnwrappedUpTo(env: Env, original: Tx, now: Tx, k: nat) {
    && now.meta == original.meta && now.outputs == original.outputs && |now.inputs| == |original.inputs|
    && (forall j | 0 <= j < |now.inputs| ::
          now.inputs[j] == if j < k then Unwrapped(env, original.inputs[j]) else original.inputs[j])
  }

  lemma StillFits(env: Env, original: Tx, now: Tx, k: nat)
    requires Fits(original) && UnwrappedUpTo(env, original, now, k)
    ensures Fits(now)
  {
    hide TypeOf;
    forall i | i in now.inputs ensures InputFits(i) {
      var j :| 0 <= j < |now.inputs| && now.inputs[j] == i;
      assert InputFits(original.inputs[j]);
    }
  }

  /** sign_input: the scripts are rewritten in place while the cache, filled once, stays in use. */
  method SignInputs(env: Env, ctx: TxnContext, change: int) returns (ok: bool, signatures: seq<seq<byte>>)
    requires Fits(ctx.tx) && ChangeAt(ctx.tx.outputs, change) && (forall i <- ctx.tx.inputs :: Spendable(i.script))
    modifies ctx
    ensures ok <==> env.seed && ChangesAreOwn(env, old(ctx.tx))
    ensures ok ==> |signatures| == |old(ctx.tx.inputs)| && forall k | 0 <= k < |signatures| ::
      SignatureIsOver(env, old(ctx.tx), k, signatures[k])
    ensures ok ==> ctx.cache == CacheOf(env.h, old(ctx.tx))
  {
    hide ChangesAreOwn, SighashOf, CacheOf, TypeOf, SignatureIsOver;
    signatures := [];
    if !env.seed {
      return false, [];
    }
    ghost var original := ctx.tx;
    ctx.InitCache(env.h);
    ok := ValidateChangeAddress(env, ctx.tx, change);
    if !ok { return; }
    for k := 0 to |ctx.tx.inputs|
      invariant UnwrappedUpTo(env, original, ctx.tx, k) && Fits(ctx.tx)
      invariant ctx.cache == CacheOf(env.h, original) && ctx.cache == CacheOf(env.h, ctx.tx)
      invariant |signatures| == k && forall j | 0 <= j < k :: SignatureIsOver(env, original, j, signatures[j])
    {
      var i := ctx.tx.inputs[k];
      if TypeOf(i.script) == P2SH {
        i := i.(script := Redeem(env.h160, env.key(PathOf(i))));
        ctx.tx := ctx.tx.(inputs := ctx.tx.inputs[k := i]);
      }
      StillFits(env, original, ctx.tx, k + 1);
      KeepsCacheAndDigest(env, original, ctx.tx, k);
      var digest := ctx.DigestInput(env.h, k);
      if digest.None? {
        // Input scripts were accepted as spendable, so this branch is never taken.
        assert false;
        return false, [];
      }
      signatures := signatures + [env.scriptSig(PathOf(i), digest.value)];
      assert SignatureIsOver(env, original, k, signatures[k]) by { SignatureMade(env, original, k, digest.value); }
    }
    ok := true;
  }

  /** The signature of input k: over its digest in the original transaction with only its own
      script unwrapped. */
  predicate SignatureIsOver(env: Env, t: Tx, k: nat, signature: seq<byte>)
    requires Fits(t) && k < |t.inputs|
  {
    && Fits(SignedIn(env, t, k)) && SighashOf(env.h, SignedIn(env, t, k), k).Some?
    && signature == env.scriptSig(PathOf(t.inputs[k]), SighashOf(env.h, SignedIn(env, t, k), k).value)
  }

  lemma SignatureMade(env: Env, t: Tx, k: nat, digest: Digest)
    requires Fits(t) && k < |t.inputs| && Fits(SignedIn(env, t, k))
    requires SighashOf(env.h, SignedIn(env, t, k), k) == Some(digest)
    ensures SignatureIsOver(env, t, k, env.scriptSig(PathOf(t.inputs[k]), digest))
  {
  }

  lemma KeepsCacheAndDigest(env: Env, original: Tx, now: Tx, k: nat)
    requires Fits(original) && Fits(now) && k < |original.inputs| && UnwrappedUpTo(env, original, now, k + 1)
    requires Spendable(original.inputs[k].script)
    ensures CacheOf(env.h, now) == CacheOf(env.h, original)
    ensures var t := SignedIn(env, original, k);
      Fits(t) && SighashOf(env.h, now, k) == SighashOf(env.h, t, k) && SighashOf(env.h, t, k).Some?
    ensures PathOf(now.inputs[k]) == PathOf(original.inputs[k])
  {
    hide SighashOf, CacheOf, TypeOf;
    var t := SignedIn(env, original, k);
    UnwrappedIsSignable(env, original.inputs[k]);
    StillFits(env, original, now, k + 1);
    assert Fits(t) by {
      forall i | i in t.inputs ensures InputFits(i) {
        assert InputFits(original.inputs[k]);
        assert i == Unwrapped(env, original.inputs[k]) || i in original.inputs;
      }
    }
    OtherScriptsDoNotMatter(env.h, now, t, k);
    CacheSurvives(env, original, now, k);
    SignableHasDigest(env.h, t, k);
  }

  lemma CacheSurvives(env: Env, original: Tx, now: Tx, k: nat)
    requires Fits(original) && Fits(now) && UnwrappedUpTo(env, original, now, k + 1)
    ensures CacheOf(env.h, now) == CacheOf(env.h, original)
  {
    hide LE, OutputsBytes, Outpoints, Sequences, TypeOf;
    CacheIgnoresScripts(now.inputs, original.inputs);
  }

  lemma SignableHasDigest(h: Hash, t: Tx, k: nat)
    requires Fits(t) && k < |t.inputs| && TypeOf(t.inputs[k].script) in {P2PKH, P2WPKH}
    ensures SighashOf(h, t, k).Some?
  {
    hide Bip143, Legacy;
  }

  // ---- The whole flow.

  /** Every output is either confirmed by the user, address and value, or it is the one declared
      change output and pays to the wallet's own change key. */
  predicate OutputsAccountedFor(env: Env, t: Tx, confirmed: seq<Screen>) {
    && (forall k | 0 <= k < |t.outputs| ::
          Shown(env, t, confirmed, k) || (t.outputs[k].isChange && ChangeIsOwn(env, t, k)))
    && (forall j, k | 0 <= j < k < |t.outputs| :: !(t.outputs[j].isChange && t.outputs[k].isChange))
  }

  /** What is known once signatures exist. */
  predicate Authorized(env: Env, host: seq<Option<HostInput>>, t: Tx, confirmed: seq<Screen>,
                       signatures: seq<seq<byte>>)
  {
    && AllAccepted(env, confirmed) && OutputsAccountedFor(env, t, confirmed)
    && FeeOf(t).Some? && Fee(FeeOf(t).value) in confirmed
    && (FeeOf(t).value > env.threshold(t) ==> FeeTooHigh in confirmed)
    && Fits(t) && |t.inputs| <= |host| && |signatures| == |t.inputs|
    && (forall k | 0 <= k < |t.inputs| ::
          && host[k].Some? && host[k].value.input == t.inputs[k] && InputAccepted(env, host[k].value)
          && SignatureIsOver(env, t, k, signatures[k]))
  }

  /** Everything the host sent was accepted. */
  predicate Fetched(env: Env, m: HostMeta, ins: seq<Option<HostInput>>, outs: seq<Option<Output>>) {
    && MetaAccepted(m) && m.inputCount <= |ins|
    && (forall k | 0 <= k < m.inputCount :: ins[k].Some? && InputAccepted(env, ins[k].value))
    && OutputsAccepted(m.outputCount, outs)
  }

  /** The transaction made of what the host sent. */
  function HostTx(env: Env, m: HostMeta, ins: seq<Option<HostInput>>, outs: seq<Option<Output>>): (t: Tx)
    requires Fetched(env, m, ins, outs)
    ensures |t.inputs| == m.inputCount && forall k | 0 <= k < m.inputCount :: t.inputs[k] == ins[k].value.input
    ensures |t.outputs| == m.outputCount && forall k | 0 <= k < m.outputCount :: t.outputs[k] == outs[k].value
  {
    hide InputAccepted, OutputAccepted;
    Tx(m.meta, seq(m.inputCount, k requires 0 <= k < m.inputCount => ins[k].value.input),
       seq(m.outputCount, k requires 0 <= k < m.outputCount => outs[k].value))
  }

  /** send_script_sig: one signature for each proper request, up to the first improper one. */
  method SendSignatures(signatures: seq<seq<byte>>, requests: seq<bool>) returns (sent: seq<seq<byte>>)
    ensures Answered(signatures, requests, sent)
  {
    sent := [];
    for k := 0 to |signatures|
      invariant sent == signatures[..k] && k <= |requests| && forall i | 0 <= i < k :: requests[i]
    {
      if k >= |requests| || !requests[k] {
        return;
      }
      sent := sent + [signatures[k]];
    }
  }

  predicate Answered(signatures: seq<seq<byte>>, requests: seq<bool>, sent: seq<seq<byte>>) {
    && sent <= signatures && |sent| <= |requests| && (forall i | 0 <= i < |sent| :: requests[i])
    && (|sent| < |signatures| ==> |sent| == |requests| || !requests[|sent|])
  }

  /** The wallet that sends, its applet, and whether its derivation path, its name and the user's
      consent to the whole flow are in order. */
  datatype Initiation = Initiation(applet: nat, wallet: X.Wallet, proper: bool)

  function SendTask(i: Initiation): X.Task { X.WalletTask(i.applet, i.wallet, X.SEND) }

  /** Everything that has to be so for signatures to come out, on a device in state s. */
  predicate MaySign(env: Env, x: X.Env, s: X.State, i: Initiation, m: HostMeta, ins: seq<Option<HostInput>>,
                    outs: seq<Option<Output>>)
    requires |s.shared| == X.CONTEXT_SIZE
  {
    && i.proper && X.Validate(s.queue, SendTask(i)) != X.Reset && Fetched(env, m, ins, outs)
    && var t := HostTx(env, m, ins, outs);
       && UserAgrees(env, t) && env.seed && ChangesAreOwn(env, t)
       && (X.Validate(s.queue, SendTask(i)) == X.Matched ==> Pass(x, s.shared, Receivers(env, t, |t.outputs|)))
  }

  /** btc_sign_transaction: signatures are made exactly when the flow is properly initiated and does
      not disturb a swap, the host's data is accepted, the user agrees to all pages, in a swap the
      receivers pass, the seed is there and the change is the wallet's own. For the swap protocol it
      is a send of the receivers that were reached. */
  method SignTransaction(env: Env, x: X.Env, device: X.Device, i: Initiation, m: HostMeta,
                         ins: seq<Option<HostInput>>, outs: seq<Option<Output>>, requests: seq<bool>)
    returns (signatures: Option<seq<seq<byte>>>, sent: seq<seq<byte>>, ghost reached: seq<seq<byte>>)
    requires device.Valid()
    requires forall x <- ins :: x.Some? ==> InputFits(x.value.input)
    requires forall x <- outs :: x.Some? ==> OutputFits(x.value)
    modifies device
    ensures device.Valid() && device.Now() == X.Step(x, old(device.Now()), X.Send(i.applet, i.wallet, reached))
    ensures signatures.Some? <==> MaySign(env, x, old(device.Now()), i, m, ins, outs)
    ensures signatures.Some? ==>
      var t := HostTx(env, m, ins, outs); Authorized(env, ins, t, Pages(env, t), signatures.value)
    ensures if signatures.Some? then Answered(signatures.value, requests, sent) else sent == []
  {
    hide InputAccepted, OutputAccepted, FeeOf, AllAccepted, Shown, ChangeIsOwn, SignatureIsOver, Spendable, Pages,
      UserAgrees, OutputsAccountedFor, ChangeAt, Pass, Receivers, X.WalletTask, Answered, Authorized;
    sent, reached := [], [];
    var v := device.ValidateCaq(SendTask(i));
    if v == X.Reset || !i.proper {
      return None, sent, reached;
    }
    if !MetaAccepted(m) {
      return None, sent, reached;
    }
    var ok, inputs := FetchInputs(env, m.inputCount, ins);
    if !ok { return None, sent, reached; }
    var outputs, change;
    ok, outputs, change := FetchOutputs(m.outputCount, outs);
    if !ok { return None, sent, reached; }
    var tx := Tx(m.meta, inputs, outputs);
    assert tx == HostTx(env, m, ins, outs);
    FetchedFits(env, tx, ins, outs);
    var confirmed;
    ok, confirmed, reached := GetUserVerification(env, tx, x, device, v == X.Matched);
    if !ok { return None, sent, reached; }
    var ctx := new TxnContext(tx);
    var sigs;
    ok, sigs := SignInputs(env, ctx, change);
    if !ok { return None, sent, reached; }
    signatures := Some(sigs);
    AgreementAccountsForAll(env, tx, change);
    IsAuthorized(env, m, ins, outs, sigs);
    sent := SendSignatures(sigs, requests);
  }

  lemma IsAuthorized(env: Env, m: HostMeta, ins: seq<Option<HostInput>>, outs: seq<Option<Output>>,
                     signatures: seq<seq<byte>>)
    requires Fetched(env, m, ins, outs)
    requires var t := HostTx(env, m, ins, outs);
      && Fits(t) && UserAgrees(env, t) && OutputsAccountedFor(env, t, Pages(env, t))
      && FeeOf(t).Some? && Fee(FeeOf(t).value) in Pages(env, t)
      && (FeeOf(t).value > env.threshold(t) ==> FeeTooHigh in Pages(env, t))
      && |signatures| == |t.inputs| && forall k | 0 <= k < |t.inputs| :: SignatureIsOver(env, t, k, signatures[k])
    ensures var t := HostTx(env, m, ins, outs); Authorized(env, ins, t, Pages(env, t), signatures)
  {
    hide InputAccepted, OutputAccepted, FeeOf, AllAccepted, SignatureIsOver, Pages, OutputsAccountedFor;
  }

  /** What agreement to all pages means for outputs and fee. */
  lemma AgreementAccountsForAll(env: Env, t: Tx, change: int)
    requires UserAgrees(env, t) && ChangesAreOwn(env, t) && ChangeAt(t.outputs, change)
    ensures OutputsAccountedFor(env, t, Pages(env, t)) && AllAccepted(env, Pages(env, t))
    ensures FeeOf(t).Some? && Fee(FeeOf(t).value) in Pages(env, t)
    ensures FeeOf(t).value > env.threshold(t) ==> FeeTooHigh in Pages(env, t)
  {
    hide AddressOf, FeeOf, ChangeIsOwn, AllAccepted;
    var n := |t.outputs|;
    forall k | 0 <= k < n ensures t.outputs[k].isChange || Shown(env, t, Pages(env, t), k) {
      if !t.outputs[k].isChange {
        assert HasAddress(env, t.outputs[k]);
        PagesShow(env, t, k, n);
      }
    }
  }

  lemma FetchedFits(env: Env, t: Tx, ins: seq<Option<HostInput>>, outs: seq<Option<Output>>)
    requires forall x <- ins :: x.Some? ==> InputFits(x.value.input)
    requires forall x <- outs :: x.Some? ==> OutputFits(x.value)
    requires |t.inputs| <= MAX_COUNT && |t.outputs| <= MAX_COUNT && |t.inputs| <= |ins| && |t.outputs| <= |outs|
    requires forall k | 0 <= k < |t.inputs| ::
      ins[k].Some? && InputAccepted(env, ins[k].value) && t.inputs[k] == ins[k].value.input
    requires forall k | 0 <= k < |t.outputs| :: outs[k].Some? && t.outputs[k] == outs[k].value
    ensures Fits(t) && forall i <- t.inputs :: Spendable(i.script)
  {
    hide Spendable, V.VerdictOn;
    forall i | i in t.inputs ensures InputFits(i) && Spendable(i.script) {
      var k :| 0 <= k < |t.inputs| && t.inputs[k] == i;
      assert ins[k] in ins;
    }
    forall o | o in t.outputs ensures OutputFits(o) {
      var k :| 0 <= k < |t.outputs| && t.outputs[k] == o;
      assert outs[k] in outs;
    }
  }

  /** What the stream of a previous transaction holds up to the first refusal, and the byte that is
      peeked at. */
  function FirstBytes(i: HostInput): seq<byte> { StreamOf(i)[0] }
  function Peeked(i: HostInput): byte { PeekAt(i.data, i.after, 0, i.replies, 4) }

  /** Output k of t exists and has that value. */
  predicate Pays(t: PrevTxnFormat.Tx, k: nat, value: nat) {
    k < |t.outs| && FromLE(t.outs[k].value) == value
  }

  /** Whatever the host cuts, refuses or lets be peeked at: unless its bytes run out inside a count
      or length, an input was signed only if they start with the body of a transaction that has the
      id the input names; a value other than 0 is then the value of the output it names. */
  lemma SpentValuesAreReal(env: Env, host: seq<Option<HostInput>>, t: Tx, confirmed: seq<Screen>,
                           signatures: seq<seq<byte>>, k: nat)
    returns (p: PrevTxnFormat.Tx, head: seq<byte>)
    requires Authorized(env, host, t, confirmed, signatures) && k < |t.inputs|
    requires !PrevTxnRefusals.DriesUp(FirstBytes(host[k].value), Peeked(host[k].value))
    ensures var hi, i := host[k].value, t.inputs[k];
      && p.flag.Some? == (Peeked(hi) == 0)
      && PrevTxnAnyHost.BacksAs(env.h, p, head, FirstBytes(hi), TxnInputOf(i))
      && PrevTxnFormat.Laid(p, head) <= FirstBytes(hi) && env.h(env.h(PrevTxnFormat.NonWitness(p))) == i.prevHash
      && (i.value > 0 ==> Pays(p, i.prevIndex, i.value))
  {
    hide PrevTxnFormat.ValidBody, PrevTxnFormat.Laid, PrevTxnFormat.NonWitness, FromLE, Spendable;
    hide AllAccepted, OutputsAccountedFor, SignatureIsOver, Fits, FeeOf, PrevTxnRefusals.DriesUp;
    var hi, i := host[k].value, t.inputs[k];
    var s := StreamOf(hi);
    assert s == [s[0]] + s[1..];
    PrevTxnAnyHost.AcceptsExactlyBackedReadings(env.h, s[0], s[1..], Peeked(hi), TxnInputOf(i));
    p, head :| p.flag.Some? == (Peeked(hi) == 0)
      && PrevTxnAnyHost.BacksAs(env.h, p, head, s[0], TxnInputOf(i));
  }

  /** The condition on the value is needed: an input of value 0 that names output 7 of a transaction
      with one output is accepted. */
  lemma ZeroValueNeedsNoOutput(env: Env, i: Input)
    requires Spendable(i.script) && i.value == 0 && i.prevIndex == 7
    requires i.prevHash == env.h(env.h(PrevTxnFormat.NonWitness(PrevTxnHosts.LEGACY)))
    ensures InputAccepted(env, HostInput(i, PrevTxnFormat.Serialize(PrevTxnHosts.LEGACY), 0, []))
    ensures |PrevTxnHosts.LEGACY.outs| == 1
  {
    hide PrevTxnFormat.Serialize, PrevTxnFormat.NonWitness, V.VerdictOn;
    var data := PrevTxnFormat.Serialize(PrevTxnHosts.LEGACY);
    PrevTxnFormat.FifthByte(PrevTxnHosts.LEGACY, []);
    PrevTxnTheorems.MissingOutputCountsAsZero(env.h, PrevTxnHosts.LEGACY, data, TxnInputOf(i));
    PrevTxnHosts.VerdictIgnoresCuts(env.h, data, 0, [], TxnInputOf(i));
    assert data + [] == data;
  }
}
