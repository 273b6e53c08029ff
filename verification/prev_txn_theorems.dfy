/** What an accepting run of btc_validate_inputs proves about the bytes the host sent. */
module PrevTxnTheorems {
  import opened Bytes
  import opened ByteStreams
  import opened PrevTxnWalk
  import opened PrevTxnFormat
  import opened PrevTxnValidator

  // ---- Whatever is walked over on one segment was a serialized piece.

  predicate Fresh(p: Place) {
    |p.left| == 1 && !p.dry
  }

  /** From p to q the walk goes over exactly the bytes a, and hashes them when hashing is set. */
  predicate Eats(p: Place, q: Place, a: seq<byte>, hashing: bool) {
    Fresh(p) && Fresh(q) && p.left[0] == a + q.left[0] && q.hashed == if hashing then p.hashed + a else p.hashed
  }

  lemma EatsBoth(p: Place, q: Place, r: Place, a: seq<byte>, b: seq<byte>, hashing: bool)
    requires Eats(p, q, a, hashing) && Eats(q, r, b, hashing)
    ensures Eats(p, r, a + b, hashing)
  {
    assert p.left[0] == a + b + r.left[0];
    if hashing { assert r.hashed == p.hashed + (a + b); }
  }

  lemma EatsNothing(p: Place)
    requires Fresh(p)
    ensures Eats(p, p, [], true)
  {
    assert p.left[0] == [] + p.left[0] && p.hashed == p.hashed + [];
  }

  lemma FixedEats(p: Place, n: nat, hashing: bool) returns (a: seq<byte>)
    requires Fresh(p) && Fixed(p, n, hashing).At?
    ensures |a| == n && Eats(p, Fixed(p, n, hashing).value, a, hashing) && |p.left[0]| >= n && p.left[0][..n] == a
  {
    a := p.left[0][..n];
  }

  lemma BodyEats(p: Place, n: nat, hashing: bool) returns (a: seq<byte>)
    requires Fresh(p) && Body(p, n, hashing).At?
    ensures |a| == n && Eats(p, Body(p, n, hashing).value, a, hashing)
  {
    if n == 0 { a := []; } else { a := FixedEats(p, n, hashing); }
  }

  lemma CountEats(p: Place, hashing: bool) returns (raw: seq<byte>)
    requires Fresh(p) && !AfterCount(p, hashing).dry
    ensures Counts(raw, ReadCount(p.left).value) && Eats(p, AfterCount(p, hashing), raw, hashing)
  {
    raw := ReadCount(p.left).raw;
  }

  /** A field of fixed size cannot be read after a dry count. */
  lemma DryStops(p: Place, n: nat, hashing: bool)
    requires Thin(p) && p.dry
    ensures Fixed(p, n, hashing) == Stopped(true)
  {
  }

  lemma InputEats(p: Place) returns (i: TxIn)
    requires Fresh(p) && Input(p).At?
    ensures ValidIn(i) && Eats(p, Input(p).value, InBytes(i), true)
  {
    hide Take, ReadCount, CountValue, Eats;
    var p1 := Fixed(p, 32, true).value;
    var a := FixedEats(p, 32, true);
    var p2 := Fixed(p1, 4, true).value;
    var b := FixedEats(p1, 4, true);
    var p3 := AfterCount(p2, true);
    var p4 := Body(p3, ReadCount(p2.left).value, true).value;
    if p4.dry { DryStops(p4, 4, true); }
    var raw := CountEats(p2, true);
    var script := BodyEats(p3, ReadCount(p2.left).value, true);
    var sequence := FixedEats(p4, 4, true);
    EatsBoth(p, p1, p2, a, b, true);
    EatsBoth(p, p2, p3, a + b, raw, true);
    EatsBoth(p, p3, p4, a + b + raw, script, true);
    EatsBoth(p, p4, Input(p).value, a + b + raw + script, sequence, true);
    i := TxIn(a + b, raw, script, sequence);
  }

  lemma {:induction false} InputsEat(n: nat, p: Place) returns (ins: seq<TxIn>)
    requires Fresh(p) && Inputs(n, p).At?
    ensures |ins| == n && (forall i <- ins :: ValidIn(i)) && Eats(p, Inputs(n, p).value, InsBytes(ins), true)
  {
    hide Input, ValidIn;
    if n == 0 {
      return [];
    }
    var i := InputEats(p);
    var more := InputsEat(n - 1, Input(p).value);
    ins := [i] + more;
    EatsBoth(p, Input(p).value, Inputs(n, p).value, InBytes(i), InsBytes(more), true);
    assert ins[1..] == more;
  }

  lemma OutputEats(p: Place) returns (o: TxOut)
    requires Fresh(p) && Output(p).At? && !Output(p).value.dry
    ensures ValidOut(o) && Eats(p, Output(p).value, OutBytes(o), true) && Fresh(Output(p).value)
    ensures |p.left[0]| >= 8 && p.left[0][..8] == o.value
  {
    hide Take, ReadCount, CountValue, Eats;
    var p1 := Fixed(p, 8, true).value;
    var value := FixedEats(p, 8, true);
    var p2 := AfterCount(p1, true);
    var raw := CountEats(p1, true);
    var script := BodyEats(p2, ReadCount(p1.left).value, true);
    EatsBoth(p, p1, p2, value, raw, true);
    EatsBoth(p, p2, Output(p).value, value + raw, script, true);
    o := TxOut(value, raw, script);
  }

  lemma OutputsStep(k: nat, n: nat, target: nat, found: nat, p: Place)
    requires k < n && Output(p).At? && |p.left[0]| >= 8
    ensures Outputs(k, n, target, found, p)
         == Outputs(k + 1, n, target, if k == target then FromLE(p.left[0][..8]) else found, Output(p).value)
  {
  }

  lemma OutputsGoOn(k: nat, n: nat, target: nat, found: nat, p: Place)
    requires k <= n && Outputs(k, n, target, found, p).At? && !Outputs(k, n, target, found, p).value.0.dry
    ensures k == n ==> Outputs(k, n, target, found, p) == At((p, found))
    ensures k < n ==> Output(p).At? && !Output(p).value.dry
  {
    hide Output, FromLE;
  }

  lemma {:induction false} OutputsEat(k: nat, n: nat, target: nat, found: nat, p: Place) returns (outs: seq<TxOut>)
    requires k <= n && Fresh(p) && Outputs(k, n, target, found, p).At? && !Outputs(k, n, target, found, p).value.0.dry
    ensures |outs| == n - k && (forall o <- outs :: ValidOut(o))
    ensures Eats(p, Outputs(k, n, target, found, p).value.0, OutsBytes(outs), true)
    ensures Outputs(k, n, target, found, p).value.1 == if k <= target < n then FromLE(outs[target - k].value) else found
    decreases n - k
  {
    hide Output, ValidOut, FromLE, OutBytes, Eats, Outputs;
    OutputsGoOn(k, n, target, found, p);
    if k == n {
      EatsNothing(p);
      return [];
    }
    var q := Output(p).value;
    var o := OutputEats(p);
    OutputsStep(k, n, target, found, p);
    var found' := if k == target then FromLE(p.left[0][..8]) else found;
    var more := OutputsEat(k + 1, n, target, found', q);
    outs := [o] + more;
    assert outs[1..] == more;
    EatsBoth(p, q, Outputs(k, n, target, found, p).value.0, OutBytes(o), OutsBytes(more), true);
  }

  lemma {:induction false} ItemsEat(n: nat, p: Place) returns (items: seq<Item>)
    requires Fresh(p) && WitnessItems(n, p).At? && !WitnessItems(n, p).value.dry
    ensures |items| == n && (forall i <- items :: ValidItem(i))
    ensures Eats(p, WitnessItems(n, p).value, ItemsBytes(items), false)
  {
    hide Take, ReadCount, CountValue;
    if n == 0 {
      return [];
    }
    var p1 := AfterCount(p, false);
    var p2 := Body(p1, ReadCount(p.left).value, false).value;
    var more, raw, body;
    raw := CountEats(p, false);
    body := BodyEats(p1, ReadCount(p.left).value, false);
    EatsBoth(p, p1, p2, raw, body, false);
    more := ItemsEat(n - 1, p2);
    EatsBoth(p, p2, WitnessItems(n, p).value, raw + body, ItemsBytes(more), false);
    items := [Item(raw, body)] + more;
    assert items[1..] == more;
  }

  lemma {:induction false} WitnessesEat(n: nat, p: Place) returns (ws: seq<Witness>)
    requires Fresh(p) && Witnesses(n, p).At? && !Witnesses(n, p).value.dry
    ensures |ws| == n && (forall w <- ws :: ValidWitness(w))
    ensures Eats(p, Witnesses(n, p).value, WitnessesBytes(ws), false)
  {
    hide Take, ReadCount, CountValue;
    if n == 0 {
      return [];
    }
    var p1 := AfterCount(p, false);
    var p2 := WitnessItems(ReadCount(p.left).value, p1).value;
    var raw := CountEats(p, false);
    var items := ItemsEat(ReadCount(p.left).value, p1);
    EatsBoth(p, p1, p2, raw, ItemsBytes(items), false);
    var more := WitnessesEat(n - 1, p2);
    EatsBoth(p, p2, Witnesses(n, p).value, raw + ItemsBytes(items), WitnessesBytes(more), false);
    ws := [Witness(raw, items)] + more;
    assert ws[1..] == more;
  }

  /** Inner and the two trailing parts, with the witnesses read but not hashed. */
  lemma InnerEats(p: Place, segwit: bool, target: nat) returns (t: Tx)
    requires Fresh(p) && AfterHeader(p, segwit, target).At?
    ensures var (q, found) := AfterHeader(p, segwit, target).value;
      && Fresh(q) && |t.lockTime| == 4
      && Counts(t.inCount, |t.ins|) && (forall i <- t.ins :: ValidIn(i))
      && Counts(t.outCount, |t.outs|) && (forall o <- t.outs :: ValidOut(o))
      && |t.witnesses| == (if segwit then |t.ins| else 0) && (forall w <- t.witnesses :: ValidWitness(w))
      && p.left[0] == Inner(t) + WitnessesBytes(t.witnesses) + t.lockTime + q.left[0]
      && q.hashed == p.hashed + Inner(t) + t.lockTime && found == OutputValue(t, target)
  {
    hide Take, ReadCount, CountValue, Inputs, Outputs, Witnesses, InsBytes, OutsBytes, WitnessesBytes, Eats,
      ValidIn, ValidOut, ValidWitness;
    var ins := ReadCount(p.left).value;
    var p1 := AfterCount(p, true);
    var p2 := Inputs(ins, p1).value;
    var outs := ReadCount(p2.left).value;
    var p3 := AfterCount(p2, true);
    var (p4, found) := Outputs(0, outs, target, 0, p3).value;
    var n := if segwit then ins else 0;
    var p5 := Witnesses(n, p4).value;
    var q := AfterHeader(p, segwit, target).value.0;
    if p5.dry { DryStops(p5, 4, true); }
    var inRaw := CountEats(p, true);
    var txins := InputsEat(ins, p1);
    var outRaw := CountEats(p2, true);
    var txouts := OutputsEat(0, outs, target, 0, p3);
    var ws := WitnessesEat(n, p4);
    var lock := FixedEats(p5, 4, true);
    EatsBoth(p, p1, p2, inRaw, InsBytes(txins), true);
    EatsBoth(p, p2, p3, inRaw + InsBytes(txins), outRaw, true);
    EatsBoth(p, p3, p4, inRaw + InsBytes(txins) + outRaw, OutsBytes(txouts), true);
    t := Tx([], None, inRaw, txins, outRaw, txouts, ws, lock);
    Together(p, p4, p5, q, t);
  }

  lemma Together(p: Place, p4: Place, p5: Place, q: Place, t: Tx)
    requires Eats(p, p4, Inner(t), true) && Eats(p4, p5, WitnessesBytes(t.witnesses), false)
    requires Eats(p5, q, t.lockTime, true)
    ensures p.left[0] == Inner(t) + WitnessesBytes(t.witnesses) + t.lockTime + q.left[0]
    ensures q.hashed == p.hashed + Inner(t) + t.lockTime
  {
  }

  predicate Marked(data: seq<byte>) {
    |data| > 4 && data[4] == 0
  }

  lemma HeadEats(data: seq<byte>, segwit: bool) returns (version: seq<byte>, head: seq<byte>, p: Place)
    requires Fixed(On([], data), 4, true).At?
    requires segwit ==> Fixed(Fixed(On([], data), 4, true).value, 2, false).At?
    ensures var q := Fixed(On([], data), 4, true).value; p == if segwit then Fixed(q, 2, false).value else q
    ensures |version| == 4 && |head| == (if segwit then 2 else 0) && Fresh(p)
    ensures data == version + head + p.left[0] && p.hashed == version
  {
    version := FixedEats(On([], data), 4, true);
    p := Fixed(On([], data), 4, true).value;
    head := [];
    if segwit {
      head := FixedEats(p, 2, false);
      p := Fixed(p, 2, false).value;
    }
  }

  /** A run that gets to its end on one segment has walked over exactly one transaction body, with
      two bytes skipped before the counts when it was told to skip them. */
  lemma ReadBytesAreABody(data: seq<byte>, segwit: bool, target: nat) returns (t: Tx, head: seq<byte>)
    requires Run([data], segwit, target).At?
    ensures t.flag.Some? == segwit && ValidBody(t) && HeadFits(t, head)
    ensures var (q, found) := Run([data], segwit, target).value;
      && |q.left| == 1 && data == Laid(t, head) + q.left[0]
      && q.hashed == NonWitness(t) && found == OutputValue(t, target)
  {
    hide AfterHeader, Inner, WitnessesBytes, Fixed, CountValue, FromLE, ValidIn, ValidOut, ValidWitness;
    var version, p;
    version, head, p := HeadEats(data, segwit);
    var inner := InnerEats(p, segwit, target);
    var q := AfterHeader(p, segwit, target).value.0;
    t := inner.(version := version, flag := if segwit then Some(head[1]) else None);
    assert Inner(t) == Inner(inner) by { SameInner(inner, version, t.flag); }
    assert data == Laid(t, head) + q.left[0];
  }

  /** With the marker peeked at correctly, it has walked over exactly one transaction. */
  lemma ReadBytesAreATransaction(data: seq<byte>, target: nat) returns (t: Tx)
    requires Run([data], Marked(data), target).At?
    ensures var (q, found) := Run([data], Marked(data), target).value;
      && ValidTx(t) && |q.left| == 1 && data == Serialize(t) + q.left[0]
      && q.hashed == NonWitness(t) && found == OutputValue(t, target)
  {
    hide Run, WitnessesBytes, InsBytes, OutsBytes, OutputValue, NonWitness, CountValue;
    var head;
    t, head := ReadBytesAreABody(data, Marked(data), target);
    var q := Run([data], Marked(data), target).value.0;
    HeadIsFifth(t, head, q.left[0]);
    assert head == MarkerAndFlag(t);
  }

  lemma HeadIsFifth(t: Tx, head: seq<byte>, rest: seq<byte>)
    requires ValidBody(t) && HeadFits(t, head)
    ensures var data := Laid(t, head) + rest;
      |data| > 4 && data[4] == if head == [] then t.inCount[0] else head[0]
    ensures head != [] ==> |head| == 2
  {
    hide WitnessesBytes, InsBytes, OutsBytes;
    var more := InsBytes(t.ins) + t.outCount + OutsBytes(t.outs) + WitnessesBytes(t.witnesses) + t.lockTime + rest;
    assert Laid(t, head) + rest == t.version + (head + (t.inCount + more));
  }

  lemma SameInner(t: Tx, version: seq<byte>, flag: Option<byte>)
    ensures Inner(t.(version := version, flag := flag)) == Inner(t)
  {
  }

  /** PrevTxnValidator.VerdictOn for a host whose bytes all arrive before its first refusal and are
      peeked at correctly. */
  function WholeVerdict(h: Hash, data: seq<byte>, input: TxnInput): Verdict {
    VerdictOn(h, [data], if Marked(data) then 0 else 1, input)
  }

  ghost predicate Backs(h: Hash, t: Tx, data: seq<byte>, input: TxnInput) {
    && ValidTx(t) && Serialize(t) <= data
    && h(h(NonWitness(t))) == input.prevTxnHash && OutputValue(t, input.prevOutputIndex) == input.value
  }

  /** The validator accepts exactly when the bytes start with a transaction whose id is the declared
      previous hash and whose selected output carries the declared value. */
  lemma AcceptsExactlyBackedInputs(h: Hash, data: seq<byte>, input: TxnInput)
    ensures WholeVerdict(h, data, input) == Success <==> exists t: Tx :: Backs(h, t, data, input)
  {
    hide Run, Serialize, ValidTx, OutputValue, NonWitness;
    if WholeVerdict(h, data, input) == Success {
      var t := ReadBytesAreATransaction(data, input.prevOutputIndex);
      assert Backs(h, t, data, input);
    }
    if t: Tx :| Backs(h, t, data, input) {
      PrefixIsRead(t, input.prevOutputIndex, data);
    }
  }

  lemma PrefixIsRead(t: Tx, target: nat, data: seq<byte>)
    requires ValidTx(t) && Serialize(t) <= data
    ensures Run([data], Marked(data), target).At?
    ensures Run([data], Marked(data), target).value.0.hashed == NonWitness(t)
    ensures Run([data], Marked(data), target).value.1 == OutputValue(t, target)
  {
    hide Run, Serialize, ValidTx;
    var rest := data[|Serialize(t)|..];
    assert data == Serialize(t) + rest;
    SerializedTransactionIsRead(t, target, rest);
  }

  /** Naming an output the transaction does not have is accepted, for the value 0 and no other. */
  lemma MissingOutputCountsAsZero(h: Hash, t: Tx, data: seq<byte>, input: TxnInput)
    requires ValidTx(t) && Serialize(t) <= data && h(h(NonWitness(t))) == input.prevTxnHash
    requires input.prevOutputIndex >= |t.outs|
    ensures WholeVerdict(h, data, input) == Success <==> input.value == 0
  {
    hide Run;
    PrefixIsRead(t, input.prevOutputIndex, data);
  }
}
