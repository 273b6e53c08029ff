/** The wire format's account of a dry count: the bytes end inside a count or length field. */
module PrevTxnDry {
  import opened Bytes
  import opened ByteStreams
  import opened PrevTxnWalk
  import opened PrevTxnFormat
  import opened PrevTxnTheorems
  import opened PrevTxnRefusals

  /** A count or length field without its end; possibly nothing of it. */
  predicate CutCount(c: seq<byte>) {
    c == [] || |c| < 1 + ExtraBytes(c[0])
  }

  /** The field the bytes end in, with what stands before it in an input, output or witness. */
  datatype Gap =
    | InputCount
    | ScriptLength(outpoint: seq<byte>)
    | OutputCount
    | OutputLength(value: seq<byte>)
    | ItemCount
    | ItemLength(part: Witness)

  /** What the complete fields before the gap are; t holds the complete inputs, outputs, witnesses. */
  predicate GapFits(t: Tx, gap: Gap) {
    && (!gap.InputCount? ==> IsCount(t.inCount) && forall i <- t.ins :: ValidIn(i))
    && (gap.ScriptLength? ==> |t.ins| < CountValue(t.inCount) && |gap.outpoint| == 36)
    && (!gap.InputCount? && !gap.ScriptLength? ==> |t.ins| == CountValue(t.inCount))
    && (gap.OutputLength? || gap.ItemCount? || gap.ItemLength? ==>
          IsCount(t.outCount) && forall o <- t.outs :: ValidOut(o))
    && (gap.OutputLength? ==> |t.outs| < CountValue(t.outCount) && |gap.value| == 8)
    && (gap.ItemCount? || gap.ItemLength? ==> |t.outs| == CountValue(t.outCount) && WitnessGapFits(t))
    && (gap.ItemLength? ==> ItemGapFits(gap.part))
  }

  predicate WitnessGapFits(t: Tx) {
    t.flag.Some? && |t.witnesses| < |t.ins| && forall w <- t.witnesses :: ValidWitness(w)
  }

  predicate ItemGapFits(w: Witness) {
    IsCount(w.count) && |w.items| < CountValue(w.count) && forall i <- w.items :: ValidItem(i)
  }

  /** The complete fields before the gap, from the input count on. */
  function Before(t: Tx, gap: Gap): seq<byte> {
    match gap
    case InputCount => []
    case ScriptLength(outpoint) => t.inCount + InsBytes(t.ins) + outpoint
    case OutputCount => t.inCount + InsBytes(t.ins)
    case OutputLength(value) => Inner(t) + value
    case ItemCount => Inner(t) + WitnessesBytes(t.witnesses)
    case ItemLength(w) => Inner(t) + WitnessesBytes(t.witnesses) + w.count + ItemsBytes(w.items)
  }

  /** The data ends in the gap, c being what is there of the field. */
  predicate EndsIn(data: seq<byte>, t: Tx, head: seq<byte>, gap: Gap, c: seq<byte>) {
    && |t.version| == 4 && HeadFits(t, head) && GapFits(t, gap) && CutCount(c)
    && data == t.version + head + Before(t, gap) + c
  }

  predicate Dries(w: Walk<Place>) {
    if w.At? then w.value.dry else w.dry
  }

  // ---- Where a stage dries, the bytes end in one of its counts.

  lemma CountDries(p: Place, hashing: bool)
    requires Fresh(p)
    ensures AfterCount(p, hashing).dry <==> CutCount(p.left[0])
    ensures AfterCount(p, hashing).dry ==>
      AfterCount(p, hashing) == Place(p.hashed, [[]], true) && ReadCount(p.left).value == 0
  {
    assert p.hashed + [] == p.hashed;
  }

  lemma FixedDoesNot(p: Place, n: nat, hashing: bool)
    requires Fresh(p)
    ensures !Dries(Fixed(p, n, hashing)) && !Dries(Body(p, n, hashing))
  {
  }

  lemma InputDries(p: Place) returns (outpoint: seq<byte>, c: seq<byte>)
    requires Fresh(p) && Dries(Input(p))
    ensures |outpoint| == 36 && CutCount(c) && p.left[0] == outpoint + c
  {
    hide Take, ReadCount, CutCount, Eats;
    FixedDoesNot(p, 32, true);
    var a := FixedEats(p, 32, true);
    var p1 := Fixed(p, 32, true).value;
    assert Eats(p, p1, a, true);
    assert Fresh(p1) by { Ends(p, p1, a); }
    FixedDoesNot(p1, 4, true);
    var b := FixedEats(p1, 4, true);
    var p2 := Fixed(p1, 4, true).value;
    EatsBoth(p, p1, p2, a, b, true);
    Ends(p, p2, a + b);
    var p3 := AfterCount(p2, true);
    CountDries(p2, true);
    if !p3.dry {
      var raw := CountEats(p2, true);
      Ends(p2, p3, raw);
      FixedDoesNot(p3, ReadCount(p2.left).value, true);
      var script := BodyEats(p3, ReadCount(p2.left).value, true);
      Ends(p3, Body(p3, ReadCount(p2.left).value, true).value, script);
      FixedDoesNot(Body(p3, ReadCount(p2.left).value, true).value, 4, true);
      assert false;
    }
    outpoint, c := a + b, p2.left[0];
  }

  lemma Ends(p: Place, q: Place, a: seq<byte>)
    requires Eats(p, q, a, true) || Eats(p, q, a, false)
    ensures Fresh(q) && p.left[0] == a + q.left[0]
  {
  }

  lemma {:induction false} InputsDry(n: nat, p: Place) returns (ins: seq<TxIn>, outpoint: seq<byte>, c: seq<byte>)
    requires Fresh(p) && Dries(Inputs(n, p))
    ensures |ins| < n && (forall i <- ins :: ValidIn(i)) && |outpoint| == 36 && CutCount(c)
    ensures p.left[0] == InsBytes(ins) + outpoint + c
  {
    hide Input, ValidIn, InBytes, CutCount;
    if Dries(Input(p)) {
      ins := [];
      outpoint, c := InputDries(p);
      assert [] + outpoint == outpoint;
    } else {
      var i := InputEats(p);
      var more;
      more, outpoint, c := InputsDry(n - 1, Input(p).value);
      ins := [i] + more;
      assert ins[1..] == more;
      assert p.left[0] == InBytes(i) + (InsBytes(more) + outpoint + c);
    }
  }

  lemma OutputDries(p: Place) returns (value: seq<byte>, c: seq<byte>)
    requires Fresh(p) && Dries(Output(p))
    ensures |value| == 8 && CutCount(c) && p.left[0] == value + c
  {
    hide Take, ReadCount, CutCount, Eats;
    FixedDoesNot(p, 8, true);
    value := FixedEats(p, 8, true);
    var p1 := Fixed(p, 8, true).value;
    Ends(p, p1, value);
    CountDries(p1, true);
    var p2 := AfterCount(p1, true);
    if !p2.dry {
      var raw := CountEats(p1, true);
      Ends(p1, p2, raw);
      FixedDoesNot(p2, ReadCount(p1.left).value, true);
      assert false;
    }
    c := p1.left[0];
  }

  lemma {:induction false} OutputsDry(k: nat, n: nat, target: nat, found: nat, p: Place)
    returns (outs: seq<TxOut>, value: seq<byte>, c: seq<byte>)
    requires k <= n && Fresh(p) && Dries(Where(Outputs(k, n, target, found, p)))
    ensures |outs| < n - k && (forall o <- outs :: ValidOut(o)) && |value| == 8 && CutCount(c)
    ensures p.left[0] == OutsBytes(outs) + value + c
    decreases n - k
  {
    hide Output, ValidOut, FromLE, OutBytes, CutCount;
    if Dries(Output(p)) {
      outs := [];
      value, c := OutputDries(p);
      assert [] + value == value;
    } else {
      var o := OutputEats(p);
      OutputsStep(k, n, target, found, p);
      var more;
      var found' := if k == target then FromLE(p.left[0][..8]) else found;
      more, value, c := OutputsDry(k + 1, n, target, found', Output(p).value);
      outs := [o] + more;
      assert outs[1..] == more;
      Ends(p, Output(p).value, OutBytes(o));
      assert p.left[0] == OutBytes(o) + (OutsBytes(more) + value + c);
    }
  }

  lemma {:induction false} ItemsDry(n: nat, p: Place) returns (items: seq<Item>, c: seq<byte>)
    requires Fresh(p) && Dries(WitnessItems(n, p))
    ensures |items| < n && (forall i <- items :: ValidItem(i)) && CutCount(c) && p.left[0] == ItemsBytes(items) + c
  {
    hide Take, ReadCount, CutCount, CountValue;
    CountDries(p, false);
    var p1 := AfterCount(p, false);
    if p1.dry {
      items, c := [], p.left[0];
    } else {
      var n1 := ReadCount(p.left).value;
      var raw := CountEats(p, false);
      FixedDoesNot(p1, n1, false);
      var body := BodyEats(p1, n1, false);
      var more;
      more, c := ItemsDry(n - 1, Body(p1, n1, false).value);
      items := [Item(raw, body)] + more;
      assert items[1..] == more;
      assert p.left[0] == raw + body + (ItemsBytes(more) + c);
    }
  }

  lemma OneMoreWitness(raw: seq<byte>, items: seq<Item>, more: seq<Witness>, rest: seq<byte>)
    ensures WitnessesBytes([Witness(raw, items)] + more) + rest
         == raw + (ItemsBytes(items) + (WitnessesBytes(more) + rest))
  {
    assert ([Witness(raw, items)] + more)[1..] == more;
  }

  /** The gap is a witness's item count, or the length of an item in w. */
  lemma {:induction false} WitnessesDry(n: nat, p: Place) returns (ws: seq<Witness>, w: Option<Witness>, c: seq<byte>)
    requires Fresh(p) && Dries(Witnesses(n, p))
    ensures |ws| < n && (forall v <- ws :: ValidWitness(v)) && CutCount(c) && (w.Some? ==> ItemGapFits(w.value))
    ensures p.left[0] == WitnessesBytes(ws) + (Partial(w) + c)
  {
    hide Take, ReadCount, CutCount, CountValue, WitnessItems, WitnessesBytes, ItemsBytes, Eats;
    CountDries(p, false);
    var p1 := AfterCount(p, false);
    if p1.dry {
      ws, w, c := [], None, p.left[0];
      assert WitnessesBytes([]) == [] by { NoWitnesses(); }
      assert [] + ([] + c) == c;
    } else {
      var n1 := ReadCount(p.left).value;
      var raw := CountEats(p, false);
      Ends(p, p1, raw);
      if Dries(WitnessItems(n1, p1)) {
        var items;
        items, c := ItemsDry(n1, p1);
        ws, w := [], Some(Witness(raw, items));
        assert WitnessesBytes([]) == [] by { NoWitnesses(); }
        assert [] + (raw + ItemsBytes(items) + c) == raw + (ItemsBytes(items) + c);
      } else {
        var items := ItemsEat(n1, p1);
        Ends(p1, WitnessItems(n1, p1).value, ItemsBytes(items));
        var more;
        more, w, c := WitnessesDry(n - 1, WitnessItems(n1, p1).value);
        ws := [Witness(raw, items)] + more;
        OneMoreWitness(raw, items, more, Partial(w) + c);
      }
    }
  }

  lemma NoWitnesses()
    ensures WitnessesBytes([]) == []
  {
  }

  function Partial(w: Option<Witness>): seq<byte> {
    if w.None? then [] else w.value.count + ItemsBytes(w.value.items)
  }

  // ---- Bytes that end in a count dry the stage that reads it.

  lemma InputMeetsGap(hashed: seq<byte>, outpoint: seq<byte>, c: seq<byte>)
    requires |outpoint| == 36 && CutCount(c)
    ensures Input(On(hashed, outpoint + c)) == Stopped(true)
  {
    hide Take, ReadCount, CutCount;
    var a, b := outpoint[..32], outpoint[32..];
    assert outpoint + c == a + (b + c);
    FixedReads(hashed, a, b + c, true);
    FixedReads(hashed + a, b, c, true);
    CountDries(On(hashed + a + b, c), true);
    DryStops(AfterCount(On(hashed + a + b, c), true), 4, true);
  }

  lemma {:induction false} InputsMeetGap(n: nat, hashed: seq<byte>, ins: seq<TxIn>, outpoint: seq<byte>, c: seq<byte>)
    requires |ins| < n && (forall i <- ins :: ValidIn(i)) && |outpoint| == 36 && CutCount(c)
    ensures Inputs(n, On(hashed, InsBytes(ins) + (outpoint + c))) == Stopped(true)
  {
    hide Input, ValidIn, InBytes, CutCount;
    if ins == [] {
      InputMeetsGap(hashed, outpoint, c);
      assert [] + (outpoint + c) == outpoint + c;
    } else {
      var rest := InsBytes(ins[1..]) + (outpoint + c);
      assert InsBytes(ins) + (outpoint + c) == InBytes(ins[0]) + rest;
      InputReads(hashed, ins[0], rest);
      InputsMeetGap(n - 1, hashed + InBytes(ins[0]), ins[1..], outpoint, c);
    }
  }

  lemma OutputMeetsGap(hashed: seq<byte>, value: seq<byte>, c: seq<byte>)
    requires |value| == 8 && CutCount(c)
    ensures Output(On(hashed, value + c)).At? && Output(On(hashed, value + c)).value.dry
  {
    hide Take, ReadCount, CutCount;
    FixedReads(hashed, value, c, true);
    CountDries(On(hashed + value, c), true);
  }

  lemma {:induction false} OutputsMeetGap(k: nat, n: nat, target: nat, found: nat, hashed: seq<byte>, outs: seq<TxOut>,
                                          value: seq<byte>, c: seq<byte>)
    requires |outs| < n - k && (forall o <- outs :: ValidOut(o)) && |value| == 8 && CutCount(c)
    ensures Dries(Where(Outputs(k, n, target, found, On(hashed, OutsBytes(outs) + (value + c)))))
    decreases n - k
  {
    hide Output, ValidOut, FromLE, OutBytes, CutCount;
    var p := On(hashed, OutsBytes(outs) + (value + c));
    if outs == [] {
      OutputMeetsGap(hashed, value, c);
      assert [] + (value + c) == value + c;
      OutputsStep(k, n, target, found, p);
    } else {
      var rest := OutsBytes(outs[1..]) + (value + c);
      assert OutsBytes(outs) + (value + c) == OutBytes(outs[0]) + rest;
      OutputReads(hashed, outs[0], rest);
      OutputTakesAValue(p);
      OutputsStep(k, n, target, found, p);
      OutputsMeetGap(k + 1, n, target, if k == target then FromLE(p.left[0][..8]) else found,
                     hashed + OutBytes(outs[0]), outs[1..], value, c);
    }
  }

  lemma {:induction false} ItemsMeetGap(n: nat, hashed: seq<byte>, items: seq<Item>, c: seq<byte>)
    requires |items| < n && (forall i <- items :: ValidItem(i)) && CutCount(c)
    ensures Dries(WitnessItems(n, On(hashed, ItemsBytes(items) + c)))
  {
    hide Take, ReadCount, CutCount, CountValue;
    if items == [] {
      assert [] + c == c;
      CountDries(On(hashed, c), false);
    } else {
      var i, rest := items[0], ItemsBytes(items[1..]) + c;
      assert i in items;
      assert ItemsBytes(items) + c == i.length + (i.body + rest);
      CountReads(i.length, i.body + rest);
      FixedReads(hashed, i.body, rest, false);
      ItemsMeetGap(n - 1, hashed, items[1..], c);
    }
  }

  lemma {:induction false} WitnessesMeetGap(n: nat, hashed: seq<byte>, ws: seq<Witness>, w: Option<Witness>,
                                            c: seq<byte>)
    requires |ws| < n && (forall v <- ws :: ValidWitness(v)) && CutCount(c) && (w.Some? ==> ItemGapFits(w.value))
    ensures Dries(Witnesses(n, On(hashed, WitnessesBytes(ws) + (Partial(w) + c))))
  {
    hide Take, ReadCount, CutCount, CountValue, WitnessItems, ItemsBytes, WitnessesBytes, ItemGapFits, ValidItem;
    if ws != [] {
      var v, rest := ws[0], WitnessesBytes(ws[1..]) + (Partial(w) + c);
      assert v in ws;
      OneMoreWitness(v.count, v.items, ws[1..], Partial(w) + c);
      assert ws == [v] + ws[1..];
      CountReads(v.count, ItemsBytes(v.items) + rest);
      ItemsRead(hashed, v.items, rest);
      WitnessesMeetGap(n - 1, hashed, ws[1..], w, c);
    } else if w.None? {
      NoWitnesses();
      assert [] + ([] + c) == c;
      CountDries(On(hashed, c), false);
    } else {
      NoWitnesses();
      var v := w.value;
      ItemGapParts(v);
      assert [] + (Partial(w) + c) == v.count + (ItemsBytes(v.items) + c);
      CountReads(v.count, ItemsBytes(v.items) + c);
      ItemsMeetGap(CountValue(v.count), hashed, v.items, c);
    }
  }

  lemma ItemGapParts(w: Witness)
    requires ItemGapFits(w)
    ensures IsCount(w.count) && |w.items| < CountValue(w.count) && forall i <- w.items :: ValidItem(i)
  {
  }

  // ---- The whole walk.

  /** Nothing recovers from a dry count on one segment. */
  lemma DryStays(p: Place, segwit: bool, target: nat)
    requires Thin(p)
    ensures var p1 := AfterCount(p, true);
      var w := Inputs(ReadCount(p.left).value, p1);
      AfterHeader(p, segwit, target) == Stopped(true) <==>
      Dries(w) || (w.At? && DriesLater(w.value, ReadCount(p.left).value, segwit, target))
  {
    hide Take, ReadCount, Inputs, Outputs, Witnesses;
    var ins := ReadCount(p.left).value;
    var w := Inputs(ins, AfterCount(p, true));
    if w.At? {
      var v := Outputs(0, ReadCount(w.value.left).value, target, 0, AfterCount(w.value, true));
      if v.At? {
        var u := Witnesses(if segwit then ins else 0, v.value.0);
        if u.At? && u.value.dry { DryStops(u.value, 4, true); }
        if u.At? && !u.value.dry { FixedDoesNot(u.value, 4, true); }
      }
    }
  }

  /** Outputs or witnesses of a walk that has left ins inputs behind dry up. */
  predicate DriesLater(p: Place, ins: nat, segwit: bool, target: nat) {
    var w := Where(Outputs(0, ReadCount(p.left).value, target, 0, AfterCount(p, true)));
    Dries(w) || (w.At? && Dries(Witnesses(if segwit then ins else 0, w.value)))
  }

  /** Where the walk after the header dries, its bytes end in a gap. */
  lemma DryHasAGap(p: Place, segwit: bool, target: nat) returns (t: Tx, gap: Gap, c: seq<byte>)
    requires Fresh(p) && AfterHeader(p, segwit, target) == Stopped(true)
    ensures t.flag.Some? == segwit && GapFits(t, gap) && CutCount(c) && p.left[0] == Before(t, gap) + c
  {
    hide Take, ReadCount, CutCount, CountValue, Inputs, Outputs, Witnesses, Eats, ValidIn, ValidOut, ValidWitness,
      ItemGapFits, InsBytes, OutsBytes, WitnessesBytes, Partial, AfterHeader;
    t := Tx([], if segwit then Some(0) else None, [], [], [], [], [], []);
    DryStays(p, segwit, target);
    CountDries(p, true);
    var p1, n := AfterCount(p, true), ReadCount(p.left).value;
    if p1.dry {
      gap, c := InputCount, p.left[0];
      assert [] + c == c;
      return;
    }
    var raw := CountEats(p, true);
    Ends(p, p1, raw);
    t := t.(inCount := raw);
    if Dries(Inputs(n, p1)) {
      var ins, outpoint;
      ins, outpoint, c := InputsDry(n, p1);
      t, gap := t.(ins := ins), ScriptLength(outpoint);
      assert p.left[0] == raw + InsBytes(ins) + outpoint + c;
      return;
    }
    var ins := InputsEat(n, p1);
    var q := Inputs(n, p1).value;
    Ends(p1, q, InsBytes(ins));
    t := t.(ins := ins);
    assert p.left[0] == raw + InsBytes(ins) + q.left[0];
    t, gap, c := LaterHasAGap(q, n, t, segwit, target);
    assert p.left[0] == Before(t, gap) + c;
  }

  /** The same after the inputs, which t holds. */
  lemma LaterHasAGap(p: Place, n: nat, inputs: Tx, segwit: bool, target: nat) returns (t: Tx, gap: Gap, c: seq<byte>)
    requires Fresh(p) && DriesLater(p, n, segwit, target)
    requires inputs.flag.Some? == segwit && Counts(inputs.inCount, n) && n == |inputs.ins|
    requires forall i <- inputs.ins :: ValidIn(i)
    ensures t.flag.Some? == segwit && GapFits(t, gap) && CutCount(c)
    ensures inputs.inCount + InsBytes(inputs.ins) + p.left[0] == Before(t, gap) + c
  {
    hide Take, ReadCount, CutCount, CountValue, Outputs, Witnesses, Eats, ValidIn, ValidOut, ValidWitness,
      ItemGapFits, InsBytes, OutsBytes, WitnessesBytes, Before, Partial;
    CountDries(p, true);
    var p1, m := AfterCount(p, true), ReadCount(p.left).value;
    if p1.dry {
      t, gap, c := inputs, OutputCount, p.left[0];
      BeforeParts(t, gap, c);
      return;
    }
    var raw := CountEats(p, true);
    Ends(p, p1, raw);
    t := inputs.(outCount := raw);
    if Dries(Where(Outputs(0, m, target, 0, p1))) {
      var outs, value;
      outs, value, c := OutputsDry(0, m, target, 0, p1);
      t, gap := t.(outs := outs), OutputLength(value);
      assert OutsBytes(outs) + value + c == OutsBytes(outs) + (value + c);
      BeforeParts(t, gap, c);
      return;
    }
    var outs := OutputsEat(0, m, target, 0, p1);
    var q := Outputs(0, m, target, 0, p1).value.0;
    Ends(p1, q, OutsBytes(outs));
    t := t.(outs := outs);
    t, gap, c := WitnessesHaveAGap(q, t, segwit);
  }

  lemma WitnessesHaveAGap(p: Place, body: Tx, segwit: bool) returns (t: Tx, gap: Gap, c: seq<byte>)
    requires Fresh(p) && Dries(Witnesses(if segwit then |body.ins| else 0, p)) && body.flag.Some? == segwit
    requires Counts(body.inCount, |body.ins|) && forall i <- body.ins :: ValidIn(i)
    requires Counts(body.outCount, |body.outs|) && forall o <- body.outs :: ValidOut(o)
    ensures t.flag.Some? == segwit && GapFits(t, gap) && CutCount(c)
    ensures body.inCount + InsBytes(body.ins) + (body.outCount + (OutsBytes(body.outs) + p.left[0]))
         == Before(t, gap) + c
  {
    hide CutCount, CountValue, Witnesses, ValidIn, ValidOut, ValidWitness, ItemGapFits, InsBytes, OutsBytes,
      WitnessesBytes, Before, Partial;
    var ws, w;
    ws, w, c := WitnessesDry(if segwit then |body.ins| else 0, p);
    t, gap := body.(witnesses := ws), if w.None? then ItemCount else ItemLength(w.value);
    BeforeParts(t, gap, c);
  }

  lemma BeforeParts(t: Tx, gap: Gap, c: seq<byte>)
    requires !gap.InputCount? && !gap.ScriptLength?
    ensures Before(t, gap) + c == t.inCount + InsBytes(t.ins) + match gap
      case OutputCount => c
      case OutputLength(value) => t.outCount + (OutsBytes(t.outs) + (value + c))
      case ItemCount => t.outCount + (OutsBytes(t.outs) + (WitnessesBytes(t.witnesses) + (Partial(None) + c)))
      case ItemLength(w) => t.outCount + (OutsBytes(t.outs) + (WitnessesBytes(t.witnesses) + (Partial(Some(w)) + c)))
      case _ => []
  {
    hide InsBytes, OutsBytes, WitnessesBytes, ItemsBytes;
  }

  /** And where the bytes end in a gap, the walk dries. */
  lemma GapDries(hashed: seq<byte>, t: Tx, gap: Gap, c: seq<byte>, target: nat)
    requires GapFits(t, gap) && CutCount(c)
    ensures AfterHeader(On(hashed, Before(t, gap) + c), t.flag.Some?, target) == Stopped(true)
  {
    hide Take, ReadCount, CutCount, CountValue, Inputs, AfterHeader, InsBytes, OutsBytes, WitnessesBytes, ValidIn;
    var p := On(hashed, Before(t, gap) + c);
    DryStays(p, t.flag.Some?, target);
    if gap.InputCount? {
      assert [] + c == c;
      CountDries(p, true);
      NothingToRead(AfterCount(p, true));
    } else if gap.ScriptLength? {
      var rest := InsBytes(t.ins) + (gap.outpoint + c);
      assert Before(t, gap) + c == t.inCount + rest;
      CountReads(t.inCount, rest);
      InputsMeetGap(CountValue(t.inCount), hashed + t.inCount, t.ins, gap.outpoint, c);
    } else {
      var later := After(t, gap) + c;
      assert Before(t, gap) + c == t.inCount + (InsBytes(t.ins) + later) by { Split(t, gap, c); }
      CountReads(t.inCount, InsBytes(t.ins) + later);
      InputsRead(hashed + t.inCount, t.ins, later);
      LaterGapDries(hashed + t.inCount + InsBytes(t.ins), t, gap, c, target);
    }
  }

  /** The complete fields between the inputs and a later gap. */
  function After(t: Tx, gap: Gap): seq<byte> {
    match gap
    case InputCount => []
    case ScriptLength(_) => []
    case OutputCount => []
    case OutputLength(value) => t.outCount + OutsBytes(t.outs) + value
    case ItemCount => t.outCount + OutsBytes(t.outs) + WitnessesBytes(t.witnesses)
    case ItemLength(w) => t.outCount + OutsBytes(t.outs) + WitnessesBytes(t.witnesses) + w.count + ItemsBytes(w.items)
  }

  lemma Split(t: Tx, gap: Gap, c: seq<byte>)
    requires !gap.InputCount? && !gap.ScriptLength?
    ensures Before(t, gap) + c == t.inCount + (InsBytes(t.ins) + (After(t, gap) + c))
  {
    hide InsBytes, OutsBytes, WitnessesBytes, ItemsBytes;
  }

  lemma LaterGapDries(hashed: seq<byte>, t: Tx, gap: Gap, c: seq<byte>, target: nat)
    requires GapFits(t, gap) && CutCount(c) && !gap.InputCount? && !gap.ScriptLength?
    ensures DriesLater(On(hashed, After(t, gap) + c), |t.ins|, t.flag.Some?, target)
  {
    hide Take, ReadCount, CutCount, CountValue, Outputs, Witnesses, OutsBytes, WitnessesBytes, ItemsBytes, ValidOut,
      ValidWitness, ItemGapFits, ValidIn;
    var p := On(hashed, After(t, gap) + c);
    if gap.OutputCount? {
      assert [] + c == c;
      CountDries(p, true);
      NothingToRead(AfterCount(p, true));
    } else if gap.OutputLength? {
      var rest := OutsBytes(t.outs) + (gap.value + c);
      assert After(t, gap) + c == t.outCount + rest;
      CountReads(t.outCount, rest);
      OutputsMeetGap(0, CountValue(t.outCount), target, 0, hashed + t.outCount, t.outs, gap.value, c);
    } else {
      var w := if gap.ItemCount? then None else Some(gap.part);
      var rest := WitnessesBytes(t.witnesses) + (Partial(w) + c);
      assert After(t, gap) + c == t.outCount + (OutsBytes(t.outs) + rest);
      CountReads(t.outCount, OutsBytes(t.outs) + rest);
      assert t.outs[0..] == t.outs;
      OutputsRead(hashed + t.outCount, t.outs, 0, target, 0, rest);
      WitnessesMeetGap(|t.ins|, hashed + t.outCount + OutsBytes(t.outs), t.witnesses, w, c);
    }
  }

  /** A refusal can be turned into an acceptance exactly after bytes that end in a count or length:
      after all complete fields before it, with only a part of it or nothing there. */
  lemma DriesUpExactlyInACount(data: seq<byte>, peek: byte)
    ensures DriesUp(data, peek) <==>
      exists t: Tx, head: seq<byte>, gap: Gap, c: seq<byte> ::
        t.flag.Some? == (peek == 0) && EndsIn(data, t, head, gap, c)
  {
    hide AfterHeader, GapFits, CutCount, Before, Take;
    if DriesUp(data, peek) {
      var version, head, p := HeadEats(data, peek == 0);
      var t, gap, c := DryHasAGap(p, peek == 0, 0);
      var t' := t.(version := version, flag := if peek == 0 then Some(head[1]) else None);
      Renamed(t, t', gap);
      assert data == version + head + Before(t', gap) + c;
      assert EndsIn(data, t', head, gap, c);
    }
    if t: Tx, head: seq<byte>, gap: Gap, c: seq<byte> :| t.flag.Some? == (peek == 0) && EndsIn(data, t, head, gap, c) {
      var r := Before(t, gap) + c;
      assert data == t.version + (head + r);
      FixedReads([], t.version, head + r, true);
      assert [] + t.version == t.version;
      FixedReads(t.version, head, r, false);
      assert head == [] ==> head + r == r;
      GapDries(t.version, t, gap, c, 0);
    }
  }

  lemma Renamed(t: Tx, u: Tx, gap: Gap)
    requires u == t.(version := u.version, flag := u.flag) && u.flag.Some? == t.flag.Some?
    ensures GapFits(t, gap) <==> GapFits(u, gap)
    ensures Before(t, gap) == Before(u, gap)
  {
  }
}
