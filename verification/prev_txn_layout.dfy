/** Previous transactions byte by byte: what the serialization consists of, and the verdict on a
    transaction with one input and one output written out. */
module PrevTxnLayout {
  import opened Bytes
  import opened ByteStreams
  import opened PrevTxnWalk
  import opened PrevTxnFormat
  import opened PrevTxnValidator

  // ---- Lists, from their ends.

  lemma {:induction false} InputsAppend(ins: seq<TxIn>, i: TxIn)
    ensures InsBytes(ins + [i]) == InsBytes(ins) + InBytes(i)
  {
    hide InBytes;
    if ins == [] {
      assert [i][1..] == [] && ins + [i] == [i];
    } else {
      InputsAppend(ins[1..], i);
      assert (ins + [i])[1..] == ins[1..] + [i];
    }
  }

  lemma InputsLaidOut(ins: seq<TxIn>, i: TxIn)
    ensures InsBytes([]) == []
    ensures InsBytes(ins + [i]) == InsBytes(ins) + i.outpoint + i.length + i.script + i.sequence
  {
    InputsAppend(ins, i);
  }

  lemma {:induction false} OutputsAppend(outs: seq<TxOut>, o: TxOut)
    ensures OutsBytes(outs + [o]) == OutsBytes(outs) + OutBytes(o)
  {
    hide OutBytes;
    if outs == [] {
      assert [o][1..] == [] && outs + [o] == [o];
    } else {
      OutputsAppend(outs[1..], o);
      assert (outs + [o])[1..] == outs[1..] + [o];
    }
  }

  lemma OutputsLaidOut(outs: seq<TxOut>, o: TxOut)
    ensures OutsBytes([]) == []
    ensures OutsBytes(outs + [o]) == OutsBytes(outs) + o.value + o.length + o.script
  {
    OutputsAppend(outs, o);
  }

  lemma {:induction false} ItemsLaidOut(items: seq<Item>, i: Item)
    ensures ItemsBytes([]) == []
    ensures ItemsBytes(items + [i]) == ItemsBytes(items) + i.length + i.body
  {
    if items == [] {
      assert [i][1..] == [] && ItemsBytes([i]) == ItemBytes(i) + [];
    } else {
      ItemsLaidOut(items[1..], i);
      assert (items + [i])[1..] == items[1..] + [i];
    }
  }

  lemma {:induction false} WitnessesLaidOut(ws: seq<Witness>, w: Witness)
    ensures WitnessesBytes([]) == []
    ensures WitnessesBytes(ws + [w]) == WitnessesBytes(ws) + w.count + ItemsBytes(w.items)
  {
    hide ItemsBytes;
    if ws == [] {
      assert [w][1..] == [] && ws + [w] == [w];
    } else {
      WitnessesLaidOut(ws[1..], w);
      assert (ws + [w])[1..] == ws[1..] + [w] && (ws + [w])[0] == ws[0];
    }
  }

  /** Sizes and counts of what can be read back; CountForms says what a count is. */
  lemma WellFormedParts(t: Tx)
    ensures ValidBody(t) <==>
      && |t.version| == 4 && |t.lockTime| == 4
      && Counts(t.inCount, |t.ins|) && Counts(t.outCount, |t.outs|)
      && (forall i <- t.ins :: |i.outpoint| == 36 && Counts(i.length, |i.script|) && |i.sequence| == 4)
      && (forall o <- t.outs :: |o.value| == 8 && Counts(o.length, |o.script|))
      && (forall w <- t.witnesses ::
            Counts(w.count, |w.items|) && forall i <- w.items :: Counts(i.length, |i.body|))
      && (t.flag.Some? ==> |t.witnesses| == |t.ins|) && (t.flag.None? ==> t.witnesses == [])
  {
    hide Counts;
  }

  /** The parts of both serializations, in order; a marker byte 0 and the flag tell the segwit form. */
  lemma SerializationParts(t: Tx)
    ensures var inner := t.inCount + InsBytes(t.ins) + t.outCount + OutsBytes(t.outs);
      && NonWitness(t) == t.version + inner + t.lockTime
      && Serialize(t) == t.version + (match t.flag case None => [] case Some(flag) => [0, flag])
                         + inner + WitnessesBytes(t.witnesses) + t.lockTime
  {
  }

  // ---- One input and one output.

  function OneByte(n: nat): (raw: seq<byte>)
    requires n < 0xfd
    ensures Counts(raw, n)
  {
    [n]
  }

  lemma Single(outpoint: seq<byte>, script: seq<byte>, sequence: seq<byte>, value: seq<byte>, pubkey: seq<byte>)
    requires |script| < 0xfd && |pubkey| < 0xfd
    ensures InsBytes([TxIn(outpoint, [|script|], script, sequence)]) == outpoint + [|script|] + script + sequence
    ensures OutsBytes([TxOut(value, [|pubkey|], pubkey)]) == value + [|pubkey|] + pubkey
  {
    var i, o := TxIn(outpoint, [|script|], script, sequence), TxOut(value, [|pubkey|], pubkey);
    InputsLaidOut([], i);
    OutputsLaidOut([], o);
    assert [] + [i] == [i] && [] + [o] == [o];
    assert [] + outpoint == outpoint && [] + value == value;
  }

  lemma SingleWitness(item: seq<byte>)
    requires |item| < 0xfd
    ensures WitnessesBytes([Witness([1], [Item([|item|], item)])]) == [1, |item|] + item
  {
    var i := Item([|item|], item);
    ItemsLaidOut([], i);
    assert [] + [i] == [i] && [] + [|item|] == [|item|];
    var w := Witness([1], [i]);
    WitnessesLaidOut([], w);
    assert [] + [w] == [w] && [] + [1] == [1];
    assert [1] + ([|item|] + item) == [1, |item|] + item;
  }

  lemma InnerSpread(outpoint: seq<byte>, script: seq<byte>, sequence: seq<byte>, value: seq<byte>, pubkey: seq<byte>)
    requires |script| < 0xfd && |pubkey| < 0xfd
    ensures [1] + (outpoint + [|script|] + script + sequence) + [1] + (value + [|pubkey|] + pubkey)
         == [1] + outpoint + [|script|] + script + sequence + [1] + value + [|pubkey|] + pubkey
  {
  }

  /** A transaction of one input, one output and, in the segwit form, one witness item. */
  lemma Simple(version: seq<byte>, flag: Option<byte>, outpoint: seq<byte>, script: seq<byte>, sequence: seq<byte>,
               value: seq<byte>, pubkey: seq<byte>, item: seq<byte>, lockTime: seq<byte>) returns (t: Tx)
    requires |version| == |sequence| == |lockTime| == 4 && |outpoint| == 36 && |value| == 8
    requires |script| < 0xfd && |pubkey| < 0xfd && |item| < 0xfd
    ensures ValidTx(t) && t.flag == flag
    ensures forall k: nat :: OutputValue(t, k) == if k == 0 then FromLE(value) else 0
    ensures var inner := [1] + outpoint + [|script|] + script + sequence + [1] + value + [|pubkey|] + pubkey;
      && NonWitness(t) == version + inner + lockTime
      && Serialize(t) == if flag.None? then version + inner + lockTime
                         else version + [0, flag.value] + inner + ([1, |item|] + item) + lockTime
  {
    hide Counts, FromLE, InsBytes, OutsBytes, WitnessesBytes, ValidTx, Serialize, NonWitness;
    var i, o := TxIn(outpoint, OneByte(|script|), script, sequence), TxOut(value, OneByte(|pubkey|), pubkey);
    var w := if flag.None? then [] else [Witness(OneByte(1), [Item(OneByte(|item|), item)])];
    t := Tx(version, flag, OneByte(1), [i], OneByte(1), [o], w, lockTime);
    Single(outpoint, script, sequence, value, pubkey);
    SingleWitness(item);
    InnerSpread(outpoint, script, sequence, value, pubkey);
    SerializationParts(t);
    WitnessesLaidOut([], Witness([], []));
    var inner := [1] + outpoint + [|script|] + script + sequence + [1] + value + [|pubkey|] + pubkey;
    assert flag.None? ==> version + [] + inner + [] + lockTime == version + inner + lockTime;
    WellFormedParts(t);
    FirstByteOrFlag(t);
  }

  lemma FirstByteOrFlag(t: Tx)
    requires ValidBody(t) && t.inCount == [1]
    ensures ValidTx(t)
  {
  }

  lemma VerdictOnTransaction(h: Hash, t: Tx, rest: seq<byte>, input: TxnInput)
    requires ValidTx(t)
    ensures VerdictOn(h, [Serialize(t) + rest], if t.flag.Some? then 0 else 1, input) ==
      if h(h(NonWitness(t))) != input.prevTxnHash then InvalidTxHash
      else if OutputValue(t, input.prevOutputIndex) != input.value then InvalidOutputValue
      else Success
  {
    hide Run, ValidTx, Serialize, NonWitness, OutputValue;
    SerializedTransactionIsRead(t, input.prevOutputIndex, rest);
    FifthByte(t, rest);
  }

  /** The verdict on a legacy transaction, byte by byte. */
  lemma LegacyVerdict(h: Hash, version: seq<byte>, outpoint: seq<byte>, script: seq<byte>, sequence: seq<byte>,
                      value: seq<byte>, pubkey: seq<byte>, lockTime: seq<byte>, rest: seq<byte>, input: TxnInput)
    requires |version| == |sequence| == |lockTime| == 4 && |outpoint| == 36 && |value| == 8
    requires |script| < 0xfd && |pubkey| < 0xfd
    ensures var inner := [1] + outpoint + [|script|] + script + sequence + [1] + value + [|pubkey|] + pubkey;
      VerdictOn(h, [version + inner + lockTime + rest], 1, input) ==
        if h(h(version + inner + lockTime)) != input.prevTxnHash then InvalidTxHash
        else if (if input.prevOutputIndex == 0 then FromLE(value) else 0) != input.value then InvalidOutputValue
        else Success
  {
    hide VerdictOn, ValidTx, Serialize, NonWitness, OutputValue;
    var t := Simple(version, None, outpoint, script, sequence, value, pubkey, [], lockTime);
    VerdictOnTransaction(h, t, rest, input);
  }

  /** The same in the segwit form: marker, flag and witness are not hashed. */
  lemma SegwitVerdict(h: Hash, version: seq<byte>, flag: byte, outpoint: seq<byte>, script: seq<byte>,
                      sequence: seq<byte>, value: seq<byte>, pubkey: seq<byte>, item: seq<byte>, lockTime: seq<byte>,
                      rest: seq<byte>, input: TxnInput)
    requires |version| == |sequence| == |lockTime| == 4 && |outpoint| == 36 && |value| == 8
    requires |script| < 0xfd && |pubkey| < 0xfd && |item| < 0xfd
    ensures var inner := [1] + outpoint + [|script|] + script + sequence + [1] + value + [|pubkey|] + pubkey;
      VerdictOn(h, [version + [0, flag] + inner + ([1, |item|] + item) + lockTime + rest], 0, input) ==
        if h(h(version + inner + lockTime)) != input.prevTxnHash then InvalidTxHash
        else if (if input.prevOutputIndex == 0 then FromLE(value) else 0) != input.value then InvalidOutputValue
        else Success
  {
    hide VerdictOn, ValidTx, Serialize, NonWitness, OutputValue;
    var t := Simple(version, Some(flag), outpoint, script, sequence, value, pubkey, item, lockTime);
    VerdictOnTransaction(h, t, rest, input);
  }
}
