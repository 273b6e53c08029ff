/** The previous transaction's wire format (BIP-144) against the walk of btc_validate_inputs. */
module PrevTxnFormat {
  import opened Bytes
  import opened ByteStreams
  import opened PrevTxnWalk

  /** Counts and lengths keep their raw bytes, so that every form decode_varint takes is covered. */
  datatype TxIn = TxIn(outpoint: seq<byte>, length: seq<byte>, script: seq<byte>, sequence: seq<byte>)
  datatype TxOut = TxOut(value: seq<byte>, length: seq<byte>, script: seq<byte>)
  datatype Item = Item(length: seq<byte>, body: seq<byte>)
  datatype Witness = Witness(count: seq<byte>, items: seq<Item>)

  /** flag is present in the segwit form, after a marker byte 0. */
  datatype Tx = Tx(version: seq<byte>, flag: Option<byte>, inCount: seq<byte>, ins: seq<TxIn>,
                   outCount: seq<byte>, outs: seq<TxOut>, witnesses: seq<Witness>, lockTime: seq<byte>)

  predicate IsCount(raw: seq<byte>) {
    raw != [] && |raw| == 1 + ExtraBytes(raw[0])
  }

  predicate Counts(raw: seq<byte>, n: nat) {
    IsCount(raw) && CountValue(raw) == n
  }

  /** The four forms of a count, byte by byte. The longest has eight bytes behind 0xff, of which four
      count. */
  lemma CountForms(raw: seq<byte>, n: nat)
    ensures Counts(raw, n) <==>
      || (|raw| == 1 && raw[0] < 0xfd && n == raw[0])
      || (|raw| == 3 && raw[0] == 0xfd && n == raw[1] as int + 0x100 * raw[2] as int)
      || (|raw| == 5 && raw[0] == 0xfe &&
          n == raw[1] as int + 0x100 * raw[2] as int + 0x1_0000 * raw[3] as int + 0x100_0000 * raw[4] as int)
      || (|raw| == 9 && raw[0] == 0xff &&
          n == raw[1] as int + 0x100 * raw[2] as int + 0x1_0000 * raw[3] as int + 0x100_0000 * raw[4] as int)
  {
    hide FromLE;
    if |raw| == 3 {
      var s := raw[1..];
      assert (s + Zeros(4))[..4] == s + Zeros(2);
      FromLEZeroPadded(s, 2);
      LittleEndianDigits(s);
    } else if |raw| == 5 || |raw| == 9 {
      var s := raw[1..5];
      assert (raw[1..] + Zeros(4))[..4] == s;
      LittleEndianDigits(s);
    }
  }

  /** The canonical CompactSize of n. */
  function Compact(n: nat): (raw: seq<byte>)
    requires n < U32
    ensures Counts(raw, n)
  {
    if n < 0xfd then [n]
    else if n < 0x1_0000 then
      FromLERoundTrip(n, 2);
      FromLEZeroPadded(LE(n, 2), 2);
      assert ([0xfd] + LE(n, 2))[1..] == LE(n, 2) && (LE(n, 2) + Zeros(4))[..4] == LE(n, 2) + Zeros(2);
      [0xfd] + LE(n, 2)
    else
      FromLERoundTrip(n, 4);
      assert ([0xfe] + LE(n, 4))[1..] == LE(n, 4) && (LE(n, 4) + Zeros(4))[..4] == LE(n, 4);
      [0xfe] + LE(n, 4)
  }

  /** Its bytes. */
  lemma CompactForms(n: nat)
    requires n < U32
    ensures n < 0xfd ==> Compact(n) == [n]
    ensures 0xfd <= n < 0x1_0000 ==> Compact(n) == [0xfd, n % 0x100, n / 0x100]
    ensures n >= 0x1_0000 ==>
      Compact(n) == [0xfe, n % 0x100, n / 0x100 % 0x100, n / 0x1_0000 % 0x100, n / 0x100_0000]
  {
    hide Compact;
    CountForms(Compact(n), n);
    CompactLength(n);
    if n >= 0x1_0000 {
      DigitsAreUnique(n, Compact(n));
    }
  }

  lemma CompactLength(n: nat)
    requires n < U32
    ensures |Compact(n)| == if n < 0xfd then 1 else if n < 0x1_0000 then 3 else 5
  {
  }

  lemma DigitsAreUnique(n: nat, raw: seq<byte>)
    requires |raw| == 5
    requires n == raw[1] as int + 0x100 * raw[2] as int + 0x1_0000 * raw[3] as int + 0x100_0000 * raw[4] as int
    ensures raw[1] == n % 0x100 && raw[2] == n / 0x100 % 0x100
    ensures raw[3] == n / 0x1_0000 % 0x100 && raw[4] == n / 0x100_0000
  {
    var a, b, c, d := raw[1] as int, raw[2] as int, raw[3] as int, raw[4] as int;
    LowDigit(n, a, b + 0x100 * (c + 0x100 * d));
    LowDigit(n / 0x100, b, c + 0x100 * d);
    LowDigit(n / 0x100 / 0x100, c, d);
    assert n / 0x100 / 0x100 == n / 0x1_0000 && n / 0x1_0000 / 0x100 == n / 0x100_0000;
  }

  lemma LowDigit(n: nat, low: nat, high: nat)
    requires low < 0x100 && n == low + 0x100 * high
    ensures n % 0x100 == low && n / 0x100 == high
  {
  }

  predicate ValidIn(i: TxIn) {
    |i.outpoint| == 36 && Counts(i.length, |i.script|) && |i.sequence| == 4
  }

  predicate ValidOut(o: TxOut) {
    |o.value| == 8 && Counts(o.length, |o.script|)
  }

  predicate ValidItem(i: Item) {
    Counts(i.length, |i.body|)
  }

  predicate ValidWitness(w: Witness) {
    Counts(w.count, |w.items|) && forall i <- w.items :: ValidItem(i)
  }

  /** Well-formed apart from what stands between version and counts. */
  predicate ValidBody(t: Tx) {
    && |t.version| == 4 && |t.lockTime| == 4
    && Counts(t.inCount, |t.ins|) && (forall i <- t.ins :: ValidIn(i))
    && Counts(t.outCount, |t.outs|) && (forall o <- t.outs :: ValidOut(o))
    && (forall w <- t.witnesses :: ValidWitness(w))
    && |t.witnesses| == if t.flag.Some? then |t.ins| else 0
  }

  predicate ValidTx(t: Tx) {
    // Without a flag the count itself follows the version, so it must not start with the marker.
    ValidBody(t) && (t.flag.None? ==> t.inCount[0] != 0)
  }

  function InBytes(i: TxIn): seq<byte> { i.outpoint + i.length + i.script + i.sequence }
  function OutBytes(o: TxOut): seq<byte> { o.value + o.length + o.script }
  function ItemBytes(i: Item): seq<byte> { i.length + i.body }

  function InsBytes(ins: seq<TxIn>): seq<byte> {
    if ins == [] then [] else InBytes(ins[0]) + InsBytes(ins[1..])
  }

  function OutsBytes(outs: seq<TxOut>): seq<byte> {
    if outs == [] then [] else OutBytes(outs[0]) + OutsBytes(outs[1..])
  }

  function ItemsBytes(items: seq<Item>): seq<byte> {
    if items == [] then [] else ItemBytes(items[0]) + ItemsBytes(items[1..])
  }

  function WitnessesBytes(ws: seq<Witness>): seq<byte> {
    if ws == [] then [] else ws[0].count + ItemsBytes(ws[0].items) + WitnessesBytes(ws[1..])
  }

  function MarkerAndFlag(t: Tx): seq<byte> {
    if t.flag.None? then [] else [0, t.flag.value]
  }

  function Inner(t: Tx): seq<byte> { t.inCount + InsBytes(t.ins) + t.outCount + OutsBytes(t.outs) }

  /** The transaction with the bytes head between version and counts. */
  function Laid(t: Tx, head: seq<byte>): seq<byte> {
    t.version + head + Inner(t) + WitnessesBytes(t.witnesses) + t.lockTime
  }

  /** The transaction as sent by the host. */
  function Serialize(t: Tx): seq<byte> {
    Laid(t, MarkerAndFlag(t))
  }

  /** What the transaction id hashes. */
  function NonWitness(t: Tx): seq<byte> { t.version + Inner(t) + t.lockTime }

  function OutputValue(t: Tx, k: nat): nat {
    if k < |t.outs| then FromLE(t.outs[k].value) else 0
  }

  // ---- A serialized piece is read back, whatever follows it.

  /** A place on a single segment, nothing dry. */
  function On(hashed: seq<byte>, bytes: seq<byte>): Place {
    Place(hashed, [bytes], false)
  }

  lemma FixedReads(hashed: seq<byte>, a: seq<byte>, rest: seq<byte>, hashing: bool)
    ensures Body(On(hashed, a + rest), |a|, hashing) == At(On(if hashing then hashed + a else hashed, rest))
    ensures a != [] ==> Fixed(On(hashed, a + rest), |a|, hashing) == Body(On(hashed, a + rest), |a|, hashing)
  {
    assert (a + rest)[..|a|] == a && (a + rest)[|a|..] == rest;
    if a == [] {
      assert a + rest == rest && hashed + a == hashed;
    } else {
      assert Drop([a + rest], |a|) == [rest];
    }
  }

  lemma CountReads(raw: seq<byte>, rest: seq<byte>)
    requires IsCount(raw)
    ensures ReadCount([raw + rest]) == CountRead(CountValue(raw), raw, [rest])
  {
    var all := raw + rest;
    assert all[..1] == raw[..1] && all[0] == raw[0];
    if |raw| > 1 {
      assert all[1..][..|raw| - 1] == raw[1..] && all[1..][|raw| - 1..] == rest;
      assert raw[..1] + raw[1..] == raw;
    } else {
      assert all[1..] == rest && raw == raw[..1];
    }
  }

  /** What decode_varint makes of the bytes that are left, form by form. */
  lemma ReadCountForms(s: Script)
    ensures var b, more, r := s[0], s[1..], ReadCount(s);
      if |b| >= 1 && b[0] < 0xfd then r == CountRead(b[0], b[..1], [b[1..]] + more)
      else if |b| >= 3 && b[0] == 0xfd then
        r == CountRead(b[1] as int + 0x100 * b[2] as int, b[..3], [b[3..]] + more)
      else if |b| >= 5 && b[0] == 0xfe then
        r == CountRead(b[1] as int + 0x100 * b[2] as int + 0x1_0000 * b[3] as int + 0x100_0000 * b[4] as int,
                       b[..5], [b[5..]] + more)
      else if |b| >= 9 && b[0] == 0xff then
        r == CountRead(b[1] as int + 0x100 * b[2] as int + 0x1_0000 * b[3] as int + 0x100_0000 * b[4] as int,
                       b[..9], [b[9..]] + more)
      else r == CountRead(0, [], if more == [] then [[]] else more)
  {
    hide FromLE, Counts;
    var b := s[0];
    if |b| >= 1 && 1 + ExtraBytes(b[0]) <= |b| {
      var n := 1 + ExtraBytes(b[0]);
      var raw := b[..n];
      CountForms(raw, CountValue(raw));
      assert Counts(raw, CountValue(raw)) by { CountsItself(raw); }
      assert n > 1 ==> b[1..][..n - 1] == raw[1..] && b[1..][n - 1..] == b[n..] && b[..1] + raw[1..] == raw;
    }
  }

  lemma CountsItself(raw: seq<byte>)
    requires IsCount(raw)
    ensures Counts(raw, CountValue(raw))
  {
  }

  lemma InputReads(hashed: seq<byte>, i: TxIn, rest: seq<byte>)
    requires ValidIn(i)
    ensures Input(On(hashed, InBytes(i) + rest)) == At(On(hashed + InBytes(i), rest))
  {
    hide Take, ReadCount, CountValue;
    var r3 := i.sequence + rest;
    var r2 := i.script + r3;
    var r1 := i.length + r2;
    var a, b := i.outpoint[..32], i.outpoint[32..];
    assert InBytes(i) + rest == a + (b + r1);
    FixedReads(hashed, a, b + r1, true);
    FixedReads(hashed + a, b, r1, true);
    CountReads(i.length, r2);
    FixedReads(hashed + a + b + i.length, i.script, r3, true);
    FixedReads(hashed + a + b + i.length + i.script, i.sequence, rest, true);
    assert hashed + a + b + i.length + i.script + i.sequence == hashed + InBytes(i);
  }

  lemma {:induction false} InputsRead(hashed: seq<byte>, ins: seq<TxIn>, rest: seq<byte>)
    requires forall i <- ins :: ValidIn(i)
    ensures Inputs(|ins|, On(hashed, InsBytes(ins) + rest)) == At(On(hashed + InsBytes(ins), rest))
    decreases |ins|
  {
    hide Input, InBytes, ValidIn;
    if ins == [] {
      assert [] + rest == rest && hashed + [] == hashed;
    } else {
      var more := InsBytes(ins[1..]);
      InputReads(hashed, ins[0], more + rest);
      assert InBytes(ins[0]) + more + rest == InBytes(ins[0]) + (more + rest);
      InputsRead(hashed + InBytes(ins[0]), ins[1..], rest);
      assert hashed + (InBytes(ins[0]) + more) == hashed + InBytes(ins[0]) + more;
    }
  }

  lemma OutputReads(hashed: seq<byte>, o: TxOut, rest: seq<byte>)
    requires ValidOut(o)
    ensures Output(On(hashed, OutBytes(o) + rest)) == At(On(hashed + OutBytes(o), rest))
    ensures (OutBytes(o) + rest)[..8] == o.value
  {
    hide Take, ReadCount, CountValue;
    var r2 := o.script + rest;
    var r1 := o.length + r2;
    assert OutBytes(o) + rest == o.value + r1;
    FixedReads(hashed, o.value, r1, true);
    CountReads(o.length, r2);
    FixedReads(hashed + o.value + o.length, o.script, rest, true);
    assert hashed + o.value + o.length + o.script == hashed + OutBytes(o);
  }

  lemma {:induction false} OutputsRead(hashed: seq<byte>, outs: seq<TxOut>, k: nat, target: nat, found: nat,
                                       rest: seq<byte>)
    requires k <= |outs| && forall o <- outs :: ValidOut(o)
    ensures Outputs(k, |outs|, target, found, On(hashed, OutsBytes(outs[k..]) + rest))
         == At((On(hashed + OutsBytes(outs[k..]), rest),
                if k <= target < |outs| then FromLE(outs[target].value) else found))
    decreases |outs| - k
  {
    hide Output, FromLE;
    var tail := outs[k..];
    if k == |outs| {
      assert OutsBytes(tail) + rest == rest && hashed + OutsBytes(tail) == hashed;
    } else {
      assert tail[0] == outs[k] && tail[1..] == outs[k + 1..];
      OutputReads(hashed, outs[k], OutsBytes(tail[1..]) + rest);
      assert OutsBytes(tail) + rest == OutBytes(outs[k]) + (OutsBytes(tail[1..]) + rest);
      var found' := if k == target then FromLE(outs[k].value) else found;
      OutputsRead(hashed + OutBytes(outs[k]), outs, k + 1, target, found', rest);
      assert hashed + OutsBytes(tail) == hashed + OutBytes(outs[k]) + OutsBytes(tail[1..]);
    }
  }

  lemma {:induction false} ItemsRead(hashed: seq<byte>, items: seq<Item>, rest: seq<byte>)
    requires forall i <- items :: ValidItem(i)
    ensures WitnessItems(|items|, On(hashed, ItemsBytes(items) + rest)) == At(On(hashed, rest))
  {
    hide ReadCount, CountValue;
    if items == [] {
      assert ItemsBytes(items) + rest == rest;
    } else {
      var r := ItemsBytes(items[1..]) + rest;
      assert ItemsBytes(items) + rest == items[0].length + (items[0].body + r);
      assert ValidItem(items[0]);
      CountReads(items[0].length, items[0].body + r);
      FixedReads(hashed, items[0].body, r, false);
      ItemsRead(hashed, items[1..], rest);
    }
  }

  lemma {:induction false} WitnessesRead(hashed: seq<byte>, ws: seq<Witness>, rest: seq<byte>)
    requires forall w <- ws :: ValidWitness(w)
    ensures Witnesses(|ws|, On(hashed, WitnessesBytes(ws) + rest)) == At(On(hashed, rest))
  {
    hide ReadCount, CountValue;
    if ws == [] {
      assert WitnessesBytes(ws) + rest == rest;
    } else {
      var r := WitnessesBytes(ws[1..]) + rest;
      assert WitnessesBytes(ws) + rest == ws[0].count + (ItemsBytes(ws[0].items) + r);
      assert ValidWitness(ws[0]);
      CountReads(ws[0].count, ItemsBytes(ws[0].items) + r);
      ItemsRead(hashed, ws[0].items, r);
      WitnessesRead(hashed, ws[1..], rest);
    }
  }

  lemma InnerReads(hashed: seq<byte>, t: Tx, target: nat, rest: seq<byte>)
    requires ValidBody(t)
    ensures AfterHeader(On(hashed, Inner(t) + WitnessesBytes(t.witnesses) + t.lockTime + rest), t.flag.Some?, target)
         == At((On(hashed + Inner(t) + t.lockTime, rest), OutputValue(t, target)))
  {
    hide Inputs, Outputs, Witnesses, ReadCount, CountValue, InsBytes, OutsBytes, WitnessesBytes, FromLE;
    var r4 := t.lockTime + rest;
    var r3 := WitnessesBytes(t.witnesses) + r4;
    var r2 := OutsBytes(t.outs) + r3;
    var r1 := t.outCount + r2;
    var r0 := InsBytes(t.ins) + r1;
    assert Inner(t) + WitnessesBytes(t.witnesses) + t.lockTime + rest == t.inCount + r0;
    CountReads(t.inCount, r0);
    var h1 := hashed + t.inCount;
    InputsRead(h1, t.ins, r1);
    var h2 := h1 + InsBytes(t.ins);
    CountReads(t.outCount, r2);
    var h3 := h2 + t.outCount;
    assert t.outs[0..] == t.outs;
    OutputsRead(h3, t.outs, 0, target, 0, r3);
    var h4 := h3 + OutsBytes(t.outs);
    WitnessesRead(h4, t.witnesses, r4);
    FixedReads(h4, t.lockTime, rest, true);
    assert h4 + t.lockTime == hashed + Inner(t) + t.lockTime;
  }

  /** What is taken for marker and flag: any byte and the flag, or nothing. */
  predicate HeadFits(t: Tx, head: seq<byte>) {
    if t.flag.None? then head == [] else |head| == 2 && head[1] == t.flag.value
  }

  lemma LaidParts(t: Tx, head: seq<byte>, rest: seq<byte>)
    ensures Laid(t, head) + rest
         == t.version + (head + (Inner(t) + WitnessesBytes(t.witnesses) + t.lockTime + rest))
  {
    hide WitnessesBytes, Inner;
  }

  lemma HeadReads(version: seq<byte>, head: seq<byte>, rest: seq<byte>)
    requires |version| == 4
    ensures Fixed(On([], version + (head + rest)), 4, true) == At(On(version, head + rest))
    ensures |head| == 2 ==> Fixed(On(version, head + rest), 2, false) == At(On(version, rest))
    ensures head == [] ==> head + rest == rest
  {
    hide Fixed, Body;
    FixedReads([], version, head + rest, true);
    assert [] + version == version;
    FixedReads(version, head, rest, false);
  }

  /** Two bytes are stepped over when the peeked byte said so, whatever they are. */
  lemma LaidIsRead(t: Tx, head: seq<byte>, target: nat, rest: seq<byte>)
    requires ValidBody(t) && HeadFits(t, head)
    ensures Run([Laid(t, head) + rest], t.flag.Some?, target) == At((On(NonWitness(t), rest), OutputValue(t, target)))
  {
    hide AfterHeader, WitnessesBytes, Inner, Fixed, Body, Laid;
    var r := Inner(t) + WitnessesBytes(t.witnesses) + t.lockTime + rest;
    assert Laid(t, head) + rest == t.version + (head + r) by { LaidParts(t, head, rest); }
    HeadReads(t.version, head, r);
    InnerReads(t.version, t, target, rest);
  }

  lemma FifthByte(t: Tx, rest: seq<byte>)
    requires ValidTx(t)
    ensures |Serialize(t)| > 4 && ((Serialize(t) + rest)[4] == 0 <==> t.flag.Some?)
  {
    hide WitnessesBytes, InsBytes, OutsBytes;
    var more := WitnessesBytes(t.witnesses) + t.lockTime + rest;
    var r := InsBytes(t.ins) + t.outCount + OutsBytes(t.outs) + more;
    assert Serialize(t) + rest == t.version + (MarkerAndFlag(t) + (t.inCount + r));
  }

  /** Every transaction, in either form, is walked over exactly: the bytes after it stay, the
      non-witness serialization is hashed and the selected output's value is found. */
  lemma SerializedTransactionIsRead(t: Tx, target: nat, rest: seq<byte>)
    requires ValidTx(t)
    ensures |Serialize(t)| > 4
    ensures Run([Serialize(t) + rest], (Serialize(t) + rest)[4] == 0, target)
         == At((On(NonWitness(t), rest), OutputValue(t, target)))
  {
    hide Run, Laid;
    FifthByte(t, rest);
    LaidIsRead(t, MarkerAndFlag(t), target, rest);
  }
}
