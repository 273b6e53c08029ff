/** What an accepted input proves when the host may cut, stop and refuse as it likes. */
module PrevTxnAnyHost {
  import opened Bytes
  import opened ByteStreams
  import opened PrevTxnWalk
  import opened PrevTxnFormat
  import opened PrevTxnValidator
  import opened PrevTxnTheorems
  import opened PrevTxnRefusals

  /** The data starts with the body of a transaction that has the declared id and value; head is what
      was taken for marker and flag. */
  ghost predicate BacksAs(h: Hash, t: Tx, head: seq<byte>, data: seq<byte>, input: TxnInput) {
    && ValidBody(t) && HeadFits(t, head) && Laid(t, head) <= data
    && h(h(NonWitness(t))) == input.prevTxnHash && OutputValue(t, input.prevOutputIndex) == input.value
  }

  /** Whatever the host does after the bytes data, and whatever byte is peeked at: unless data runs
      out inside a count or length field, acceptance means exactly that data is backed. */
  lemma AcceptsExactlyBackedReadings(h: Hash, data: seq<byte>, more: seq<seq<byte>>, peek: byte, input: TxnInput)
    requires !DriesUp(data, peek)
    ensures VerdictOn(h, [data] + more, peek, input) == Success
       <==> exists t: Tx, head: seq<byte> :: t.flag.Some? == (peek == 0) && BacksAs(h, t, head, data, input)
  {
    hide Run, Laid, ValidBody, OutputValue, NonWitness;
    var target := input.prevOutputIndex;
    RunDoesNotDependOnTarget([data], peek == 0, 0, target);
    RunLocks(data, peek == 0, target, more);
    EndedRunIsFresh(data, peek == 0, target);
    if VerdictOn(h, [data] + more, peek, input) == Success {
      var t, head := ReadBytesAreABody(data, peek == 0, target);
      assert BacksAs(h, t, head, data, input);
    }
    if t: Tx, head: seq<byte> :| t.flag.Some? == (peek == 0) && BacksAs(h, t, head, data, input) {
      var rest := data[|Laid(t, head)|..];
      assert data == Laid(t, head) + rest;
      LaidIsRead(t, head, target, rest);
    }
  }

  // ---- One id, one value.

  /** The hashed bytes fix every output's value. */
  lemma HashedBytesFixValues(t: Tx, u: Tx, k: nat)
    requires ValidBody(t) && ValidBody(u) && NonWitness(t) == NonWitness(u)
    ensures OutputValue(t, k) == OutputValue(u, k)
  {
    hide Run, InsBytes, OutsBytes;
    var t0, u0 := t.(flag := None, witnesses := []), u.(flag := None, witnesses := []);
    assert Laid(t0, []) + [] == NonWitness(t) && Laid(u0, []) + [] == NonWitness(u);
    LaidIsRead(t0, [], k, []);
    LaidIsRead(u0, [], k, []);
  }

  /** Two accepted inputs that name the same output of the same transaction carry the same value,
      whatever their hosts did, or the two strings put together from the hosts' bytes are a collision. */
  lemma OneIdOneValue(h: Hash, data: seq<byte>, more: seq<seq<byte>>, peek: byte, input: TxnInput,
                      data': seq<byte>, more': seq<seq<byte>>, peek': byte, input': TxnInput)
    returns (t: Tx, head: seq<byte>, t': Tx, head': seq<byte>)
    requires !DriesUp(data, peek) && !DriesUp(data', peek')
    requires VerdictOn(h, [data] + more, peek, input) == Success
    requires VerdictOn(h, [data'] + more', peek', input') == Success
    requires input.prevTxnHash == input'.prevTxnHash && input.prevOutputIndex == input'.prevOutputIndex
    ensures BacksAs(h, t, head, data, input) && BacksAs(h, t', head', data', input')
    ensures h(h(NonWitness(t))) == h(h(NonWitness(t')))
    ensures NonWitness(t) == NonWitness(t') ==> input.value == input'.value
  {
    hide VerdictOn, DriesUp, ValidBody, Laid, NonWitness, OutputValue;
    AcceptsExactlyBackedReadings(h, data, more, peek, input);
    AcceptsExactlyBackedReadings(h, data', more', peek', input');
    t, head :| t.flag.Some? == (peek == 0) && BacksAs(h, t, head, data, input);
    t', head' :| t'.flag.Some? == (peek' == 0) && BacksAs(h, t', head', data', input');
    if NonWitness(t) == NonWitness(t') {
      HashedBytesFixValues(t, t', input.prevOutputIndex);
    }
  }

  // ---- Without the condition: a refusal in the input count of a genuine transaction.

  /** One input and one output, both with empty scripts. */
  function Plain(outpoint: seq<byte>, value: seq<byte>): Tx {
    Tx([1, 0, 0, 0], None, [1], [TxIn(outpoint, [0], [], Zeros(4))], [1], [TxOut(value, [0], [])], [], Zeros(4))
  }

  /** What is read as script behind the forged value. */
  function Script(outpoint: seq<byte>, value: seq<byte>): seq<byte>
    requires |outpoint| == 36
  {
    outpoint[9..] + [0] + Zeros(4) + [1] + value + [0]
  }

  lemma PlainBytes(outpoint: seq<byte>, value: seq<byte>)
    requires |outpoint| == 36 && |value| == 8 && outpoint[8] == 42
    ensures var t := Plain(outpoint, value);
      && ValidTx(t) && |Script(outpoint, value)| == 42
      && Inner(t) + t.lockTime == [1] + (outpoint[..8] + ([42] + (Script(outpoint, value) + Zeros(4))))
  {
    hide InsBytes, OutsBytes, FromLE;
    var t := Plain(outpoint, value);
    PrevTxnHosts.OneOfEach(t.ins[0], t.outs[0]);
    assert outpoint == outpoint[..8] + [42] + outpoint[9..];
  }

  /** A field in front, dry or not. */
  lemma FrontIsRead(hashed: seq<byte>, a: seq<byte>, rest: seq<byte>, dry: bool)
    requires a != []
    ensures Fixed(Place(hashed, [a + rest], dry), |a|, true) == At(Place(hashed + a, [rest], dry))
  {
    assert (a + rest)[..|a|] == a && Drop([a + rest], |a|) == [rest];
  }

  lemma CountInFront(hashed: seq<byte>, first: byte, rest: seq<byte>, dry: bool)
    requires first < 0xfd
    ensures ReadCount([[first] + rest]).value == first
    ensures AfterCount(Place(hashed, [[first] + rest], dry), true) == Place(hashed + [first], [rest], dry)
  {
    CountReads([first], rest);
  }

  /** The refused input count is skipped; then it serves as output count, and the outpoint as output. */
  lemma ForgedOutputIsRead(hashed: seq<byte>, eight: seq<byte>, script: seq<byte>, rest: seq<byte>)
    requires |eight| == 8 && |script| == 42
    ensures var p := Place(hashed, [eight + ([42] + (script + rest))], true);
      Outputs(0, 1, 0, 0, p) == At((Place(hashed + eight + [42] + script, [rest], true), FromLE(eight)))
  {
    hide ReadCount, Take, FromLE;
    var p := Place(hashed, [eight + ([42] + (script + rest))], true);
    FrontIsRead(hashed, eight, [42] + (script + rest), true);
    CountInFront(hashed + eight, 42, script + rest, true);
    FrontIsRead(hashed + eight + [42], script, rest, true);
    var q := Place(hashed + eight + [42] + script, [rest], true);
    assert Output(p) == At(q);
    assert p.left[0][..8] == eight;
    OutputsStep(0, 1, 0, 0, p);
    assert Outputs(1, 1, 0, FromLE(eight), q) == At((q, FromLE(eight)));
  }

  /** For every transaction of this form whose outpoint has 42 as its ninth byte, one refusal where the
      input count is due makes the device accept the outpoint's first eight bytes as the value of its
      output, for the transaction's own id. */
  lemma RefusalForgesValue(h: Hash, outpoint: seq<byte>, value: seq<byte>)
    requires |outpoint| == 36 && |value| == 8 && outpoint[8] == 42
    ensures var t := Plain(outpoint, value);
      && ValidTx(t) && OutputValue(t, 0) == FromLE(value)
      && VerdictOn(h, [t.version, Inner(t) + t.lockTime], 1,
                   TxnInput(h(h(NonWitness(t))), 0, FromLE(outpoint[..8]))) == Success
  {
    hide Run, FromLE, Inner;
    var t := Plain(outpoint, value);
    PlainBytes(outpoint, value);
    ForgedWalk(t, outpoint[..8], Script(outpoint, value));
    assert NonWitness(t) == t.version + (Inner(t) + t.lockTime);
  }

  lemma ForgedWalk(t: Tx, eight: seq<byte>, script: seq<byte>)
    requires |t.version| == 4 && |t.lockTime| == 4 && |eight| == 8 && |script| == 42 && t.lockTime == Zeros(4)
    requires Inner(t) + t.lockTime == [1] + (eight + ([42] + (script + Zeros(4))))
    ensures var w := Run([t.version, Inner(t) + t.lockTime], false, 0);
      w.At? && w.value.0.hashed == t.version + (Inner(t) + t.lockTime) && w.value.1 == FromLE(eight)
  {
    hide Fixed, Outputs, Inputs, Witnesses, AfterCount, ReadCount, FromLE, Inner;
    var v, rest, more := t.version, Inner(t) + t.lockTime, eight + ([42] + (script + Zeros(4)));
    VersionThenRefusal(v, rest);
    NothingToRead(Place(v, [rest], true));
    CountInFront(v, 1, more, true);
    ForgedOutputIsRead(v + [1], eight, script, Zeros(4));
    var q := Place(v + [1] + eight + [42] + script, [Zeros(4)], true);
    NothingToRead(q);
    assert Zeros(4) + [] == Zeros(4);
    FrontIsRead(q.hashed, Zeros(4), [], true);
    assert q.hashed + Zeros(4) == v + rest;
  }

  lemma VersionThenRefusal(v: seq<byte>, rest: seq<byte>)
    requires |v| == 4
    ensures Fixed(Place([], [v, rest], false), 4, true) == At(Place(v, [[], rest], false))
    ensures AfterCount(Place(v, [[], rest], false), true) == Place(v, [rest], true) && ReadCount([[], rest]).value == 0
  {
    TakeAll([], v, [rest], 4, false);
    var gone: seq<seq<byte>> := [[]];
    assert [v] + [rest] == [v, rest] && gone + [rest] == [[], rest] && [] + v == v && v + [] == v;
    assert AfterFailure([[], rest]) == [rest];
  }
}
