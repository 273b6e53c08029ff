/** How the host's chunking and its refusals bear on the verdict of btc_validate_inputs. */
module PrevTxnHosts {
  import opened Bytes
  import opened ByteStreams
  import opened PrevTxnWalk
  import opened PrevTxnFormat
  import opened PrevTxnValidator
  import opened PrevTxnTheorems

  // ---- Cutting the bytes into chunks.

  predicate OnlyChunks(replies: seq<Reply>) {
    forall r <- replies :: r.Chunk?
  }

  predicate AllChunks(replies: seq<Reply>) {
    OnlyChunks(replies) && forall r <- replies :: r.bytes != []
  }

  /** An empty chunk ends the stream for good. */
  function Joined(replies: seq<Reply>): seq<byte>
    requires OnlyChunks(replies)
  {
    if replies == [] || replies[0].bytes == [] then [] else replies[0].bytes + Joined(replies[1..])
  }

  /** A chunk ends after exactly n bytes and another one follows. */
  predicate CutAt(data: seq<byte>, replies: seq<Reply>, n: nat)
    requires OnlyChunks(replies)
    decreases |replies|
  {
    replies != [] && (n == |data| || (n > |data| && CutAt(replies[0].bytes, replies[1..], n - |data|)))
  }

  lemma {:induction false} ChunksJoin(data: seq<byte>, replies: seq<Reply>)
    requires OnlyChunks(replies)
    ensures Prepend(data, Segments(replies)) == [data + Joined(replies)]
    decreases |replies|
  {
    if replies != [] && replies[0].bytes != [] {
      ChunksJoin(replies[0].bytes, replies[1..]);
    }
  }

  /** Chunks are put one behind the other, and a refusal begins a new segment. */
  lemma {:induction false} OneMoreReply(replies: seq<Reply>, bytes: seq<byte>, after: byte, more: seq<Reply>)
    requires AllChunks(replies) && bytes != []
    ensures Joined([]) == [] && Joined(replies + [Chunk(bytes, after)]) == Joined(replies) + bytes
    ensures Segments(replies + [Refused] + more) == [Joined(replies)] + Segments(more)
    decreases |replies|
  {
    if replies == [] {
      assert ([Chunk(bytes, after)])[1..] == [] && [] + [Chunk(bytes, after)] == [Chunk(bytes, after)];
      assert ([] + [Refused] + more)[1..] == more;
    } else {
      OneMoreReply(replies[1..], bytes, after, more);
      assert (replies + [Chunk(bytes, after)])[1..] == replies[1..] + [Chunk(bytes, after)];
      assert (replies + [Refused] + more)[1..] == replies[1..] + [Refused] + more;
      assert replies[0].bytes != [] && (replies + [Refused] + more)[0] == replies[0];
    }
  }

  /** The peek sees the byte of the concatenation unless a chunk ends right there. */
  lemma {:induction false} PeekJoined(data: seq<byte>, after: byte, replies: seq<Reply>, n: nat)
    requires OnlyChunks(replies) && n < |data + Joined(replies)| && !CutAt(data, replies, n)
    ensures PeekAt(data, after, 0, replies, n) == (data + Joined(replies))[n]
    decreases |replies|
  {
    if n > |data| {
      PeekJoined(replies[0].bytes, replies[0].after, replies[1..], n - |data|);
    }
  }

  lemma NothingAfterHeaderStops(p: Place, segwit: bool, target: nat)
    requires p.left == [[]] && !p.dry
    ensures AfterHeader(p, segwit, target).Stopped?
  {
    hide Inputs, Outputs, Witnesses;
    var w1 := Inputs(ReadCount(p.left).value, AfterCount(p, true));
    if w1.At? {
      var w2 := Outputs(0, ReadCount(w1.value.left).value, target, 0, AfterCount(w1.value, true));
      if w2.At? {
        var w3 := Witnesses(if segwit then ReadCount(p.left).value else 0, w2.value.0);
        if w3.At? { DryStops(w3.value, 4, true); }
      }
    }
  }

  lemma ShortStops(all: seq<byte>, segwit: bool, target: nat)
    requires |all| <= 4
    ensures Run([all], segwit, target).Stopped?
  {
    if |all| == 4 && !segwit {
      assert all[4..] == [];
      NothingAfterHeaderStops(Fixed(Place([], [all], false), 4, true).value, segwit, target);
    }
  }

  /** The two walks cannot be told apart by any input: neither reaches the end, or both do with the
      same bytes hashed and the same value found. */
  predicate EndAlike(v: Walk<(Place, nat)>, w: Walk<(Place, nat)>) {
    if v.Stopped? then w.Stopped?
    else w.At? && v.value.0.hashed == w.value.0.hashed && v.value.1 == w.value.1
  }

  function Fill(b: byte): Digest { seq(32, _ => b) }

  lemma Separated(a: seq<byte>, b: seq<byte>) returns (h: Hash)
    requires a != b
    ensures h(h(a)) != h(h(b))
  {
    assert Fill(0)[0] == 0 && Fill(1)[0] == 1 && Fill(2)[0] == 2 && Fill(3)[0] == 3;
    var d :| d in [Fill(0), Fill(1), Fill(2)] && d != a && d != b;
    var e :| e in [Fill(0), Fill(1), Fill(2), Fill(3)] && e != a && e != b && e != d;
    h := x => if x == a || x == d then d else e;
  }

  /** Walks that end differently are told apart by some input. */
  lemma ToldApart(s: Script, target: nat) returns (h: Hash, input: TxnInput)
    requires !EndAlike(Run(s, true, target), Run(s, false, target))
    ensures VerdictOn(h, s, 0, input) != VerdictOn(h, s, 1, input)
  {
    hide Run;
    var v, w := Run(s, true, target), Run(s, false, target);
    h := _ => Fill(0);
    if v.At? && w.At? && v.value.0.hashed != w.value.0.hashed {
      h := Separated(v.value.0.hashed, w.value.0.hashed);
    }
    var seen := if v.At? then v.value else w.value;
    input := TxnInput(h(h(seen.0.hashed)), target, seen.1);
  }

  /** The verdict depends on the concatenated chunks only if and only if the byte that is peeked at
      says about the marker what the concatenation says, or the two ways of reading end alike. */
  lemma VerdictIgnoresCutsExactly(data: seq<byte>, after: byte, replies: seq<Reply>)
    requires data != [] && OnlyChunks(replies)
    ensures var all, peek := data + Joined(replies), PeekAt(data, after, 0, replies, 4);
      (forall h: Hash, input: TxnInput ::
         VerdictOn(h, Prepend(data, Segments(replies)), peek, input) == WholeVerdict(h, all, input))
      <==>
      (peek == 0 <==> Marked(all))
      || forall target: nat :: EndAlike(Run([all], true, target), Run([all], false, target))
  {
    hide Run, EndAlike, PeekAt, Joined, Segments, Prepend;
    var all, peek := data + Joined(replies), PeekAt(data, after, 0, replies, 4);
    ChunksJoin(data, replies);
    OnlyTheMarkerMatters(all, peek);
    if (peek == 0) != Marked(all) {
      if target: nat :| !EndAlike(Run([all], true, target), Run([all], false, target)) {
        var h, input := ToldApart([all], target);
        assert VerdictOn(h, [all], peek, input) != WholeVerdict(h, all, input);
      } else {
        forall h: Hash, input: TxnInput ensures VerdictOn(h, [all], peek, input) == WholeVerdict(h, all, input) {
          AlikeEndsAlike(h, [all], input);
        }
      }
    }
  }

  lemma OnlyTheMarkerMatters(all: seq<byte>, peek: byte)
    ensures forall h: Hash, input: TxnInput ::
      VerdictOn(h, [all], peek, input) == VerdictOn(h, [all], if peek == 0 then 0 else 1, input)
  {
    hide Run;
  }

  lemma AlikeEndsAlike(h: Hash, s: Script, input: TxnInput)
    requires EndAlike(Run(s, true, input.prevOutputIndex), Run(s, false, input.prevOutputIndex))
    ensures VerdictOn(h, s, 0, input) == VerdictOn(h, s, 1, input)
  {
    hide Run;
  }

  /** That is so when no chunk ends right after the version field, where the marker is peeked at
      without a refill. */
  lemma VerdictIgnoresCuts(h: Hash, data: seq<byte>, after: byte, replies: seq<Reply>, input: TxnInput)
    requires data != [] && OnlyChunks(replies) && !CutAt(data, replies, 4)
    ensures VerdictOn(h, Prepend(data, Segments(replies)), PeekAt(data, after, 0, replies, 4), input)
         == WholeVerdict(h, data + Joined(replies), input)
  {
    hide Run;
    var all := data + Joined(replies);
    ChunksJoin(data, replies);
    if |all| > 4 {
      PeekJoined(data, after, replies, 4);
    } else {
      ShortStops(all, true, input.prevOutputIndex);
      ShortStops(all, false, input.prevOutputIndex);
    }
  }

  const OUTPOINT: seq<byte> := seq(36, _ => 255)
  const VALUE: seq<byte> := [0, 0, 0, 0, 200, 0, 0, 0]
  const LEGACY: Tx :=
    Tx([1, 0, 0, 0], None, [1], [TxIn(OUTPOINT, [0], [], Zeros(4))], [1], [TxOut(VALUE, [0], [])], [], Zeros(4))

  lemma OneOfEach(i: TxIn, o: TxOut)
    ensures InsBytes([i]) == InBytes(i) && OutsBytes([o]) == OutBytes(o)
  {
    assert [i][1..] == [] && [o][1..] == [];
  }

  lemma LegacyBytes() returns (nine: seq<byte>, tail: seq<byte>)
    ensures Inner(LEGACY) + LEGACY.lockTime == [1, 255] + (nine + tail)
    ensures nine == seq(9, _ => 255) && |tail| == 45 && tail[36] == 200
  {
    hide InsBytes, OutsBytes;
    nine := seq(9, _ => 255);
    var rest := [0] + Zeros(4) + [1] + VALUE + [0] + Zeros(4);
    OneOfEach(LEGACY.ins[0], LEGACY.outs[0]);
    assert OUTPOINT == [255] + nine + OUTPOINT[10..];
    assert Inner(LEGACY) + LEGACY.lockTime == [1] + OUTPOINT + rest;
    tail := OUTPOINT[10..] + rest;
  }

  /** Taking its count and first outpoint byte for marker and flag, the walk of LEGACY runs out of bytes. */
  lemma MisreadLegacyStops(target: nat)
    ensures Run([LEGACY.version + (Inner(LEGACY) + LEGACY.lockTime)], true, target).Stopped?
  {
    hide Inner, ReadCount, Take;
    var nine, tail := LegacyBytes();
    FixedReads([], LEGACY.version, [1, 255] + (nine + tail), true);
    assert [] + LEGACY.version == LEGACY.version;
    FixedReads(LEGACY.version, [1, 255], nine + tail, false);
    CountReads(nine, tail);
    InputStops(AfterCount(On(LEGACY.version, nine + tail), true));
    assert (nine[1..] + Zeros(4))[..4] == [255] + nine[..3];
  }

  lemma InputStops(p: Place)
    requires |p.left| == 1 && |p.left[0]| == 45 && p.left[0][36] == 200
    ensures Input(p).Stopped?
  {
    var tail := p.left[0];
    assert tail[32..][4..] == tail[36..];
    assert tail[36..][..1] == [200];
  }

  /** A chunk that ends there lets the stale byte decide: with the zeroed buffer of a fresh query a
      genuine legacy transaction is rejected. */
  lemma CutAfterVersionRejects(h: Hash, input: TxnInput)
    requires input == TxnInput(h(h(NonWitness(LEGACY))), 7, 0)
    ensures var replies := [Chunk(Inner(LEGACY) + LEGACY.lockTime, 0)];
      && OnlyChunks(replies)
      && WholeVerdict(h, LEGACY.version + Joined(replies), input) == Success
      && VerdictOn(h, Prepend(LEGACY.version, Segments(replies)), PeekAt(LEGACY.version, 0, 0, replies, 4), input)
         == ReadStream
  {
    hide FromLE, Run, NonWitness;
    var replies := [Chunk(Inner(LEGACY) + LEGACY.lockTime, 0)];
    ChunksJoin(LEGACY.version, replies);
    assert Joined(replies) == Inner(LEGACY) + LEGACY.lockTime;
    var all := LEGACY.version + Joined(replies);
    assert Serialize(LEGACY) == all;
    assert Backs(h, LEGACY, all, input);
    AcceptsExactlyBackedInputs(h, all, input);
    MisreadLegacyStops(7);
  }
}
