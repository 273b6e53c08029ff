/** The chunked byte stream (common/libraries/util/byte_stream.c) over the host's answers to
    chunk requests (fetch_more_chunks in apps/btc_family/btc_txn.c). */
module ByteStreams {
  import opened Bytes

  /** One answer of the host to a chunk request. `after` is whatever byte lies in memory just
      past the payload. `Refused` is any answer that makes btc_get_query or check_which_request
      fail; nothing prevents the host from sending a good chunk the next time it is asked. */
  datatype Reply = Chunk(bytes: seq<byte>, after: byte) | Refused

  /** What a stream can still deliver: script[0] before the next failed request, script[1] between
      that failure and the one after it, and so on. */
  type Script = s: seq<seq<byte>> | |s| >= 1 witness [[]]

  function Prepend(b: seq<byte>, s: Script): Script {
    [b + s[0]] + s[1..]
  }

  lemma PrependNothing(s: Script)
    ensures Prepend([], s) == s
  {
    assert [] + s[0] == s[0];
  }

  /** s without the first n bytes of its first segment. */
  function Drop(s: Script, n: nat): Script
    requires n <= |s[0]|
  {
    [s[0][n..]] + s[1..]
  }

  lemma DropDrop(s: Script, m: nat, n: nat)
    requires m + n <= |s[0]|
    ensures Drop(Drop(s, m), n) == Drop(s, m + n)
    ensures s[0][..m] + Drop(s, m)[0][..n] == s[0][..m + n]
  {
    assert s[0][m..][n..] == s[0][m + n..];
    assert Drop(s, m)[1..] == s[1..];
  }

  function AfterFailure(s: Script): Script {
    if |s| == 1 then [[]] else s[1..]
  }

  function Segments(replies: seq<Reply>): Script {
    if replies == [] then [[]]
    else match replies[0]
      case Refused => [[]] + Segments(replies[1..])
      case Chunk(bytes, _) => if bytes == [] then [[]] else Prepend(bytes, Segments(replies[1..]))
  }

  /** The bytes a single request for n bytes takes; a request for 0 bytes still needs one byte to
      be available because the loop of process_byte_stream runs at least once. */
  function Take(s: Script, n: nat): (r: Option<(seq<byte>, Script)>)
    ensures r.Some? ==> |r.value.0| == n
  {
    if |s[0]| >= n && s[0] != [] then Some((s[0][..n], Drop(s, n))) else None
  }

  /** The byte seen at stream_pointer[offset] once n more bytes are consumed. When that lands on
      the end of a chunk no refill happens, so the stale byte `after` is seen. */
  function PeekAt(data: seq<byte>, after: byte, offset: nat, replies: seq<Reply>, n: nat): byte
    requires offset <= |data|
    decreases |replies|
  {
    if offset + n < |data| then data[offset + n]
    else if offset + n == |data| then after
    else if replies == [] || replies[0].Refused? then 0
    else PeekAt(replies[0].bytes, replies[0].after, 0, replies[1..], offset + n - |data|)
  }

  class ByteStream {
    var data: seq<byte>
    var after: byte
    var offset: nat
    var replies: seq<Reply>

    ghost predicate Valid() reads this {
      offset <= |data|
    }

    ghost function Script(): Script
      requires Valid()
      reads this
    {
      if data == [] then [[]] else Prepend(data[offset..], Segments(replies))
    }

    ghost function Peek(n: nat): byte
      requires Valid()
      reads this
    {
      PeekAt(data, after, offset, replies, n)
    }

    constructor (data: seq<byte>, after: byte, replies: seq<Reply>)
      ensures Valid() && Script() == if data == [] then [[]] else Prepend(data, Segments(replies))
      ensures forall n: nat :: Peek(n) == PeekAt(data, after, 0, replies, n)
    {
      this.data, this.after, this.offset, this.replies := data, after, 0, replies;
    }

    /** fetch_more_chunks: asks the host for the next chunk of a stream that has run out. */
    method FetchMore(ghost ahead: nat) returns (ok: bool)
      requires Valid() && data != [] && offset == |data|
      modifies this
      ensures Valid()
      ensures ok ==> data != [] && offset == 0 && Script() == old(Script())
      ensures ok && ahead > 0 ==> Peek(ahead) == old(Peek(ahead))
      ensures !ok ==> old(Script())[0] == [] && Script() == AfterFailure(old(Script()))
    {
      PrependNothing(Segments(replies));
      assert data[offset..] == [];
      if replies == [] {
        return false;
      }
      var reply := replies[0];
      PrependNothing(Segments(replies[1..]));
      replies := replies[1..];
      if reply.Refused? {
        return false;
      }
      offset, data, after := 0, reply.bytes, reply.after;
      return data != [];
    }

    /** One memcpy out of the held chunk, with the offset moved past it. */
    method CopyHeld(n: nat, ghost ahead: nat) returns (piece: seq<byte>)
      requires Valid() && data != [] && n <= |data| - offset
      modifies this`offset
      ensures Valid()
      ensures n <= |old(Script())[0]| && piece == old(Script())[0][..n]
      ensures Script() == Drop(old(Script()), n)
      ensures Peek(ahead) == old(Peek(n + ahead))
    {
      ghost var later := Segments(replies);
      piece := data[offset..offset + n];
      assert piece == (data[offset..] + later[0])[..n];
      assert data[offset + n..] + later[0] == (data[offset..] + later[0])[n..];
      offset := offset + n;
    }

    /** One turn of the loop in process_byte_stream. */
    method Round(want: nat) returns (ok: bool, piece: seq<byte>)
      requires Valid() && data != []
      modifies this
      ensures Valid()
      ensures ok <==> old(Script())[0] != []
      ensures ok ==> data != [] && |piece| <= want && (want > 0 ==> piece != [])
      ensures ok ==> |piece| <= |old(Script())[0]| && piece == old(Script())[0][..|piece|]
      ensures ok ==> Script() == Drop(old(Script()), |piece|)
      ensures ok && want > 0 ==> Peek(want - |piece|) == old(Peek(want))
      ensures !ok ==> Script() == AfterFailure(old(Script()))
    {
      if |data| - offset == 0 {
        ok := FetchMore(want);
        if !ok {
          return false, [];
        }
      }
      var step := if want < |data| - offset then want else |data| - offset;
      piece := CopyHeld(step, want - step);
      ok := true;
    }

    /** process_byte_stream: the next n bytes, refilling as often as needed. */
    method Process(n: nat, copying: bool) returns (ok: bool, dest: seq<byte>)
      requires Valid()
      modifies this
      ensures Valid()
      ensures ok <==> Take(old(Script()), n).Some?
      ensures ok ==> dest == (if copying then Take(old(Script()), n).value.0 else [])
      ensures ok ==> Script() == Take(old(Script()), n).value.1
      ensures !ok ==> Script() == AfterFailure(old(Script()))
      ensures ok <==> old(Script())[0] != [] && n <= |old(Script())[0]|
      ensures ok ==> Script() == [old(Script())[0][n..]] + old(Script())[1..]
      ensures ok ==> dest == if copying then old(Script())[0][..n] else []
      ensures !ok ==> Script() == if |old(Script())| == 1 then [[]] else old(Script())[1..]
      ensures ok && n > 0 ==> Peek(0) == old(Peek(n))
    {
      hide PeekAt, Segments, Prepend;
      dest := [];
      if |data| == 0 {
        return false, [];
      }
      ghost var before := Script();
      ghost var peek := Peek(n);
      var piece;
      ok, piece := Round(n);
      if !ok {
        return;
      }
      dest := if copying then piece else [];
      var processed := |piece|;
      while processed < n
        invariant Valid() && data != [] && 0 <= processed <= n
        invariant processed <= |before[0]| && Script() == Drop(before, processed)
        invariant dest == if copying then before[0][..processed] else []
        invariant n > 0 ==> Peek(n - processed) == peek
      {
        ghost var now := Script();
        ok, piece := Round(n - processed);
        if !ok {
          return;
        }
        DropDrop(before, processed, |piece|);
        dest := if copying then dest + piece else [];
        processed := processed + |piece|;
      }
    }
  }
}
