/** Buffers that are accepted although an item of theirs is not there. */
module RlpExamples {
  import opened Bytes
  import opened Rlp
  import opened RlpItems
  import opened RlpLayout
  import opened RlpAcceptance
  import opened RlpComplete

  lemma PieceInFront(p: Piece, slots: seq<Slot>, more: seq<Piece>, data: seq<byte>, at: nat, header: nat, kind: SeqType)
    requires slots != [] && at < |data| && Stands(p, data[at..], header, kind)
    requires p.kind == KindOf(slots[0]) && Fits(slots[0], p, at, |data|)
    requires Layout(slots[1..], more, data, End(p, at) % U64, p.header, p.kind)
    ensures Layout(slots, [p] + more, data, at, header, kind)
  {
    hide Stands, Fits;
    assert ([p] + more)[1..] == more;
  }

  /** n empty strings, one byte each, from `at` on. */
  predicate EmptyStrings(data: seq<byte>, at: nat, n: nat) {
    at + n <= |data| && forall i | at <= i < at + n :: data[i] == 0x80
  }

  function Empties(n: nat): seq<Piece> {
    if n == 0 then [] else [Item(1, 0, STRING)] + Empties(n - 1)
  }

  lemma EmptyInFront(slots: seq<Slot>, more: seq<Piece>, data: seq<byte>, at: nat, header: nat, kind: SeqType)
    requires slots != [] && at < |data| < U32 && data[at] == 0x80 && KindOf(slots[0]) == STRING
    requires Layout(slots[1..], more, data, at + 1, 1, STRING)
    ensures Layout(slots, [Item(1, 0, STRING)] + more, data, at, header, kind)
  {
    hide Layout;
    PieceInFront(Item(1, 0, STRING), slots, more, data, at, header, kind);
  }

  lemma {:induction false} EmptiesInFront(n: nat, slots: seq<Slot>, more: seq<Piece>, data: seq<byte>, at: nat,
                                          header: nat, kind: SeqType)
    requires 0 < n <= |slots| && EmptyStrings(data, at, n) && |data| < U32
    requires forall i | 0 <= i < n :: KindOf(slots[i]) == STRING
    requires Layout(slots[n..], more, data, at + n, 1, STRING)
    ensures Layout(slots, Empties(n) + more, data, at, header, kind)
    decreases n
  {
    hide Layout;
    var tail := slots[1..];
    assert tail[n - 1..] == slots[n..];
    if n > 1 {
      EmptiesInFront(n - 1, tail, more, data, at + 1, 1, STRING);
    } else {
      assert Empties(0) + more == more && tail[0..] == tail;
    }
    EmptyInFront(slots, Empties(n - 1) + more, data, at, header, kind);
    assert Empties(n) + more == [Item(1, 0, STRING)] + (Empties(n - 1) + more);
  }

  lemma NothingLeft(data: seq<byte>, header: nat, kind: SeqType)
    ensures Layout([], [], data, |data|, header, kind)
  {
  }

  lemma LegacyKinds()
    ensures |LEGACY| == 9 && forall i | 0 <= i < 9 :: KindOf(LEGACY[i]) == STRING
    ensures |EIP1559| == 9 && EIP1559[8] == Skip(LIST) && forall i | 0 <= i < 8 :: KindOf(EIP1559[i]) == STRING
  {
  }

  /** A first byte of 0x81 to 0xb6 with too few bytes behind it, after a string with a header of one byte. */
  lemma StubInFront(slots: seq<Slot>, more: seq<Piece>, data: seq<byte>, at: nat)
    requires slots != [] && at < |data| < U32 && 0x81 <= data[at] <= 0xb6 && |data| - at <= data[at] - 0x80
    requires KindOf(slots[0]) == STRING && Layout(slots[1..], more, data, at + 1, 1, STRING)
    ensures Layout(slots, [Stub(1, 0, STRING)] + more, data, at, 1, STRING)
  {
    hide Layout;
    assert data[at..][0] == data[at];
    PieceInFront(Stub(1, 0, STRING), slots, more, data, at, 1, STRING);
  }

  lemma BareInFront(slots: seq<Slot>, more: seq<Piece>, data: seq<byte>, at: nat, header: nat, kind: SeqType)
    requires slots != [] && at < |data| < U32 && data[at] == 0xb7 && |data| - at <= 55
    requires KindOf(slots[0]) == STRING && Layout(slots[1..], more, data, at + 1, 1, STRING)
    ensures Layout(slots, [Stub(1, 0, STRING)] + more, data, at, header, kind)
  {
    hide Layout;
    assert data[at..][0] == data[at];
    PieceInFront(Stub(1, 0, STRING), slots, more, data, at, header, kind);
  }

  /** A list header of one byte. */
  lemma ShortList(data: seq<byte>)
    requires 1 < |data| && 0xc0 <= data[0] <= 0xf6 && data[0] - 0xc0 < |data|
    ensures HeadLength(data) == Some(1)
  {
  }

  const LAST_CUT_OFF: seq<byte> := [0xc9, 0x80, 0x80, 0x80, 0x80, 0x80, 0x80, 0x80, 0x80, 0x81]
  const SECOND_CUT_OFF: seq<byte> := [0xc9, 0x80, 0xb6, 0x80, 0x80, 0x80, 0x80, 0x80, 0x80, 0x80]
  const BARE: seq<byte> := [0xc9, 0xb7, 0x80, 0x80, 0x80, 0x80, 0x80, 0x80, 0x80, 0x80]
  const TYPED_CUT_OFF: seq<byte> := [0xc9, 0x80, 0xb6, 0x80, 0x80, 0x80, 0x80, 0x80, 0x80, 0xc0]

  /** Nine items, the last one cut off. */
  lemma LastItemCutOff()
    ensures Decode(LAST_CUT_OFF).Ok?
  {
    hide Layout, LEGACY, Decode;
    LegacyKinds();
    var data, last := LAST_CUT_OFF, LEGACY[8..];
    NothingLeft(data, 1, STRING);
    assert last[1..] == [] && last[0] == LEGACY[8];
    StubInFront(last, [], data, 9);
    EmptiesInFront(8, LEGACY, [Stub(1, 0, STRING)] + [], data, 1, 1, LIST);
    ShortList(data);
    DecodesExactly(data);
  }

  const NINE_IN_AN_EMPTY_LIST: seq<byte> := [0xc0, 0x80, 0x80, 0x80, 0x80, 0x80, 0x80, 0x80, 0x80, 0x80]

  /** A list header that announces no bytes, and nine items behind it. */
  lemma NineInAnEmptyList()
    ensures Decode(NINE_IN_AN_EMPTY_LIST).Ok? && !IsOneList(NINE_IN_AN_EMPTY_LIST)
    ensures !SomethingIsCutOff(LEGACY, NINE_IN_AN_EMPTY_LIST)
  {
    hide Layout, LEGACY, Decode, CutOff;
    LegacyKinds();
    var data := NINE_IN_AN_EMPTY_LIST;
    NothingLeft(data, 1, STRING);
    assert LEGACY[9..] == [];
    EmptiesInFront(9, LEGACY, [], data, 1, 1, LIST);
    ShortList(data);
    DecodesExactly(data);
    EmptiesAreWhole(9, data[1..]);
  }

  lemma {:induction false} EmptiesAreWhole(n: nat, s: seq<byte>)
    requires EmptyStrings(s, 0, |s|)
    ensures !CutOff(n, s)
    decreases n
  {
    if n > 0 && s != [] { EmptiesAreWhole(n - 1, s[1..]); }
  }

  /** The second of nine items cut off. */
  lemma SecondItemCutOff()
    ensures Decode(SECOND_CUT_OFF).Ok?
  {
    hide Layout, LEGACY, Decode;
    var data := SECOND_CUT_OFF;
    LegacyKinds();
    NothingLeft(data, 1, STRING);
    assert LEGACY[9..] == [] && LEGACY[2..][7..] == LEGACY[9..];
    assert LEGACY[1..][1..] == LEGACY[2..] && LEGACY[1..][0] == LEGACY[1];
    EmptiesInFront(7, LEGACY[2..], [], data, 3, 1, STRING);
    StubInFront(LEGACY[1..], Empties(7) + [], data, 2);
    EmptyInFront(LEGACY, [Stub(1, 0, STRING)] + (Empties(7) + []), data, 1, 1, LIST);
    ShortList(data);
    DecodesExactly(data);
  }

  /** A first item that announces 55 bytes and has none of them. */
  lemma BareItem()
    ensures Decode(BARE).Ok?
  {
    hide Layout, LEGACY, Decode;
    var data := BARE;
    LegacyKinds();
    NothingLeft(data, 1, STRING);
    assert LEGACY[9..] == [] && LEGACY[1..][8..] == LEGACY[9..];
    EmptiesInFront(8, LEGACY[1..], [], data, 2, 1, STRING);
    BareInFront(LEGACY, Empties(8) + [], data, 1, 1, LIST);
    ShortList(data);
    DecodesExactly(data);
  }

  lemma EmptyListLast(slots: seq<Slot>, data: seq<byte>, at: nat)
    requires slots == [Skip(LIST)] && at + 1 == |data| < U32 && data[at] == 0xc0
    ensures Layout(slots, [Item(1, 0, LIST)], data, at, 1, STRING)
  {
    assert data[at..] == [0xc0];
  }

  /** A typed payload with its second item cut off. */
  lemma TypedItemCutOff()
    ensures Decode([2] + TYPED_CUT_OFF).Ok?
  {
    hide Layout, EIP1559, Decode;
    var data := TYPED_CUT_OFF;
    LegacyKinds();
    var last := [Item(1, 0, LIST)];
    assert EIP1559[8..] == [Skip(LIST)] && EIP1559[2..][6..] == EIP1559[8..];
    assert EIP1559[1..][1..] == EIP1559[2..] && EIP1559[1..][0] == EIP1559[1];
    EmptyListLast(EIP1559[8..], data, 9);
    EmptiesInFront(6, EIP1559[2..], last, data, 3, 1, STRING);
    StubInFront(EIP1559[1..], Empties(6) + last, data, 2);
    EmptyInFront(EIP1559, [Stub(1, 0, STRING)] + (Empties(6) + last), data, 1, 1, LIST);
    ShortList(data);
    assert ([2] + data)[1..] == data;
    DecodesExactly([2] + data);
  }

  // ---- A length that comes round, and one that runs over.

  /** The payload announces 2^64 - 13 bytes; behind it the offset comes round to the receiver's bytes. */
  const ROUND: seq<byte> :=
    [0xc0, 0x80, 0x80, 0x80, 0x94, 0, 0, 0, 0, 0, 0, 0, 0, 0, 0, 0, 0, 0, 0, 0, 0, 0, 0x80, 0x80, 0x8a,
     0x80, 0xbf, 0xff, 0xff, 0xff, 0xff, 0xff, 0xff, 0xff, 0xf3]

  lemma LongPayload()
    ensures TooFew(ROUND[26..]) == false
    ensures Announced(ROUND[26..]) == Some(Announcement(9, U64 - 13, STRING))
  {
    var s := ROUND[26..];
    assert s[1..9] == [0xff, 0xff, 0xff, 0xff, 0xff, 0xff, 0xff, 0xf3];
    EightBytes(s[1..9]);
  }

  lemma EightBytes(b: seq<byte>)
    requires b == [0xff, 0xff, 0xff, 0xff, 0xff, 0xff, 0xff, 0xf3]
    ensures FromBE(b) == U64 - 13
  {
    assert b[..7][..6] == b[..6] && b[..6][..5] == b[..5] && b[..5][..4] == b[..4] && b[..4][..3] == b[..3];
    assert b[..3][..2] == b[..2] && b[..2][..1] == b[..1] && b[..1][..0] == [];
    assert FromBE(b[..1]) == 0xff && FromBE(b[..2]) == 0xffff && FromBE(b[..3]) == 0xff_ffff;
    assert FromBE(b[..4]) == 0xffff_ffff && FromBE(b[..5]) == 0xff_ffff_ffff && FromBE(b[..6]) == 0xffff_ffff_ffff;
    assert FromBE(b[..7]) == 0xff_ffff_ffff_ffff;
  }

  lemma RoundPieces()
    ensures Stands(Item(1, 20, STRING), ROUND[4..], 1, STRING) && Stands(Item(1, 10, STRING), ROUND[24..], 1, STRING)
    ensures Stands(Item(9, U64 - 13, STRING), ROUND[26..], 1, STRING)
  {
    LongPayload();
  }

  lemma RoundTail()
    ensures LEGACY[5..] == [Data, Num(ChainId), Skip(STRING), Skip(STRING)]
    ensures LEGACY[3] == To && LEGACY[4] == Num(Amount)
  {
  }

  /** It is accepted, with a payload far longer than the buffer. */
  lemma LengthComesRound()
    ensures Decode(ROUND).Ok? && Decode(ROUND).value.dataSize == U64 - 13
  {
    hide Layout, LEGACY, Decode, ROUND, Stands;
    var pieces := RoundLayout();
    RoundHead();
    assert ROUND != [] && |ROUND| < U32 by { RoundShape(); }
    EnvelopeShapes();
    DivisionIsStored(LEGACY, Buffer(None, ROUND));
    RoundIsLegacy();
    assert |LEGACY| == 9 && LEGACY[5] == Data by { RoundTail(); LegacyKinds(); }
    DataIsHeld(LEGACY, pieces, ROUND, 1, Envelope(LEGACY, Buffer(None, ROUND)).value, 5);
  }

  lemma RoundHead()
    ensures HeadLength(ROUND) == Some(1)
  {
    ShortList(ROUND);
  }

  lemma RoundShape()
    ensures |ROUND| == 35 && EmptyStrings(ROUND, 1, 3) && ROUND[22] == 0x80 && ROUND[23] == 0x80 && ROUND[25] == 0x80
  {
  }

  lemma RoundIsLegacy()
    ensures ROUND != [] && Decode(ROUND) == Envelope(LEGACY, Buffer(None, ROUND))
  {
    hide Envelope;
  }

  lemma RoundLayout() returns (pieces: seq<Piece>)
    ensures Layout(LEGACY, pieces, ROUND, 1, 1, LIST)
    ensures |pieces| == 9 && pieces[5] == Item(9, U64 - 13, STRING)
  {
    hide Layout, LEGACY, ROUND, Stands;
    RoundShape();
    RoundPieces();
    RoundTail();
    LegacyKinds();
    NothingLeft(ROUND, 1, STRING);
    var e, last := Item(1, 0, STRING), Item(1, 10, STRING);
    var tail := LEGACY[5..];
    assert tail[3..][1..] == [] && tail[2..][1..] == tail[3..] && tail[1..][1..] == tail[2..] && [last] + [] == [last];
    PieceInFront(last, tail[3..], [], ROUND, 24, 1, STRING);
    EmptyInFront(tail[2..], [last], ROUND, 23, 1, STRING);
    EmptyInFront(tail[1..], [e] + [last], ROUND, 22, 9, STRING);
    PieceInFront(Item(9, U64 - 13, STRING), tail, [e] + ([e] + [last]), ROUND, 26, 1, STRING);
    var four := [Item(9, U64 - 13, STRING)] + ([e] + ([e] + [last]));
    assert LEGACY[4..][1..] == LEGACY[5..] && LEGACY[4..][0] == Num(Amount);
    assert LEGACY[3..][1..] == LEGACY[4..] && LEGACY[3..][0] == To;
    EmptyInFront(LEGACY[4..], four, ROUND, 25, 1, STRING);
    PieceInFront(Item(1, 20, STRING), LEGACY[3..], [e] + four, ROUND, 4, 1, STRING);
    EmptiesInFront(3, LEGACY, [Item(1, 20, STRING)] + ([e] + four), ROUND, 1, 1, LIST);
    pieces := Empties(3) + ([Item(1, 20, STRING)] + ([e] + four));
    ThreeEmpties();
  }

  lemma ThreeEmpties()
    ensures Empties(3) == [Item(1, 0, STRING), Item(1, 0, STRING), Item(1, 0, STRING)]
  {
  }

  /** The payload's announced length is stored, wherever it stands. */
  lemma {:induction false} DataIsHeld(slots: seq<Slot>, pieces: seq<Piece>, data: seq<byte>, at: nat, x: Txn, k: nat)
    requires AllHold(slots, pieces, data, at, x) && k < |slots| == |pieces| && slots[k] == Data
    ensures x.dataSize == pieces[k].payload
    decreases k
  {
    hide Fits;
    if k > 0 { DataIsHeld(slots[1..], pieces[1..], data, End(pieces[0], at) % U64, x, k - 1); }
  }

  const OVERRUN: seq<byte> := [0xc3, 0x01, 0xb8, 0xff]

  /** The nonce announces 255 bytes that are not there; the list announces the three that are. */
  lemma RefusedCopy()
    ensures Decode([2] + OVERRUN).Ok?
  {
    hide RunsOver, EIP1559, Decode;
    var data := OVERRUN;
    ShortList(data);
    OverrunRuns();
    assert ([2] + data)[1..] == data;
    DecodesExactly([2] + data);
  }

  lemma OverrunRuns()
    ensures RunsOver(EIP1559, [Item(0, 1, STRING), Item(2, 255, STRING)], OVERRUN, 1, 1, LIST)
    ensures IsOneList(OVERRUN)
  {
    hide FromBE;
    var data, pieces := OVERRUN, [Item(0, 1, STRING), Item(2, 255, STRING)];
    assert EIP1559[0] == Num(ChainId) && EIP1559[1..][0] == Num(Nonce);
    assert data[1..][0] == 1 && data[2..][0] == 0xb8 && data[2..][1..2] == [0xff];
    OneByte();
    assert pieces[1..] == [Item(2, 255, STRING)];
    assert RunsOver(EIP1559[1..], pieces[1..], data, 2, 0, STRING);
  }

  lemma OneByte()
    ensures FromBE([0xff]) == 255
  {
    assert [0xff][..0] == [];
  }
}
