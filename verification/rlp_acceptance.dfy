/** Exactly which buffers the decoder accepts, and what it stores of them. */
module RlpAcceptance {
  import opened Bytes
  import opened Rlp
  import opened RlpItems
  import opened RlpLayout

  // ---- Divisions into pieces.

  /** Behind the list header the bytes divide into one piece for each slot. */
  ghost predicate Divides(slots: seq<Slot>, data: seq<byte>) {
    HeadLength(data).Some? &&
    var h := HeadLength(data).value; exists pieces: seq<Piece> :: Layout(slots, pieces, data, h, h, LIST)
  }

  /** The buffer is one list item, neither shorter nor longer than announced. */
  predicate IsOneList(data: seq<byte>) {
    Complete(data) && ItemLength(data) == |data| && Announced(data).value.kind == LIST
  }

  /** A field runs over the end of a buffer that is one list item. */
  ghost predicate Overruns(slots: seq<Slot>, data: seq<byte>) {
    IsOneList(data) && HeadLength(data).Some? &&
    var h := HeadLength(data).value; exists pieces: seq<Piece> :: RunsOver(slots, pieces, data, h, h, LIST)
  }

  /** The buffers that are accepted: by the first byte legacy or one of the typed envelopes. */
  ghost predicate Acceptable(data: seq<byte>)
    requires data != []
  {
    if data[0] == 0 || data[0] > 0x7f then Divides(LEGACY, data)
    else if data[0] == 1 then Divides(EIP2930, data[1..]) || Overruns(EIP2930, data[1..])
    else data[0] == 2 && (Divides(EIP1559, data[1..]) || Overruns(EIP1559, data[1..]))
  }

  /** In front of a legacy buffer there is nothing to read, so its divisions are all that is accepted. */
  lemma LegacyExactly(slots: seq<Slot>, b: Buffer)
    requires b.lead.None? && NoRepeat(slots) && |b.data| < U32
    ensures Envelope(slots, b).Ok? <==> Divides(slots, b.data)
  {
    hide SlotsAt, Layout, HeaderAt, HeadLength, NoRepeat, Typed;
    HeadIsRead(b);
    if Envelope(slots, b).Ok? {
      var h := HeadLength(b.data).value;
      var pieces, over := ReadIsLayout(slots, b, h, h, LIST, ZERO_TXN);
    }
    if Divides(slots, b.data) {
      DivisionIsStored(slots, b);
    }
  }

  /** The payloads of the pieces are what is stored. */
  lemma DivisionIsStored(slots: seq<Slot>, b: Buffer)
    requires Divides(slots, b.data) && NoRepeat(slots) && |b.data| < U32
    ensures Envelope(slots, b).Ok?
    ensures var h := HeadLength(b.data).value;
      forall pieces: seq<Piece> :: Layout(slots, pieces, b.data, h, h, LIST) ==>
        AllHold(slots, pieces, b.data, h, Envelope(slots, b).value)
  {
    hide SlotsAt, Layout, HeaderAt, HeadLength, NoRepeat, AllHold;
    HeadIsRead(b);
    var h := HeadLength(b.data).value;
    forall pieces: seq<Piece> | Layout(slots, pieces, b.data, h, h, LIST)
      ensures Envelope(slots, b).Ok? && AllHold(slots, pieces, b.data, h, Envelope(slots, b).value)
    {
      LayoutIsRead(slots, pieces, b, h, h, LIST, ZERO_TXN);
    }
  }

  // ---- Copies that are refused.

  lemma {:induction false} SlotsAppend(slots: seq<Slot>, last: seq<Slot>, b: Buffer, c: Cursor, t: Txn)
    ensures SlotsAt(slots + last, b, c, t) ==
      match SlotsAt(slots, b, c, t)
      case Ok((c1, t1)) => SlotsAt(last, b, c1, t1)
      case Refused => Refused
      case Undefined => Undefined
    decreases |slots|
  {
    hide SlotAt;
    if slots == [] {
      assert slots + last == last;
    } else {
      assert (slots + last)[0] == slots[0] && (slots + last)[1..] == slots[1..] + last;
      var w := SlotAt(slots[0], b, c, t);
      if w.Ok? { SlotsAppend(slots[1..], last, b, w.value.0, w.value.1); }
    }
  }

  /** At offset -1 a typed envelope reads its type byte over and over and copies nothing. */
  lemma {:induction false} FieldsStandStill(slots: seq<Slot>, b: Buffer, c: Cursor, t: Txn)
    requires (forall s <- slots :: IsField(s)) && c.offset == -1 && b.lead.Some? && b.lead.value <= 0x7f
    ensures SlotsAt(slots, b, c, t).Ok? && SlotsAt(slots, b, c, t).value.0.offset == -1
    decreases |slots|
  {
    if slots != [] {
      FieldStandsStill(slots[0], b, c, t);
      var (c1, t1) := SlotAt(slots[0], b, c, t).value;
      FieldsStandStill(slots[1..], b, c1, t1);
    }
  }

  lemma FieldStandsStill(slot: Slot, b: Buffer, c: Cursor, t: Txn)
    requires IsField(slot) && c.offset == -1 && b.lead.Some? && b.lead.value <= 0x7f
    ensures SlotAt(slot, b, c, t).Ok? && SlotAt(slot, b, c, t).value.0.offset == -1
  {
  }

  lemma OneSlot(slot: Slot, b: Buffer, c: Cursor, t: Txn)
    ensures SlotsAt([slot], b, c, t) == SlotAt(slot, b, c, t)
  {
    hide SlotAt;
    assert [slot][1..] == [];
    var w := SlotAt(slot, b, c, t);
    if w.Ok? { assert SlotsAt([], b, w.value.0, w.value.1) == w; }
  }

  /** Then the payload is taken to be the type byte, and the access list to be the whole list. */
  lemma TailFromTheStart(b: Buffer, c: Cursor, t: Txn)
    requires c.offset == -1 && b.lead.Some? && b.lead.value <= 0x7f && |b.data| < U32
    requires HeadLength(b.data).Some?
    ensures var (n, c0) := HeaderAt(b, START).value;
      SlotsAt(TAIL, b, c, t).Ok? && SlotsAt(TAIL, b, c, t).value.0.offset == Signed(c0.offset + n)
  {
    hide CopyAt, BigEndian, HeadLength, TooFew, Announced;
    HeadIsRead(b);
    var c1 := Cursor(0, 0, STRING);
    var t1 := t.(dataAt := -1, dataSize := 1);
    assert HeaderAt(b, c) == Ok((1, Cursor(-1, 0, STRING)));
    assert SlotAt(Data, b, c, t) == Ok((c1, t1));
    SameHeader(b);
    assert TAIL[1..] == [Skip(LIST)];
    OneSlot(Skip(LIST), b, c1, t1);
  }

  lemma SameHeader(b: Buffer)
    requires HeadLength(b.data).Some? && |b.data| < U32
    ensures HeaderAt(b, Cursor(0, 0, STRING)) == HeaderAt(b, START)
  {
    hide HeaderAt, Announced;
    assert b.data[0..] == b.data;
    HeaderOnBytes(b, START);
    HeaderOnBytes(b, Cursor(0, 0, STRING));
  }

  /** After a field that runs over, a typed envelope ends where the list header says it does. */
  lemma {:induction false} RunOverIsRead(fields: seq<Slot>, pieces: seq<Piece>, b: Buffer, at: nat, header: nat,
                                         kind: SeqType, t: Txn)
    requires RunsOver(fields + TAIL, pieces, b.data, at, header, kind) && (forall s <- fields :: IsField(s))
    requires b.lead.Some? && b.lead.value <= 0x7f && |b.data| < U32 && header <= 9 && HeadLength(b.data).Some?
    ensures var r, (n, c0) := SlotsAt(fields + TAIL, b, Cursor(at, header, kind), t), HeaderAt(b, START).value;
      r.Ok? && r.value.0.offset == Signed(c0.offset + n)
    decreases |fields|
  {
    hide SlotAt, Holds, Stands, Fits, TAIL, HeadLength, HeaderAt;
    HeadIsRead(b);
    var c, slots := Cursor(at, header, kind), fields + TAIL;
    NoFieldInTail(fields);
    assert slots[0] == fields[0] && slots[1..] == fields[1..] + TAIL;
    var p := SlotOnPiece(slots[0], b, at, header, kind, t);
    OnePiece(p, pieces[0], b.data[at..], header, kind);
    var r := RunOverStep(slots[0], p, b, c, at, t, |pieces| == 1);
    var (c1, t1) := r;
    if |pieces| == 1 {
      FieldsStandStill(fields[1..], b, c1, t1);
      var (c2, t2) := SlotsAt(fields[1..], b, c1, t1).value;
      SlotsAppend(fields[1..], TAIL, b, c1, t1);
      TailFromTheStart(b, c2, t2);
    } else {
      RunOverIsRead(fields[1..], pieces[1..], b, End(p, at), p.header, STRING, t1);
    }
  }

  lemma RunOverStep(slot: Slot, p: Piece, b: Buffer, c: Cursor, at: nat, t: Txn, last: bool) returns (r: (Cursor, Txn))
    requires IsField(slot) && p.kind == STRING && Outcome(slot, p, SlotAt(slot, b, c, t), b.data, at)
    requires if last then |b.data| < End(p, at) < U64 else Fits(slot, p, at, |b.data|)
    ensures SlotAt(slot, b, c, t) == Ok(r)
    ensures r.0 == Cursor(if last then -1 else End(p, at), p.header, STRING)
  {
    hide SlotAt;
    r := SlotAt(slot, b, c, t).value;
  }

  lemma NoFieldInTail(fields: seq<Slot>)
    requires IsField((fields + TAIL)[0])
    ensures fields != []
  {
  }

  lemma EndOfTheList(b: Buffer)
    requires HeadLength(b.data).Some? && |b.data| < U32 && HeadLength(b.data).value < |b.data|
    ensures var (n, c0) := HeaderAt(b, START).value; Signed(c0.offset + n) == |b.data| <==> IsOneList(b.data)
  {
    hide HeaderAt, Announced;
    HeadIsRead(b);
    Kinds(b.data);
    if Announced(b.data).Some? { HeaderFits(b.data); }
  }

  /** In a typed envelope a refused copy is not noticed, so an overrun of a buffer that is one list item
      is accepted as well. */
  lemma TypedExactly(slots: seq<Slot>, b: Buffer)
    requires slots in [EIP2930, EIP1559] && b.lead.Some? && b.lead.value <= 0x7f && |b.data| < U32
    ensures Envelope(slots, b).Ok? <==> Divides(slots, b.data) || Overruns(slots, b.data)
  {
    hide SlotsAt, Layout, RunsOver, HeaderAt, HeadLength, NoRepeat, Typed, EIP2930, EIP1559, TAIL, IsOneList;
    EnvelopeShapes();
    HeadIsRead(b);
    if HeadLength(b.data).Some? {
      var h := HeadLength(b.data).value;
      forall pieces: seq<Piece> | RunsOver(slots, pieces, b.data, h, h, LIST)
        ensures Envelope(slots, b).Ok? <==> IsOneList(b.data)
      {
        var fields := FieldsOf(slots);
        RunsInside(slots, pieces, b.data, h, h, LIST);
        RunOverIsRead(fields, pieces, b, h, h, LIST, ZERO_TXN);
        EndOfTheList(b);
      }
      if Envelope(slots, b).Ok? {
        var pieces, over := ReadIsLayout(slots, b, h, h, LIST, ZERO_TXN);
      }
    }
    if Divides(slots, b.data) {
      DivisionIsStored(slots, b);
    }
  }

  lemma RunsInside(slots: seq<Slot>, pieces: seq<Piece>, data: seq<byte>, at: nat, header: nat, kind: SeqType)
    requires RunsOver(slots, pieces, data, at, header, kind)
    ensures at < |data|
  {
  }

  lemma FieldsOf(slots: seq<Slot>) returns (fields: seq<Slot>)
    requires slots in [EIP2930, EIP1559]
    ensures slots == fields + TAIL && forall s <- fields :: IsField(s)
  {
    fields := slots[..|slots| - 2];
  }

  lemma EnvelopeShapes()
    ensures NoRepeat(LEGACY) && NoRepeat(EIP2930) && NoRepeat(EIP1559) && Typed(EIP2930) && Typed(EIP1559)
  {
  }

  /** All of what is accepted. */
  lemma DecodesExactly(data: seq<byte>)
    requires data != [] && |data| < U32
    ensures Decode(data).Ok? <==> Acceptable(data)
  {
    hide Envelope, Divides, Overruns, NoRepeat, Typed, LEGACY, EIP2930, EIP1559;
    EnvelopeShapes();
    var typed := Buffer(Some(data[0]), data[1..]);
    LegacyExactly(LEGACY, Buffer(None, data));
    if data[0] == 1 { TypedExactly(EIP2930, typed); }
    if data[0] == 2 { TypedExactly(EIP1559, typed); }
    if data[0] == 0 { NoListHere(data); }
  }

  lemma NoListHere(data: seq<byte>)
    requires data != [] && data[0] == 0
    ensures !Divides(LEGACY, data)
  {
  }
}
