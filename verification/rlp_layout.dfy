/** The buffers that the decoder accepts, as divisions of their bytes into pieces. */
module RlpLayout {
  import opened Bytes
  import opened Rlp
  import opened RlpItems

  /** One slot's share of the bytes: an item, or a stub where the bytes left are too few. A stub has no
      payload; it is as long as the header before it and of that header's type, except that a bare
      0xb7 or 0xf7 is one byte of its own type. */
  datatype Piece =
    | Item(header: nat, payload: nat, kind: SeqType)
    | Stub(header: nat, payload: nat, kind: SeqType)

  /** p stands at the beginning of s, header and kind being those of the piece before. */
  predicate Stands(p: Piece, s: seq<byte>, header: nat, kind: SeqType) {
    s != [] &&
    match p
    case Item(h, n, k) => !TooFew(s) && Announced(s) == Some(Announcement(h, n, k))
    case Stub(h, n, k) =>
      TooFew(s) && n == 0 &&
      if IsBare(s[0]) then h == 1 && k == (if s[0] == 0xb7 then STRING else LIST) else h == header && k == kind
  }

  function End(p: Piece, at: nat): nat { at + p.header + p.payload }

  predicate IsField(slot: Slot) { slot.Num? || slot.To? }

  function KindOf(slot: Slot): SeqType { if slot.Skip? then slot.kind else STRING }

  function Room(slot: Slot): nat { if slot.Num? then Capacity(slot.name) else 20 }

  /** A field's payload is in the buffer and fits the array. */
  predicate Fits(slot: Slot, p: Piece, at: nat, size: nat) {
    IsField(slot) ==> End(p, at) <= size && p.payload <= Room(slot)
  }

  /** The pieces stand one behind the other from `at` to the end of the buffer. Only the payload that
      is not copied, and items that are stepped over, may announce so much that the 64-bit offset
      comes round to a place in the buffer. */
  predicate Layout(slots: seq<Slot>, pieces: seq<Piece>, data: seq<byte>, at: nat, header: nat, kind: SeqType)
    decreases |slots|
  {
    if slots == [] then pieces == [] && at == |data|
    else
      && pieces != [] && at < |data| && Stands(pieces[0], data[at..], header, kind)
      && pieces[0].kind == KindOf(slots[0]) && Fits(slots[0], pieces[0], at, |data|)
      && Layout(slots[1..], pieces[1..], data, End(pieces[0], at) % U64, pieces[0].header, pieces[0].kind)
  }

  /** The same up to a field whose piece ends behind the buffer, so that its copy is refused. */
  predicate RunsOver(slots: seq<Slot>, pieces: seq<Piece>, data: seq<byte>, at: nat, header: nat, kind: SeqType)
    decreases |slots|
  {
    && slots != [] && pieces != [] && at < |data| && IsField(slots[0])
    && Stands(pieces[0], data[at..], header, kind) && pieces[0].kind == STRING
    && (|pieces| == 1 ==> |data| < End(pieces[0], at) < U64)
    && (|pieces| > 1 ==> Fits(slots[0], pieces[0], at, |data|))
    && (|pieces| > 1 ==> RunsOver(slots[1..], pieces[1..], data, End(pieces[0], at), pieces[0].header, STRING))
  }

  /** What has been stored is the payload of the piece. */
  predicate Holds(slot: Slot, p: Piece, data: seq<byte>, at: nat, x: Txn) {
    var from := at + p.header;
    match slot
    case Num(name) =>
      Fits(slot, p, at, |data|) &&
      Get(x, name) == Number(SizeByte(p.payload), data[from..from + p.payload] + Zeros(Capacity(name) - p.payload))
    case To => Fits(slot, p, at, |data|) && x.to == data[from..from + p.payload] + Zeros(20 - p.payload)
    case Data => x.dataAt == from && x.dataSize == p.payload
    case Skip(_) => true
  }

  predicate AllHold(slots: seq<Slot>, pieces: seq<Piece>, data: seq<byte>, at: nat, x: Txn)
    decreases |slots|
  {
    slots == [] ||
    (pieces != [] && Holds(slots[0], pieces[0], data, at, x)
     && AllHold(slots[1..], pieces[1..], data, End(pieces[0], at) % U64, x))
  }

  // ---- One slot.

  lemma PieceRead(b: Buffer, c: Cursor) returns (p: Piece)
    requires 0 <= c.offset < |b.data| < U32 && c.decodedLen <= 9
    ensures Stands(p, b.data[c.offset..], c.decodedLen, c.kind) && p.header <= 9 && p.payload < U64
    ensures HeaderAt(b, c) == Ok((p.payload, Cursor(c.offset + p.header, p.header, p.kind)))
  {
    hide HeaderAt, Announced;
    var s := b.data[c.offset..];
    HeaderOnBytes(b, c);
    if Announced(s).Some? { HeaderFits(s); }
    if !TooFew(s) {
      var a := Announced(s).value;
      p := Item(a.header, a.payload, a.kind);
    } else if IsBare(s[0]) {
      p := Stub(1, 0, if s[0] == 0xb7 then STRING else LIST);
    } else {
      p := Stub(c.decodedLen, 0, c.kind);
    }
  }

  lemma OnePiece(p: Piece, q: Piece, s: seq<byte>, header: nat, kind: SeqType)
    requires Stands(p, s, header, kind) && Stands(q, s, header, kind)
    ensures p == q
  {
    hide Announced;
  }

  lemma HeaderInside(p: Piece, s: seq<byte>, header: nat, kind: SeqType)
    requires Stands(p, s, header, kind) && p.Item?
    ensures p.header <= |s|
  {
    HeaderFits(s);
  }

  lemma Modulo(n: nat, size: nat)
    requires n < 2 * U64 && size < U32
    ensures size % U32 == size && n % U64 == if n < U64 then n else n - U64
  {
  }

  /** What s_memcpy makes of a piece's payload. */
  function CopyOf(data: seq<byte>, at: nat, p: Piece, room: nat): Read<Option<seq<byte>>>
    requires room <= 32
  {
    var from := at + p.header;
    if End(p, at) <= |data| && p.payload <= room
    then Ok(Some(data[from..from + p.payload] + Zeros(room - p.payload)))
    else if |data| < End(p, at) < U64 then Ok(None)
    else Undefined
  }

  lemma CopyOfPiece(data: seq<byte>, at: nat, p: Piece, room: nat)
    requires at < |data| < U32 && p.header <= 9 && p.payload < U64 && room <= 32
    requires at + p.header <= |data| || p.payload == 0
    ensures CopyAt(data, at + p.header, p.payload, room) == CopyOf(data, at, p, room)
  {
    Modulo(End(p, at), |data|);
  }

  /** What one slot does with the piece that stands at the cursor. */
  predicate Outcome(slot: Slot, p: Piece, r: Read<(Cursor, Txn)>, data: seq<byte>, at: nat) {
    var end := End(p, at);
    if p.kind != KindOf(slot) then r == Refused
    else if !IsField(slot) then
      r.Ok? && r.value.0 == Cursor(Signed(end), p.header, p.kind) && Holds(slot, p, data, at, r.value.1)
    else if Fits(slot, p, at, |data|) then
      r.Ok? && r.value.0 == Cursor(end, p.header, p.kind) && Holds(slot, p, data, at, r.value.1)
    else if |data| < end < U64 then r.Ok? && r.value.0 == Cursor(-1, p.header, p.kind)
    else r == Undefined
  }

  lemma PutIsThere(name: Name, t: Txn)
    ensures forall n: Number :: Get(Put(t, name, n), name) == n
  {
  }

  lemma NumberSlot(name: Name, b: Buffer, c: Cursor, n: nat, c1: Cursor, t: Txn)
    requires HeaderAt(b, c) == Ok((n, c1))
    ensures var copy := CopyAt(b.data, c1.offset, n, Capacity(name));
      SlotAt(Num(name), b, c, t) ==
        if c1.kind != STRING then Refused
        else if !copy.Ok? then (if copy.Refused? then Refused else Undefined)
        else if copy.value.None? then
          Ok((c1.(offset := -1), Put(t, name, Number(SizeByte(n), Zeros(Capacity(name))))))
        else Ok((c1.(offset := Signed(c1.offset + n)), Put(t, name, Number(SizeByte(n), copy.value.value))))
  {
    hide HeaderAt, CopyAt, SizeByte, Signed, Put;
  }

  lemma NumberOnPiece(name: Name, b: Buffer, c: Cursor, p: Piece, at: nat, t: Txn)
    requires at < |b.data| < U32 && p.header <= 9 && p.payload < U64 && (at + p.header <= |b.data| || p.payload == 0)
    requires HeaderAt(b, c) == Ok((p.payload, Cursor(at + p.header, p.header, p.kind)))
    ensures Outcome(Num(name), p, SlotAt(Num(name), b, c, t), b.data, at)
  {
    hide HeaderAt, CopyAt, SizeByte, Signed, Get, Put, SlotAt, Capacity;
    RoomOfNumber(name);
    NumberSlot(name, b, c, p.payload, Cursor(at + p.header, p.header, p.kind), t);
    CopyOfPiece(b.data, at, p, Capacity(name));
    PutIsThere(name, t);
    if End(p, at) <= |b.data| { Small(End(p, at)); }
  }

  lemma RoomOfNumber(name: Name)
    ensures Capacity(name) <= 32
  {
  }

  lemma ReceiverOnPiece(b: Buffer, c: Cursor, p: Piece, at: nat, t: Txn)
    requires at < |b.data| < U32 && p.header <= 9 && p.payload < U64 && (at + p.header <= |b.data| || p.payload == 0)
    requires HeaderAt(b, c) == Ok((p.payload, Cursor(at + p.header, p.header, p.kind)))
    ensures Outcome(To, p, SlotAt(To, b, c, t), b.data, at)
  {
    hide HeaderAt, CopyAt, SizeByte, Signed;
    CopyOfPiece(b.data, at, p, 20);
    if End(p, at) <= |b.data| { Small(End(p, at)); }
  }

  lemma OtherOnPiece(slot: Slot, b: Buffer, c: Cursor, p: Piece, at: nat, t: Txn)
    requires !IsField(slot) && HeaderAt(b, c) == Ok((p.payload, Cursor(at + p.header, p.header, p.kind)))
    ensures Outcome(slot, p, SlotAt(slot, b, c, t), b.data, at)
  {
    hide HeaderAt, CopyAt, SizeByte, Signed;
  }

  /** One slot, in terms of the piece that stands there. */
  lemma SlotOnPiece(slot: Slot, b: Buffer, at: nat, header: nat, kind: SeqType, t: Txn) returns (p: Piece)
    requires at < |b.data| < U32 && header <= 9
    ensures Stands(p, b.data[at..], header, kind) && p.header <= 9 && p.payload < U64
    ensures Outcome(slot, p, SlotAt(slot, b, Cursor(at, header, kind), t), b.data, at)
  {
    hide HeaderAt, SlotAt, Stands, Outcome;
    var c := Cursor(at, header, kind);
    p := PieceRead(b, c);
    if p.Item? { HeaderInside(p, b.data[at..], header, kind); } else { StubHasNothing(p, b.data[at..], header, kind); }
    match slot {
      case Num(name) => NumberOnPiece(name, b, c, p, at, t);
      case To => ReceiverOnPiece(b, c, p, at, t);
      case Data => OtherOnPiece(slot, b, c, p, at, t);
      case Skip(_) => OtherOnPiece(slot, b, c, p, at, t);
    }
  }

  lemma StubHasNothing(p: Piece, s: seq<byte>, header: nat, kind: SeqType)
    requires Stands(p, s, header, kind) && p.Stub?
    ensures p.payload == 0
  {
  }

  lemma Small(n: nat)
    requires n < S63
    ensures Signed(n) == n && n % U64 == n
  {
  }

  // ---- All slots.

  predicate NoRepeat(slots: seq<Slot>) {
    forall i, j | 0 <= i < j < |slots| :: slots[i] != slots[j] || slots[i].Skip?
  }

  lemma SlotKeeps(slot: Slot, b: Buffer, c: Cursor, t: Txn, other: Slot, p: Piece, at: nat)
    requires SlotAt(slot, b, c, t).Ok? && (other != slot || other.Skip?) && Holds(other, p, b.data, at, t)
    ensures Holds(other, p, b.data, at, SlotAt(slot, b, c, t).value.1)
  {
    hide HeaderAt, CopyAt, SizeByte, Signed, Capacity, Fits;
  }

  lemma {:induction false} SlotsKeep(slots: seq<Slot>, b: Buffer, c: Cursor, t: Txn, other: Slot, p: Piece, at: nat)
    requires SlotsAt(slots, b, c, t).Ok? && (other !in slots || other.Skip?) && Holds(other, p, b.data, at, t)
    ensures Holds(other, p, b.data, at, SlotsAt(slots, b, c, t).value.1)
    decreases |slots|
  {
    hide SlotAt, Holds;
    if slots != [] {
      SlotKeeps(slots[0], b, c, t, other, p, at);
      var (c1, t1) := SlotAt(slots[0], b, c, t).value;
      SlotsKeep(slots[1..], b, c1, t1, other, p, at);
    }
  }

  /** A division is read to its end, and its payloads are stored. */
  lemma {:induction false} LayoutIsRead(slots: seq<Slot>, pieces: seq<Piece>, b: Buffer, at: nat, header: nat,
                                        kind: SeqType, t: Txn)
    requires Layout(slots, pieces, b.data, at, header, kind) && NoRepeat(slots) && |b.data| < U32 && header <= 9
    ensures var r := SlotsAt(slots, b, Cursor(at, header, kind), t);
      r.Ok? && r.value.0.offset == |b.data| && AllHold(slots, pieces, b.data, at, r.value.1)
    decreases |slots|
  {
    hide SlotAt, Holds, Stands, Fits;
    if slots != [] {
      var c := Cursor(at, header, kind);
      var p := SlotOnPiece(slots[0], b, at, header, kind, t);
      OnePiece(p, pieces[0], b.data[at..], header, kind);
      if IsField(slots[0]) { FieldStays(slots[0], p, at, |b.data|); }
      var next := End(p, at) % U64;
      LayoutIsInside(slots[1..], pieces[1..], b.data, next, p.header, p.kind);
      assert Signed(End(p, at)) == next;
      var t1 := SlotAt(slots[0], b, c, t).value.1;
      LayoutIsRead(slots[1..], pieces[1..], b, next, p.header, p.kind, t1);
      assert slots[0] !in slots[1..] || slots[0].Skip?;
      SlotsKeep(slots[1..], b, Cursor(next, p.header, p.kind), t1, slots[0], p, at);
    }
  }

  lemma FieldStays(slot: Slot, p: Piece, at: nat, size: nat)
    requires IsField(slot) && Fits(slot, p, at, size) && size < U32
    ensures End(p, at) % U64 == End(p, at)
  {
  }

  lemma OthersFit(slot: Slot, p: Piece, at: nat, size: nat)
    requires !IsField(slot)
    ensures Fits(slot, p, at, size)
  {
  }

  lemma LayoutIsInside(slots: seq<Slot>, pieces: seq<Piece>, data: seq<byte>, at: nat, header: nat, kind: SeqType)
    requires Layout(slots, pieces, data, at, header, kind)
    ensures at <= |data|
  {
  }

  /** In a typed envelope nothing but the access list follows the payload. */
  predicate Typed(slots: seq<Slot>) {
    forall i | 0 <= i && i + 1 < |slots| :: IsField(slots[i]) || slots[i + 1] == Skip(LIST)
  }

  predicate Shape(slots: seq<Slot>, lead: Option<byte>) {
    lead.Some? ==> lead.value <= 0x7f && Typed(slots)
  }

  lemma OutsideIsLost(slots: seq<Slot>, b: Buffer, c: Cursor, t: Txn)
    requires c.offset < 0 && (b.lead.None? || c.offset != -1 || (slots != [] ==> slots[0] == Skip(LIST)))
    requires Shape(slots, b.lead)
    ensures var r := SlotsAt(slots, b, c, t); r.Ok? ==> r.value.0.offset != |b.data|
  {
    hide CopyAt, BigEndian;
  }

  /** What is read to its end is a division, or a field has run over in a typed envelope. */
  lemma {:induction false} ReadIsLayout(slots: seq<Slot>, b: Buffer, at: nat, header: nat, kind: SeqType, t: Txn)
    returns (pieces: seq<Piece>, over: bool)
    requires var r := SlotsAt(slots, b, Cursor(at, header, kind), t); r.Ok? && r.value.0.offset == |b.data|
    requires Shape(slots, b.lead) && |b.data| < U32 && header <= 9
    ensures !over ==> Layout(slots, pieces, b.data, at, header, kind)
    ensures over ==> b.lead.Some? && RunsOver(slots, pieces, b.data, at, header, kind)
    decreases |slots|
  {
    hide SlotAt, Holds, Stands, Fits;
    if slots == [] {
      return [], false;
    }
    var c := Cursor(at, header, kind);
    SlotNeedsAByte(slots[0], b, c, t);
    var p := SlotOnPiece(slots[0], b, at, header, kind, t);
    var (c1, t1) := SlotAt(slots[0], b, c, t).value;
    ShapeOfRest(slots, b.lead);
    if c1.offset < 0 {
      if IsField(slots[0]) && b.lead.Some? {
        return [p], true;
      }
      OutsideIsLost(slots[1..], b, c1, t1);
      assert false;
    }
    if IsField(slots[0]) { FieldStays(slots[0], p, at, |b.data|); } else { OthersFit(slots[0], p, at, |b.data|); }
    var next := End(p, at) % U64;
    assert c1 == Cursor(next, p.header, p.kind);
    var more;
    more, over := ReadIsLayout(slots[1..], b, next, p.header, p.kind, t1);
    pieces := [p] + more;
    assert pieces[1..] == more;
    if over { OverIsNotEmpty(slots[1..], more, b.data, next, p.header, p.kind); }
  }

  lemma SlotNeedsAByte(slot: Slot, b: Buffer, c: Cursor, t: Txn)
    requires SlotAt(slot, b, c, t).Ok? && c.offset >= 0
    ensures c.offset < |b.data|
  {
  }

  lemma ShapeOfRest(slots: seq<Slot>, lead: Option<byte>)
    requires Shape(slots, lead) && slots != []
    ensures Shape(slots[1..], lead)
    ensures lead.Some? && !IsField(slots[0]) && slots[1..] != [] ==> slots[1..][0] == Skip(LIST)
  {
  }

  lemma OverIsNotEmpty(slots: seq<Slot>, pieces: seq<Piece>, data: seq<byte>, at: nat, header: nat, kind: SeqType)
    requires RunsOver(slots, pieces, data, at, header, kind)
    ensures slots != [] && pieces != [] && IsField(slots[0])
  {
  }
}
