/** Buffers in which nothing is cut off: a list header and exactly the items, and nothing else. */
module RlpComplete {
  import opened Bytes
  import opened Rlp
  import opened RlpItems
  import opened RlpLayout
  import opened RlpAcceptance

  function Concat(items: seq<seq<byte>>): seq<byte> {
    if items == [] then [] else items[0] + Concat(items[1..])
  }

  /** One item for each slot, of the slot's type and, for a field, no longer than its array. */
  predicate Itemised(slots: seq<Slot>, s: seq<byte>, items: seq<seq<byte>>, payloads: seq<seq<byte>>) {
    && |items| == |payloads| == |slots| && s == Concat(items)
    && (forall k | 0 <= k < |slots| :: IsItem(items[k], payloads[k], KindOf(slots[k])))
    && (forall k | 0 <= k < |slots| :: IsField(slots[k]) ==> |payloads[k]| <= Room(slots[k]))
  }

  /** The payload is what has been stored. */
  predicate Stores(slot: Slot, payload: seq<byte>, data: seq<byte>, x: Txn) {
    match slot
    case Num(name) =>
      |payload| <= Capacity(name) &&
      Get(x, name) == Number(SizeByte(|payload|), payload + Zeros(Capacity(name) - |payload|))
    case To => |payload| <= 20 && x.to == payload + Zeros(20 - |payload|)
    case Data => x.dataAt >= 0 && Has(data, x.dataAt, payload) && x.dataSize == |payload|
    case Skip(_) => true
  }

  // ---- Items are pieces.

  lemma ItemIsPiece(p: seq<byte>, payload: seq<byte>, kind: SeqType, data: seq<byte>, at: nat, header: nat,
                    last: SeqType)
    returns (piece: Piece)
    requires at <= |data| && p <= data[at..] && IsItem(p, payload, kind)
    ensures piece.Item? && piece.kind == kind && piece.payload == |payload| && End(piece, at) == at + |p| <= |data|
    ensures Stands(piece, data[at..], header, last) && Complete(data[at..]) && ItemLength(data[at..]) == |p|
    ensures data[at + piece.header..at + piece.header + |payload|] == payload
  {
    hide Announced;
    var s := data[at..];
    ItemStands(s, p, payload, kind);
    var a := Announced(s).value;
    piece := Item(a.header, a.payload, a.kind);
    assert data[at + a.header..at + a.header + |payload|] == s[a.header..ItemLength(s)];
  }

  lemma FirstOf(items: seq<seq<byte>>, data: seq<byte>, at: nat)
    requires items != [] && at <= |data| && data[at..] == Concat(items)
    ensures items[0] <= data[at..] && data[at + |items[0]|..] == Concat(items[1..])
    ensures data[at..][|items[0]|..] == data[at + |items[0]|..]
  {
  }

  lemma {:induction false} ItemsAreLayout(slots: seq<Slot>, items: seq<seq<byte>>, payloads: seq<seq<byte>>,
                                          data: seq<byte>, at: nat, header: nat, kind: SeqType)
    returns (pieces: seq<Piece>)
    requires at <= |data| < U32 && Itemised(slots, data[at..], items, payloads)
    ensures Layout(slots, pieces, data, at, header, kind) && !CutOff(|slots|, data[at..])
    ensures forall x: Txn | AllHold(slots, pieces, data, at, x) ::
      forall k | 0 <= k < |slots| :: Stores(slots[k], payloads[k], data, x)
    decreases |slots|
  {
    hide IsItem, Stands, Holds, Stores, Complete, ItemLength;
    if slots == [] {
      return [];
    }
    FirstOf(items, data, at);
    var p := ItemIsPiece(items[0], payloads[0], KindOf(slots[0]), data, at, header, kind);
    var next := at + |items[0]|;
    ItemNotEmpty(items[0], payloads[0], KindOf(slots[0]));
    var more := ItemsAreLayout(slots[1..], items[1..], payloads[1..], data, next, p.header, p.kind);
    pieces := [p] + more;
    assert pieces[1..] == more && End(p, at) % U64 == next;
    forall x: Txn, k | AllHold(slots, pieces, data, at, x) && 0 <= k < |slots|
      ensures Stores(slots[k], payloads[k], data, x)
    {
      assert AllHold(slots[1..], more, data, next, x);
      if k == 0 {
        HoldsStores(slots[0], p, payloads[0], data, at, x);
      } else {
        assert Stores(slots[1..][k - 1], payloads[1..][k - 1], data, x);
      }
    }
  }

  lemma ItemNotEmpty(p: seq<byte>, payload: seq<byte>, kind: SeqType)
    requires IsItem(p, payload, kind)
    ensures p != []
  {
  }

  lemma HoldsStores(slot: Slot, p: Piece, payload: seq<byte>, data: seq<byte>, at: nat, x: Txn)
    requires Holds(slot, p, data, at, x) && End(p, at) <= |data| && p.payload == |payload|
    requires data[at + p.header..at + p.header + |payload|] == payload
    ensures Stores(slot, payload, data, x)
  {
    hide SizeByte, Capacity;
  }

  // ---- Pieces are items when nothing is cut off.

  lemma PieceIsItem(p: Piece, s: seq<byte>, header: nat, kind: SeqType)
    requires Stands(p, s, header, kind) && Complete(s)
    ensures p.Item? && p.header + p.payload == ItemLength(s)
    ensures IsItem(s[..ItemLength(s)], s[p.header..ItemLength(s)], p.kind)
  {
    hide Announced;
    FirstItem(s);
  }

  lemma {:induction false} LayoutIsItems(slots: seq<Slot>, pieces: seq<Piece>, data: seq<byte>, at: nat, header: nat,
                                         kind: SeqType)
    returns (items: seq<seq<byte>>, payloads: seq<seq<byte>>)
    requires Layout(slots, pieces, data, at, header, kind) && at <= |data| < U32 && !CutOff(|slots|, data[at..])
    ensures Itemised(slots, data[at..], items, payloads)
    decreases |slots|
  {
    hide IsItem, Stands, Complete, ItemLength;
    if slots == [] {
      return [], [];
    }
    var s, p := data[at..], pieces[0];
    PieceIsItem(p, s, header, kind);
    var n := ItemLength(s);
    assert s[n..] == data[at + n..];
    var more, others := LayoutIsItems(slots[1..], pieces[1..], data, at + n, p.header, p.kind);
    items, payloads := [s[..n]] + more, [s[p.header..n]] + others;
    assert items[1..] == more && s == s[..n] + s[n..];
    forall k | 0 <= k < |slots| ensures IsItem(items[k], payloads[k], KindOf(slots[k])) {
      if k > 0 { assert IsItem(more[k - 1], others[k - 1], KindOf(slots[1..][k - 1])); }
    }
    forall k | 0 <= k < |slots| && IsField(slots[k]) ensures |payloads[k]| <= Room(slots[k]) {
      if k > 0 { assert IsField(slots[1..][k - 1]); }
    }
  }

  /** A field that runs over is cut off. */
  lemma {:induction false} OverrunIsCutOff(slots: seq<Slot>, pieces: seq<Piece>, data: seq<byte>, at: nat, header: nat,
                                           kind: SeqType)
    requires RunsOver(slots, pieces, data, at, header, kind) && at <= |data| < U32
    ensures CutOff(|slots|, data[at..])
    decreases |slots|
  {
    hide Stands, Complete, ItemLength;
    var s, p := data[at..], pieces[0];
    assert |s| == |data| - at;
    if Complete(s) {
      PieceIsItem(p, s, header, kind);
      LengthInside(s);
      OverrunIsCutOff(slots[1..], pieces[1..], data, End(p, at), p.header, STRING);
      assert s[ItemLength(s)..] == data[End(p, at)..];
    }
  }

  lemma LengthInside(s: seq<byte>)
    requires Complete(s)
    ensures 0 < ItemLength(s) <= |s|
  {
  }

  /** One of the items behind the list header is cut off. */
  predicate SomethingIsCutOff(slots: seq<Slot>, data: seq<byte>) {
    HeadLength(data).Some? && HeadLength(data).value <= |data| && CutOff(|slots|, data[HeadLength(data).value..])
  }

  ghost predicate HasItems(slots: seq<Slot>, data: seq<byte>) {
    HeadLength(data).Some? && HeadLength(data).value <= |data| &&
    exists items: seq<seq<byte>>, payloads: seq<seq<byte>> ::
      Itemised(slots, data[HeadLength(data).value..], items, payloads)
  }

  /** The envelopes as they are parsed: a legacy one has nothing in front of it, a typed one its type. */
  predicate Parsed(slots: seq<Slot>, b: Buffer) {
    || (slots == LEGACY && b.lead.None?)
    || (slots == EIP2930 && b.lead == Some(1))
    || (slots == EIP1559 && b.lead == Some(2))
  }

  /** An accepted buffer is a list header and fitting items exactly when no item is cut off, and every
      such buffer is accepted. */
  lemma ItemsExactly(slots: seq<Slot>, b: Buffer)
    requires Parsed(slots, b) && |b.data| < U32
    ensures Envelope(slots, b).Ok? && !SomethingIsCutOff(slots, b.data) <==> HasItems(slots, b.data)
  {
    hide Envelope, Layout, RunsOver, HeadLength, NoRepeat, Typed, Itemised, CutOff, LEGACY, EIP2930, EIP1559, IsOneList;
    EnvelopeShapes();
    if b.lead.None? { LegacyExactly(slots, b); } else { TypedExactly(slots, b); }
    if HeadLength(b.data).Some? {
      var h := HeadLength(b.data).value;
      HeadIsRead(b);
      if Envelope(slots, b).Ok? && !SomethingIsCutOff(slots, b.data) {
        forall pieces: seq<Piece> ensures !RunsOver(slots, pieces, b.data, h, h, LIST) {
          if RunsOver(slots, pieces, b.data, h, h, LIST) { OverrunIsCutOff(slots, pieces, b.data, h, h, LIST); }
        }
        var pieces: seq<Piece> :| Layout(slots, pieces, b.data, h, h, LIST);
        var items, payloads := LayoutIsItems(slots, pieces, b.data, h, h, LIST);
      }
      if items: seq<seq<byte>>, payloads: seq<seq<byte>> :| Itemised(slots, b.data[h..], items, payloads) {
        var pieces := ItemsAreLayout(slots, items, payloads, b.data, h, h, LIST);
      }
    }
  }

  /** The buffer is one list item, neither shorter nor longer than announced, whose payload is fitting
      items and nothing else. */
  ghost predicate IsListOfItems(slots: seq<Slot>, data: seq<byte>) {
    exists items: seq<seq<byte>>, payloads: seq<seq<byte>> ::
      IsItem(data, Concat(items), LIST) && Itemised(slots, Concat(items), items, payloads)
  }

  lemma HeadOfList(data: seq<byte>, payload: seq<byte>)
    requires IsItem(data, payload, LIST)
    ensures IsOneList(data) && HeadLength(data) == Some(|data| - |payload|) && data[|data| - |payload|..] == payload
  {
    hide Announced;
    Kinds(data);
  }

  lemma ListHasHead(data: seq<byte>)
    requires IsOneList(data) && HeadLength(data).Some? && HeadLength(data).value <= |data|
    ensures IsItem(data, data[HeadLength(data).value..], LIST)
  {
    hide Announced;
    Kinds(data);
    FirstItem(data);
    assert data[..|data|] == data && data[Announced(data).value.header..|data|] == data[Announced(data).value.header..];
  }

  /** The list header's own length is not compared with what follows. It is right exactly in those
      accepted buffers that are one list item as well. */
  lemma ListsExactly(slots: seq<Slot>, b: Buffer)
    requires Parsed(slots, b) && |b.data| < U32
    ensures Envelope(slots, b).Ok? && !SomethingIsCutOff(slots, b.data) && IsOneList(b.data)
      <==> IsListOfItems(slots, b.data)
  {
    hide Envelope, Itemised, HeadLength, IsItem, IsOneList, CutOff, Parsed;
    ItemsExactly(slots, b);
    var data := b.data;
    if HasItems(slots, data) && IsOneList(data) {
      var items: seq<seq<byte>>, payloads: seq<seq<byte>> :|
        Itemised(slots, data[HeadLength(data).value..], items, payloads);
      ItemsAreAll(slots, data[HeadLength(data).value..], items, payloads);
      ListHasHead(data);
    }
    if items: seq<seq<byte>>, payloads: seq<seq<byte>> :|
      IsItem(data, Concat(items), LIST) && Itemised(slots, Concat(items), items, payloads) {
      ShorterThanItem(data, Concat(items));
      HeadOfList(data, Concat(items));
    }
  }

  lemma ItemsAreAll(slots: seq<Slot>, s: seq<byte>, items: seq<seq<byte>>, payloads: seq<seq<byte>>)
    requires Itemised(slots, s, items, payloads)
    ensures s == Concat(items)
  {
  }

  lemma ShorterThanItem(p: seq<byte>, payload: seq<byte>)
    requires IsItem(p, payload, LIST)
    ensures |payload| <= |p|
  {
  }

  /** Then every field holds its item's payload. */
  lemma ItemsAreStored(slots: seq<Slot>, b: Buffer, items: seq<seq<byte>>, payloads: seq<seq<byte>>)
    requires Parsed(slots, b) && |b.data| < U32 && HeadLength(b.data).Some? && HeadLength(b.data).value <= |b.data|
    requires Itemised(slots, b.data[HeadLength(b.data).value..], items, payloads)
    ensures Envelope(slots, b).Ok?
    ensures forall k | 0 <= k < |slots| :: Stores(slots[k], payloads[k], b.data, Envelope(slots, b).value)
  {
    hide Envelope, Layout, HeadLength, NoRepeat, Typed, Itemised, CutOff, LEGACY, EIP2930, EIP1559, Stores, AllHold;
    EnvelopeShapes();
    var h := HeadLength(b.data).value;
    var pieces := ItemsAreLayout(slots, items, payloads, b.data, h, h, LIST);
    DivisionIsStored(slots, b);
  }

  // ---- Lengths that leave the buffer.

  /** All payloads end inside the buffer. */
  predicate StaysInside(pieces: seq<Piece>, at: nat, size: nat)
    decreases |pieces|
  {
    pieces == [] || (End(pieces[0], at) <= size && StaysInside(pieces[1..], End(pieces[0], at) % U64, size))
  }

  /** In a division, no announced length leaves the buffer exactly if none is greater than the buffer:
      a length that leaves it and comes round is nearly 2^64. */
  lemma {:induction false} NoLengthLeaves(slots: seq<Slot>, pieces: seq<Piece>, data: seq<byte>, at: nat, header: nat,
                                          kind: SeqType)
    requires Layout(slots, pieces, data, at, header, kind) && |data| < U32 && header <= 9
    ensures StaysInside(pieces, at, |data|) <==> forall p <- pieces :: p.payload <= |data|
    decreases |slots|
  {
    hide Stands;
    if slots != [] {
      var p := pieces[0];
      HeaderOfPiece(p, data[at..], header, kind);
      var next := End(p, at) % U64;
      LayoutIsInside(slots[1..], pieces[1..], data, next, p.header, p.kind);
      NoLengthLeaves(slots[1..], pieces[1..], data, next, p.header, p.kind);
      ComesRound(p, at, |data|);
      assert pieces == [p] + pieces[1..];
    }
  }

  lemma HeaderOfPiece(p: Piece, s: seq<byte>, header: nat, kind: SeqType)
    requires Stands(p, s, header, kind) && header <= 9
    ensures p.header <= 9 && p.payload < U64
  {
    hide Announced;
    if p.Item? { HeaderFits(s); }
  }

  lemma ComesRound(p: Piece, at: nat, size: nat)
    requires at <= size < U32 && p.header <= 9 && p.payload < U64 && End(p, at) % U64 <= size
    ensures End(p, at) <= size <==> p.payload <= size
  {
  }

  // ---- Accepted buffers with cut-off items.

  /** A cut-off header at any slot is an item without payload, as long as the header before it and of
      that header's type. */
  lemma CutOffHeaderIsAnItem(slot: Slot, b: Buffer, c: Cursor, t: Txn)
    requires 0 <= c.offset < |b.data| < U32 && c.decodedLen <= 9
    requires TooFew(b.data[c.offset..]) && !IsBare(b.data[c.offset])
    requires IsField(slot) ==> c.offset + c.decodedLen <= |b.data|
    ensures SlotAt(slot, b, c, t).Ok? <==> c.kind == KindOf(slot)
    ensures c.kind == KindOf(slot) ==>
      var (c1, x) := SlotAt(slot, b, c, t).value;
      && c1 == c.(offset := c.offset + c.decodedLen) && (slot.Data? ==> x.dataSize == 0)
      && (IsField(slot) ==> Stores(slot, [], b.data, x))
  {
    hide HeaderAt, TooFew, SizeByte;
    var p := SlotOnPiece(slot, b, c.offset, c.decodedLen, c.kind, t);
    assert b.data[c.offset..][0] == b.data[c.offset];
    assert p == Stub(c.decodedLen, 0, c.kind) by { StubOf(p, b.data[c.offset..], c.decodedLen, c.kind); }
    Small(End(p, c.offset));
  }

  lemma StubOf(p: Piece, s: seq<byte>, header: nat, kind: SeqType)
    requires Stands(p, s, header, kind) && TooFew(s) && !IsBare(s[0])
    ensures p == Stub(header, 0, kind)
  {
  }
}
