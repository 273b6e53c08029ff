/** Exactly for which buffers the decoder stays inside the buffer and inside its arrays. */
module RlpBounds {
  import opened Bytes
  import opened Rlp
  import opened RlpItems
  import opened RlpLayout
  import opened RlpAcceptance

  /** The pieces stand one behind the other from `at` on, and then either no byte is left where a header
      is wanted, or the last piece is that of a field whose payload does not fit its array. (A legacy
      parser looks for a header again after a refused copy. A typed one reads its type byte then.) */
  predicate Strays(slots: seq<Slot>, pieces: seq<Piece>, b: Buffer, at: nat, header: nat, kind: SeqType)
    decreases |slots|
  {
    && slots != []
    && if pieces == [] then
         |b.data| <= at && (b.lead.Some? ==> at != U64 - 1)
       else
         var p := pieces[0];
         && at < |b.data| && Stands(p, b.data[at..], header, kind) && p.kind == KindOf(slots[0])
         && if Fits(slots[0], p, at, |b.data|)
            then Strays(slots[1..], pieces[1..], b, End(p, at) % U64, p.header, p.kind)
            else |pieces| == 1 && (b.lead.Some? ==> End(p, at) <= |b.data| || U64 <= End(p, at))
  }

  ghost predicate LeadsAstray(slots: seq<Slot>, b: Buffer, at: nat, header: nat, kind: SeqType) {
    exists pieces: seq<Piece> :: Strays(slots, pieces, b, at, header, kind)
  }

  /** There is no byte at all, or the items behind a list header lead astray. */
  ghost predicate StraysBehindHead(slots: seq<Slot>, b: Buffer) {
    b.data == [] ||
    (HeadLength(b.data).Some? &&
     var h := HeadLength(b.data).value; LeadsAstray(slots, b, h, h, LIST))
  }

  /** A legacy envelope ends with an item that is stepped over, a typed one with payload and access list. */
  predicate Tailed(slots: seq<Slot>, lead: Option<byte>) {
    if lead.None? then slots != [] ==> !IsField(slots[|slots| - 1])
    else
      && lead.value <= 0x7f
      && (slots == [] || slots == [Skip(LIST)] || EndsWithTail(slots))
  }

  predicate EndsWithTail(slots: seq<Slot>) {
    |slots| >= 2 && slots[|slots| - 2..] == TAIL && forall i | 0 <= i < |slots| - 2 :: IsField(slots[i])
  }

  lemma RestEndsWithTail(slots: seq<Slot>)
    requires EndsWithTail(slots)
    ensures |slots| > 2 ==> IsField(slots[0]) && EndsWithTail(slots[1..])
    ensures |slots| == 2 ==> slots == TAIL
  {
    hide TAIL, IsField;
    var rest := slots[1..];
    if |slots| > 2 {
      assert rest[|rest| - 2..] == slots[|slots| - 2..];
      forall i | 0 <= i < |rest| - 2 ensures IsField(rest[i]) {
        assert rest[i] == slots[i + 1];
      }
    } else {
      assert slots[0..] == slots;
    }
  }

  lemma RestIsTailed(slots: seq<Slot>, lead: Option<byte>)
    requires Tailed(slots, lead) && slots != []
    ensures Tailed(slots[1..], lead)
    ensures IsField(slots[0]) ==> slots[1..] != [] && (lead.Some? ==> EndsWithTail(slots[1..]))
    ensures lead.Some? && !IsField(slots[0]) ==> slots[1..] == [] || slots[1..] == [Skip(LIST)]
  {
    hide EndsWithTail;
    if lead.Some? && slots != [Skip(LIST)] {
      RestEndsWithTail(slots);
      TwoSlots(slots);
    }
  }

  lemma TwoSlots(slots: seq<Slot>)
    requires EndsWithTail(slots)
    ensures |slots| >= 2 && TAIL[1..] == [Skip(LIST)] && !IsField(TAIL[0])
  {
  }

  /** After a refused copy a typed envelope stays inside. */
  lemma RefusedStaysInside(slots: seq<Slot>, b: Buffer, c: Cursor, t: Txn)
    requires EndsWithTail(slots) && b.lead.Some? && b.lead.value <= 0x7f && c.offset == -1
    requires HeadLength(b.data).Some? && |b.data| < U32
    ensures SlotsAt(slots, b, c, t).Ok?
  {
    hide SlotsAt, HeadLength, HeaderAt;
    var fields := slots[..|slots| - 2];
    assert slots == fields + TAIL;
    FieldsStandStill(fields, b, c, t);
    SlotsAppend(fields, TAIL, b, c, t);
    var (c1, t1) := SlotsAt(fields, b, c, t).value;
    TailFromTheStart(b, c1, t1);
  }

  /** Where there is no byte, there is no item; in front of a typed buffer there is no list. */
  lemma NoByteThere(slots: seq<Slot>, b: Buffer, at: nat, header: nat, kind: SeqType, t: Txn)
    requires |b.data| <= at < U64 && |b.data| < U32 && Tailed(slots, b.lead)
    requires b.lead.Some? && at == U64 - 1 ==> slots == [] || slots == [Skip(LIST)]
    ensures SlotsAt(slots, b, Cursor(Signed(at), header, kind), t) == Undefined
      <==> slots != [] && (b.lead.Some? ==> at != U64 - 1)
  {
    hide CopyAt, BigEndian;
  }

  lemma NoByteBehindRefusal(slots: seq<Slot>, b: Buffer, c: Cursor, t: Txn)
    requires slots != [] && c.offset == -1 && b.lead.None?
    ensures SlotsAt(slots, b, c, t) == Undefined
  {
  }

  lemma FieldDoesNotWrap(slot: Slot, p: Piece, at: nat, size: nat)
    requires IsField(slot) && Fits(slot, p, at, size) && size < U32
    ensures End(p, at) % U64 == End(p, at) <= size && Signed(End(p, at)) == End(p, at)
  {
  }

  lemma SignedOfModulo(n: nat)
    ensures Signed(n % U64) == Signed(n) && n % U64 < U64
  {
  }

  /** The piece at a place is the only one that can lead astray from there. */
  lemma StraysFrom(slots: seq<Slot>, p: Piece, b: Buffer, at: nat, header: nat, kind: SeqType)
    requires slots != [] && at < |b.data| && Stands(p, b.data[at..], header, kind)
    ensures LeadsAstray(slots, b, at, header, kind) <==>
      p.kind == KindOf(slots[0]) &&
      if Fits(slots[0], p, at, |b.data|)
      then LeadsAstray(slots[1..], b, End(p, at) % U64, p.header, p.kind)
      else (b.lead.Some? ==> End(p, at) <= |b.data| || U64 <= End(p, at))
  {
    hide Stands, Fits;
    var next := End(p, at) % U64;
    if pieces: seq<Piece> :| Strays(slots, pieces, b, at, header, kind) {
      OnePiece(p, pieces[0], b.data[at..], header, kind);
      assert Fits(slots[0], p, at, |b.data|) ==> Strays(slots[1..], pieces[1..], b, next, p.header, p.kind);
    }
    if p.kind == KindOf(slots[0]) && Fits(slots[0], p, at, |b.data|) {
      if more: seq<Piece> :| Strays(slots[1..], more, b, next, p.header, p.kind) {
        assert ([p] + more)[1..] == more;
        assert Strays(slots, [p] + more, b, at, header, kind);
      }
    }
    if p.kind == KindOf(slots[0]) && !Fits(slots[0], p, at, |b.data|)
       && (b.lead.Some? ==> End(p, at) <= |b.data| || U64 <= End(p, at)) {
      assert Strays(slots, [p], b, at, header, kind);
    }
  }

  lemma FieldsDoNotFit(slot: Slot, p: Piece, at: nat, size: nat)
    requires !Fits(slot, p, at, size)
    ensures IsField(slot)
  {
  }

  /** The slots lead outside exactly if the bytes do. */
  lemma {:induction false} StraysExactly(slots: seq<Slot>, b: Buffer, at: nat, header: nat, kind: SeqType, t: Txn)
    requires at < U64 && header <= 9 && |b.data| < U32 && HeadLength(b.data).Some? && Tailed(slots, b.lead)
    requires b.lead.Some? && at == U64 - 1 ==> slots == [] || slots == [Skip(LIST)]
    ensures SlotsAt(slots, b, Cursor(Signed(at), header, kind), t) == Undefined
      <==> LeadsAstray(slots, b, at, header, kind)
    decreases |slots|
  {
    hide SlotAt, Stands, Fits, Tailed, HeadLength, EndsWithTail, Holds, Signed;
    if slots == [] {
      return;
    }
    if at >= |b.data| {
      NoByteThere(slots, b, at, header, kind, t);
      assert Strays(slots, [], b, at, header, kind) <==> (b.lead.Some? ==> at != U64 - 1);
      assert forall pieces: seq<Piece> | Strays(slots, pieces, b, at, header, kind) :: pieces == [];
      return;
    }
    Small(at);
    RestIsTailed(slots, b.lead);
    var p := SlotOnPiece(slots[0], b, at, header, kind, t);
    StraysFrom(slots, p, b, at, header, kind);
    var r, end := SlotAt(slots[0], b, Cursor(at, header, kind), t), End(p, at);
    if p.kind != KindOf(slots[0]) {
      return;
    }
    if Fits(slots[0], p, at, |b.data|) {
      if IsField(slots[0]) { FieldDoesNotWrap(slots[0], p, at, |b.data|); }
      SignedOfModulo(end);
      StraysExactly(slots[1..], b, end % U64, p.header, p.kind, r.value.1);
    } else {
      FieldsDoNotFit(slots[0], p, at, |b.data|);
      if |b.data| < end < U64 {
        if b.lead.Some? {
          LeadOfTailed(slots, b.lead);
          RefusedStaysInside(slots[1..], b, r.value.0, r.value.1);
        } else {
          NoByteBehindRefusal(slots[1..], b, r.value.0, r.value.1);
        }
      }
    }
  }

  lemma LeadOfTailed(slots: seq<Slot>, lead: Option<byte>)
    requires Tailed(slots, lead) && lead.Some?
    ensures lead.value <= 0x7f
  {
  }

  // ---- The envelopes.

  /** The decoder leaves its buffer or one of its arrays. */
  ghost predicate LeadsOutside(data: seq<byte>)
    requires data != []
  {
    var typed := Buffer(Some(data[0]), data[1..]);
    if data[0] == 0 || data[0] > 0x7f then StraysBehindHead(LEGACY, Buffer(None, data))
    else if data[0] == 1 then StraysBehindHead(EIP2930, typed)
    else data[0] == 2 && StraysBehindHead(EIP1559, typed)
  }

  lemma EnvelopeStraysExactly(slots: seq<Slot>, b: Buffer)
    requires Tailed(slots, b.lead) && |b.data| < U32
    ensures Envelope(slots, b) == Undefined <==> StraysBehindHead(slots, b)
  {
    hide SlotsAt, LeadsAstray, HeaderAt, HeadLength, Tailed;
    if b.data == [] {
      NothingToRead(b);
      return;
    }
    HeadIsRead(b);
    HeaderOnBytes(b, START);
    if HeadLength(b.data).Some? {
      var h := HeadLength(b.data).value;
      Small(h);
      StraysExactly(slots, b, h, h, LIST, ZERO_TXN);
      assert Envelope(slots, b) == Undefined <==> SlotsAt(slots, b, Cursor(h, h, LIST), ZERO_TXN) == Undefined;
    }
  }

  lemma EnvelopesAreTailed(first: byte)
    requires first <= 0x7f
    ensures Tailed(LEGACY, None) && Tailed(EIP2930, Some(first)) && Tailed(EIP1559, Some(first))
  {
    assert EIP2930[6..] == TAIL && EIP1559[7..] == TAIL;
  }

  /** The decoder stays inside buffer and arrays for all other inputs, and only for those. */
  lemma UndefinedExactly(data: seq<byte>)
    requires data != [] && |data| < U32
    ensures Decode(data) == Undefined <==> LeadsOutside(data)
  {
    hide Envelope, StraysBehindHead, Tailed, LEGACY, EIP2930, EIP1559;
    var typed := Buffer(Some(data[0]), data[1..]);
    EnvelopesAreTailed(if data[0] <= 0x7f then data[0] else 0);
    EnvelopeStraysExactly(LEGACY, Buffer(None, data));
    if data[0] == 1 { EnvelopeStraysExactly(EIP2930, typed); }
    if data[0] == 2 { EnvelopeStraysExactly(EIP1559, typed); }
  }
}
