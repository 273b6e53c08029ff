/** Decoding the RLP encoding of an unsigned transaction gives its fields back. */
module RlpTheorems {
  import opened Bytes
  import opened Rlp

  // ---- The encoder (Ethereum's "Recursive-length prefix serialization").

  /** Big-endian bytes of n without leading zeros; none for 0. */
  function BE(n: nat): seq<byte> {
    if n == 0 then [] else BE(n / 256) + [n % 256]
  }

  function Header(base: nat, n: nat): (h: seq<byte>)
    requires base <= 0xc0 && n < U64
  {
    BELength(n, 8);
    if n <= 55 then [base + n] else [base + 55 + |BE(n)|] + BE(n)
  }

  function Item(b: seq<byte>): seq<byte>
    requires |b| < U64
  {
    if |b| == 1 && b[0] < 0x80 then b else Header(0x80, |b|) + b
  }

  function ListItem(payload: seq<byte>): seq<byte>
    requires |payload| < U64
  {
    Header(0xc0, |payload|) + payload
  }

  /** An unsigned transaction of any of the three kinds; the access list is any list payload. */
  datatype Tx =
    | LegacyTx(nonce: nat, gasPrice: nat, gasLimit: nat, to: seq<byte>, value: nat, data: seq<byte>, chainId: nat)
    | AccessListTx(chainId: nat, nonce: nat, gasPrice: nat, gasLimit: nat, to: seq<byte>, value: nat,
                   data: seq<byte>, accessList: seq<byte>)
    | DynamicFeeTx(chainId: nat, nonce: nat, maxPriorityFee: nat, gasPrice: nat, gasLimit: nat, to: seq<byte>,
                   value: nat, data: seq<byte>, accessList: seq<byte>)

  predicate NumbersFit(t: Tx) {
    && t.chainId < Pow256(8) && t.nonce < Pow256(32) && t.gasPrice < Pow256(32) && t.gasLimit < Pow256(32)
    && t.value < Pow256(32) && (t.DynamicFeeTx? ==> t.maxPriorityFee < Pow256(32))
  }

  predicate InRange(t: Tx) {
    && (|t.to| == 20 || t.to == [])
    && |t.data| < U32 && (!t.LegacyTx? ==> |t.accessList| < U32)
    && NumbersFit(t)
  }

  /** The value that stands in the slot for a name. */
  function NumberOf(t: Tx, name: Name): nat {
    match name
    case Nonce => t.nonce
    case GasPrice => t.gasPrice
    case MaxPriorityFee => if t.DynamicFeeTx? then t.maxPriorityFee else 0
    case GasLimit => t.gasLimit
    case Amount => t.value
    case ChainId => t.chainId
  }

  function SlotBytes(t: Tx, slot: Slot): seq<byte>
    requires InRange(t)
  {
    match slot
    case Num(name) => NumberFits(t, name); Item(BE(NumberOf(t, name)))
    case To => Item(t.to)
    case Data => Item(t.data)
    case Skip(kind) => if kind == LIST && !t.LegacyTx? then ListItem(t.accessList) else Item([])
  }

  function SlotsBytes(t: Tx, slots: seq<Slot>): seq<byte>
    requires InRange(t)
  {
    if slots == [] then [] else SlotBytes(t, slots[0]) + SlotsBytes(t, slots[1..])
  }

  function SlotsOf(t: Tx): seq<Slot> {
    if t.LegacyTx? then LEGACY else if t.AccessListTx? then EIP2930 else EIP1559
  }

  /** EIP-155, EIP-2930 and EIP-1559 signing payloads. */
  function Encode(t: Tx): seq<byte>
    requires InRange(t) && |SlotsBytes(t, SlotsOf(t))| < U64
  {
    (if t.LegacyTx? then [] else if t.AccessListTx? then [1] else [2]) + ListItem(SlotsBytes(t, SlotsOf(t)))
  }

  // ---- Numbers.

  lemma {:induction false} BELength(n: nat, k: nat)
    ensures n < Pow256(k) ==> |BE(n)| <= k
    ensures k == 8 && n < U64 ==> |BE(n)| <= 8
    decreases k
  {
    if k == 8 { Pow256Eight(); }
    if n > 0 && k > 0 {
      BELength(n / 256, k - 1);
    }
  }

  lemma {:induction false} BERoundTrip(n: nat)
    ensures FromBE(BE(n)) == n
  {
    if n > 0 {
      BERoundTrip(n / 256);
      assert BE(n)[..|BE(n)| - 1] == BE(n / 256);
    }
  }

  lemma NumberFits(t: Tx, name: Name)
    requires InRange(t)
    ensures |BE(NumberOf(t, name))| <= Capacity(name) < U64
  {
    BELength(NumberOf(t, name), Capacity(name));
  }

  // ---- Headers and items are read back.

  lemma HeaderStarts(data: seq<byte>, offset: nat, h: seq<byte>)
    requires h != [] && Has(data, offset, h)
    ensures data[offset] == h[0] && data[offset + 1..offset + |h|] == h[1..]
  {
    assert data[offset..offset + |h|][0] == h[0];
    assert data[offset + 1..offset + |h|] == data[offset..offset + |h|][1..];
  }

  lemma BEStarts(n: nat)
    requires 0 < n < U64
    ensures 1 <= |BE(n)| <= 8 && FromBE(BE(n)) == n
  {
    BELength(n, 8);
    BERoundTrip(n);
  }

  lemma ShortHeaderReads(b: Buffer, c: Cursor, base: nat, n: nat)
    requires (base == 0x80 || base == 0xc0) && n <= 55 && c.offset >= 0
    requires Has(b.data, c.offset, [base + n]) && c.offset + 1 + n <= |b.data|
    ensures HeaderAt(b, c) == Ok((n, Cursor(c.offset + 1, 1, if base == 0x80 then STRING else LIST)))
  {
    hide FromBE;
    HeaderStarts(b.data, c.offset, [base + n]);
  }

  lemma LongHeaderReads(b: Buffer, c: Cursor, base: nat, n: nat)
    requires (base == 0x80 || base == 0xc0) && 55 < n < U64 && c.offset >= 0 && |BE(n)| <= 8
    requires Has(b.data, c.offset, [base + 55 + |BE(n)|] + BE(n)) && c.offset + 1 + |BE(n)| + n <= |b.data|
    ensures HeaderAt(b, c) ==
      Ok((n, Cursor(c.offset + 1 + |BE(n)|, 1 + |BE(n)|, if base == 0x80 then STRING else LIST)))
  {
    hide FromBE, BE;
    BEStarts(n);
    HeaderStarts(b.data, c.offset, [base + 55 + |BE(n)|] + BE(n));
  }

  lemma HeaderReads(b: Buffer, c: Cursor, base: nat, n: nat)
    requires (base == 0x80 || base == 0xc0) && n < U64 && c.offset >= 0
    requires Has(b.data, c.offset, Header(base, n)) && c.offset + |Header(base, n)| + n <= |b.data|
    ensures HeaderAt(b, c) ==
      Ok((n, Cursor(c.offset + |Header(base, n)|, |Header(base, n)|, if base == 0x80 then STRING else LIST)))
  {
    hide BE, HeaderAt;
    if n <= 55 {
      ShortHeaderReads(b, c, base, n);
    } else {
      BEStarts(n);
      LongHeaderReads(b, c, base, n);
    }
  }

  lemma SingleByteReads(b: Buffer, c: Cursor, item: seq<byte>)
    requires |item| == 1 && item[0] < 0x80 && c.offset >= 0 && Has(b.data, c.offset, item)
    ensures HeaderAt(b, c) == Ok((1, Cursor(c.offset, 0, STRING)))
  {
    HeaderStarts(b.data, c.offset, item);
  }

  /** An item is read as its bytes' length, with the cursor on them. */
  lemma ItemReads(b: Buffer, c: Cursor, item: seq<byte>)
    requires |item| < U64 && c.offset >= 0 && Has(b.data, c.offset, Item(item))
    ensures HeaderAt(b, c).Ok?
    ensures var (n, c1) := HeaderAt(b, c).value;
      && n == |item| && c1.kind == STRING && c1.offset == c.offset + |Item(item)| - |item| >= 0
      && Has(b.data, c1.offset, item)
  {
    hide Header, HeaderAt;
    if |item| == 1 && item[0] < 0x80 {
      SingleByteReads(b, c, item);
    } else {
      HasSplit(b.data, c.offset, Header(0x80, |item|), item);
      HeaderReads(b, c, 0x80, |item|);
    }
  }

  lemma ListReads(b: Buffer, c: Cursor, payload: seq<byte>)
    requires |payload| < U64 && c.offset >= 0 && Has(b.data, c.offset, ListItem(payload))
    ensures HeaderAt(b, c).Ok?
    ensures var (n, c1) := HeaderAt(b, c).value;
      && n == |payload| && c1.kind == LIST && c1.offset == c.offset + |ListItem(payload)| - n >= 0
      && Has(b.data, c1.offset, payload)
  {
    hide Header, HeaderAt;
    HasSplit(b.data, c.offset, Header(0xc0, |payload|), payload);
    HeaderReads(b, c, 0xc0, |payload|);
  }

  // ---- Slots.

  /** The stored size and bytes of a number denote n, zero-padded to the array's size. */
  predicate Denotes(x: Number, n: nat, capacity: nat) {
    && |BE(n)| <= capacity && x.size == (if n == 0 then 1 else |BE(n)|)
    && x.bytes == BE(n) + Zeros(capacity - |BE(n)|)
  }

  /** The first size bytes are a big-endian form of n. */
  lemma DenotesValue(x: Number, n: nat, capacity: nat)
    requires Denotes(x, n, capacity) && capacity > 0
    ensures 0 < x.size <= |x.bytes| == capacity && FromBE(x.bytes[..x.size]) == n
  {
    BERoundTrip(n);
    if n == 0 {
      assert x.bytes[..1] == [0] && [0][..0] == [];
    } else {
      assert x.bytes[..x.size] == BE(n);
    }
  }

  /** The slot of t has been stored. */
  predicate Stored(data: seq<byte>, t: Tx, slot: Slot, x: Txn) {
    match slot
    case Num(name) => Denotes(Get(x, name), NumberOf(t, name), Capacity(name))
    case To => x.to == (if t.to == [] then Zeros(20) else t.to)
    case Data => x.dataAt >= 0 && Has(data, x.dataAt, t.data) && x.dataSize == |t.data|
    case Skip(_) => true
  }

  predicate Matches(t: Tx, slot: Slot) {
    slot.Skip? ==> slot.kind == if t.LegacyTx? then STRING else LIST
  }

  /** Storing one slot leaves what other slots stored. */
  lemma SlotKeepsOthers(slot: Slot, b: Buffer, c: Cursor, t: Tx, x: Txn, other: Slot)
    requires SlotAt(slot, b, c, x).Ok? && other != slot && Stored(b.data, t, other, x)
    ensures Stored(b.data, t, other, SlotAt(slot, b, c, x).value.1)
  {
    hide HeaderAt, CopyAt, Denotes, Has;
  }

  /** A complete item that fits is copied. */
  lemma Copied(data: seq<byte>, offset: nat, item: seq<byte>, capacity: nat)
    requires |data| < U32 && Has(data, offset, item) && |item| <= capacity <= 32
    ensures CopyAt(data, offset, |item|, capacity) == Ok(Some(item + Zeros(capacity - |item|)))
    ensures Signed(offset + |item|) == offset + |item| && SizeByte(|item|) == if |item| > 1 then |item| else 1
  {
  }

  lemma NumberReads(name: Name, b: Buffer, c: Cursor, t: Tx, x: Txn)
    requires InRange(t) && c.offset >= 0 && |b.data| < U32 && Has(b.data, c.offset, SlotBytes(t, Num(name)))
    ensures SlotAt(Num(name), b, c, x).Ok?
    ensures var (c1, x1) := SlotAt(Num(name), b, c, x).value;
      && c1.offset == c.offset + |SlotBytes(t, Num(name))|
      && Denotes(Get(x1, name), NumberOf(t, name), Capacity(name))
  {
    hide BE, Header, Denotes, HeaderAt, NumberOf, InRange, CopyAt, SizeByte, Signed, Has, Item;
    NumberFits(t, name);
    var item := BE(NumberOf(t, name));
    ItemReads(b, c, item);
    Copied(b.data, HeaderAt(b, c).value.1.offset, item, Capacity(name));
    NumberStored(NumberOf(t, name), Capacity(name));
  }

  lemma ReceiverReads(b: Buffer, c: Cursor, t: Tx, x: Txn)
    requires InRange(t) && c.offset >= 0 && |b.data| < U32 && Has(b.data, c.offset, SlotBytes(t, To))
    ensures SlotAt(To, b, c, x).Ok?
    ensures var (c1, x1) := SlotAt(To, b, c, x).value;
      c1.offset == c.offset + |SlotBytes(t, To)| && x1.to == if t.to == [] then Zeros(20) else t.to
  {
    hide Header, HeaderAt, Item, NumbersFit, Get, Put, CopyAt, SizeByte, Signed, Has;
    ItemReads(b, c, t.to);
    Copied(b.data, HeaderAt(b, c).value.1.offset, t.to, 20);
    assert t.to + Zeros(20 - |t.to|) == if t.to == [] then Zeros(20) else t.to;
  }

  lemma SkipReads(kind: SeqType, b: Buffer, c: Cursor, t: Tx, x: Txn)
    requires InRange(t) && Matches(t, Skip(kind)) && c.offset >= 0 && |b.data| < U32
    requires Has(b.data, c.offset, SlotBytes(t, Skip(kind)))
    ensures SlotAt(Skip(kind), b, c, x).Ok?
    ensures SlotAt(Skip(kind), b, c, x).value.0.offset == c.offset + |SlotBytes(t, Skip(kind))|
  {
    hide Header, HeaderAt, Item, ListItem, NumbersFit, Get, Put, CopyAt;
    if t.LegacyTx? { ItemReads(b, c, []); } else { ListReads(b, c, t.accessList); }
  }

  lemma SlotReads(slot: Slot, b: Buffer, c: Cursor, t: Tx, x: Txn)
    requires InRange(t) && Matches(t, slot) && c.offset >= 0 && |b.data| < U32
    requires Has(b.data, c.offset, SlotBytes(t, slot))
    ensures SlotAt(slot, b, c, x).Ok?
    ensures var (c1, x1) := SlotAt(slot, b, c, x).value;
      c1.offset == c.offset + |SlotBytes(t, slot)| && Stored(b.data, t, slot, x1)
  {
    hide HeaderAt, Denotes, Item, ListItem, NumberOf, NumbersFit, Put, CopyAt, SizeByte;
    match slot {
      case Num(name) => NumberReads(name, b, c, t, x);
      case To => ReceiverReads(b, c, t, x);
      case Data => ItemReads(b, c, t.data);
      case Skip(kind) => SkipReads(kind, b, c, t, x);
    }
  }

  lemma NumberStored(n: nat, capacity: nat)
    requires |BE(n)| <= capacity
    ensures Denotes(Number(if |BE(n)| > 1 then |BE(n)| else 1, BE(n) + Zeros(capacity - |BE(n)|)), n, capacity)
  {
  }

  lemma {:induction false} SlotsRead(slots: seq<Slot>, b: Buffer, c: Cursor, t: Tx, x: Txn)
    requires InRange(t) && (forall s <- slots :: Matches(t, s)) && c.offset >= 0 && |b.data| < U32
    requires Has(b.data, c.offset, SlotsBytes(t, slots))
    ensures SlotsAt(slots, b, c, x).Ok?
    ensures var (c1, x1) := SlotsAt(slots, b, c, x).value;
      c1.offset == c.offset + |SlotsBytes(t, slots)| && (forall s <- slots :: Stored(b.data, t, s, x1))
      && forall other: Slot | Stored(b.data, t, other, x) :: Stored(b.data, t, other, x1)
    decreases |slots|
  {
    hide SlotAt, SlotBytes, Stored, Has;
    if slots != [] {
      HasSplit(b.data, c.offset, SlotBytes(t, slots[0]), SlotsBytes(t, slots[1..]));
      SlotReads(slots[0], b, c, t, x);
      var (c1, x1) := SlotAt(slots[0], b, c, x).value;
      forall other: Slot | other != slots[0] && Stored(b.data, t, other, x) ensures Stored(b.data, t, other, x1) {
        SlotKeepsOthers(slots[0], b, c, t, x, other);
      }
      SlotsRead(slots[1..], b, c1, t, x1);
      assert slots == [slots[0]] + slots[1..];
    }
  }

  /** The transaction's list, in a buffer whose size a uint32_t can hold. */
  predicate Encodable(t: Tx) {
    InRange(t) && |SlotsBytes(t, SlotsOf(t))| < U64 && |ListItem(SlotsBytes(t, SlotsOf(t)))| < U32
  }

  lemma EnvelopeReads(t: Tx, lead: Option<byte>)
    requires Encodable(t)
    ensures var b := Buffer(lead, ListItem(SlotsBytes(t, SlotsOf(t))));
      && Envelope(SlotsOf(t), b).Ok?
      && forall s <- SlotsOf(t) :: Stored(b.data, t, s, Envelope(SlotsOf(t), b).value)
  {
    hide SlotsBytes, Header, HeaderAt, SlotsAt, Stored;
    var slots := SlotsOf(t);
    var payload := SlotsBytes(t, slots);
    var b := Buffer(lead, ListItem(payload));
    assert Has(b.data, 0, b.data);
    ListReads(b, START, payload);
    SlotsMatch(t);
    SlotsRead(slots, b, HeaderAt(b, START).value.1, t, ZERO_TXN);
  }

  lemma SlotsMatch(t: Tx)
    ensures forall s <- SlotsOf(t) :: Matches(t, s)
  {
  }

  /** The envelope is recognised, the whole buffer is consumed and every field is recovered. */
  lemma TransactionRoundTrip(t: Tx)
    requires Encodable(t)
    ensures Decode(Encode(t)).Ok?
    ensures var body := if t.LegacyTx? then Encode(t) else Encode(t)[1..];
      forall s <- SlotsOf(t) :: Stored(body, t, s, Decode(Encode(t)).value)
  {
    hide SlotsBytes, ListItem, Envelope, Stored;
    var body := ListItem(SlotsBytes(t, SlotsOf(t)));
    EnvelopeReads(t, if t.LegacyTx? then None else Some(Encode(t)[0]));
    ListShape(SlotsBytes(t, SlotsOf(t)));
    assert t.LegacyTx? ==> Encode(t) == body;
    assert !t.LegacyTx? ==> Encode(t)[1..] == body;
  }

  lemma ListShape(payload: seq<byte>)
    requires |payload| < U64
    ensures ListItem(payload) != [] && ListItem(payload)[0] >= 0xc0
  {
    BELength(|payload|, 8);
  }
}
