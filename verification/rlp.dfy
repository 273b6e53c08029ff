/** RLP decoding of the three unsigned transaction envelopes (get_decode_length in
    apps/evm_family/evm_helpers.c, the parsers in evm_txn_helpers.c and eip1159.c). */
module Rlp {
  import opened Bytes

  datatype SeqType = NONE | STRING | LIST

  /** The parsers' local variables; all three survive a header that get_decode_length cannot read. */
  datatype Cursor = Cursor(offset: int, decodedLen: nat, kind: SeqType)

  const START := Cursor(0, 0, NONE)

  /** What a parser is given, and the byte in front of it when there is one: the typed envelopes are
      parsed from the second byte on, so that offset -1 is the type byte. */
  datatype Buffer = Buffer(lead: Option<byte>, data: seq<byte>)

  /** Undefined: a byte outside the buffer is read, or a field overflows its array. */
  datatype Read<+T> = Ok(value: T) | Refused | Undefined {
    predicate IsFailure() { !Ok? }
    function PropagateFailure<U>(): Read<U> requires !Ok? { if Refused? then Refused else Undefined }
    function Extract(): T requires Ok? { value }
  }

  /** size and bytes of one numeric field; unused bytes of the array are zero. */
  datatype Number = Number(size: nat, bytes: seq<byte>)

  /** evm_unsigned_txn; data is remembered as a place in the buffer. */
  datatype Txn = Txn(nonce: Number, gasPrice: Number, maxPriorityFee: Number, gasLimit: Number,
                     to: seq<byte>, value: Number, dataAt: int, dataSize: nat, chainId: Number)

  const ZERO32 := Number(0, Zeros(32))
  const ZERO_TXN := Txn(ZERO32, ZERO32, ZERO32, ZERO32, Zeros(20), ZERO32, 0, 0, Number(0, Zeros(8)))

  datatype Name = Nonce | GasPrice | MaxPriorityFee | GasLimit | Amount | ChainId

  /** One item of an envelope: a number, the receiver, the payload, or one that is stepped over. */
  datatype Slot = Num(name: Name) | To | Data | Skip(kind: SeqType)

  const LEGACY := [Num(Nonce), Num(GasPrice), Num(GasLimit), To, Num(Amount), Data, Num(ChainId),
                   Skip(STRING), Skip(STRING)]
  const EIP2930 := [Num(ChainId), Num(Nonce), Num(GasPrice), Num(GasLimit), To, Num(Amount)] + TAIL
  const EIP1559 := [Num(ChainId), Num(Nonce), Num(MaxPriorityFee), Num(GasPrice), Num(GasLimit), To, Num(Amount)] + TAIL
  const TAIL := [Data, Skip(LIST)]

  function Get(t: Txn, name: Name): Number {
    match name
    case Nonce => t.nonce
    case GasPrice => t.gasPrice
    case MaxPriorityFee => t.maxPriorityFee
    case GasLimit => t.gasLimit
    case Amount => t.value
    case ChainId => t.chainId
  }

  function Put(t: Txn, name: Name, n: Number): Txn {
    match name
    case Nonce => t.(nonce := n)
    case GasPrice => t.(gasPrice := n)
    case MaxPriorityFee => t.(maxPriorityFee := n)
    case GasLimit => t.(gasLimit := n)
    case Amount => t.(value := n)
    case ChainId => t.(chainId := n)
  }

  function Capacity(name: Name): nat { if name == ChainId then 8 else 32 }

  // ---- Headers.

  /** hex2dec of the hexadecimal form: at most 16 digits are looked at. */
  function BigEndian(b: seq<byte>): nat {
    FromBE(if |b| <= 8 then b else b[..8])
  }

  /** A byte of the buffer, or the one in front of it. */
  predicate CanRead(b: Buffer, offset: int) {
    0 <= offset < |b.data| || (offset == -1 && b.lead.Some?)
  }

  /** The first byte announces more than is left. */
  predicate TooShort(first: byte, left: nat) {
    || (0x80 <= first <= 0xb6 && left <= first - 0x80)
    || (0xb8 <= first <= 0xbf && left <= first - 0xb7)
    || (0xc0 <= first <= 0xf6 && left <= first - 0xc0)
    || (0xf8 <= first && left <= first - 0xf7)
  }

  /** get_decode_length at the cursor: the item's length, and the cursor moved past the header. */
  function HeaderAt(b: Buffer, c: Cursor): Read<(nat, Cursor)> {
    if !CanRead(b, c.offset) then Undefined
    else
      var first, left := if c.offset < 0 then b.lead.value else b.data[c.offset], |b.data| - c.offset;
      if TooShort(first, left) then
        // Nothing is decoded, the previous header length and type are used again.
        Ok((0, c.(offset := Signed(c.offset + c.decodedLen))))
      else if first <= 0x7f then
        Ok((1, Cursor(c.offset, 0, STRING)))
      else if first <= 0xb7 && left > first - 0x80 then
        Ok((first - 0x80, Cursor(c.offset + 1, 1, STRING)))
      else if first <= 0xbf then
        var len := first - 0xb7;
        Ok((BigEndian(b.data[c.offset + 1..c.offset + 1 + len]), Cursor(c.offset + 1 + len, 1 + len, STRING)))
      else if first <= 0xf7 && left > first - 0xc0 then
        Ok((first - 0xc0, Cursor(c.offset + 1, 1, LIST)))
      else
        var len := first - 0xf7;
        Ok((BigEndian(b.data[c.offset + 1..c.offset + 1 + len]), Cursor(c.offset + 1 + len, 1 + len, LIST)))
  }

  /** s_memcpy to the front of an array of zeros, with a uint32_t for the size of the source. None: it
      refuses, the array stays zero and the offset becomes -1. */
  function CopyAt(data: seq<byte>, offset: int, len: nat, capacity: nat): (r: Read<Option<seq<byte>>>)
    ensures r.Ok? && r.value.Some? ==> 0 <= offset && offset + len <= |data| && len <= capacity
  {
    if offset == -1 || (offset + len) % U64 > |data| % U32 then Ok(None)
    else if offset < 0 || offset + len > |data| || len > capacity then Undefined
    else Ok(Some(data[offset..offset + len] + Zeros(capacity - len)))
  }

  /** The uint8_t size that is stored with a number. */
  function SizeByte(len: nat): nat { (if len > 1 then len else 1) % 256 }

  function SlotAt(slot: Slot, b: Buffer, c: Cursor, t: Txn): Read<(Cursor, Txn)> {
    var (len, c1) :- HeaderAt(b, c);
    var past := c1.(offset := Signed(c1.offset + len));
    var refused := c1.(offset := -1);
    if c1.kind != (if slot.Skip? then slot.kind else STRING) then Refused
    else match slot
      case Num(name) =>
        var copy :- CopyAt(b.data, c1.offset, len, Capacity(name));
        if copy.None? then Ok((refused, Put(t, name, Number(SizeByte(len), Zeros(Capacity(name))))))
        else Ok((past, Put(t, name, Number(SizeByte(len), copy.value))))
      case To =>
        var copy :- CopyAt(b.data, c1.offset, len, 20);
        if copy.None? then Ok((refused, t.(to := Zeros(20)))) else Ok((past, t.(to := copy.value)))
      case Data => Ok((past, t.(dataAt := c1.offset, dataSize := len)))
      case Skip(_) => Ok((past, t))
  }

  function SlotsAt(slots: seq<Slot>, b: Buffer, c: Cursor, t: Txn): Read<(Cursor, Txn)> {
    if slots == [] then Ok((c, t))
    else
      var (c1, t1) :- SlotAt(slots[0], b, c, t);
      SlotsAt(slots[1..], b, c1, t1)
  }

  /** A list header, the slots, and nothing after them. */
  function Envelope(slots: seq<Slot>, b: Buffer): Read<Txn> {
    var (_, c) :- HeaderAt(b, START);
    if c.kind != LIST then Refused
    else
      var (c1, t) :- SlotsAt(slots, b, c, ZERO_TXN);
      if c1.offset == |b.data| then Ok(t) else Refused
  }

  /** evm_decode_unsigned_txn: the first byte selects the envelope. */
  function Decode(data: seq<byte>): Read<Txn>
    requires data != []
  {
    var version := if data[0] > 0x7f then 0 else data[0];
    var typed := Buffer(Some(data[0]), data[1..]);
    if version == 0 then Envelope(LEGACY, Buffer(None, data))
    else if version == 1 then Envelope(EIP2930, typed)
    else if version == 2 then Envelope(EIP1559, typed)
    else Refused
  }
}
