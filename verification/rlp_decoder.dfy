/** The decoder as the code runs it: an offset that is moved, a record that is filled in place. */
module RlpDecoder {
  import opened Bytes
  import opened Rlp

  /** evm_txn_context_t with the local variables of the parser at work on it. */
  class Parser {
    const b: Buffer
    var offset: int
    var decodedLen: nat
    var kind: SeqType
    var info: Txn

    constructor (b: Buffer)
      ensures this.b == b && Here() == START && info == ZERO_TXN
    {
      this.b := b;
      offset, decodedLen, kind, info := 0, 0, NONE, ZERO_TXN;
    }

    ghost function Here(): Cursor reads this { Cursor(offset, decodedLen, kind) }

    /** get_decode_length, and the move past the header that follows every call of it. */
    method DecodeLength() returns (r: Read<nat>)
      modifies this`offset, this`decodedLen, this`kind
      ensures match HeaderAt(b, old(Here()))
        case Undefined => r == Undefined
        case Refused => false
        case Ok((len, c)) => r == Ok(len) && Here() == c
    {
      hide BigEndian, Signed;
      if !CanRead(b, offset) {
        return Undefined;
      }
      var first, left := if offset < 0 then b.lead.value else b.data[offset], |b.data| - offset;
      var itemLen := 0;
      if first <= 0x7f {
        itemLen, kind, decodedLen := 1, STRING, 0;
      } else if first <= 0xb7 && left > first - 0x80 {
        itemLen, kind, decodedLen := first - 0x80, STRING, 1;
      } else if 0xb7 <= first <= 0xbf && left > first - 0xb7 {
        var len := first - 0xb7;
        itemLen, kind, decodedLen := BigEndian(b.data[offset + 1..offset + 1 + len]), STRING, 1 + len;
      } else if 0xc0 <= first <= 0xf7 && left > first - 0xc0 {
        itemLen, kind, decodedLen := first - 0xc0, LIST, 1;
      } else if 0xf7 <= first && left > first - 0xf7 {
        var len := first - 0xf7;
        itemLen, kind, decodedLen := BigEndian(b.data[offset + 1..offset + 1 + len]), LIST, 1 + len;
      } else {
        offset := Signed(offset + decodedLen);
        return Ok(0);
      }
      offset := offset + decodedLen;
      r := Ok(itemLen);
    }

    /** s_memcpy into an array of zeros. */
    method Copy(len: nat, capacity: nat) returns (r: Read<seq<byte>>)
      modifies this`offset
      ensures match CopyAt(b.data, old(offset), len, capacity)
        case Undefined => r == Undefined
        case Refused => false
        case Ok(None) => r == Ok(Zeros(capacity)) && offset == -1
        case Ok(Some(bytes)) => r == Ok(bytes) && offset == Signed(old(offset) + len)
    {
      if offset == -1 || (offset + len) % U64 > |b.data| % U32 {
        offset := -1;
        return Ok(Zeros(capacity));
      }
      if offset < 0 || offset + len > |b.data| || len > capacity {
        return Undefined;
      }
      r := Ok(b.data[offset..offset + len] + Zeros(capacity - len));
      offset := Signed(offset + len);
    }

    /** One slot: header, type check, then storing or stepping over the item. It is number k of the
        envelope's slots. */
    method Slot(slot: Slot, ghost all: seq<Slot>, ghost k: nat) returns (r: Read<()>)
      requires k < |all| && all[k] == slot
      modifies this
      ensures r.Ok? ==> SlotsAt(all[k..], b, old(Here()), old(info)) == SlotsAt(all[k + 1..], b, Here(), info)
      ensures !r.Ok? ==> SlotsAt(all[k..], b, old(Here()), old(info)) == r.PropagateFailure<(Cursor, Txn)>()
      ensures match SlotAt(slot, b, old(Here()), old(info))
        case Undefined => r == Undefined
        case Refused => r == Refused
        case Ok((c, t)) => r == Ok(()) && Here() == c && info == t
    {
      hide HeaderAt, CopyAt, SizeByte;
      assert all[k..][0] == slot && all[k..][1..] == all[k + 1..];
      var len :- DecodeLength();
      if kind != (if slot.Skip? then slot.kind else STRING) {
        return Refused;
      }
      match slot {
        case Num(name) =>
          var bytes :- Copy(len, Capacity(name));
          info := Put(info, name, Number(SizeByte(len), bytes));
        case To =>
          var bytes :- Copy(len, 20);
          info := info.(to := bytes);
        case Data =>
          info := info.(dataAt := offset, dataSize := len);
          offset := Signed(offset + len);
        case Skip(_) =>
          offset := Signed(offset + len);
      }
      r := Ok(());
    }

    /** The list header every envelope starts with. */
    method ListHeader() returns (r: Read<()>)
      modifies this`offset, this`decodedLen, this`kind
      ensures match HeaderAt(b, old(Here()))
        case Undefined => r == Undefined
        case Refused => false
        case Ok((_, c)) => Here() == c && r == if c.kind == LIST then Ok(()) else Refused
    {
      hide HeaderAt;
      var len :- DecodeLength();
      r := if kind == LIST then Ok(()) else Refused;
    }

    /** evm_parse_legacy. */
    method ParseLegacy() returns (r: Read<()>)
      requires Here() == START && info == ZERO_TXN
      modifies this
      ensures Gives(r, Envelope(LEGACY, b))
    {
      hide SlotAt, HeaderAt, SlotsAt, LEGACY, EIP2930, EIP1559;
      SlotOrders();
      var _ :- ListHeader();
      var _ :- Slot(Num(Nonce), LEGACY, 0);
      var _ :- Slot(Num(GasPrice), LEGACY, 1);
      var _ :- Slot(Num(GasLimit), LEGACY, 2);
      var _ :- Slot(To, LEGACY, 3);
      var _ :- Slot(Num(Amount), LEGACY, 4);
      var _ :- Slot(Data, LEGACY, 5);
      var _ :- Slot(Num(ChainId), LEGACY, 6);
      var _ :- Slot(Skip(STRING), LEGACY, 7);
      var _ :- Slot(Skip(STRING), LEGACY, 8);
      NoSlotsLeft(b, Here(), info);
      r := if offset == |b.data| then Ok(()) else Refused;
    }

    /** evm_parse_eip2930. */
    method ParseEip2930() returns (r: Read<()>)
      requires Here() == START && info == ZERO_TXN
      modifies this
      ensures Gives(r, Envelope(EIP2930, b))
    {
      hide SlotAt, HeaderAt, SlotsAt, LEGACY, EIP2930, EIP1559;
      SlotOrders();
      var _ :- ListHeader();
      var _ :- Slot(Num(ChainId), EIP2930, 0);
      var _ :- Slot(Num(Nonce), EIP2930, 1);
      var _ :- Slot(Num(GasPrice), EIP2930, 2);
      var _ :- Slot(Num(GasLimit), EIP2930, 3);
      var _ :- Slot(To, EIP2930, 4);
      var _ :- Slot(Num(Amount), EIP2930, 5);
      var _ :- Slot(Data, EIP2930, 6);
      var _ :- Slot(Skip(LIST), EIP2930, 7);
      NoSlotsLeft(b, Here(), info);
      r := if offset == |b.data| then Ok(()) else Refused;
    }

    /** evm_parse_eip1559. */
    method ParseEip1559() returns (r: Read<()>)
      requires Here() == START && info == ZERO_TXN
      modifies this
      ensures Gives(r, Envelope(EIP1559, b))
    {
      hide SlotAt, HeaderAt, SlotsAt, LEGACY, EIP2930, EIP1559;
      SlotOrders();
      var _ :- ListHeader();
      var _ :- Slot(Num(ChainId), EIP1559, 0);
      var _ :- Slot(Num(Nonce), EIP1559, 1);
      var _ :- Slot(Num(MaxPriorityFee), EIP1559, 2);
      var _ :- Slot(Num(GasPrice), EIP1559, 3);
      var _ :- Slot(Num(GasLimit), EIP1559, 4);
      var _ :- Slot(To, EIP1559, 5);
      var _ :- Slot(Num(Amount), EIP1559, 6);
      var _ :- Slot(Data, EIP1559, 7);
      var _ :- Slot(Skip(LIST), EIP1559, 8);
      NoSlotsLeft(b, Here(), info);
      r := if offset == |b.data| then Ok(()) else Refused;
    }

    lemma SlotOrders()
      ensures |LEGACY| == 9 && LEGACY[0..] == LEGACY && LEGACY[9..] == []
      ensures LEGACY[0] == Num(Nonce) && LEGACY[1] == Num(GasPrice) && LEGACY[2] == Num(GasLimit)
      ensures LEGACY[3] == To && LEGACY[4] == Num(Amount) && LEGACY[5] == Data
      ensures LEGACY[6] == Num(ChainId) && LEGACY[7] == Skip(STRING) && LEGACY[8] == Skip(STRING)
      ensures |EIP2930| == 8 && EIP2930[0..] == EIP2930 && EIP2930[8..] == []
      ensures EIP2930[0] == Num(ChainId) && EIP2930[1] == Num(Nonce) && EIP2930[2] == Num(GasPrice)
      ensures EIP2930[3] == Num(GasLimit) && EIP2930[4] == To && EIP2930[5] == Num(Amount)
      ensures EIP2930[6] == Data && EIP2930[7] == Skip(LIST)
      ensures |EIP1559| == 9 && EIP1559[0..] == EIP1559 && EIP1559[9..] == []
      ensures EIP1559[0] == Num(ChainId) && EIP1559[1] == Num(Nonce) && EIP1559[2] == Num(MaxPriorityFee)
      ensures EIP1559[3] == Num(GasPrice) && EIP1559[4] == Num(GasLimit) && EIP1559[5] == To
      ensures EIP1559[6] == Num(Amount) && EIP1559[7] == Data && EIP1559[8] == Skip(LIST)
    {
    }

    ghost predicate Gives(r: Read<()>, spec: Read<Txn>) reads this {
      match spec
      case Undefined => r == Undefined
      case Refused => r == Refused
      case Ok(t) => r == Ok(()) && info == t
    }
  }

  lemma NoSlotsLeft(b: Buffer, c: Cursor, t: Txn)
    ensures SlotsAt([], b, c, t) == Ok((c, t))
  {
  }

  /** evm_decode_unsigned_txn. */
  method DecodeUnsignedTxn(data: seq<byte>) returns (r: Read<Txn>)
    requires data != []
    ensures r == Decode(data)
  {
    hide Envelope;
    var version := if data[0] > 0x7f then 0 else data[0];
    var parser, status;
    if version == 0 {
      parser := new Parser(Buffer(None, data));
      status := parser.ParseLegacy();
    } else if version == 1 {
      parser := new Parser(Buffer(Some(data[0]), data[1..]));
      status := parser.ParseEip2930();
    } else if version == 2 {
      parser := new Parser(Buffer(Some(data[0]), data[1..]));
      status := parser.ParseEip1559();
    } else {
      return Refused;
    }
    r := if status.Ok? then Ok(parser.info) else status.PropagateFailure();
  }
}
