/** The readers and the parser as the code runs them: an offset that moves, a record filled in place. */
module CandidParser {
  import opened Bytes
  import opened Leb128
  import opened Candid

  /** icp_txn_context_t, with the coin or the token record it points to. */
  class TxnContext {
    var txn: Transfer

    constructor (isTokenTransfer: bool)
      ensures txn == if isTokenTransfer then ZERO_TOKEN else ZERO_COIN
    {
      txn := if isTokenTransfer then ZERO_TOKEN else ZERO_COIN;
    }
  }

  /** The outcome r and the record t left behind are those of spec. */
  ghost predicate Matches(r: Parse<()>, t: Transfer, spec: Parse<Transfer>) {
    match spec
    case Ok(v, o) => r == Ok((), o) && t == v
    case Rejected => r.Rejected?
    case Undefined => r.Undefined?
  }

  method DecodeVec(data: seq<byte>, offset: nat, dest: seq<byte>) returns (r: Parse<(seq<byte>, nat)>)
    requires offset <= |data|
    ensures r == VecAt(data, offset, dest)
  {
    var p :- LebDecode(data, offset);
    var n, o := p.0, p.1;
    if o + n > |data| || n > |dest| {
      return Undefined;
    }
    r := Ok((data[o..o + n] + dest[n..], n), o + n);
  }

  method ReadRecipient(data: seq<byte>, offset: nat, ctx: TxnContext) returns (r: Parse<()>)
    requires offset <= |data|
    modifies ctx
    ensures Matches(r, ctx.txn, RecipientAt(data, offset, old(ctx.txn)))
  {
    hide LebAt;
    if ctx.txn.Token? {
      var owned :- ByteAt(data, offset);
      if owned.0 == 0 { return Rejected; }
      var v :- DecodeVec(data, offset + 1, ctx.txn.owner);
      if v.0.1 == 0 { return Rejected; }
      ctx.txn := ctx.txn.(owner := v.0.0);
      var o := v.1;
      var has :- ByteAt(data, o);
      ctx.txn := ctx.txn.(hasSub := has.0 != 0);
      o := o + 1;
      if has.0 != 0 {
        v :- DecodeVec(data, o, ctx.txn.sub);
        ctx.txn := ctx.txn.(sub := v.0.0);
        return if v.0.1 == 0 then Rejected else Ok((), v.1);
      }
      return Ok((), o);
    }
    var v :- DecodeVec(data, offset, ctx.txn.to);
    ctx.txn := ctx.txn.(to := v.0.0);
    r := if v.0.1 == 0 then Rejected else Ok((), v.1);
  }

  method ReadAmount(data: seq<byte>, offset: nat, ctx: TxnContext) returns (r: Parse<()>)
    requires offset <= |data|
    modifies ctx
    ensures Matches(r, ctx.txn, AmountAt(data, offset, old(ctx.txn)))
  {
    hide LebAt;
    var v;
    if ctx.txn.Token? {
      v :- LebDecode(data, offset);
    } else {
      v :- U64At(data, offset);
    }
    ctx.txn := ctx.txn.(amount := v.0);
    r := Ok((), v.1);
  }

  method ReadFee(data: seq<byte>, offset: nat, ctx: TxnContext) returns (r: Parse<()>)
    requires offset <= |data|
    modifies ctx
    ensures Matches(r, ctx.txn, FeeAt(data, offset, old(ctx.txn)))
  {
    hide LebAt;
    if ctx.txn.Token? {
      var has :- ByteAt(data, offset);
      ctx.txn := ctx.txn.(hasFee := has.0 != 0);
      if has.0 == 0 { return Ok((), has.1); }
      var v :- LebDecode(data, has.1);
      ctx.txn := ctx.txn.(fee := v.0);
      return Ok((), v.1);
    }
    var v :- U64At(data, offset);
    ctx.txn := ctx.txn.(coinFee := v.0);
    r := Ok((), v.1);
  }

  method ReadMemo(data: seq<byte>, offset: nat, ctx: TxnContext) returns (r: Parse<()>)
    requires offset <= |data|
    modifies ctx
    ensures Matches(r, ctx.txn, MemoAt(data, offset, old(ctx.txn)))
  {
    hide LebAt;
    if ctx.txn.Token? {
      var has :- ByteAt(data, offset);
      if has.0 == 0 { return Ok((), has.1); }
      ctx.txn := ctx.txn.(hasMemo := true);
      var v :- DecodeVec(data, has.1, ctx.txn.memo);
      ctx.txn := ctx.txn.(memo := v.0.0);
      if v.0.1 == 0 { return Rejected; }
      ctx.txn := ctx.txn.(memoSize := v.0.1);
      return Ok((), v.1);
    }
    var v :- U64At(data, offset);
    ctx.txn := ctx.txn.(coinMemo := v.0);
    r := Ok((), v.1);
  }

  method ReadFrom(data: seq<byte>, offset: nat, ctx: TxnContext) returns (r: Parse<()>)
    requires offset <= |data|
    modifies ctx
    ensures Matches(r, ctx.txn, FromAt(data, offset, old(ctx.txn)))
  {
    hide LebAt;
    var has :- ByteAt(data, offset);
    if has.0 == 0 { return Ok((), has.1); }
    ctx.txn := ctx.txn.(hasFrom := true);
    var v :- DecodeVec(data, has.1, ctx.txn.from);
    ctx.txn := ctx.txn.(from := v.0.0);
    r := if v.0.1 == 0 then Rejected else Ok((), v.1);
  }

  method ReadCreated(data: seq<byte>, offset: nat, ctx: TxnContext) returns (r: Parse<()>)
    requires offset <= |data|
    modifies ctx
    ensures Matches(r, ctx.txn, CreatedAt(data, offset, old(ctx.txn)))
  {
    var has :- ByteAt(data, offset);
    if has.0 == 0 { return Ok((), has.1); }
    var v :- U64At(data, has.1);
    ctx.txn := ctx.txn.(hasCreated := true, created := v.0);
    r := Ok((), v.1);
  }

  /** The switch on a field's hash. */
  method ReadValue(hash: nat, data: seq<byte>, offset: nat, ctx: TxnContext) returns (r: Parse<()>)
    requires offset <= |data|
    modifies ctx
    ensures Matches(r, ctx.txn, ValueAt(hash, data, offset, old(ctx.txn)))
  {
    hide RecipientAt, AmountAt, FeeAt, MemoAt, FromAt, CreatedAt;
    if hash == HASH_TO {
      r := ReadRecipient(data, offset, ctx);
    } else if hash == HASH_AMOUNT {
      r := ReadAmount(data, offset, ctx);
    } else if hash == HASH_FEE {
      r := ReadFee(data, offset, ctx);
    } else if hash == HASH_MEMO {
      r := ReadMemo(data, offset, ctx);
    } else if hash == HASH_FROM {
      r := ReadFrom(data, offset, ctx);
    } else if hash == HASH_CREATED {
      r := ReadCreated(data, offset, ctx);
    } else {
      r := Rejected;
    }
  }

  /** Readers never leave the buffer. */
  lemma ValueStaysInside(hash: nat, data: seq<byte>, offset: nat, t: Transfer)
    requires offset <= |data| && ValueAt(hash, data, offset, t).Ok?
    ensures ValueAt(hash, data, offset, t).next <= |data|
  {
    hide LebAt;
  }

  method ReadFields(n: nat, data: seq<byte>, offset: nat) returns (r: Parse<seq<Field>>)
    requires offset <= |data|
    ensures r == FieldsFrom(n, data, offset, [])
    ensures r.Ok? ==> r.next <= |data|
  {
    hide LebAt, SlebAt;
    var fields: seq<Field> := [];
    var o: nat := offset;
    var j := 0;
    ghost var left: nat := n;
    while j < n
      invariant j <= n && left == n - j && o <= |data|
      invariant FieldsFrom(n, data, offset, []) == FieldsFrom(left, data, o, fields)
    {
      var hash :- LebDecode(data, o);
      var ty :- SlebDecode(data, hash.1);
      fields := fields + [Field(hash.0, ty.0)];
      o := ty.1;
      j := j + 1;
      left := left - 1;
    }
    r := Ok(fields, o);
  }

  method ReadEntry(data: seq<byte>, offset: nat) returns (r: Parse<TypeEntry>)
    requires offset <= |data|
    ensures r == EntryAt(data, offset)
    ensures r.Ok? ==> r.next <= |data|
  {
    hide LebAt, SlebAt, FieldsFrom;
    var id :- SlebDecode(data, offset);
    if id.0 == OPT || id.0 == VECTOR {
      var child :- SlebDecode(data, id.1);
      return Ok(Wrapper(id.0, child.0), child.1);
    }
    if id.0 == RECORD {
      var n :- LebDecode(data, id.1);
      var fields :- ReadFields(n.0, data, n.1);
      return Ok(Record(fields.0), fields.1);
    }
    r := Rejected;
  }

  method ReadTable(n: nat, data: seq<byte>, offset: nat) returns (r: Parse<seq<TypeEntry>>)
    requires offset <= |data|
    ensures r == TableFrom(n, data, offset, [])
    ensures r.Ok? ==> r.next <= |data|
  {
    hide EntryAt;
    var table: seq<TypeEntry> := [];
    var o: nat := offset;
    var i := 0;
    ghost var left: nat := n;
    while i < n
      invariant i <= n && left == n - i && o <= |data|
      invariant TableFrom(n, data, offset, []) == TableFrom(left, data, o, table)
    {
      var entry :- ReadEntry(data, o);
      table := table + [entry.0];
      o := entry.1;
      i := i + 1;
      left := left - 1;
    }
    r := Ok(table, o);
  }

  method ReadValues(fields: seq<Field>, data: seq<byte>, offset: nat, ctx: TxnContext) returns (r: Parse<()>)
    requires offset <= |data|
    modifies ctx
    ensures Matches(r, ctx.txn, ValuesFrom(0, fields, data, offset, old(ctx.txn)))
  {
    hide ValueAt;
    var o: nat := offset;
    var i := 0;
    while i < |fields|
      invariant i <= |fields| && o <= |data|
      invariant ValuesFrom(0, fields, data, offset, old(ctx.txn)) == ValuesFrom(i, fields, data, o, ctx.txn)
    {
      if ValueAt(fields[i].hash, data, o, ctx.txn).Ok? { ValueStaysInside(fields[i].hash, data, o, ctx.txn); }
      var step :- ReadValue(fields[i].hash, data, o, ctx);
      o := step.1;
      i := i + 1;
    }
    r := Ok((), o);
  }

  /** icp_parse_transfer_txn: true is Ok, false is Rejected. */
  method ParseTransferTxn(data: seq<byte>, size: nat, ctx: TxnContext) returns (r: Parse<()>)
    modifies ctx
    ensures Matches(r, ctx.txn, ParseTransfer(data, size, old(ctx.txn)))
  {
    hide LebAt, TableFrom, ValuesFrom;
    if |data| < 4 {
      return Undefined;
    }
    if data[..4] != MAGIC {
      return Rejected;
    }
    var numTypes :- LebDecode(data, 4);
    var table :- ReadTable(numTypes.0, data, numTypes.1);
    var argCount :- LebDecode(data, table.1);
    if argCount.0 != 1 {
      return Rejected;
    }
    var arg :- LebDecode(data, argCount.1);
    if arg.0 >= |table.0| {
      return Undefined;
    }
    var argType := table.0[arg.0];
    if !argType.Record? || |argType.fields| < 4 || |argType.fields| > 6 {
      return Rejected;
    }
    var end :- ReadValues(argType.fields, data, arg.1, ctx);
    if end.1 != size {
      return Rejected;
    }
    r := Ok((), end.1);
  }
}
