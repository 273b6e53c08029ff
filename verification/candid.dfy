/** The DIDL parser of a transfer argument (icp_parse_transfer_txn and its readers,
    apps/icp_app/icp_txn_helpers.c). */
module Candid {
  import opened Bytes
  import opened Leb128

  const OPT := -18
  const VECTOR := -19
  const RECORD := -20

  const HASH_TO := 25979
  const HASH_FEE := 5094982
  const HASH_MEMO := 1213809850
  const HASH_FROM := 1835347746
  const HASH_CREATED := 3258775938
  const HASH_AMOUNT := 3573748184

  const MAGIC: seq<byte> := [0x44, 0x49, 0x44, 0x4c]

  /** icp_coin_transfer_t and icp_token_transfer_t; byte arrays keep their declared sizes. */
  datatype Transfer =
    | Coin(to: seq<byte>, amount: nat, coinFee: nat, coinMemo: nat,
           hasFrom: bool, from: seq<byte>, hasCreated: bool, created: nat)
    | Token(owner: seq<byte>, hasSub: bool, sub: seq<byte>, amount: nat, hasFee: bool, fee: nat,
            hasMemo: bool, memo: seq<byte>, memoSize: nat,
            hasFrom: bool, from: seq<byte>, hasCreated: bool, created: nat)

  const ZERO_COIN := Coin(Zeros(32), 0, 0, 0, false, Zeros(32), false, 0)
  const ZERO_TOKEN := Token(Zeros(29), false, Zeros(32), 0, false, 0, false, Zeros(256), 0, false, Zeros(32), false, 0)

  datatype Field = Field(hash: nat, fieldType: int)
  datatype TypeEntry = Wrapper(id: int, child: int) | Record(fields: seq<Field>)

  // ---- What each reader does, as functions of the bytes.

  /** memcpy into the front of a fixed-size array; more bytes than it holds are undefined. */
  function Overwrite(dest: seq<byte>, bytes: seq<byte>): Parse<seq<byte>> {
    if |bytes| <= |dest| then Ok(bytes + dest[|bytes|..], 0) else Undefined
  }

  /** decode_vec for Nat8: a length and that many bytes; the result is the array and the length. */
  function VecAt(data: seq<byte>, offset: nat, dest: seq<byte>): Parse<(seq<byte>, nat)> {
    var (n, o) :- LebAt(data, offset);
    if o + n > |data| then Undefined
    else
      var (res, _) :- Overwrite(dest, data[o..o + n]);
      Ok((res, n), o + n)
  }

  /** A vector whose length 0 the caller takes for a failure. */
  function FilledVecAt(data: seq<byte>, offset: nat, dest: seq<byte>): Parse<(seq<byte>, nat)> {
    var (res, o) :- VecAt(data, offset, dest);
    if res.1 == 0 then Rejected else Ok(res, o)
  }

  function ByteAt(data: seq<byte>, offset: nat): Parse<byte> {
    if offset < |data| then Ok(data[offset], offset + 1) else Undefined
  }

  function U64At(data: seq<byte>, offset: nat): Parse<nat> {
    if offset + 8 <= |data| then Ok(FromLE(data[offset..offset + 8]), offset + 8) else Undefined
  }

  function RecipientAt(data: seq<byte>, offset: nat, t: Transfer): Parse<Transfer> {
    if t.Token? then
      var (hasOwner, o) :- ByteAt(data, offset);
      if hasOwner == 0 then Rejected
      else
        var (owner, o1) :- FilledVecAt(data, o, t.owner);
        var (hasSub, o2) :- ByteAt(data, o1);
        var t1 := t.(owner := owner.0, hasSub := hasSub != 0);
        if hasSub == 0 then Ok(t1, o2)
        else
          var (sub, o3) :- FilledVecAt(data, o2, t.sub);
          Ok(t1.(sub := sub.0), o3)
    else
      var (to, o) :- FilledVecAt(data, offset, t.to);
      Ok(t.(to := to.0), o)
  }

  function AmountAt(data: seq<byte>, offset: nat, t: Transfer): Parse<Transfer> {
    var (v, o) :- if t.Token? then LebAt(data, offset) else U64At(data, offset);
    Ok(t.(amount := v), o)
  }

  function FeeAt(data: seq<byte>, offset: nat, t: Transfer): Parse<Transfer> {
    if t.Token? then
      var (has, o) :- ByteAt(data, offset);
      if has == 0 then Ok(t.(hasFee := false), o)
      else
        var (v, o1) :- LebAt(data, o);
        Ok(t.(hasFee := true, fee := v), o1)
    else
      var (v, o) :- U64At(data, offset);
      Ok(t.(coinFee := v), o)
  }

  function MemoAt(data: seq<byte>, offset: nat, t: Transfer): Parse<Transfer> {
    if t.Token? then
      var (has, o) :- ByteAt(data, offset);
      if has == 0 then Ok(t, o)
      else
        var (memo, o1) :- FilledVecAt(data, o, t.memo);
        Ok(t.(hasMemo := true, memo := memo.0, memoSize := memo.1), o1)
    else
      var (v, o) :- U64At(data, offset);
      Ok(t.(coinMemo := v), o)
  }

  function FromAt(data: seq<byte>, offset: nat, t: Transfer): Parse<Transfer> {
    var (has, o) :- ByteAt(data, offset);
    if has == 0 then Ok(t, o)
    else
      var (from, o1) :- FilledVecAt(data, o, t.from);
      Ok(t.(hasFrom := true, from := from.0), o1)
  }

  function CreatedAt(data: seq<byte>, offset: nat, t: Transfer): Parse<Transfer> {
    var (has, o) :- ByteAt(data, offset);
    if has == 0 then Ok(t, o)
    else
      var (v, o1) :- U64At(data, o);
      Ok(t.(hasCreated := true, created := v), o1)
  }

  /** One turn of the argument loop: the record's field hash selects the reader. */
  function ValueAt(hash: nat, data: seq<byte>, offset: nat, t: Transfer): Parse<Transfer> {
    if hash == HASH_TO then RecipientAt(data, offset, t)
    else if hash == HASH_AMOUNT then AmountAt(data, offset, t)
    else if hash == HASH_FEE then FeeAt(data, offset, t)
    else if hash == HASH_MEMO then MemoAt(data, offset, t)
    else if hash == HASH_FROM then FromAt(data, offset, t)
    else if hash == HASH_CREATED then CreatedAt(data, offset, t)
    else Rejected
  }

  /** The values of fields[k..]. */
  function ValuesFrom(k: nat, fields: seq<Field>, data: seq<byte>, offset: nat, t: Transfer): Parse<Transfer>
    requires k <= |fields|
    decreases |fields| - k
  {
    if k == |fields| then Ok(t, offset)
    else
      var (t1, o) :- ValueAt(fields[k].hash, data, offset, t);
      ValuesFrom(k + 1, fields, data, o, t1)
  }

  /** n more fields of a record type after those in acc. */
  function FieldsFrom(n: nat, data: seq<byte>, offset: nat, acc: seq<Field>): Parse<seq<Field>> {
    if n == 0 then Ok(acc, offset)
    else
      var (hash, o) :- LebAt(data, offset);
      var (ty, o1) :- SlebAt(data, o);
      FieldsFrom(n - 1, data, o1, acc + [Field(hash, ty)])
  }

  function EntryAt(data: seq<byte>, offset: nat): Parse<TypeEntry> {
    var (id, o) :- SlebAt(data, offset);
    if id == OPT || id == VECTOR then
      var (child, o1) :- SlebAt(data, o);
      Ok(Wrapper(id, child), o1)
    else if id == RECORD then
      var (n, o1) :- LebAt(data, o);
      var (fields, o2) :- FieldsFrom(n, data, o1, []);
      Ok(Record(fields), o2)
    else Rejected
  }

  /** n more entries of the type table after those in acc. */
  function TableFrom(n: nat, data: seq<byte>, offset: nat, acc: seq<TypeEntry>): Parse<seq<TypeEntry>> {
    if n == 0 then Ok(acc, offset)
    else
      var (entry, o) :- EntryAt(data, offset);
      TableFrom(n - 1, data, o, acc + [entry])
  }

  /** The one argument: a record of 4 to 6 fields whose type is entry arg of the table. */
  function ArgumentAt(table: seq<TypeEntry>, arg: nat, data: seq<byte>, offset: nat, size: nat, t: Transfer):
    Parse<Transfer>
  {
    // The range check in the source compares an unsigned index with 0 and never fires.
    if arg >= |table| then Undefined
    else if !table[arg].Record? || |table[arg].fields| < 4 || |table[arg].fields| > 6 then Rejected
    else
      var (t1, end) :- ValuesFrom(0, table[arg].fields, data, offset, t);
      if end != size then Rejected else Ok(t1, end)
  }

  /** icp_parse_transfer_txn on a record that starts as t. */
  function ParseTransfer(data: seq<byte>, size: nat, t: Transfer): Parse<Transfer> {
    if |data| < 4 then Undefined
    else if data[..4] != MAGIC then Rejected
    else
      var (numTypes, o) :- LebAt(data, 4);
      var (table, o1) :- TableFrom(numTypes, data, o, []);
      var (argCount, o2) :- LebAt(data, o1);
      if argCount != 1 then Rejected
      else
        var (arg, o3) :- LebAt(data, o2);
        ArgumentAt(table, arg, data, o3, size, t)
  }
}
