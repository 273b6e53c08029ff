/** Encoding a transfer record in DIDL and parsing it gives the record back. */
module CandidTheorems {
  import opened Bytes
  import opened Leb128
  import opened Candid
  import opened CandidValues
  import opened CandidCodes
  import opened CandidMessages

  // ---- The encoder.

  /** One value for each field, in the type's order. */
  function ListedBytes(fields: seq<Field>, vals: seq<Value>): seq<byte>
    requires |fields| == |vals|
  {
    if fields == [] then [] else FieldBytes(fields[0].hash, vals[0]) + ListedBytes(fields[1..], vals[1..])
  }

  function FieldsBytes(fields: seq<Field>): seq<byte> {
    if fields == [] then [] else Leb(fields[0].hash) + Sleb(fields[0].fieldType) + FieldsBytes(fields[1..])
  }

  function EntryBytes(e: TypeEntry): seq<byte> {
    match e
    case Wrapper(id, child) => Sleb(id) + Sleb(child)
    case Record(fields) => Sleb(RECORD) + Leb(|fields|) + FieldsBytes(fields)
  }

  function TableBytes(table: seq<TypeEntry>): seq<byte> {
    if table == [] then [] else EntryBytes(table[0]) + TableBytes(table[1..])
  }

  /** Magic number, type table, one argument of type number arg. */
  function Preamble(table: seq<TypeEntry>, arg: nat): seq<byte> {
    MAGIC + Leb(|table|) + TableBytes(table) + Leb(1) + Leb(arg)
  }

  /** All fields are filled from one record. */
  function Same(v: Value, n: nat): seq<Value> { seq(n, _ => v) }

  function Message(v: Value, table: seq<TypeEntry>, arg: nat): seq<byte>
    requires arg < |table| && table[arg].Record?
  {
    var fields := table[arg].fields;
    Preamble(table, arg) + ListedBytes(fields, Same(v, |fields|))
  }

  predicate ValidEntry(e: TypeEntry) {
    match e
    case Wrapper(id, child) => (id == OPT || id == VECTOR) && IsInt64(child)
    case Record(fields) => |fields| < U64 && forall f <- fields :: f.hash < U64 && IsInt64(f.fieldType)
  }

  predicate ValidTable(table: seq<TypeEntry>) {
    |table| < U64 && forall e <- table :: ValidEntry(e)
  }

  /** The mandatory fields are there, and the optional ones that hold something. */
  predicate Covers(s: set<nat>, v: Value) {
    && HASH_TO in s && HASH_AMOUNT in s
    && (v.from.Some? ==> HASH_FROM in s) && (v.created.Some? ==> HASH_CREATED in s)
    && (v.CoinValue? ==> HASH_FEE in s && HASH_MEMO in s)
    && (v.TokenValue? ==> (v.fee.Some? ==> HASH_FEE in s) && (v.memo.Some? ==> HASH_MEMO in s))
  }

  // ---- What it writes are messages.

  predicate IsInt64(v: int) { -S63 <= v < S63 }

  lemma CutAfter(a: seq<byte>, b: seq<byte>)
    ensures (a + b)[..|a|] == a && (a + b)[|a|..] == b
  {
  }

  lemma {:induction false} FieldsAreCode(fields: seq<Field>)
    requires forall f <- fields :: f.hash < U64 && IsInt64(f.fieldType)
    ensures FieldsCode(fields, FieldsBytes(fields))
    decreases |fields|
  {
    hide Leb, Sleb, LebCode, SlebCode;
    if fields != [] {
      var f := fields[0];
      var a, b, more := Leb(f.hash), Sleb(f.fieldType), FieldsBytes(fields[1..]);
      ShortestLeb(f.hash);
      ShortestSleb(f.fieldType);
      FieldsAreCode(fields[1..]);
      CutAfter(a + b, more);
      CutAfter(a, b);
      assert FieldCut(f, a + b, |a|);
    }
  }

  lemma EntryIsCode(e: TypeEntry)
    requires ValidEntry(e)
    ensures EntryCode(e, EntryBytes(e))
  {
    hide Leb, Sleb, LebCode, SlebCode, FieldsCode, FieldsBytes;
    match e {
      case Wrapper(id, child) =>
        ShortestSleb(id);
        ShortestSleb(child);
        CutAfter(Sleb(id), Sleb(child));
        assert WrapperCut(e, EntryBytes(e), |Sleb(id)|);
      case Record(fields) =>
        var a, b, more := Sleb(RECORD), Leb(|fields|), FieldsBytes(fields);
        ShortestSleb(RECORD);
        ShortestLeb(|fields|);
        FieldsAreCode(fields);
        CutAfter(a + b, more);
        var s := EntryBytes(e);
        assert s[..|a|] == a && s[|a|..|a| + |b|] == b;
        assert RecordCut(fields, s, |a|, |a| + |b|);
    }
  }

  lemma {:induction false} TableIsCode(table: seq<TypeEntry>)
    requires forall e <- table :: ValidEntry(e)
    ensures TableCode(table, TableBytes(table))
    decreases |table|
  {
    hide EntryCode, EntryBytes, ValidEntry;
    if table != [] {
      EntryIsCode(table[0]);
      TableIsCode(table[1..]);
      CutAfter(EntryBytes(table[0]), TableBytes(table[1..]));
    }
  }

  lemma PreambleIsCode(table: seq<TypeEntry>, arg: nat)
    requires ValidTable(table) && arg < U64
    ensures PreambleCode(Preamble(table, arg), table, arg)
  {
    hide Leb, LebCode, TableCode, TableBytes, ValidEntry;
    ShortestLeb(|table|);
    ShortestLeb(1);
    ShortestLeb(arg);
    TableIsCode(table);
    var p := Preamble(table, arg);
    var a := 4 + |Leb(|table|)|;
    var b := a + |TableBytes(table)|;
    var c := b + |Leb(1)|;
    assert p[..4] == MAGIC && p[4..a] == Leb(|table|) && p[a..b] == TableBytes(table);
    assert p[b..c] == Leb(1) && p[c..] == Leb(arg);
    assert PreambleCut(p, table, arg, a, b, c);
  }

  lemma {:induction false} ListedIsCode(fields: seq<Field>, vals: seq<Value>)
    requires |fields| == |vals| && forall v <- vals :: ValidValue(v)
    ensures ValuesCode(fields, vals, ListedBytes(fields, vals))
    decreases |fields|
  {
    hide Encodes, FieldBytes, ValidValue;
    if fields != [] {
      WrittenIsCode(fields[0].hash, vals[0]);
      ListedIsCode(fields[1..], vals[1..]);
      CutAfter(FieldBytes(fields[0].hash, vals[0]), ListedBytes(fields[1..], vals[1..]));
    }
  }

  lemma ListedMessage(table: seq<TypeEntry>, arg: nat, vals: seq<Value>)
    requires ValidTable(table) && arg < |table| && table[arg].Record? && Readable(table[arg].fields)
    requires |vals| == |table[arg].fields| && forall v <- vals :: ValidValue(v)
    ensures MessageCode(Preamble(table, arg) + ListedBytes(table[arg].fields, vals), table, arg, vals)
  {
    hide Preamble, PreambleCode, ListedBytes, ValuesCode, ValidValue;
    PreambleIsCode(table, arg);
    ListedIsCode(table[arg].fields, vals);
    CutAfter(Preamble(table, arg), ListedBytes(table[arg].fields, vals));
    var p, s := Preamble(table, arg), ListedBytes(table[arg].fields, vals);
    assert MessageCut(p + s, table, arg, vals, |p|);
  }

  /** An encoded message is parsed into what its values give, and exactly its bytes are consumed. */
  lemma ListedRoundTrip(table: seq<TypeEntry>, arg: nat, vals: seq<Value>, rest: seq<byte>, t: Transfer)
    requires ValidTable(table) && arg < |table| && table[arg].Record? && Readable(table[arg].fields)
    requires |vals| == |table[arg].fields| && AllTake(t, vals)
    ensures var fields := table[arg].fields;
      var m := Preamble(table, arg) + ListedBytes(fields, vals);
      ParseTransfer(m + rest, |m|, t) == Ok(Fold(fields, vals, t), |m|)
  {
    hide ParseTransfer, Preamble, ListedBytes, Fold, MessageCode, ValidValue, Takes;
    ListedMessage(table, arg, vals);
    var m := Preamble(table, arg) + ListedBytes(table[arg].fields, vals);
    MessageReads(m, table, arg, vals, m + rest, t);
  }

  lemma FilledAtEnds(v: Value, s: set<nat>)
    requires ValidValue(v)
    ensures Filled(v, {}) == ZeroOf(v)
    ensures Covers(s, v) ==> Filled(v, s) == Filled(v, HASHES)
  {
  }

  // ---- One record.

  /** w with what v lists under hash. */
  function Merged(w: Value, hash: nat, v: Value): Value
    requires w.CoinValue? == v.CoinValue?
  {
    if w.CoinValue? then
      CoinValue(if hash == HASH_TO then v.to else w.to, if hash == HASH_AMOUNT then v.amount else w.amount,
                if hash == HASH_FEE then v.coinFee else w.coinFee, if hash == HASH_MEMO then v.coinMemo else w.coinMemo,
                if hash == HASH_FROM then v.from else w.from, if hash == HASH_CREATED then v.created else w.created)
    else
      TokenValue(if hash == HASH_TO then v.owner else w.owner, if hash == HASH_TO then v.sub else w.sub,
                 if hash == HASH_AMOUNT then v.amount else w.amount, if hash == HASH_FEE then v.fee else w.fee,
                 if hash == HASH_MEMO then v.memo else w.memo, if hash == HASH_FROM then v.from else w.from,
                 if hash == HASH_CREATED then v.created else w.created)
  }

  lemma FilledTakes(w: Value, s: set<nat>, v: Value)
    requires ValidValue(w) && v.CoinValue? == w.CoinValue?
    ensures Takes(Filled(w, s), v)
  {
    hide Pad, PadOption;
  }

  lemma MergedIsValid(w: Value, hash: nat, v: Value)
    requires ValidValue(v) && ValidValue(w) && v.CoinValue? == w.CoinValue?
    ensures ValidValue(Merged(w, hash, v))
  {
  }

  lemma CoinFills(hash: nat, v: Value, w: Value, s: set<nat>)
    requires ValidValue(v) && ValidValue(w) && v.CoinValue? && w.CoinValue? && hash in HASHES && hash !in s
    requires Takes(Filled(w, s), v) && ValidValue(Merged(w, hash, v))
    ensures Apply(hash, v, Filled(w, s)) == Filled(Merged(w, hash, v), s + {hash})
  {
    hide Over, Pad, Takes;
    OverZeros(v.to, 32);
    if v.from.Some? { OverZeros(v.from.value, 32); }
  }

  lemma TokenRecipientFills(hash: nat, v: Value, w: Value, s: set<nat>)
    requires ValidValue(v) && ValidValue(w) && v.TokenValue? && w.TokenValue? && hash !in s && hash == HASH_TO
    requires Takes(Filled(w, s), v) && ValidValue(Merged(w, hash, v))
    ensures Apply(hash, v, Filled(w, s)) == Filled(Merged(w, hash, v), s + {hash})
  {
    hide Over, Pad, Takes;
    OverZeros(v.owner, 29);
    if v.sub.Some? { OverZeros(v.sub.value, 32); }
  }

  lemma TokenAmountFills(hash: nat, v: Value, w: Value, s: set<nat>)
    requires ValidValue(v) && ValidValue(w) && v.TokenValue? && w.TokenValue? && hash !in s && hash == HASH_AMOUNT
    requires Takes(Filled(w, s), v) && ValidValue(Merged(w, hash, v))
    ensures Apply(hash, v, Filled(w, s)) == Filled(Merged(w, hash, v), s + {hash})
  {
    hide Over, OverOption, Pad, PadOption, Takes, ValidValue;
  }

  lemma TokenFeeFills(hash: nat, v: Value, w: Value, s: set<nat>)
    requires ValidValue(v) && ValidValue(w) && v.TokenValue? && w.TokenValue? && hash !in s && hash == HASH_FEE
    requires Takes(Filled(w, s), v) && ValidValue(Merged(w, hash, v))
    ensures Apply(hash, v, Filled(w, s)) == Filled(Merged(w, hash, v), s + {hash})
  {
    hide Over, OverOption, Pad, PadOption, Takes, ValidValue;
  }

  lemma TokenMemoFills(hash: nat, v: Value, w: Value, s: set<nat>)
    requires ValidValue(v) && ValidValue(w) && v.TokenValue? && w.TokenValue? && hash !in s && hash == HASH_MEMO
    requires Takes(Filled(w, s), v) && ValidValue(Merged(w, hash, v))
    ensures Apply(hash, v, Filled(w, s)) == Filled(Merged(w, hash, v), s + {hash})
  {
    hide Over, Pad, Takes;
    if v.memo.Some? { OverZeros(v.memo.value, 256); }
  }

  lemma TokenFromOrCreatedFills(hash: nat, v: Value, w: Value, s: set<nat>)
    requires ValidValue(v) && ValidValue(w) && v.TokenValue? && w.TokenValue? && hash !in s
    requires hash == HASH_FROM || hash == HASH_CREATED
    requires Takes(Filled(w, s), v) && ValidValue(Merged(w, hash, v))
    ensures Apply(hash, v, Filled(w, s)) == Filled(Merged(w, hash, v), s + {hash})
  {
    hide Over, Pad, Takes;
    if v.from.Some? { OverZeros(v.from.value, 32); }
  }

  lemma TokenFills(hash: nat, v: Value, w: Value, s: set<nat>)
    requires ValidValue(v) && ValidValue(w) && v.TokenValue? && w.TokenValue? && hash in HASHES && hash !in s
    requires Takes(Filled(w, s), v) && ValidValue(Merged(w, hash, v))
    ensures Apply(hash, v, Filled(w, s)) == Filled(Merged(w, hash, v), s + {hash})
  {
    hide Apply, Filled, Merged, Takes, ValidValue;
    if hash == HASH_TO { TokenRecipientFills(hash, v, w, s); }
    else if hash == HASH_MEMO { TokenMemoFills(hash, v, w, s); }
    else if hash == HASH_AMOUNT { TokenAmountFills(hash, v, w, s); }
    else if hash == HASH_FEE { TokenFeeFills(hash, v, w, s); }
    else { TokenFromOrCreatedFills(hash, v, w, s); }
  }

  /** A value for a field that is still zero fills it. */
  lemma ApplyFills(hash: nat, v: Value, w: Value, s: set<nat>)
    requires ValidValue(v) && ValidValue(w) && v.CoinValue? == w.CoinValue? && hash in HASHES && hash !in s
    ensures Takes(Filled(w, s), v) && ValidValue(Merged(w, hash, v))
    ensures Apply(hash, v, Filled(w, s)) == Filled(Merged(w, hash, v), s + {hash})
  {
    hide Apply, Filled, Merged, Takes, ValidValue;
    FilledTakes(w, s, v);
    MergedIsValid(w, hash, v);
    if v.CoinValue? { CoinFills(hash, v, w, s); } else { TokenFills(hash, v, w, s); }
  }

  lemma OverZeros(b: seq<byte>, n: nat)
    requires |b| <= n
    ensures Over(b, Zeros(n)) == Pad(b, n)
  {
  }

  /** Values under distinct hashes fill a zeroed record with one value. */
  lemma {:induction false} FoldFills(fields: seq<Field>, vals: seq<Value>, w: Value, s: set<nat>) returns (u: Value)
    requires |fields| == |vals| && Distinct(fields) && HashesOf(fields) <= HASHES && HashesOf(fields) !! s
    requires ValidValue(w) && AllTake(Filled(w, s), vals)
    ensures ValidValue(u) && u.CoinValue? == w.CoinValue?
    ensures Fold(fields, vals, Filled(w, s)) == Filled(u, s + HashesOf(fields))
    ensures vals == Same(w, |fields|) ==> u == w
    ensures forall k | 0 <= k < |fields| :: SameFor(fields[k].hash, u, vals[k])
    ensures forall h <- HASHES - HashesOf(fields) :: SameFor(h, u, w)
    decreases |fields|
  {
    hide Filled, Apply, ValidValue, Takes, AllTake, SameFor, Merged;
    if fields == [] {
      assert s + HashesOf(fields) == s;
      SameAsItself(w);
      return w;
    }
    var f, v, t := fields[0], vals[0], Filled(w, s);
    FirstTakes(t, vals);
    FilledKind(w, s, v);
    assert f in fields && f.hash in HashesOf(fields);
    ApplyFills(f.hash, v, w, s);
    StillTakes(t, Apply(f.hash, v, t), v, vals);
    RestIsDistinct(fields);
    MergedParts(w, f.hash, v);
    u := FoldFills(fields[1..], vals[1..], Merged(w, f.hash, v), s + {f.hash});
    assert s + {f.hash} + HashesOf(fields[1..]) == s + HashesOf(fields);
    if vals == Same(w, |fields|) {
      assert v == w && vals[1..] == Same(w, |fields| - 1);
      MergedWithItself(w, f.hash);
    }
    forall k | 0 <= k < |fields| ensures SameFor(fields[k].hash, u, vals[k]) {
      if k == 0 {
        SameForChain(f.hash, u, Merged(w, f.hash, v), v);
      } else {
        assert SameFor(fields[1..][k - 1].hash, u, vals[1..][k - 1]);
      }
    }
    forall h | h in HASHES - HashesOf(fields) ensures SameFor(h, u, w) {
      SameForChain(h, u, Merged(w, f.hash, v), w);
    }
  }

  lemma SameAsItself(v: Value)
    ensures forall h: nat :: SameFor(h, v, v)
  {
  }

  lemma SameForChain(hash: nat, u: Value, v: Value, w: Value)
    requires SameFor(hash, u, v) && SameFor(hash, v, w)
    ensures SameFor(hash, u, w)
  {
  }

  lemma MergedParts(w: Value, hash: nat, v: Value)
    requires w.CoinValue? == v.CoinValue? && hash in HASHES
    ensures SameFor(hash, Merged(w, hash, v), v)
    ensures forall h <- HASHES :: h != hash ==> SameFor(h, Merged(w, hash, v), w)
  {
  }

  lemma MergedWithItself(w: Value, hash: nat)
    ensures Merged(w, hash, w) == w
  {
  }

  lemma FilledKind(w: Value, s: set<nat>, v: Value)
    requires ValidValue(w) && Takes(Filled(w, s), v)
    ensures w.CoinValue? == v.CoinValue?
  {
  }

  lemma RestIsDistinct(fields: seq<Field>)
    requires fields != [] && Distinct(fields)
    ensures Distinct(fields[1..]) && HashesOf(fields) == {fields[0].hash} + HashesOf(fields[1..])
    ensures fields[0].hash !in HashesOf(fields[1..])
  {
    assert fields == [fields[0]] + fields[1..];
  }

  predicate Complete(fields: seq<Field>, v: Value) {
    Readable(fields) && Distinct(fields) && Covers(HashesOf(fields), v)
  }

  lemma ZeroTakes(v: Value, n: nat)
    requires ValidValue(v)
    ensures AllTake(ZeroOf(v), Same(v, n)) && ZeroOf(v) == Filled(v, {})
  {
  }

  /** Whatever the type table around it, the order of its fields and the bytes after it, an encoded
      record is parsed into that record, and exactly its bytes are consumed. */
  lemma TransferRoundTrip(v: Value, table: seq<TypeEntry>, arg: nat, rest: seq<byte>)
    requires ValidValue(v) && ValidTable(table) && arg < |table| && table[arg].Record?
    requires Complete(table[arg].fields, v)
    ensures var m := Message(v, table, arg);
      ParseTransfer(m + rest, |m|, ZeroOf(v)) == Ok(Filled(v, HASHES), |m|)
  {
    hide ParseTransfer, Preamble, ListedBytes, Filled, ValidValue, ValidEntry, Covers, Fold, AllTake, ZeroOf;
    var fields := table[arg].fields;
    ZeroTakes(v, |fields|);
    ListedRoundTrip(table, arg, Same(v, |fields|), rest, ZeroOf(v));
    var u := FoldFills(fields, Same(v, |fields|), v, {});
    FilledAtEnds(v, HashesOf(fields));
    assert {} + HashesOf(fields) == HashesOf(fields);
  }

  // ---- The type index.

  /** A message whose values can be read is undefined exactly when its type index lies outside the
      table, because the range check never fires. */
  lemma UndefinedExactlyOutsideTheTable(p: seq<byte>, table: seq<TypeEntry>, arg: nat, fields: seq<Field>,
                                        vals: seq<Value>, s: seq<byte>, rest: seq<byte>, t: Transfer)
    requires PreambleCode(p, table, arg) && (arg < |table| ==> table[arg] == Record(fields)) && Readable(fields)
    requires |vals| == |fields| && AllTake(t, vals) && ValuesCode(fields, vals, s)
    ensures ParseTransfer(p + s + rest, |p + s|, t) == Undefined <==> arg >= |table|
  {
    hide ParseTransfer, PreambleCode, ValuesCode, AllTake;
    if arg < |table| {
      CutAfter(p, s);
      assert MessageCut(p + s, table, arg, vals, |p|);
      MessageReads(p + s, table, arg, vals, p + s + rest, t);
    } else {
      assert p + s + rest == p + (s + rest);
      PreambleReads(p, table, arg, p + s + rest, |p + s|, t);
    }
  }

  /** The shortest such message: no types, one argument of type 0. */
  lemma SevenBytesAreUndefined(size: nat, t: Transfer)
    ensures PreambleCode([0x44, 0x49, 0x44, 0x4c, 0, 1, 0], [], 0)
    ensures ParseTransfer([0x44, 0x49, 0x44, 0x4c, 0, 1, 0], size, t) == Undefined
  {
    hide ParseTransfer, PreambleCode;
    PreambleIsCode([], 0);
    assert Preamble([], 0) == [0x44, 0x49, 0x44, 0x4c, 0, 1, 0];
    PreambleReads(Preamble([], 0), [], 0, Preamble([], 0), size, t);
  }
}
