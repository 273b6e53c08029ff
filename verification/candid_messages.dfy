/** All bytes that are taken for a transfer argument: type table, argument and values. */
module CandidMessages {
  import opened Bytes
  import opened Leb128
  import opened Candid
  import opened CandidValues
  import opened CandidCodes

  // ---- What the bytes of a message are.

  predicate FieldCut(f: Field, s: seq<byte>, m: nat) {
    m <= |s| && LebCode(s[..m], f.hash) && SlebCode(s[m..], f.fieldType)
  }

  ghost predicate FieldCode(f: Field, s: seq<byte>) {
    exists m: nat :: FieldCut(f, s, m)
  }

  ghost predicate FieldsCode(fields: seq<Field>, s: seq<byte>) {
    if fields == [] then s == []
    else exists n: nat :: n <= |s| && FieldCode(fields[0], s[..n]) && FieldsCode(fields[1..], s[n..])
  }

  predicate WrapperCut(e: TypeEntry, s: seq<byte>, m: nat)
    requires e.Wrapper?
  {
    m <= |s| && SlebCode(s[..m], e.id) && SlebCode(s[m..], e.child)
  }

  ghost predicate RecordCut(fields: seq<Field>, s: seq<byte>, m: nat, n: nat) {
    m <= n <= |s| && SlebCode(s[..m], RECORD) && LebCode(s[m..n], |fields|) && FieldsCode(fields, s[n..])
  }

  ghost predicate EntryCode(e: TypeEntry, s: seq<byte>) {
    match e
    case Wrapper(id, _) => (id == OPT || id == VECTOR) && exists m: nat :: WrapperCut(e, s, m)
    case Record(fields) => exists m: nat, n: nat :: RecordCut(fields, s, m, n)
  }

  ghost predicate TableCode(table: seq<TypeEntry>, s: seq<byte>) {
    if table == [] then s == []
    else exists n: nat :: n <= |s| && EntryCode(table[0], s[..n]) && TableCode(table[1..], s[n..])
  }

  /** Magic number, number of types, types, one argument, its type's number. */
  ghost predicate PreambleCut(s: seq<byte>, table: seq<TypeEntry>, arg: nat, a: nat, b: nat, c: nat) {
    && 4 <= a <= b <= c <= |s| && s[..4] == MAGIC && LebCode(s[4..a], |table|) && TableCode(table, s[a..b])
    && LebCode(s[b..c], 1) && LebCode(s[c..], arg)
  }

  ghost predicate PreambleCode(s: seq<byte>, table: seq<TypeEntry>, arg: nat) {
    exists a: nat, b: nat, c: nat :: PreambleCut(s, table, arg, a, b, c)
  }

  /** One piece for each field, in the type's order, with the field's value. */
  ghost predicate ValuesCode(fields: seq<Field>, vals: seq<Value>, s: seq<byte>)
    requires |fields| == |vals|
  {
    if fields == [] then s == []
    else exists n: nat ::
      n <= |s| && Encodes(fields[0].hash, vals[0], s[..n]) && ValuesCode(fields[1..], vals[1..], s[n..])
  }

  function HashesOf(fields: seq<Field>): set<nat> {
    set f <- fields :: f.hash
  }

  predicate Distinct(fields: seq<Field>) {
    forall i, j | 0 <= i < j < |fields| :: fields[i].hash != fields[j].hash
  }

  /** A record type the parser accepts. */
  predicate Readable(fields: seq<Field>) {
    4 <= |fields| <= 6 && HashesOf(fields) <= HASHES
  }

  ghost predicate MessageCut(s: seq<byte>, table: seq<TypeEntry>, arg: nat, vals: seq<Value>, d: nat)
    requires arg < |table| && table[arg].Record? && |vals| == |table[arg].fields|
  {
    d <= |s| && PreambleCode(s[..d], table, arg) && ValuesCode(table[arg].fields, vals, s[d..])
  }

  /** s is a message with this type table whose one argument, a record of type number arg, has these
      values. */
  ghost predicate MessageCode(s: seq<byte>, table: seq<TypeEntry>, arg: nat, vals: seq<Value>) {
    && arg < |table| && table[arg].Record? && Readable(table[arg].fields) && |vals| == |table[arg].fields|
    && exists d: nat :: MessageCut(s, table, arg, vals, d)
  }

  // ---- Messages are read.

  lemma FieldReads(f: Field, data: seq<byte>, offset: nat, s: seq<byte>) returns (m: nat)
    requires FieldCode(f, s) && Has(data, offset, s)
    ensures LebAt(data, offset) == Ok(f.hash, m) && SlebAt(data, m) == Ok(f.fieldType, offset + |s|)
  {
    hide LebAt, SlebAt, LebCode, SlebCode, Has;
    var k: nat :| FieldCut(f, s, k);
    HasCut(data, offset, s, k);
    LebCodeStands(data, offset, s[..k], f.hash);
    SlebCodeStands(data, offset + k, s[k..], f.fieldType);
    m := offset + k;
  }

  lemma {:induction false} FieldsRead(fields: seq<Field>, data: seq<byte>, offset: nat, s: seq<byte>, acc: seq<Field>)
    requires FieldsCode(fields, s) && Has(data, offset, s)
    ensures FieldsFrom(|fields|, data, offset, acc) == Ok(acc + fields, offset + |s|)
    decreases |fields|
  {
    hide LebAt, SlebAt, FieldCode, Has;
    if fields == [] {
      assert acc + fields == acc;
    } else {
      var f := fields[0];
      var n: nat :| n <= |s| && FieldCode(f, s[..n]) && FieldsCode(fields[1..], s[n..]);
      HasCut(data, offset, s, n);
      var m := FieldReads(f, data, offset, s[..n]);
      FieldsRead(fields[1..], data, offset + n, s[n..], acc + [f]);
      assert acc + [f] + fields[1..] == acc + fields;
    }
  }

  lemma EntryReads(e: TypeEntry, data: seq<byte>, offset: nat, s: seq<byte>)
    requires EntryCode(e, s) && Has(data, offset, s)
    ensures EntryAt(data, offset) == Ok(e, offset + |s|)
  {
    hide LebAt, SlebAt, FieldsFrom, FieldsCode, LebCode, SlebCode, Has;
    if e.Wrapper? {
      var m: nat :| WrapperCut(e, s, m);
      HasCut(data, offset, s, m);
      SlebCodeStands(data, offset, s[..m], e.id);
      SlebCodeStands(data, offset + m, s[m..], e.child);
    } else {
      var m: nat, n: nat :| RecordCut(e.fields, s, m, n);
      HasCut(data, offset, s, n);
      HasCut(data, offset, s[..n], m);
      assert s[..n][..m] == s[..m] && s[..n][m..] == s[m..n];
      SlebCodeStands(data, offset, s[..m], RECORD);
      LebCodeStands(data, offset + m, s[m..n], |e.fields|);
      FieldsRead(e.fields, data, offset + n, s[n..], []);
      assert [] + e.fields == e.fields;
    }
  }

  /** Every code of a type table is read as that table. */
  lemma {:induction false} TableReads(table: seq<TypeEntry>, data: seq<byte>, offset: nat, s: seq<byte>,
                                      acc: seq<TypeEntry>)
    requires TableCode(table, s) && Has(data, offset, s)
    ensures TableFrom(|table|, data, offset, acc) == Ok(acc + table, offset + |s|)
    decreases |table|
  {
    hide EntryAt, EntryCode, Has;
    if table == [] {
      assert acc + table == acc;
    } else {
      var e := table[0];
      var n: nat :| n <= |s| && EntryCode(e, s[..n]) && TableCode(table[1..], s[n..]);
      HasCut(data, offset, s, n);
      EntryReads(e, data, offset, s[..n]);
      TableReads(table[1..], data, offset + n, s[n..], acc + [e]);
      assert acc + [e] + table[1..] == acc + table;
    }
  }

  /** What the parser has read when it comes to the values. */
  predicate Decoded(data: seq<byte>, table: seq<TypeEntry>, arg: nat, d: nat) {
    LebAt(data, 4).Ok? &&
    var types := TableFrom(LebAt(data, 4).value, data, LebAt(data, 4).next, []);
    types.Ok? && types.value == table && LebAt(data, types.next).Ok?
      && LebAt(data, LebAt(data, types.next).next) == Ok(arg, d)
  }

  lemma PreambleReads(p: seq<byte>, table: seq<TypeEntry>, arg: nat, data: seq<byte>, size: nat, t: Transfer)
    requires PreambleCode(p, table, arg) && p <= data
    ensures ParseTransfer(data, size, t) == ArgumentAt(table, arg, data, |p|, size, t)
    ensures Decoded(data, table, arg, |p|)
  {
    hide LebAt, TableFrom, TableCode, ArgumentAt, LebCode, Has;
    var a: nat, b: nat, c: nat :| PreambleCut(p, table, arg, a, b, c);
    assert Has(data, 0, p) by { HasPrefix(data, p); }
    assert data[..4] == p[..4];
    HasCut(data, 0, p, c);
    HasCut(data, 0, p[..c], b);
    HasCut(data, 0, p[..c][..b], a);
    HasCut(data, 0, p[..c][..b][..a], 4);
    assert p[..c][b..] == p[b..c] && p[..c][..b][a..] == p[a..b] && p[..c][..b][..a][4..] == p[4..a];
    LebCodeStands(data, 4, p[4..a], |table|);
    TableReads(table, data, a, p[a..b], []);
    assert [] + table == table;
    LebCodeStands(data, b, p[b..c], 1);
    LebCodeStands(data, c, p[c..], arg);
  }

  lemma HasPrefix(data: seq<byte>, p: seq<byte>)
    requires p <= data
    ensures Has(data, 0, p)
  {
  }

  lemma FirstTakes(t: Transfer, vals: seq<Value>)
    requires vals != [] && AllTake(t, vals)
    ensures ValidValue(vals[0]) && Takes(t, vals[0])
  {
    hide ValidValue, Takes;
    assert vals[0] in vals;
  }

  /** Values in any order, listed once or more often, are taken into the record one after the other. */
  lemma {:induction false} ValuesRead(k: nat, fields: seq<Field>, vals: seq<Value>, data: seq<byte>, offset: nat,
                                      s: seq<byte>, t: Transfer)
    requires k <= |fields| && |vals| == |fields| - k && HashesOf(fields) <= HASHES && AllTake(t, vals)
    requires ValuesCode(fields[k..], vals, s) && Has(data, offset, s)
    ensures ValuesFrom(k, fields, data, offset, t) == Ok(Fold(fields[k..], vals, t), offset + |s|)
    decreases |fields| - k
  {
    hide ValueAt, Apply, Encodes, ValidValue, Takes, AllTake, Has;
    if k < |fields| {
      var f, v, fs := fields[k], vals[0], fields[k..];
      assert fs[0] == f && fs[1..] == fields[k + 1..] && f.hash in HashesOf(fields);
      var n: nat :| n <= |s| && Encodes(f.hash, v, s[..n]) && ValuesCode(fs[1..], vals[1..], s[n..]);
      HasCut(data, offset, s, n);
      FirstTakes(t, vals);
      ValueReads(f.hash, data, offset, s[..n], v, t);
      var u := Apply(f.hash, v, t);
      StillTakes(t, u, v, vals);
      ValuesRead(k + 1, fields, vals[1..], data, offset + n, s[n..], u);
    }
  }

  /** A message is parsed into what its values give, and exactly its bytes are consumed. */
  lemma MessageReads(m: seq<byte>, table: seq<TypeEntry>, arg: nat, vals: seq<Value>, data: seq<byte>, t: Transfer)
    requires MessageCode(m, table, arg, vals) && AllTake(t, vals) && m <= data
    ensures ParseTransfer(data, |m|, t) == Ok(Fold(table[arg].fields, vals, t), |m|)
  {
    hide ParseTransfer, PreambleCode, ValuesCode, ValuesFrom, Fold, AllTake;
    var fields := table[arg].fields;
    var d: nat :| MessageCut(m, table, arg, vals, d);
    PreambleReads(m[..d], table, arg, data, |m|, t);
    HasPrefix(data, m);
    HasCut(data, 0, m, d);
    assert fields[0..] == fields;
    ValuesRead(0, fields, vals, data, d, m[d..], t);
  }

  // ---- And whatever is accepted is a message.

  lemma {:induction false} FieldsGive(n: nat, data: seq<byte>, offset: nat, acc: seq<Field>)
    returns (fields: seq<Field>)
    requires FieldsFrom(n, data, offset, acc).Ok? && offset <= |data|
    ensures var r := FieldsFrom(n, data, offset, acc);
      r.value == acc + fields && |fields| == n && offset <= r.next <= |data| && FieldsCode(fields, data[offset..r.next])
  {
    hide LebAt, SlebAt, LebCode, SlebCode;
    if n == 0 {
      return [];
    }
    LebIsCode(data, offset);
    var hash := LebAt(data, offset);
    SlebIsCode(data, hash.next);
    var ty := SlebAt(data, hash.next);
    var f := Field(hash.value, ty.value);
    var more := FieldsGive(n - 1, data, ty.next, acc + [f]);
    fields := [f] + more;
    assert acc + [f] + more == acc + fields && fields[1..] == more;
    var end := FieldsFrom(n, data, offset, acc).next;
    var s, m, k := data[offset..end], hash.next - offset, ty.next - offset;
    Cut(data, offset, end, k);
    Cut(data, offset, ty.next, m);
    assert FieldCut(f, s[..k], m);
  }

  lemma EntryGives(data: seq<byte>, offset: nat)
    requires EntryAt(data, offset).Ok?
    ensures var r := EntryAt(data, offset);
      offset < r.next <= |data| && EntryCode(r.value, data[offset..r.next])
  {
    hide LebAt, SlebAt, LebCode, SlebCode, FieldsFrom, FieldsCode;
    SlebIsCode(data, offset);
    var id, r := SlebAt(data, offset), EntryAt(data, offset);
    var m := id.next - offset;
    if id.value == RECORD {
      LebIsCode(data, id.next);
      var n := LebAt(data, id.next);
      var fields := FieldsGive(n.value, data, n.next, []);
      assert [] + fields == fields;
      var s, k := data[offset..r.next], n.next - offset;
      Cut(data, offset, r.next, m);
      Cut(data, offset, r.next, k);
      Cut(data, offset, n.next, m);
      assert s[m..k] == s[..k][m..];
      assert RecordCut(fields, s, m, k);
    } else {
      SlebIsCode(data, id.next);
      var s := data[offset..r.next];
      Cut(data, offset, r.next, m);
      assert WrapperCut(r.value, s, m);
    }
  }

  lemma {:induction false} TableGives(n: nat, data: seq<byte>, offset: nat, acc: seq<TypeEntry>)
    returns (table: seq<TypeEntry>)
    requires TableFrom(n, data, offset, acc).Ok? && offset <= |data|
    ensures var r := TableFrom(n, data, offset, acc);
      r.value == acc + table && |table| == n && offset <= r.next <= |data| && TableCode(table, data[offset..r.next])
  {
    hide EntryAt, EntryCode;
    if n == 0 {
      return [];
    }
    EntryGives(data, offset);
    var e := EntryAt(data, offset);
    var more := TableGives(n - 1, data, e.next, acc + [e.value]);
    table := [e.value] + more;
    assert acc + [e.value] + more == acc + table && table[1..] == more;
    Cut(data, offset, TableFrom(n, data, offset, acc).next, e.next - offset);
  }

  /** Whatever is read is one code for each field. */
  lemma {:induction false} ValuesGive(k: nat, fields: seq<Field>, data: seq<byte>, offset: nat, t: Transfer)
    returns (vals: seq<Value>)
    requires k <= |fields| && ValuesFrom(k, fields, data, offset, t).Ok? && Takes(t, AnyValue(t)) && offset <= |data|
    ensures |vals| == |fields| - k && AllTake(t, vals)
    ensures ValuesFrom(k, fields, data, offset, t).value == Fold(fields[k..], vals, t)
    ensures var end := ValuesFrom(k, fields, data, offset, t).next;
      offset <= end <= |data| && ValuesCode(fields[k..], vals, data[offset..end])
    ensures forall i | k <= i < |fields| :: fields[i].hash in HASHES
    decreases |fields| - k
  {
    hide ValueAt, Apply, ValidValue, Takes, Encodes;
    if k == |fields| {
      return [];
    }
    var f, r := fields[k], ValueAt(fields[k].hash, data, offset, t);
    var v := ValueGives(f.hash, data, offset, t);
    var u := Apply(f.hash, v, t);
    SameKindTakes(t, u, v);
    var more := ValuesGive(k + 1, fields, data, r.next, u);
    vals := [v] + more;
    OneMoreTakes(t, u, v, more);
    assert fields[k..][0] == f && fields[k..][1..] == fields[k + 1..] && vals[1..] == more;
    var end := ValuesFrom(k, fields, data, offset, t).next;
    Cut(data, offset, end, r.next - offset);
  }

  lemma SameKindTakes(t: Transfer, u: Transfer, v: Value)
    requires Takes(u, v) && u.Coin? == t.Coin?
    ensures Takes(u, AnyValue(u))
  {
  }

  lemma OneMoreTakes(t: Transfer, u: Transfer, v: Value, more: seq<Value>)
    requires ValidValue(v) && Takes(t, v) && AllTake(u, more) && u.Coin? == t.Coin?
    ensures AllTake(t, [v] + more)
  {
    hide ValidValue;
    forall w | w in [v] + more ensures ValidValue(w) && Takes(t, w) {
      assert w == v || w in more;
      assert w in more ==> Takes(u, w);
    }
  }

  lemma PreambleGives(data: seq<byte>, size: nat, t: Transfer) returns (table: seq<TypeEntry>, arg: nat, d: nat)
    requires ParseTransfer(data, size, t).Ok?
    ensures d <= |data| && PreambleCode(data[..d], table, arg)
    ensures ParseTransfer(data, size, t) == ArgumentAt(table, arg, data, d, size, t)
  {
    hide LebAt, TableFrom, LebCode, TableCode, ArgumentAt;
    var count := LebAt(data, 4);
    LebIsCode(data, 4);
    table := TableGives(count.value, data, count.next, []);
    assert [] + table == table;
    var types := TableFrom(count.value, data, count.next, []);
    LebIsCode(data, types.next);
    var one := LebAt(data, types.next);
    LebIsCode(data, one.next);
    var last := LebAt(data, one.next);
    arg, d := last.value, last.next;
    var p := data[..d];
    PieceOfPrefix(data, d, 0, 4);
    PieceOfPrefix(data, d, 4, count.next);
    PieceOfPrefix(data, d, count.next, types.next);
    PieceOfPrefix(data, d, types.next, one.next);
    assert p[one.next..] == data[one.next..d];
    assert PreambleCut(p, table, arg, count.next, types.next, one.next);
  }

  lemma MessageGives(data: seq<byte>, size: nat, t: Transfer)
    returns (table: seq<TypeEntry>, arg: nat, vals: seq<Value>)
    requires ParseTransfer(data, size, t).Ok? && Takes(t, AnyValue(t))
    ensures size <= |data| && MessageCode(data[..size], table, arg, vals) && AllTake(t, vals)
  {
    hide ParseTransfer, PreambleCode, ValuesCode, ValuesFrom, Fold, AllTake, Takes;
    var d;
    table, arg, d := PreambleGives(data, size, t);
    var fields := table[arg].fields;
    vals := ValuesGive(0, fields, data, d, t);
    assert fields[0..] == fields;
    forall h | h in HashesOf(fields) ensures h in HASHES {
      var f :| f in fields && f.hash == h;
      var i :| 0 <= i < |fields| && fields[i] == f;
    }
    assert data[..size][..d] == data[..d] && data[..size][d..] == data[d..size];
    assert MessageCut(data[..size], table, arg, vals, d);
  }
}
