/** Exactly for which bytes the parser stays inside the message, its arrays and the type table. */
module CandidBounds {
  import opened Bytes
  import opened Leb128
  import opened Candid
  import opened CandidValues
  import opened CandidCodes
  import opened CandidMessages

  // ---- What is not there, or too long.

  /** A number of at most ten bytes is there. */
  ghost predicate HoldsCode(s: seq<byte>) {
    exists n: nat :: n <= |s| && IsCode(s[..n])
  }

  predicate VecCut(s: seq<byte>, b: seq<byte>, n: nat, room: nat) {
    n <= |s| && VecCode(s[..n], b) && |b| <= room
  }

  /** A vector is there, all of it, and an array of size room holds it. */
  ghost predicate HoldsVec(s: seq<byte>, room: nat) {
    exists n: nat, b: seq<byte> :: VecCut(s, b, n, room)
  }

  ghost predicate OptVecStrays(s: seq<byte>, room: nat) {
    s == [] || (s[0] != 0 && !HoldsVec(s[1..], room))
  }

  /** The owner is there, and its subaccount begins at n. */
  predicate OwnerCut(s: seq<byte>, b: seq<byte>, n: nat) {
    1 <= n <= |s| && b != [] && VecCode(s[1..n], b)
  }

  ghost predicate OwnerStrays(s: seq<byte>) {
    || s == []
    || (s[0] != 0 && !HoldsVec(s[1..], 29))
    || (s[0] != 0 && exists n: nat, b: seq<byte> :: OwnerCut(s, b, n) && OptVecStrays(s[n..], 32))
  }

  /** The value of one field is not all there, or its array does not hold it. */
  ghost predicate ValueStrays(hash: nat, coin: bool, s: seq<byte>) {
    if hash == HASH_TO then (if coin then !HoldsVec(s, 32) else OwnerStrays(s))
    else if hash == HASH_AMOUNT then (if coin then |s| < 8 else !HoldsCode(s))
    else if hash == HASH_FEE then
      (if coin then |s| < 8 else s == [] || (s[0] != 0 && !HoldsCode(s[1..])))
    else if hash == HASH_MEMO then (if coin then |s| < 8 else OptVecStrays(s, 256))
    else if hash == HASH_FROM then OptVecStrays(s, 32)
    else s == [] || (s[0] != 0 && |s| < 9)
  }

  ghost predicate ValueCut(hash: nat, v: Value, coin: bool, s: seq<byte>, n: nat) {
    n <= |s| && ValidValue(v) && v.CoinValue? == coin && Encodes(hash, v, s[..n])
  }

  /** After some values that are there comes one that is not. */
  ghost predicate ValuesStray(fields: seq<Field>, coin: bool, s: seq<byte>) {
    && fields != [] && fields[0].hash in HASHES
    && (ValueStrays(fields[0].hash, coin, s) ||
        exists n: nat, v: Value :: ValueCut(fields[0].hash, v, coin, s, n) && ValuesStray(fields[1..], coin, s[n..]))
  }

  ghost predicate HoldsFields(count: nat, s: seq<byte>) {
    exists n: nat, fields: seq<Field> :: n <= |s| && |fields| == count && FieldsCode(fields, s[..n])
  }

  predicate WrapperStart(s: seq<byte>, n: nat) {
    n <= |s| && (SlebCode(s[..n], OPT) || SlebCode(s[..n], VECTOR))
  }

  predicate RecordStart(s: seq<byte>, n: nat) {
    n <= |s| && SlebCode(s[..n], RECORD)
  }

  predicate CountCut(s: seq<byte>, count: nat, n: nat) {
    n <= |s| && LebCode(s[..n], count)
  }

  /** A count is not there, or that many fields are not. */
  ghost predicate RecordStrays(s: seq<byte>) {
    !HoldsCode(s) || exists n: nat, count: nat :: CountCut(s, count, n) && !HoldsFields(count, s[n..])
  }

  ghost predicate EntryStrays(s: seq<byte>) {
    || !HoldsCode(s)
    || (exists n: nat :: WrapperStart(s, n) && !HoldsCode(s[n..]))
    || (exists n: nat :: RecordStart(s, n) && RecordStrays(s[n..]))
  }

  /** After some entries that are there comes one that is not. */
  ghost predicate TableStrays(count: nat, s: seq<byte>) {
    && count > 0
    && (EntryStrays(s) ||
        exists n: nat, e: TypeEntry :: n <= |s| && EntryCode(e, s[..n]) && TableStrays(count - 1, s[n..]))
  }

  /** Behind table and count of arguments: the index is not there, or it is outside the table, or it names
      a readable record whose values are not there. */
  ghost predicate ArgumentStrays(table: seq<TypeEntry>, coin: bool, s: seq<byte>) {
    !HoldsCode(s) ||
    exists n: nat, arg: nat :: CountCut(s, arg, n) &&
      (arg >= |table| ||
       (table[arg].Record? && 4 <= |table[arg].fields| <= 6 && ValuesStray(table[arg].fields, coin, s[n..])))
  }

  ghost predicate ArgumentsStray(table: seq<TypeEntry>, coin: bool, s: seq<byte>) {
    !HoldsCode(s) || exists n: nat :: CountCut(s, 1, n) && ArgumentStrays(table, coin, s[n..])
  }

  ghost predicate TableCut(table: seq<TypeEntry>, s: seq<byte>, n: nat) {
    n <= |s| && TableCode(table, s[..n])
  }

  ghost predicate TypesStray(count: nat, coin: bool, s: seq<byte>) {
    TableStrays(count, s) ||
    exists n: nat, table: seq<TypeEntry> ::
      |table| == count && TableCut(table, s, n) && ArgumentsStray(table, coin, s[n..])
  }

  /** The message as a whole. */
  ghost predicate MessageStrays(data: seq<byte>, coin: bool) {
    |data| < 4 ||
    (data[..4] == MAGIC &&
     (!HoldsCode(data[4..]) || exists n: nat, count: nat :: CountCut(data[4..], count, n) &&
                                                              TypesStray(count, coin, data[4..][n..])))
  }

  // ---- Atoms.

  lemma CodeExactly(data: seq<byte>, offset: nat)
    requires offset <= |data|
    ensures LebAt(data, offset) == Undefined <==> !HoldsCode(data[offset..])
    ensures SlebAt(data, offset) == Undefined <==> !HoldsCode(data[offset..])
    ensures !LebAt(data, offset).Rejected? && !SlebAt(data, offset).Rejected?
  {
    hide IsCode, CodeAt, Groups;
    if n: nat :| n <= |data[offset..]| && IsCode(data[offset..][..n]) {
      CodeStands(data, offset, data[offset..][..n]);
    }
    if LebAt(data, offset).Ok? {
      LebIsCode(data, offset);
      assert data[offset..LebAt(data, offset).next] == data[offset..][..LebAt(data, offset).next - offset];
    }
    assert LebAt(data, offset).Ok? <==> SlebAt(data, offset).Ok?;
  }

  lemma VecExactly(data: seq<byte>, offset: nat, dest: seq<byte>)
    requires offset <= |data|
    ensures FilledVecAt(data, offset, dest) == Undefined <==> !HoldsVec(data[offset..], |dest|)
  {
    hide LebAt, LebCode, VecCode, Over;
    var s := data[offset..];
    if n: nat, b: seq<byte> :| VecCut(s, b, n, |dest|) {
      if b == [] {
        EmptyVec(s[..n]);
        LebCodeStands(data, offset, s[..n], 0);
      } else {
        VecReads(data, offset, s[..n], b, dest);
      }
    }
    var r := FilledVecAt(data, offset, dest);
    if r.Ok? {
      var b := VecGives(data, offset, dest);
      assert data[offset..r.next] == s[..r.next - offset];
      assert VecCut(s, b, r.next - offset, |dest|);
    } else if r.Rejected? {
      CodeExactly(data, offset);
      LebIsCode(data, offset);
      var n := LebAt(data, offset).next - offset;
      assert data[offset..offset + n] == s[..n];
      EmptyVec(s[..n]);
      assert VecCut(s, [], n, |dest|);
    }
  }

  lemma EmptyVec(s: seq<byte>)
    ensures VecCode(s, []) <==> LebCode(s, 0)
  {
    hide LebCode;
    assert s[..|s| - 0] == s;
  }

  // ---- Values.

  lemma OptVecExactly(data: seq<byte>, offset: nat, dest: seq<byte>)
    requires offset <= |data|
    ensures OptVecStrays(data[offset..], |dest|) <==>
      offset == |data| || (data[offset] != 0 && FilledVecAt(data, offset + 1, dest) == Undefined)
  {
    hide HoldsVec, FilledVecAt;
    if offset < |data| {
      VecExactly(data, offset + 1, dest);
      assert data[offset..][1..] == data[offset + 1..];
    }
  }

  lemma OwnerExactly(data: seq<byte>, offset: nat, t: Transfer)
    requires offset <= |data| && Takes(t, AnyValue(t)) && t.Token?
    ensures RecipientAt(data, offset, t) == Undefined <==> OwnerStrays(data[offset..])
  {
    hide HoldsVec, FilledVecAt, VecCode, OptVecStrays, Over;
    var s := data[offset..];
    if offset == |data| || data[offset] == 0 {
      return;
    }
    VecExactly(data, offset + 1, t.owner);
    assert s[1..] == data[offset + 1..];
    var r := FilledVecAt(data, offset + 1, t.owner);
    if r.Ok? {
      var b := VecGives(data, offset + 1, t.owner);
      var n := r.next - offset;
      assert s[1..n] == data[offset + 1..r.next] && s[n..] == data[r.next..];
      assert OwnerCut(s, b, n);
      OptVecExactly(data, r.next, t.sub);
    }
    forall n: nat, b: seq<byte> | OwnerCut(s, b, n) && r != Undefined ensures r.Ok? && r.next == offset + n {
      OwnerReads(data, offset, t.owner, n, b);
    }
  }

  lemma OwnerReads(data: seq<byte>, offset: nat, dest: seq<byte>, n: nat, b: seq<byte>)
    requires offset < |data| && OwnerCut(data[offset..], b, n) && FilledVecAt(data, offset + 1, dest) != Undefined
    ensures FilledVecAt(data, offset + 1, dest).Ok? && FilledVecAt(data, offset + 1, dest).next == offset + n
  {
    hide FilledVecAt, VecCode, Over;
    var s := data[offset..];
    VecExactly(data, offset + 1, dest);
    assert s[1..] == data[offset + 1..] && s[1..n] == s[1..][..n - 1];
    var m: nat, c: seq<byte> :| VecCut(s[1..], c, m, |dest|);
    VecEndsItself(s[1..], m, n - 1, c, b);
    VecReads(data, offset + 1, s[1..n], b, dest);
  }

  lemma ValueExactly(hash: nat, data: seq<byte>, offset: nat, t: Transfer)
    requires offset <= |data| && Takes(t, AnyValue(t)) && hash in HASHES
    ensures ValueAt(hash, data, offset, t) == Undefined <==> ValueStrays(hash, t.Coin?, data[offset..])
  {
    hide LebAt, FilledVecAt, HoldsCode, HoldsVec, OptVecStrays, OwnerStrays, RecipientAt;
    if hash == HASH_TO {
      if t.Coin? { CoinRecipientExactly(data, offset, t); } else { OwnerExactly(data, offset, t); }
    } else if hash == HASH_FROM {
      OptVecExactly(data, offset, t.from);
    } else if hash == HASH_MEMO && t.Token? {
      OptVecExactly(data, offset, t.memo);
    } else {
      CodeExactly(data, offset);
      if offset < |data| {
        CodeExactly(data, offset + 1);
        assert data[offset..][1..] == data[offset + 1..];
      }
    }
  }

  lemma CoinRecipientExactly(data: seq<byte>, offset: nat, t: Transfer)
    requires offset <= |data| && Takes(t, AnyValue(t)) && t.Coin?
    ensures RecipientAt(data, offset, t) == Undefined <==> !HoldsVec(data[offset..], 32)
  {
    hide FilledVecAt, HoldsVec;
    VecExactly(data, offset, t.to);
  }

  lemma ReadValue(hash: nat, v: Value, data: seq<byte>, offset: nat, n: nat, t: Transfer)
    requires offset <= |data| && ValueCut(hash, v, t.Coin?, data[offset..], n) && Takes(t, AnyValue(t))
    requires hash in HASHES
    ensures ValueAt(hash, data, offset, t).Ok? && ValueAt(hash, data, offset, t).next == offset + n
  {
    hide ValueAt, Encodes, ValidValue;
    ValueReads(hash, data, offset, data[offset..][..n], v, t);
  }

  lemma UnknownIsRejected(hash: nat, data: seq<byte>, offset: nat, t: Transfer)
    requires hash !in HASHES
    ensures ValueAt(hash, data, offset, t).Rejected?
  {
  }

  lemma KindStays(hash: nat, v: Value, t: Transfer)
    requires ValidValue(v) && Takes(t, v)
    ensures v.CoinValue? == t.Coin? && Takes(Apply(hash, v, t), AnyValue(t)) && Apply(hash, v, t).Coin? == t.Coin?
    ensures Takes(Apply(hash, v, t), AnyValue(Apply(hash, v, t)))
  {
    hide Apply;
  }

  lemma {:induction false} ValuesExactly(k: nat, fields: seq<Field>, data: seq<byte>, offset: nat, t: Transfer)
    requires k <= |fields| && offset <= |data| && Takes(t, AnyValue(t))
    ensures ValuesFrom(k, fields, data, offset, t) == Undefined <==> ValuesStray(fields[k..], t.Coin?, data[offset..])
    decreases |fields| - k
  {
    hide ValueAt, ValueStrays, ValidValue, Encodes, Takes, Apply, AnyValue;
    if k == |fields| {
      return;
    }
    var hash, s, rest := fields[k].hash, data[offset..], fields[k + 1..];
    assert fields[k..][0] == fields[k] && fields[k..][1..] == rest;
    var r := ValueAt(hash, data, offset, t);
    if hash !in HASHES {
      UnknownIsRejected(hash, data, offset, t);
      return;
    }
    ValueExactly(hash, data, offset, t);
    if r.Ok? {
      var v := ValueGives(hash, data, offset, t);
      var n := r.next - offset;
      KindStays(hash, v, t);
      assert data[offset..r.next] == s[..n] && s[n..] == data[r.next..];
      assert ValueCut(hash, v, t.Coin?, s, n);
      ValuesExactly(k + 1, fields, data, r.next, r.value);
    }
    forall n: nat, v: Value | ValueCut(hash, v, t.Coin?, s, n) ensures r.Ok? && r.next == offset + n {
      ReadValue(hash, v, data, offset, n, t);
    }
  }

  // ---- The type table.

  lemma {:induction false} FieldsNotRejected(count: nat, data: seq<byte>, offset: nat, acc: seq<Field>)
    requires offset <= |data|
    ensures !FieldsFrom(count, data, offset, acc).Rejected?
    decreases count
  {
    hide LebAt, SlebAt;
    if count > 0 {
      CodeExactly(data, offset);
      var r := LebAt(data, offset);
      if r.Ok? {
        CodeExactly(data, r.next);
        var o := SlebAt(data, r.next);
        if o.Ok? { FieldsNotRejected(count - 1, data, o.next, acc + [Field(r.value, o.value)]); }
      }
    }
  }

  lemma FieldsExactly(count: nat, data: seq<byte>, offset: nat)
    requires offset <= |data|
    ensures FieldsFrom(count, data, offset, []) == Undefined <==> !HoldsFields(count, data[offset..])
    ensures !FieldsFrom(count, data, offset, []).Rejected?
  {
    hide FieldsFrom, FieldsCode;
    FieldsNotRejected(count, data, offset, []);
    var s, r := data[offset..], FieldsFrom(count, data, offset, []);
    if r.Ok? {
      var fields := FieldsGive(count, data, offset, []);
      assert data[offset..r.next] == s[..r.next - offset];
    }
    if n: nat, fields: seq<Field> :| n <= |s| && |fields| == count && FieldsCode(fields, s[..n]) {
      FieldsRead(fields, data, offset, s[..n], []);
    }
  }

  lemma CountReads(data: seq<byte>, offset: nat, count: nat, n: nat)
    requires offset <= |data| && CountCut(data[offset..], count, n)
    ensures LebAt(data, offset) == Ok(count, offset + n) && data[offset..][n..] == data[offset + n..]
  {
    hide LebCode, LebAt;
    LebCodeStands(data, offset, data[offset..][..n], count);
  }

  lemma CountGives(data: seq<byte>, offset: nat)
    requires offset <= |data| && LebAt(data, offset).Ok?
    ensures var r := LebAt(data, offset);
      offset < r.next <= |data| && CountCut(data[offset..], r.value, r.next - offset)
      && data[offset..][r.next - offset..] == data[r.next..]
  {
    hide LebCode, LebAt;
    LebIsCode(data, offset);
    var r := LebAt(data, offset);
    assert data[offset..r.next] == data[offset..][..r.next - offset];
  }

  lemma RecordExactly(data: seq<byte>, offset: nat)
    requires offset <= |data|
    ensures RecordStrays(data[offset..]) <==>
      LebAt(data, offset) == Undefined ||
      (LebAt(data, offset).Ok? && var r := LebAt(data, offset); FieldsFrom(r.value, data, r.next, []) == Undefined)
  {
    hide LebAt, FieldsFrom, HoldsFields, HoldsCode, CountCut;
    CodeExactly(data, offset);
    var s, r := data[offset..], LebAt(data, offset);
    if r.Ok? {
      CountGives(data, offset);
      FieldsExactly(r.value, data, r.next);
    }
    forall n: nat, count: nat | CountCut(s, count, n)
      ensures r == Ok(count, offset + n) && s[n..] == data[offset + n..]
    {
      CountReads(data, offset, count, n);
    }
  }

  lemma EntryExactly(data: seq<byte>, offset: nat)
    requires offset <= |data|
    ensures EntryAt(data, offset) == Undefined <==> EntryStrays(data[offset..])
  {
    hide LebAt, SlebAt, FieldsFrom, SlebCode, HoldsCode, RecordStrays;
    CodeExactly(data, offset);
    var s, r := data[offset..], SlebAt(data, offset);
    if r.Ok? {
      SlebIsCode(data, offset);
      var n := r.next - offset;
      assert data[offset..r.next] == s[..n] && s[n..] == data[r.next..];
      CodeExactly(data, r.next);
      RecordExactly(data, r.next);
      RecordParts(data, r.next);
    }
    forall n: nat, id: int | n <= |s| && SlebCode(s[..n], id)
      ensures r == Ok(id, offset + n) && s[n..] == data[offset + n..]
    {
      SlebCodeStands(data, offset, s[..n], id);
    }
  }

  lemma RecordParts(data: seq<byte>, offset: nat)
    requires offset <= |data|
    ensures var r := LebAt(data, offset);
      !r.Rejected? && (r.Ok? ==> !FieldsFrom(r.value, data, r.next, []).Rejected?)
  {
    hide LebAt, FieldsFrom;
    CodeExactly(data, offset);
    var r := LebAt(data, offset);
    if r.Ok? { FieldsExactly(r.value, data, r.next); }
  }

  lemma {:induction false} TableExactly(count: nat, data: seq<byte>, offset: nat, acc: seq<TypeEntry>)
    requires offset <= |data|
    ensures TableFrom(count, data, offset, acc) == Undefined <==> TableStrays(count, data[offset..])
    decreases count
  {
    hide EntryAt, EntryStrays, EntryCode;
    if count == 0 {
      return;
    }
    EntryExactly(data, offset);
    var s, r := data[offset..], EntryAt(data, offset);
    if r.Ok? {
      EntryGives(data, offset);
      var n := r.next - offset;
      assert data[offset..r.next] == s[..n] && s[n..] == data[r.next..];
      TableExactly(count - 1, data, r.next, acc + [r.value]);
    }
    forall n: nat, e: TypeEntry | n <= |s| && EntryCode(e, s[..n])
      ensures r == Ok(e, offset + n) && s[n..] == data[offset + n..]
    {
      EntryReads(e, data, offset, s[..n]);
    }
  }

  // ---- The message.

  lemma ArgumentExactly(table: seq<TypeEntry>, data: seq<byte>, offset: nat, size: nat, t: Transfer)
    requires offset <= |data| && Takes(t, AnyValue(t))
    ensures ArgumentStrays(table, t.Coin?, data[offset..]) <==>
      LebAt(data, offset) == Undefined ||
      (LebAt(data, offset).Ok? &&
       var r := LebAt(data, offset); ArgumentAt(table, r.value, data, r.next, size, t) == Undefined)
  {
    hide LebAt, ValuesFrom, HoldsCode, CountCut, ValuesStray;
    CodeExactly(data, offset);
    var s, r := data[offset..], LebAt(data, offset);
    if r.Ok? {
      CountGives(data, offset);
      if r.value < |table| && table[r.value].Record? {
        var fields := table[r.value].fields;
        ValuesExactly(0, fields, data, r.next, t);
        assert fields[0..] == fields;
      }
    }
    forall n: nat, arg: nat | CountCut(s, arg, n)
      ensures r == Ok(arg, offset + n) && s[n..] == data[offset + n..]
    {
      CountReads(data, offset, arg, n);
    }
  }

  /** What the parser does behind the type table. */
  function Arguments(table: seq<TypeEntry>, data: seq<byte>, offset: nat, size: nat, t: Transfer): Parse<Transfer> {
    var (argCount, o) :- LebAt(data, offset);
    if argCount != 1 then Rejected
    else
      var (arg, o1) :- LebAt(data, o);
      ArgumentAt(table, arg, data, o1, size, t)
  }

  lemma ArgumentsExactly(table: seq<TypeEntry>, data: seq<byte>, offset: nat, size: nat, t: Transfer)
    requires offset <= |data| && Takes(t, AnyValue(t))
    ensures Arguments(table, data, offset, size, t) == Undefined <==> ArgumentsStray(table, t.Coin?, data[offset..])
  {
    hide LebAt, ArgumentAt, HoldsCode, CountCut, ArgumentStrays;
    CodeExactly(data, offset);
    var s, r := data[offset..], LebAt(data, offset);
    if r.Ok? {
      CountGives(data, offset);
      CodeExactly(data, r.next);
      ArgumentExactly(table, data, r.next, size, t);
    }
    forall n: nat, count: nat | CountCut(s, count, n)
      ensures r == Ok(count, offset + n) && s[n..] == data[offset + n..]
    {
      CountReads(data, offset, count, n);
    }
  }

  function Types(count: nat, data: seq<byte>, offset: nat, size: nat, t: Transfer): Parse<Transfer> {
    var (table, o) :- TableFrom(count, data, offset, []);
    Arguments(table, data, o, size, t)
  }

  lemma TypesExactly(count: nat, data: seq<byte>, offset: nat, size: nat, t: Transfer)
    requires offset <= |data| && Takes(t, AnyValue(t))
    ensures Types(count, data, offset, size, t) == Undefined <==> TypesStray(count, t.Coin?, data[offset..])
  {
    hide TableFrom, TableStrays, TableCode, Arguments, ArgumentsStray;
    TableExactly(count, data, offset, []);
    var s, r := data[offset..], TableFrom(count, data, offset, []);
    if r.Ok? {
      var table := TableGives(count, data, offset, []);
      assert [] + table == table;
      var n := r.next - offset;
      assert data[offset..r.next] == s[..n] && s[n..] == data[r.next..];
      assert TableCut(table, s, n);
      ArgumentsExactly(table, data, r.next, size, t);
    }
    forall n: nat, table: seq<TypeEntry> | |table| == count && TableCut(table, s, n)
      ensures r == Ok(table, offset + n) && s[n..] == data[offset + n..]
    {
      TableReads(table, data, offset, s[..n], []);
      assert [] + table == table;
    }
  }

  /** The parser stays inside the message, its arrays and the type table for all other bytes, and only
      for those, whatever size it is given. */
  lemma UndefinedExactly(data: seq<byte>, size: nat, t: Transfer)
    requires Takes(t, AnyValue(t))
    ensures ParseTransfer(data, size, t) == Undefined <==> MessageStrays(data, t.Coin?)
  {
    hide LebAt, TableFrom, ArgumentAt, HoldsCode, CountCut, TypesStray;
    if |data| < 4 || data[..4] != MAGIC {
      return;
    }
    CodeExactly(data, 4);
    var s, r := data[4..], LebAt(data, 4);
    if r.Ok? {
      CountGives(data, 4);
      TypesExactly(r.value, data, r.next, size, t);
      assert ParseTransfer(data, size, t) == Types(r.value, data, r.next, size, t);
    }
    forall n: nat, count: nat | CountCut(s, count, n)
      ensures r == Ok(count, 4 + n) && s[n..] == data[4 + n..]
    {
      CountReads(data, 4, count, n);
    }
  }
}
