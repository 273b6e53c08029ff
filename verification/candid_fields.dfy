/** DIDL transfer arguments from the outside: field names, readers and whole messages, in numbers and
    bytes. */
module CandidFields {
  import opened Bytes
  import opened Leb128
  import opened Candid
  import opened CandidValues
  import opened CandidCodes
  import opened CandidMessages
  import opened CandidTheorems

  // ---- Field ids.

  /** "Ids and hash" of the Candid specification: base 223, modulo 2^32. */
  function IdlHash(name: string): nat {
    if name == "" then 0
    else (IdlHash(name[..|name| - 1]) * 223 + name[|name| - 1] as int) % 0x1_0000_0000
  }

  lemma IdlHashStep(name: string, v: nat, c: char, next: string, w: nat)
    requires IdlHash(name) == v && |next| == |name| + 1 && next[..|name|] == name && next[|name|] == c
    requires w == (v * 223 + c as int) % 0x1_0000_0000
    ensures IdlHash(next) == w
  {
  }

  lemma ToId()
    ensures IdlHash("to") == 25979 == HASH_TO
  {
    hide IdlHash;
    EmptyId();
    IdlHashStep("", 0, 't', "t", 116);
    IdlHashStep("t", 116, 'o', "to", 25979);
  }

  lemma FeeId()
    ensures IdlHash("fee") == 5094982 == HASH_FEE
  {
    hide IdlHash;
    EmptyId();
    IdlHashStep("", 0, 'f', "f", 102);
    IdlHashStep("f", 102, 'e', "fe", 22847);
    IdlHashStep("fe", 22847, 'e', "fee", 5094982);
  }

  lemma MemoId()
    ensures IdlHash("memo") == 1213809850 == HASH_MEMO
  {
    hide IdlHash;
    EmptyId();
    IdlHashStep("", 0, 'm', "m", 109);
    IdlHashStep("m", 109, 'e', "me", 24408);
    IdlHashStep("me", 24408, 'm', "mem", 5443093);
    IdlHashStep("mem", 5443093, 'o', "memo", 1213809850);
  }

  lemma AmountBegins1()
    ensures IdlHash("amoun") == 574564124
  {
    hide IdlHash;
    EmptyId();
    IdlHashStep("", 0, 'a', "a", 97);
    IdlHashStep("a", 97, 'm', "am", 21740);
    IdlHashStep("am", 21740, 'o', "amo", 4848131);
    IdlHashStep("amo", 4848131, 'u', "amou", 1081133330);
    IdlHashStep("amou", 1081133330, 'n', "amoun", 574564124);
  }

  lemma AmountId()
    ensures IdlHash("amount") == 3573748184 == HASH_AMOUNT
  {
    hide IdlHash;
    AmountBegins1();
    IdlHashStep("amoun", 574564124, 't', "amount", 3573748184);
  }

  lemma FromSubaccountBegins1()
    ensures IdlHash("from_") == 109975477
  {
    hide IdlHash;
    EmptyId();
    IdlHashStep("", 0, 'f', "f", 102);
    IdlHashStep("f", 102, 'r', "fr", 22860);
    IdlHashStep("fr", 22860, 'o', "fro", 5097891);
    IdlHashStep("fro", 5097891, 'm', "from", 1136829802);
    IdlHashStep("from", 1136829802, '_', "from_", 109975477);
  }

  lemma FromSubaccountBegins2()
    ensures IdlHash("from_subac") == 2404136589
  {
    hide IdlHash;
    FromSubaccountBegins1();
    IdlHashStep("from_", 109975477, 's', "from_s", 3049695006);
    IdlHashStep("from_s", 3049695006, 'u', "from_su", 1477153687);
    IdlHashStep("from_su", 1477153687, 'b', "from_sub", 2987757803);
    IdlHashStep("from_sub", 2987757803, 'a', "from_suba", 550059286);
    IdlHashStep("from_suba", 550059286, 'c', "from_subac", 2404136589);
  }

  lemma FromSubaccountId()
    ensures IdlHash("from_subaccount") == 1835347746 == HASH_FROM
  {
    hide IdlHash;
    FromSubaccountBegins2();
    IdlHashStep("from_subac", 2404136589, 'c', "from_subacc", 3546514742);
    IdlHashStep("from_subacc", 3546514742, 'o', "from_subacco", 598805113);
    IdlHashStep("from_subacco", 598805113, 'u', "from_subaccou", 389554140);
    IdlHashStep("from_subaccou", 389554140, 'n', "from_subaccoun", 971227410);
    IdlHashStep("from_subaccoun", 971227410, 't', "from_subaccount", 1835347746);
  }

  lemma CreatedAtTimeBegins1()
    ensures IdlHash("creat") == 1280489801
  {
    hide IdlHash;
    EmptyId();
    IdlHashStep("", 0, 'c', "c", 99);
    IdlHashStep("c", 99, 'r', "cr", 22191);
    IdlHashStep("cr", 22191, 'e', "cre", 4948694);
    IdlHashStep("cre", 4948694, 'a', "crea", 1103558859);
    IdlHashStep("crea", 1103558859, 't', "creat", 1280489801);
  }

  lemma CreatedAtTimeBegins2()
    ensures IdlHash("created_at") == 1779848746
  {
    hide IdlHash;
    CreatedAtTimeBegins1();
    IdlHashStep("creat", 1280489801, 'e', "create", 2081384188);
    IdlHashStep("create", 2081384188, 'd', "created", 292206056);
    IdlHashStep("created", 292206056, '_', "created_", 737441143);
    IdlHashStep("created_", 737441143, 'a', "created_a", 1240617738);
    IdlHashStep("created_a", 1240617738, 't', "created_at", 1779848746);
  }

  lemma CreatedAtTimeId()
    ensures IdlHash("created_at_time") == 3258775938 == HASH_CREATED
  {
    hide IdlHash;
    CreatedAtTimeBegins2();
    IdlHashStep("created_at", 1779848746, '_', "created_at_", 1769279221);
    IdlHashStep("created_at_", 1769279221, 't', "created_at_t", 3707242463);
    IdlHashStep("created_at_t", 3707242463, 'i', "created_at_ti", 2081348522);
    IdlHashStep("created_at_ti", 2081348522, 'm', "created_at_tim", 284252547);
    IdlHashStep("created_at_tim", 284252547, 'e', "created_at_time", 3258775938);
  }

  lemma EmptyId()
    ensures IdlHash("") == 0
  {
  }

  /** The numbers that the readers are selected by are the hashes of the field names. */
  lemma FieldIds()
    ensures IdlHash("to") == HASH_TO && IdlHash("fee") == HASH_FEE && IdlHash("memo") == HASH_MEMO
    ensures IdlHash("amount") == HASH_AMOUNT && IdlHash("from_subaccount") == HASH_FROM
    ensures IdlHash("created_at_time") == HASH_CREATED
    ensures HASHES == {25979, 5094982, 1213809850, 1835347746, 3258775938, 3573748184}
  {
    hide IdlHash;
    ToId();
    FeeId();
    MemoId();
    AmountId();
    FromSubaccountId();
    CreatedAtTimeId();
  }

  // ---- Which field a listed value ends up in.

  lemma BlobReads(data: seq<byte>, offset: nat, b: seq<byte>, dest: seq<byte>)
    requires 0 < |b| <= |dest| && |b| < 128 && Has(data, offset, [|b|] + b)
    ensures FilledVecAt(data, offset, dest) == Ok((b + dest[|b|..], |b|), offset + 1 + |b|)
  {
    hide FilledVecAt, VecCode;
    VecIsCode(b);
    assert Vec(b) == [|b|] + b;
    VecReads(data, offset, [|b|] + b, b, dest);
  }

  /** A coin transfer's numbers have eight bytes, least significant first. */
  lemma CoinNumbers(data: seq<byte>, offset: nat, t: Transfer)
    requires t.Coin? && offset + 8 <= |data|
    ensures var n := FromLE(data[offset..offset + 8]);
      && ValueAt(IdlHash("amount"), data, offset, t)
         == Ok(Coin(t.to, n, t.coinFee, t.coinMemo, t.hasFrom, t.from, t.hasCreated, t.created), offset + 8)
      && ValueAt(IdlHash("fee"), data, offset, t) == Ok(t.(coinFee := n), offset + 8)
      && ValueAt(IdlHash("memo"), data, offset, t) == Ok(t.(coinMemo := n), offset + 8)
  {
    hide IdlHash, FromLE;
    FieldIds();
  }

  /** Its account is a length and that many bytes. */
  lemma CoinAccount(data: seq<byte>, offset: nat, t: Transfer, b: seq<byte>)
    requires t.Coin? && |t.to| == 32 && 0 < |b| <= 32 && Has(data, offset, [|b|] + b)
    ensures ValueAt(IdlHash("to"), data, offset, t) == Ok(t.(to := b + t.to[|b|..]), offset + 1 + |b|)
  {
    hide IdlHash, FilledVecAt, Has;
    FieldIds();
    BlobReads(data, offset, b, t.to);
  }

  /** A token transfer's amount is in LEB128, its fee behind a flag. */
  lemma TokenNumbers(data: seq<byte>, offset: nat, t: Transfer, n: nat)
    requires t.Token? && n < 0x1_0000_0000_0000_0000
    ensures Has(data, offset, Leb(n)) ==>
      ValueAt(IdlHash("amount"), data, offset, t) == Ok(t.(amount := n), offset + |Leb(n)|)
    ensures Has(data, offset, [1] + Leb(n)) ==>
      ValueAt(IdlHash("fee"), data, offset, t) == Ok(t.(hasFee := true, fee := n), offset + 1 + |Leb(n)|)
    ensures Has(data, offset, [0]) ==> ValueAt(IdlHash("fee"), data, offset, t) == Ok(t.(hasFee := false), offset + 1)
  {
    hide IdlHash, Leb, LebAt, LebCode;
    FieldIds();
    ShortestLeb(n);
    if Has(data, offset, Leb(n)) { LebCodeStands(data, offset, Leb(n), n); }
    if Has(data, offset, [1] + Leb(n)) {
      HasSplit(data, offset, [1], Leb(n));
      LebCodeStands(data, offset + 1, Leb(n), n);
      assert data[offset..offset + 1][0] == data[offset];
    }
    if Has(data, offset, [0]) { assert data[offset..offset + 1][0] == data[offset]; }
  }

  /** Its account is an owner behind a flag, and a subaccount behind another one. */
  lemma TokenAccount(data: seq<byte>, offset: nat, t: Transfer, owner: seq<byte>, sub: seq<byte>)
    requires t.Token? && |t.owner| == 29 && |t.sub| == 32 && 0 < |owner| <= 29 && 0 < |sub| <= 32
    ensures Has(data, offset, [1] + ([|owner|] + owner) + [0]) ==>
      ValueAt(IdlHash("to"), data, offset, t)
      == Ok(t.(owner := owner + t.owner[|owner|..], hasSub := false), offset + 3 + |owner|)
    ensures Has(data, offset, [1] + ([|owner|] + owner) + ([1] + ([|sub|] + sub))) ==>
      ValueAt(IdlHash("to"), data, offset, t)
      == Ok(t.(owner := owner + t.owner[|owner|..], hasSub := true, sub := sub + t.sub[|sub|..]),
            offset + 4 + |owner| + |sub|)
  {
    hide IdlHash, FilledVecAt, Has;
    FieldIds();
    var o := offset + 2 + |owner|;
    if Has(data, offset, [1] + ([|owner|] + owner) + [0]) {
      OwnerFirst(data, offset, owner, [0], t.owner);
      FirstByte(data, o, [0]);
    }
    if Has(data, offset, [1] + ([|owner|] + owner) + ([1] + ([|sub|] + sub))) {
      OwnerFirst(data, offset, owner, [1] + ([|sub|] + sub), t.owner);
      HasSplit(data, o, [1], [|sub|] + sub);
      FirstByte(data, o, [1]);
      BlobReads(data, o + 1, sub, t.sub);
    }
  }

  lemma FirstByte(data: seq<byte>, offset: nat, s: seq<byte>)
    requires s != [] && Has(data, offset, s)
    ensures offset < |data| && data[offset] == s[0]
  {
    assert data[offset..offset + |s|][0] == data[offset];
  }

  lemma OwnerFirst(data: seq<byte>, offset: nat, owner: seq<byte>, end: seq<byte>, dest: seq<byte>)
    requires 0 < |owner| <= |dest| && |owner| <= 29 && Has(data, offset, [1] + ([|owner|] + owner) + end)
    ensures offset < |data| && data[offset] == 1 && Has(data, offset + 2 + |owner|, end)
    ensures FilledVecAt(data, offset + 1, dest) == Ok((owner + dest[|owner|..], |owner|), offset + 2 + |owner|)
  {
    hide FilledVecAt, Has;
    HasSplit(data, offset, [1] + ([|owner|] + owner), end);
    HasSplit(data, offset, [1], [|owner|] + owner);
    FirstByte(data, offset, [1]);
    BlobReads(data, offset + 1, owner, dest);
  }

  /** What both kinds have behind a flag: subaccount to spend from and time; in a token transfer the memo
      as well. */
  lemma OptionalFields(data: seq<byte>, offset: nat, t: Transfer, b: seq<byte>)
    requires |t.from| == 32 && (t.Token? ==> |t.memo| == 256) && 0 < |b| <= 32
    ensures Has(data, offset, [0]) ==>
      && ValueAt(IdlHash("from_subaccount"), data, offset, t) == Ok(t, offset + 1)
      && ValueAt(IdlHash("created_at_time"), data, offset, t) == Ok(t, offset + 1)
      && (t.Token? ==> ValueAt(IdlHash("memo"), data, offset, t) == Ok(t, offset + 1))
    ensures Has(data, offset, [1, |b|] + b) ==>
      && ValueAt(IdlHash("from_subaccount"), data, offset, t)
         == Ok(t.(hasFrom := true, from := b + t.from[|b|..]), offset + 2 + |b|)
      && (t.Token? ==> ValueAt(IdlHash("memo"), data, offset, t)
                       == Ok(t.(hasMemo := true, memo := b + t.memo[|b|..], memoSize := |b|), offset + 2 + |b|))
    ensures offset + 9 <= |data| && data[offset] == 1 ==>
      ValueAt(IdlHash("created_at_time"), data, offset, t)
      == Ok(t.(hasCreated := true, created := FromLE(data[offset + 1..offset + 9])), offset + 9)
  {
    hide IdlHash, FilledVecAt, FromLE;
    FieldIds();
    if Has(data, offset, [0]) { assert data[offset..offset + 1][0] == data[offset]; }
    if Has(data, offset, [1, |b|] + b) {
      assert [1, |b|] + b == [1] + ([|b|] + b);
      HasSplit(data, offset, [1], [|b|] + b);
      assert data[offset..offset + 1][0] == data[offset];
      BlobReads(data, offset + 1, b, t.from);
      if t.Token? { BlobReads(data, offset + 1, b, t.memo); }
    }
  }

  // ---- A whole message.

  lemma ToCode()
    ensures Leb(25979) == [0xfb, 0xca, 0x01]
  {
    hide Leb;
    LebSplits(25979);
    LebSplits(202);
    LebSplits(1);
  }

  lemma FeeCode()
    ensures Leb(5094982) == [0xc6, 0xfc, 0xb6, 0x02]
  {
    hide Leb;
    LebSplits(5094982);
    LebSplits(39804);
    LebSplits(310);
    LebSplits(2);
  }

  lemma MemoCode()
    ensures Leb(1213809850) == [0xba, 0x89, 0xe5, 0xc2, 0x04]
  {
    hide Leb;
    LebSplits(1213809850);
    LebSplits(9482889);
    LebSplits(74085);
    LebSplits(578);
    LebSplits(4);
  }

  lemma FromSubaccountCode()
    ensures Leb(1835347746) == [0xa2, 0xde, 0x94, 0xeb, 0x06]
  {
    hide Leb;
    LebSplits(1835347746);
    LebSplits(14338654);
    LebSplits(112020);
    LebSplits(875);
    LebSplits(6);
  }

  lemma CreatedAtTimeCode()
    ensures Leb(3258775938) == [0x82, 0xf3, 0xf3, 0x91, 0x0c]
  {
    hide Leb;
    LebSplits(3258775938);
    LebSplits(25459187);
    LebSplits(198899);
    LebSplits(1553);
    LebSplits(12);
  }

  lemma AmountCode()
    ensures Leb(3573748184) == [0xd8, 0xa3, 0x8c, 0xa8, 0x0d]
  {
    hide Leb;
    LebSplits(3573748184);
    LebSplits(27919907);
    LebSplits(218124);
    LebSplits(1704);
    LebSplits(13);
  }

  lemma SmallCodes()
    ensures Leb(1) == [1] && Leb(3) == [3] && Leb(4) == [4] && Leb(6) == [6] && Leb(32) == [32]
    ensures Sleb(-20) == [0x6c] && Sleb(-19) == [0x6d] && Sleb(-18) == [0x6e] && Sleb(-8) == [0x78]
    ensures Sleb(-5) == [0x7b] && Sleb(0) == [0] && Sleb(1) == [1] && Sleb(2) == [2]
  {
  }

  /** to: vec nat8; fee and memo: nat64; from_subaccount: opt vec nat8; created_at_time: opt nat64;
      amount: nat64. */
  function CoinFields(): seq<Field> {
    [Field(IdlHash("to"), 0)] + ([Field(IdlHash("fee"), -8)] + ([Field(IdlHash("memo"), -8)] + LastFields()))
  }

  function LastFields(): seq<Field> {
    [Field(IdlHash("from_subaccount"), 1)] + ([Field(IdlHash("created_at_time"), 2)]
                                             + ([Field(IdlHash("amount"), -8)] + []))
  }

  function CoinTypes(): seq<TypeEntry> {
    [Wrapper(-19, -5)] + ([Wrapper(-18, 0)] + ([Wrapper(-18, -8)] + ([Record(CoinFields())] + [])))
  }

  const LAST_FIELDS: seq<byte> :=
    [0xa2, 0xde, 0x94, 0xeb, 0x06] + [1] + ([0x82, 0xf3, 0xf3, 0x91, 0x0c] + [2]
                                            + ([0xd8, 0xa3, 0x8c, 0xa8, 0x0d] + [0x78] + []))

  const FIELDS: seq<byte> :=
    [0xfb, 0xca, 0x01] + [0] + ([0xc6, 0xfc, 0xb6, 0x02] + [0x78]
                                + ([0xba, 0x89, 0xe5, 0xc2, 0x04] + [0x78] + LAST_FIELDS))

  /** The magic number, four types, one argument of type 3. */
  const COIN_HEAD: seq<byte> :=
    [0x44, 0x49, 0x44, 0x4c] + [4]
    + ([0x6d] + [0x7b] + ([0x6e] + [0] + ([0x6e] + [0x78] + ([0x6c] + [6] + FIELDS + [])))) + [1] + [3]

  lemma FieldInFront(f: Field, more: seq<Field>)
    ensures FieldsBytes([f] + more) == Leb(f.hash) + Sleb(f.fieldType) + FieldsBytes(more) && FieldsBytes([]) == []
  {
    assert ([f] + more)[1..] == more;
  }

  lemma EntryInFront(e: TypeEntry, more: seq<TypeEntry>)
    ensures TableBytes([e] + more) == EntryBytes(e) + TableBytes(more) && TableBytes([]) == []
  {
    hide EntryBytes;
    assert ([e] + more)[1..] == more;
  }

  lemma LastFieldCodes()
    ensures FieldsBytes(LastFields()) == LAST_FIELDS
  {
    hide IdlHash, Leb, Sleb, FieldsBytes;
    FieldIds();
    FromSubaccountCode();
    CreatedAtTimeCode();
    AmountCode();
    SmallCodes();
    var a, c, f := Field(3573748184, -8), Field(3258775938, 2), Field(1835347746, 1);
    FieldInFront(a, []);
    FieldInFront(c, [a] + []);
    FieldInFront(f, [c] + ([a] + []));
  }

  lemma FieldCodes()
    ensures FieldsBytes(CoinFields()) == FIELDS && |CoinFields()| == 6
  {
    hide IdlHash, Leb, Sleb, FieldsBytes, LAST_FIELDS;
    FieldIds();
    ToCode();
    FeeCode();
    MemoCode();
    SmallCodes();
    LastFieldCodes();
    var m, f, t := Field(1213809850, -8), Field(5094982, -8), Field(25979, 0);
    FieldInFront(m, LastFields());
    FieldInFront(f, [m] + LastFields());
    FieldInFront(t, [f] + ([m] + LastFields()));
  }

  lemma HeadBytes()
    ensures Preamble(CoinTypes(), 3) == COIN_HEAD
  {
    hide Leb, Sleb, FieldsBytes, CoinFields, FIELDS, TableBytes;
    SmallCodes();
    FieldCodes();
    var r, n, s, v := Record(CoinFields()), Wrapper(-18, -8), Wrapper(-18, 0), Wrapper(-19, -5);
    EntryInFront(r, []);
    EntryInFront(n, [r] + []);
    EntryInFront(s, [n] + ([r] + []));
    EntryInFront(v, [s] + ([n] + ([r] + [])));
    assert |CoinTypes()| == 4;
  }

  lemma SameInFront(v: Value, n: nat)
    ensures Same(v, 1 + n)[0] == v && Same(v, 1 + n)[1..] == Same(v, n)
  {
  }

  lemma ListedInFront(f: Field, more: seq<Field>, v: Value)
    ensures ListedBytes([f] + more, Same(v, 1 + |more|)) == FieldBytes(f.hash, v) + ListedBytes(more, Same(v, |more|))
    ensures ListedBytes([], []) == []
  {
    hide FieldBytes, Same;
    SameInFront(v, |more|);
    var fields := [f] + more;
    assert fields[0] == f && fields[1..] == more;
  }

  lemma LastValues(v: Value)
    requires v.CoinValue? && v.from.Some? && v.created.Some? && |v.from.value| == 32
    ensures ListedBytes(LastFields(), Same(v, 3))
      == [1] + ([32] + v.from.value) + ([1] + LE(v.created.value, 8) + (LE(v.amount, 8) + []))
  {
    hide IdlHash, Leb, LE, ListedBytes;
    FieldIds();
    SmallCodes();
    var a, c, f := Field(HASH_AMOUNT, -8), Field(HASH_CREATED, 2), Field(HASH_FROM, 1);
    ListedInFront(a, [], v);
    ListedInFront(c, [a] + [], v);
    ListedInFront(f, [c] + ([a] + []), v);
    assert Same(v, 0) == [];
  }

  lemma AllValues(v: Value)
    requires v.CoinValue? && v.from.Some? && v.created.Some? && |v.to| == |v.from.value| == 32
    ensures ListedBytes(CoinFields(), Same(v, 6))
      == [32] + v.to + (LE(v.coinFee, 8) + (LE(v.coinMemo, 8) + ListedBytes(LastFields(), Same(v, 3))))
  {
    hide IdlHash, Leb, LE, ListedBytes;
    FieldIds();
    SmallCodes();
    var m, f, t := Field(HASH_MEMO, -8), Field(HASH_FEE, -8), Field(HASH_TO, 0);
    var last := LastFields();
    ListedInFront(m, last, v);
    ListedInFront(f, [m] + last, v);
    ListedInFront(t, [f] + ([m] + last), v);
  }

  /** An ordinary coin transfer, byte by byte. */
  lemma CoinTransferMessage(to: seq<byte>, amount: nat, fee: nat, memo: nat, sub: seq<byte>, created: nat,
                            rest: seq<byte>)
    requires |to| == |sub| == 32 && amount < U64 && fee < U64 && memo < U64 && created < U64
    ensures var last := [1] + ([32] + sub) + ([1] + LE(created, 8) + (LE(amount, 8) + []));
      var m := COIN_HEAD + ([32] + to + (LE(fee, 8) + (LE(memo, 8) + last)));
      ParseTransfer(m + rest, |m|, ZERO_COIN) == Ok(Coin(to, amount, fee, memo, true, sub, true, created), |m|)
  {
    hide ParseTransfer, Preamble, LE, ListedBytes, COIN_HEAD, CoinTypes, CoinFields, Filled, FieldBytes;
    var v := CoinValue(to, amount, fee, memo, Some(sub), Some(created));
    HeadBytes();
    AllValues(v);
    LastValues(v);
    TypesAreValid();
    FieldsComplete(v);
    FilledInFull(v);
    TransferRoundTrip(v, CoinTypes(), 3, rest);
  }

  lemma FilledInFull(v: Value)
    requires ValidValue(v) && v.CoinValue? && v.from.Some? && v.created.Some? && |v.to| == |v.from.value| == 32
    ensures Filled(v, HASHES)
      == Coin(v.to, v.amount, v.coinFee, v.coinMemo, true, v.from.value, true, v.created.value)
  {
  }

  lemma TypesAreValid()
    ensures ValidTable(CoinTypes()) && |CoinTypes()| == 4 && CoinTypes()[3] == Record(CoinFields())
    ensures |CoinFields()| == 6
  {
    hide IdlHash;
    FieldIds();
  }

  lemma FieldHashes()
    ensures var f := CoinFields();
      && |f| == 6 && f[0].hash == HASH_TO && f[1].hash == HASH_FEE && f[2].hash == HASH_MEMO
      && f[3].hash == HASH_FROM && f[4].hash == HASH_CREATED && f[5].hash == HASH_AMOUNT
  {
    hide IdlHash;
    FieldIds();
  }

  lemma FieldsComplete(v: Value)
    requires v.CoinValue?
    ensures Complete(CoinFields(), v)
  {
    hide CoinFields;
    FieldHashes();
    var f := CoinFields();
    forall k | 0 <= k < 6 ensures f[k].hash in HashesOf(f) {
      assert f[k] in f;
    }
    assert HASHES <= HashesOf(f);
    forall h | h in HashesOf(f) ensures h in HASHES {
      var x :| x in f && x.hash == h;
      var k :| 0 <= k < 6 && f[k] == x;
    }
  }

  // ---- Messages of other shapes.

  /** The one argument has to be a record of four, five or six fields. */
  lemma OtherShapesAreRejected(p: seq<byte>, table: seq<TypeEntry>, arg: nat, rest: seq<byte>, size: nat, t: Transfer)
    requires PreambleCode(p, table, arg) && arg < |table|
    requires table[arg].Record? ==> |table[arg].fields| !in {4, 5, 6}
    ensures ParseTransfer(p + rest, size, t) == Rejected
  {
    hide ParseTransfer, PreambleCode;
    PreambleReads(p, table, arg, p + rest, size, t);
  }
}
