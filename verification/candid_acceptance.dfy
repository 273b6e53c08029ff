/** What an accepted transfer argument says, and what it does not. */
module CandidAcceptance {
  import opened Bytes
  import opened Leb128
  import opened Candid
  import opened CandidValues
  import opened CandidCodes
  import opened CandidMessages
  import opened CandidTheorems

  // ---- Accepted bytes are messages, and say one thing.

  /** The parser accepts exactly the messages with values that fit the record. */
  lemma AcceptedExactly(data: seq<byte>, size: nat, t: Transfer)
    requires Takes(t, AnyValue(t))
    ensures ParseTransfer(data, size, t).Ok? <==>
      size <= |data| && exists table: seq<TypeEntry>, arg: nat, vals: seq<Value> ::
        MessageCode(data[..size], table, arg, vals) && AllTake(t, vals)
  {
    hide ParseTransfer, MessageCode, AllTake, Takes, Fold;
    if ParseTransfer(data, size, t).Ok? {
      var table, arg, vals := MessageGives(data, size, t);
    }
    if size <= |data| {
      forall table: seq<TypeEntry>, arg: nat, vals: seq<Value> |
        MessageCode(data[..size], table, arg, vals) && AllTake(t, vals)
        ensures ParseTransfer(data, size, t).Ok?
      {
        AcceptedMessage(data, size, t, table, arg, vals);
      }
    }
  }

  lemma Shape(s: seq<byte>, table: seq<TypeEntry>, arg: nat, vals: seq<Value>)
    requires MessageCode(s, table, arg, vals)
    ensures arg < |table| && table[arg].Record? && Readable(table[arg].fields) && |vals| == |table[arg].fields|
  {
  }

  /** The record is what the message's values give, one after the other, and the message is used up. */
  lemma AcceptedMessage(data: seq<byte>, size: nat, t: Transfer, table: seq<TypeEntry>, arg: nat, vals: seq<Value>)
    requires size <= |data| && MessageCode(data[..size], table, arg, vals) && AllTake(t, vals)
    ensures arg < |table| && table[arg].Record? && Readable(table[arg].fields) && |vals| == |table[arg].fields|
    ensures ParseTransfer(data, size, t) == Ok(Fold(table[arg].fields, vals, t), size)
  {
    hide ParseTransfer, MessageCode, AllTake, Fold;
    Shape(data[..size], table, arg, vals);
    MessageReads(data[..size], table, arg, vals, data, t);
  }

  /** Bytes are at most one message: table, type number and what is listed are theirs. */
  lemma OneMessage(s: seq<byte>, table: seq<TypeEntry>, arg: nat, vals: seq<Value>,
                   table': seq<TypeEntry>, arg': nat, vals': seq<Value>, t: Transfer)
    requires MessageCode(s, table, arg, vals) && MessageCode(s, table', arg', vals')
    requires AllTake(t, vals) && AllTake(t, vals')
    ensures table == table' && arg == arg' && arg < |table| && table[arg].Record?
    ensures |vals| == |vals'| == |table[arg].fields|
    ensures forall k | 0 <= k < |vals| :: SameFor(table[arg].fields[k].hash, vals[k], vals'[k])
  {
    hide PreambleCode, ValuesCode, Decoded, ParseTransfer, ArgumentAt, AllTake;
    var d: nat :| MessageCut(s, table, arg, vals, d);
    var d': nat :| MessageCut(s, table', arg', vals', d');
    PreambleReads(s[..d], table, arg, s, |s|, t);
    PreambleReads(s[..d'], table', arg', s, |s|, t);
    DecodedOnce(s, table, arg, d, table', arg', d');
    OneListing(table[arg].fields, vals, vals', s[d..], t);
  }

  lemma DecodedOnce(data: seq<byte>, table: seq<TypeEntry>, arg: nat, d: nat,
                    table': seq<TypeEntry>, arg': nat, d': nat)
    requires Decoded(data, table, arg, d) && Decoded(data, table', arg', d')
    ensures table == table' && arg == arg' && d == d'
  {
    hide LebAt, TableFrom;
  }

  lemma {:induction false} OneListing(fields: seq<Field>, vals: seq<Value>, vals': seq<Value>, s: seq<byte>,
                                      t: Transfer)
    requires |fields| == |vals| == |vals'| && HashesOf(fields) <= HASHES && AllTake(t, vals) && AllTake(t, vals')
    requires ValuesCode(fields, vals, s) && ValuesCode(fields, vals', s)
    ensures forall k | 0 <= k < |fields| :: SameFor(fields[k].hash, vals[k], vals'[k])
    decreases |fields|
  {
    hide Encodes, ValidValue, SameFor;
    if fields != [] {
      var m: nat :| m <= |s| && Encodes(fields[0].hash, vals[0], s[..m]) && ValuesCode(fields[1..], vals[1..], s[m..]);
      var n: nat :|
        n <= |s| && Encodes(fields[0].hash, vals'[0], s[..n]) && ValuesCode(fields[1..], vals'[1..], s[n..]);
      FirstTakes(t, vals);
      FirstTakes(t, vals');
      assert fields[0] in fields && fields[0].hash in HashesOf(fields);
      CodeEndsItself(fields[0].hash, vals[0], vals'[0], s, m, n);
      RestOfHashes(fields);
      OneListing(fields[1..], vals[1..], vals'[1..], s[m..], t);
      forall k | 0 <= k < |fields| ensures SameFor(fields[k].hash, vals[k], vals'[k]) {
        if k > 0 { assert SameFor(fields[1..][k - 1].hash, vals[1..][k - 1], vals'[1..][k - 1]); }
      }
    }
  }

  lemma RestOfHashes(fields: seq<Field>)
    requires fields != []
    ensures HashesOf(fields[1..]) <= HashesOf(fields)
  {
  }

  // ---- One record.

  lemma {:induction false} SameListing(fields: seq<Field>, vals: seq<Value>, v: Value, s: seq<byte>)
    requires |fields| == |vals| && ValuesCode(fields, vals, s)
    requires forall k | 0 <= k < |fields| :: SameFor(fields[k].hash, v, vals[k])
    ensures ValuesCode(fields, Same(v, |fields|), s)
    decreases |fields|
  {
    hide Encodes, SameFor;
    if fields != [] {
      var n: nat :| n <= |s| && Encodes(fields[0].hash, vals[0], s[..n]) && ValuesCode(fields[1..], vals[1..], s[n..]);
      EncodesSame(fields[0].hash, v, vals[0], s[..n]);
      forall k | 0 <= k < |fields| - 1 ensures SameFor(fields[1..][k].hash, v, vals[1..][k]) {
        assert SameFor(fields[k + 1].hash, v, vals[k + 1]);
      }
      SameListing(fields[1..], vals[1..], v, s[n..]);
      assert Same(v, |fields|)[1..] == Same(v, |fields| - 1);
    }
  }

  lemma SameMessage(s: seq<byte>, table: seq<TypeEntry>, arg: nat, vals: seq<Value>, v: Value)
    requires MessageCode(s, table, arg, vals)
    requires var fields := table[arg].fields; forall k | 0 <= k < |fields| :: SameFor(fields[k].hash, v, vals[k])
    ensures MessageCode(s, table, arg, Same(v, |table[arg].fields|))
  {
    hide PreambleCode, ValuesCode, SameFor;
    var d: nat :| MessageCut(s, table, arg, vals, d);
    SameListing(table[arg].fields, vals, v, s[d..]);
    assert MessageCut(s, table, arg, Same(v, |table[arg].fields|), d);
  }

  /** When no field is listed twice, an accepted message is a message of one value, and the record is
      that value's, filled with the listed fields and zero in all others: the converse of the round
      trip, for padded codes as well. */
  lemma AcceptedRecord(data: seq<byte>, size: nat, token: bool, table: seq<TypeEntry>, arg: nat, vals: seq<Value>)
    returns (v: Value)
    requires var t := if token then ZERO_TOKEN else ZERO_COIN;
      size <= |data| && MessageCode(data[..size], table, arg, vals) && AllTake(t, vals)
    requires Distinct(table[arg].fields)
    ensures ValidValue(v) && v.TokenValue? == token
    ensures MessageCode(data[..size], table, arg, Same(v, |table[arg].fields|))
    ensures ParseTransfer(data, size, ZeroOf(v)) == Ok(Filled(v, HashesOf(table[arg].fields)), size)
  {
    hide ParseTransfer, MessageCode, Fold, ValidValue, Filled, Distinct, Readable, SameFor, Takes;
    var t := if token then ZERO_TOKEN else ZERO_COIN;
    Shape(data[..size], table, arg, vals);
    var fields, w := table[arg].fields, AnyValue(t);
    ZeroTakes(w, 0);
    AcceptedMessage(data, size, t, table, arg, vals);
    FieldsAreKnown(fields);
    v := FoldFills(fields, vals, w, {});
    assert {} + HashesOf(fields) == HashesOf(fields);
    SameMessage(data[..size], table, arg, vals, v);
  }

  lemma FieldsAreKnown(fields: seq<Field>)
    requires Readable(fields)
    ensures HashesOf(fields) <= HASHES
  {
  }

  // ---- Recipient and amount.

  /** The account, and the subaccount if there is one. */
  function Recipient(t: Transfer): (seq<byte>, Option<seq<byte>>) {
    if t.Coin? then (t.to, None) else (t.owner, if t.hasSub then Some(t.sub) else None)
  }

  /** Field k is the last one with this hash. */
  predicate IsLast(fields: seq<Field>, k: nat, hash: nat) {
    k < |fields| && fields[k].hash == hash && forall i | k < i < |fields| :: fields[i].hash != hash
  }

  lemma LastOf(fields: seq<Field>, hash: nat) returns (k: nat)
    requires hash in HashesOf(fields)
    ensures IsLast(fields, k, hash)
  {
    var f :| f in fields && f.hash == hash;
    var i :| 0 <= i < |fields| && fields[i] == f;
    k := i;
    for j := i + 1 to |fields|
      invariant i <= k < j && fields[k].hash == hash && forall m | k < m < j :: fields[m].hash != hash
    {
      if fields[j].hash == hash { k := j; }
    }
  }

  lemma {:induction false} FoldTakes(fields: seq<Field>, vals: seq<Value>, t: Transfer, more: seq<Value>)
    requires |fields| == |vals| && AllTake(t, vals) && AllTake(t, more)
    ensures AllTake(Fold(fields, vals, t), more) && Fold(fields, vals, t).Coin? == t.Coin?
    decreases |fields|
  {
    hide Apply, ValidValue;
    if fields != [] {
      FirstTakes(t, vals);
      var u := Apply(fields[0].hash, vals[0], t);
      StillTakes(t, u, vals[0], vals);
      AllStillTake(t, u, vals[0], more);
      FoldTakes(fields[1..], vals[1..], u, more);
    }
  }

  lemma AllStillTake(t: Transfer, u: Transfer, v: Value, more: seq<Value>)
    requires AllTake(t, more) && Takes(u, v) && u.Coin? == t.Coin?
    ensures AllTake(u, more)
  {
    hide ValidValue;
    forall w | w in more ensures ValidValue(w) && Takes(u, w) {
      assert ValidValue(w) && Takes(t, w);
    }
  }

  lemma PartsTake(vals: seq<Value>, t: Transfer, k: nat)
    requires AllTake(t, vals) && k <= |vals|
    ensures AllTake(t, vals[..k]) && AllTake(t, vals[k..])
  {
    hide ValidValue, Takes;
  }

  /** The values before field k, and then the rest. */
  lemma {:induction false} FoldSplits(fields: seq<Field>, vals: seq<Value>, t: Transfer, k: nat)
    requires |fields| == |vals| && AllTake(t, vals) && k <= |fields|
    ensures AllTake(t, vals[..k]) && AllTake(Fold(fields[..k], vals[..k], t), vals[k..])
    ensures Fold(fields, vals, t) == Fold(fields[k..], vals[k..], Fold(fields[..k], vals[..k], t))
    decreases k
  {
    hide Apply, AllTake;
    PartsTake(vals, t, k);
    FoldTakes(fields[..k], vals[..k], t, vals[k..]);
    if k == 0 {
      assert fields[0..] == fields && vals[0..] == vals;
    } else {
      FirstTakes(t, vals);
      var u := Apply(fields[0].hash, vals[0], t);
      StillTakes(t, u, vals[0], vals);
      FoldSplits(fields[1..], vals[1..], u, k - 1);
      assert fields[1..][..k - 1] == fields[..k][1..] && vals[1..][..k - 1] == vals[..k][1..];
      assert fields[1..][k - 1..] == fields[k..] && vals[1..][k - 1..] == vals[k..];
    }
  }

  /** Values under other hashes leave recipient and amount alone. */
  lemma {:induction false} FoldKeeps(fields: seq<Field>, vals: seq<Value>, t: Transfer)
    requires |fields| == |vals| && AllTake(t, vals)
    ensures (forall f <- fields :: f.hash != HASH_TO) ==> Recipient(Fold(fields, vals, t)) == Recipient(t)
    ensures (forall f <- fields :: f.hash != HASH_AMOUNT) ==> Fold(fields, vals, t).amount == t.amount
    decreases |fields|
  {
    hide Apply, AllTake, Recipient;
    if fields != [] {
      FirstTakes(t, vals);
      var u := Apply(fields[0].hash, vals[0], t);
      StillTakes(t, u, vals[0], vals);
      ApplyKeeps(fields[0].hash, vals[0], t);
      FoldKeeps(fields[1..], vals[1..], u);
      assert fields[0] in fields;
    }
  }

  lemma ApplyKeeps(hash: nat, v: Value, t: Transfer)
    requires ValidValue(v) && Takes(t, v)
    ensures hash != HASH_TO ==> Recipient(Apply(hash, v, t)) == Recipient(t)
    ensures if hash == HASH_AMOUNT then Apply(hash, v, t).amount == v.amount else Apply(hash, v, t).amount == t.amount
  {
    hide Over, OverOption;
  }

  predicate IsZero(b: seq<byte>) { b == Zeros(|b|) }

  /** Behind the bytes of v's account, and of its subaccount if it has one, the record holds zeros. */
  predicate NothingBehind(v: Value, t: Transfer)
    requires ValidValue(v) && Takes(t, v)
  {
    if t.Coin? then IsZero(t.to[|v.to|..])
    else IsZero(t.owner[|v.owner|..]) && (v.sub.Some? ==> IsZero(t.sub[|v.sub.value|..]))
  }

  lemma OverIsPad(b: seq<byte>, dest: seq<byte>)
    requires |b| <= |dest|
    ensures Over(b, dest) == Over(b, Zeros(|dest|)) <==> IsZero(dest[|b|..])
  {
    assert Over(b, dest)[|b|..] == dest[|b|..];
    assert Over(b, Zeros(|dest|))[|b|..] == Zeros(|dest|)[|b|..] == Zeros(|dest| - |b|);
  }

  lemma ZeroFits(v: Value, t: Transfer)
    requires Takes(t, v)
    ensures Takes(ZeroOf(v), v) && ZeroOf(v).Coin? == t.Coin?
  {
  }

  /** A listing gives the account it lists exactly if nothing is left behind it. */
  lemma ListingGives(v: Value, t: Transfer)
    requires ValidValue(v) && Takes(t, v) && Takes(ZeroOf(v), v)
    ensures Recipient(Apply(HASH_TO, v, t)) == Recipient(Apply(HASH_TO, v, ZeroOf(v))) <==> NothingBehind(v, t)
  {
    hide Over, IsZero;
    if t.Coin? {
      OverIsPad(v.to, t.to);
    } else {
      OverIsPad(v.owner, t.owner);
      if v.sub.Some? { OverIsPad(v.sub.value, t.sub); }
    }
  }

  /** The record's recipient is the one that the last listing of it says. */
  ghost predicate RecipientIsListed(fields: seq<Field>, vals: seq<Value>, u: Transfer)
    requires |fields| == |vals|
  {
    exists k: nat :: IsLast(fields, k, HASH_TO) && ZeroTakesValue(vals[k])
      && Recipient(u) == Recipient(Apply(HASH_TO, vals[k], ZeroOf(vals[k])))
  }

  predicate ZeroTakesValue(v: Value) { ValidValue(v) && Takes(ZeroOf(v), v) }

  ghost predicate AmountIsListed(fields: seq<Field>, vals: seq<Value>, u: Transfer)
    requires |fields| == |vals|
  {
    exists k: nat :: IsLast(fields, k, HASH_AMOUNT) && u.amount == vals[k].amount
  }

  // ---- What shows behind the last listing.

  function AccountOf(v: Value): seq<byte> { if v.CoinValue? then v.to else v.owner }
  function SubOf(v: Value): Option<seq<byte>> { if v.CoinValue? then None else v.sub }
  function AccountArray(t: Transfer): seq<byte> { if t.Coin? then t.to else t.owner }
  function SubArray(t: Transfer): seq<byte> { if t.Coin? then [] else t.sub }

  /** The accounts that are listed, field by field. */
  function Accounts(fields: seq<Field>, vals: seq<Value>): seq<Option<seq<byte>>>
    requires |fields| == |vals|
  {
    if fields == [] then []
    else [if fields[0].hash == HASH_TO then Some(AccountOf(vals[0])) else None] + Accounts(fields[1..], vals[1..])
  }

  function Subs(fields: seq<Field>, vals: seq<Value>): seq<Option<seq<byte>>>
    requires |fields| == |vals|
  {
    if fields == [] then []
    else [if fields[0].hash == HASH_TO then SubOf(vals[0]) else None] + Subs(fields[1..], vals[1..])
  }

  /** The byte at i of the last one listed that is longer than i; first if there is none. */
  function Showing(listed: seq<Option<seq<byte>>>, i: nat, first: byte): byte {
    if listed == [] then first
    else Showing(listed[1..], i, if listed[0].Some? && i < |listed[0].value| then listed[0].value[i] else first)
  }

  /** Nothing but zeros shows behind b, of what was listed before and of the starting array. */
  predicate ClearBehind(b: seq<byte>, listed: seq<Option<seq<byte>>>, start: seq<byte>) {
    forall i | |b| <= i < |start| :: Showing(listed, i, start[i]) == 0
  }

  /** The listing at field k has nothing showing behind its account, and behind its subaccount. */
  predicate ClearAt(fields: seq<Field>, vals: seq<Value>, t: Transfer, k: nat)
    requires |fields| == |vals| && k < |fields|
  {
    && ClearBehind(AccountOf(vals[k]), Accounts(fields[..k], vals[..k]), AccountArray(t))
    && (SubOf(vals[k]).Some? ==> ClearBehind(SubOf(vals[k]).value, Subs(fields[..k], vals[..k]), SubArray(t)))
  }

  lemma ApplyShows(hash: nat, v: Value, t: Transfer)
    requires ValidValue(v) && Takes(t, v)
    ensures var u := Apply(hash, v, t);
      && |AccountArray(u)| == |AccountArray(t)| && |SubArray(u)| == |SubArray(t)|
      && (forall i | 0 <= i < |AccountArray(t)| ::
            AccountArray(u)[i] == if hash == HASH_TO && i < |AccountOf(v)| then AccountOf(v)[i] else AccountArray(t)[i])
      && (forall i | 0 <= i < |SubArray(t)| ::
            SubArray(u)[i] == if hash == HASH_TO && SubOf(v).Some? && i < |SubOf(v).value| then SubOf(v).value[i]
                              else SubArray(t)[i])
  {
  }

  lemma {:induction false} FoldShows(fields: seq<Field>, vals: seq<Value>, t: Transfer)
    requires |fields| == |vals| && AllTake(t, vals)
    ensures var u := Fold(fields, vals, t);
      && |AccountArray(u)| == |AccountArray(t)| && |SubArray(u)| == |SubArray(t)|
      && (forall i | 0 <= i < |AccountArray(t)| ::
            AccountArray(u)[i] == Showing(Accounts(fields, vals), i, AccountArray(t)[i]))
      && (forall i | 0 <= i < |SubArray(t)| :: SubArray(u)[i] == Showing(Subs(fields, vals), i, SubArray(t)[i]))
    decreases |fields|
  {
    hide Apply, AllTake, AccountArray, SubArray, AccountOf, SubOf;
    if fields != [] {
      FirstTakes(t, vals);
      var u := Apply(fields[0].hash, vals[0], t);
      StillTakes(t, u, vals[0], vals);
      FoldStep(fields, vals, t);
      ApplyShows(fields[0].hash, vals[0], t);
      FoldShows(fields[1..], vals[1..], u);
    }
  }

  lemma ZerosBehind(dest: seq<byte>, n: nat)
    requires n <= |dest|
    ensures IsZero(dest[n..]) <==> forall i | n <= i < |dest| :: dest[i] == 0
  {
    if IsZero(dest[n..]) {
      forall i | n <= i < |dest| ensures dest[i] == 0 {
        assert dest[n..][i - n] == 0;
      }
    }
  }

  /** Listed values and starting record say what the record holds before field k. */
  lemma ClearIsNothingBehind(fields: seq<Field>, vals: seq<Value>, t: Transfer, before: Transfer, k: nat)
    requires |fields| == |vals| && k < |fields| && AllTake(t, vals[..k]) && before == Fold(fields[..k], vals[..k], t)
    requires ValidValue(vals[k]) && Takes(before, vals[k]) && Takes(t, vals[k])
    ensures ClearAt(fields, vals, t, k) <==> NothingBehind(vals[k], before)
  {
    hide Fold, Accounts, Subs, Showing, AllTake, IsZero;
    FoldShows(fields[..k], vals[..k], t);
    var v := vals[k];
    ZerosBehind(AccountArray(before), |AccountOf(v)|);
    if SubOf(v).Some? { ZerosBehind(SubArray(before), |SubOf(v).value|); }
  }

  lemma LastRecipient(fields: seq<Field>, vals: seq<Value>, t: Transfer, k: nat)
    requires |fields| == |vals| && AllTake(t, vals) && IsLast(fields, k, HASH_TO)
    ensures ZeroTakesValue(vals[k])
    ensures Recipient(Fold(fields, vals, t)) == Recipient(Apply(HASH_TO, vals[k], ZeroOf(vals[k])))
      <==> ClearAt(fields, vals, t, k)
  {
    hide Apply, AllTake, Recipient, NothingBehind, Fold, ValidValue, ClearAt;
    FoldSplits(fields, vals, t, k);
    var before, fs, vs := Fold(fields[..k], vals[..k], t), fields[k..], vals[k..];
    assert fs[0] == fields[k] && vs[0] == vals[k];
    FirstTakes(before, vs);
    PartsTake(vals, t, k);
    FirstTakes(t, vs);
    var u := Apply(HASH_TO, vs[0], before);
    StillTakes(before, u, vs[0], vs);
    FoldStep(fs, vs, before);
    FoldKeeps(fs[1..], vs[1..], u);
    ZeroFits(vs[0], before);
    ListingGives(vs[0], before);
    ClearIsNothingBehind(fields, vals, t, before, k);
  }

  lemma FoldStep(fields: seq<Field>, vals: seq<Value>, t: Transfer)
    requires |fields| == |vals| > 0 && AllTake(t, vals) && ValidValue(vals[0]) && Takes(t, vals[0])
    requires AllTake(Apply(fields[0].hash, vals[0], t), vals[1..])
    ensures Fold(fields, vals, t) == Fold(fields[1..], vals[1..], Apply(fields[0].hash, vals[0], t))
  {
    hide Apply;
  }

  lemma LastAmount(fields: seq<Field>, vals: seq<Value>, t: Transfer, k: nat)
    requires |fields| == |vals| && AllTake(t, vals) && IsLast(fields, k, HASH_AMOUNT)
    ensures Fold(fields, vals, t).amount == vals[k].amount
  {
    hide Apply, AllTake, Recipient, Fold, ValidValue;
    FoldSplits(fields, vals, t, k);
    var before, fs, vs := Fold(fields[..k], vals[..k], t), fields[k..], vals[k..];
    assert fs[0] == fields[k] && vs[0] == vals[k];
    FirstTakes(before, vs);
    var u := Apply(HASH_AMOUNT, vs[0], before);
    StillTakes(before, u, vs[0], vs);
    FoldStep(fs, vs, before);
    ApplyKeeps(HASH_AMOUNT, vs[0], before);
    FoldKeeps(fs[1..], vs[1..], u);
  }

  /** The recipient is listed, and nothing shows behind its last listing. */
  ghost predicate RecipientIsClear(fields: seq<Field>, vals: seq<Value>, t: Transfer)
    requires |fields| == |vals|
  {
    exists k: nat :: IsLast(fields, k, HASH_TO) && ClearAt(fields, vals, t, k)
  }

  /** The record of an accepted message says what its last listings say of recipient and amount exactly
      if both are listed and nothing shows behind the last recipient: no earlier listing is longer and
      has a byte other than 0 there. */
  lemma RecipientAndAmountExactly(data: seq<byte>, size: nat, t: Transfer, table: seq<TypeEntry>, arg: nat,
                                  vals: seq<Value>)
    requires size <= |data| && MessageCode(data[..size], table, arg, vals) && AllTake(t, vals)
    ensures ParseTransfer(data, size, t).Ok?
    ensures var fields, u := table[arg].fields, ParseTransfer(data, size, t).value;
      && (RecipientIsListed(fields, vals, u) <==> RecipientIsClear(fields, vals, t))
      && (AmountIsListed(fields, vals, u) <==> HASH_AMOUNT in HashesOf(fields))
  {
    hide AllTake, Fold, Recipient, Apply, ClearAt, ValidValue, Takes, IsLast, MessageCode, ParseTransfer, Readable;
    AcceptedMessage(data, size, t, table, arg, vals);
    var fields := table[arg].fields;
    forall k: nat | IsLast(fields, k, HASH_TO)
      ensures k < |fields| && ZeroTakesValue(vals[k])
      ensures Recipient(Fold(fields, vals, t)) == Recipient(Apply(HASH_TO, vals[k], ZeroOf(vals[k])))
        <==> ClearAt(fields, vals, t, k)
    {
      LastIsAField(fields, k, HASH_TO);
      LastRecipient(fields, vals, t, k);
    }
    forall k: nat | IsLast(fields, k, HASH_AMOUNT)
      ensures k < |fields| && fields[k].hash == HASH_AMOUNT && Fold(fields, vals, t).amount == vals[k].amount
    {
      LastIsAField(fields, k, HASH_AMOUNT);
      LastAmount(fields, vals, t, k);
    }
    if HASH_AMOUNT in HashesOf(fields) {
      var k := LastOf(fields, HASH_AMOUNT);
    }
  }

  lemma LastIsAField(fields: seq<Field>, k: nat, hash: nat)
    requires IsLast(fields, k, hash)
    ensures k < |fields| && fields[k].hash == hash && hash in HashesOf(fields)
  {
    assert fields[k] in fields;
  }

  // ---- Messages that say less than they seem to.

  /** One record type with these fields. */
  function OneType(fields: seq<Field>): seq<TypeEntry> { [Record(fields)] }

  lemma OneTypeIsValid(fields: seq<Field>)
    requires |fields| < U64 && forall f <- fields :: f.hash < U64 && IsInt64(f.fieldType)
    ensures ValidTable(OneType(fields))
  {
  }

  function TwiceTo(): seq<Field> {
    var to, amount := Field(HASH_TO, -19), Field(HASH_AMOUNT, -8);
    [to, to, amount, amount]
  }

  function CoinTo(to: seq<byte>, amount: nat): Value { CoinValue(to, amount, 0, 0, None, None) }

  function MixedValues(a: seq<byte>, amount: nat): seq<Value> {
    [CoinTo(a, amount), CoinTo([7], amount), CoinTo(a, amount), CoinTo(a, amount)]
  }

  /** The values give the account [7] + a[1..], which is in neither listing. */
  lemma MixedFold(a: seq<byte>, amount: nat)
    requires |a| == 32 && amount < U64
    ensures AllTake(ZERO_COIN, MixedValues(a, amount)) && |TwiceTo()| == 4
    ensures Fold(TwiceTo(), MixedValues(a, amount), ZERO_COIN)
      == Coin([7] + a[1..], amount, 0, 0, false, Zeros(32), false, 0)
  {
    var v, w := CoinTo(a, amount), CoinTo([7], amount);
    var vals, fields := MixedValues(a, amount), TwiceTo();
    assert AllTake(ZERO_COIN, vals) by { MixedTakes(a, amount); }
    var t1 := Coin(a, 0, 0, 0, false, Zeros(32), false, 0);
    assert Over(a, Zeros(32)) == a;
    assert Apply(HASH_TO, v, ZERO_COIN) == t1;
    var t2 := Coin([7] + a[1..], 0, 0, 0, false, Zeros(32), false, 0);
    assert Apply(HASH_TO, w, t1) == t2;
    var t3 := Coin([7] + a[1..], amount, 0, 0, false, Zeros(32), false, 0);
    assert Apply(HASH_AMOUNT, v, t2) == t3 && Apply(HASH_AMOUNT, v, t3) == t3;
    assert fields[1..][1..][1..][1..] == [];
  }

  lemma MixedTakes(a: seq<byte>, amount: nat)
    requires |a| == 32 && amount < U64
    ensures AllTake(ZERO_COIN, MixedValues(a, amount))
  {
  }

  /** The first listing shows behind the second, unless it goes on with zeros only. */
  lemma MixedShows(a: seq<byte>, amount: nat)
    requires |a| == 32
    ensures RecipientIsClear(TwiceTo(), MixedValues(a, amount), ZERO_COIN) <==> IsZero(a[1..])
  {
    hide IsZero;
    var fields, vals := TwiceTo(), MixedValues(a, amount);
    assert fields[..1] == [fields[0]] && vals[..1] == [vals[0]];
    assert [fields[0]][1..] == [] && [vals[0]][1..] == [];
    var listed := [Some(a)];
    assert Accounts(fields[..1], vals[..1]) == listed;
    assert listed[1..] == [];
    forall i | 0 <= i < 32 ensures Showing(listed, i, Zeros(32)[i]) == a[i] {
      assert Showing(listed, i, Zeros(32)[i]) == Showing(listed[1..], i, a[i]);
    }
    ZerosBehind(a, 1);
    assert ClearBehind([7], listed, Zeros(32)) <==> IsZero(a[1..]);
    assert ClearAt(fields, vals, ZERO_COIN, 1) <==> IsZero(a[1..]);
    assert IsLast(fields, 1, HASH_TO);
    assert forall k: nat | IsLast(fields, k, HASH_TO) :: k == 1;
  }

  /** A recipient listed twice: the accepted account is a mixture of both. */
  lemma MixedRecipient(a: seq<byte>, amount: nat)
    requires |a| == 32 && amount < U64
    ensures RecipientIsClear(TwiceTo(), MixedValues(a, amount), ZERO_COIN) <==> IsZero(a[1..])
    ensures var m := Preamble(OneType(TwiceTo()), 0) + ListedBytes(TwiceTo(), MixedValues(a, amount));
      ParseTransfer(m, |m|, ZERO_COIN) == Ok(Coin([7] + a[1..], amount, 0, 0, false, Zeros(32), false, 0), |m|)
  {
    hide ParseTransfer, Preamble, ListedBytes, Fold, AllTake, RecipientIsClear, IsZero;
    MixedFold(a, amount);
    MixedShows(a, amount);
    ListedIsParsed(TwiceTo(), MixedValues(a, amount), ZERO_COIN);
  }

  lemma ListedIsParsed(fields: seq<Field>, vals: seq<Value>, t: Transfer)
    requires Readable(fields) && |vals| == |fields| && AllTake(t, vals) && forall f <- fields :: IsInt64(f.fieldType)
    ensures var m := Preamble(OneType(fields), 0) + ListedBytes(fields, vals);
      ParseTransfer(m, |m|, t) == Ok(Fold(fields, vals, t), |m|)
  {
    hide ParseTransfer, Preamble, ListedBytes, Fold, AllTake;
    forall f | f in fields ensures f.hash < U64 {
      assert f.hash in HashesOf(fields);
    }
    OneTypeIsValid(fields);
    ListedRoundTrip(OneType(fields), 0, vals, [], t);
    var m := Preamble(OneType(fields), 0) + ListedBytes(fields, vals);
    assert m + [] == m;
  }

  function FourAmounts(): seq<Field> {
    var amount := Field(HASH_AMOUNT, -8);
    [amount, amount, amount, amount]
  }

  /** Four amounts and no recipient: accepted with the all-zero account. */
  lemma AmountsAloneAreAccepted(amount: nat)
    requires amount < U64
    ensures var m := Preamble(OneType(FourAmounts()), 0) + ListedBytes(FourAmounts(), Same(CoinTo([0], amount), 4));
      ParseTransfer(m, |m|, ZERO_COIN) == Ok(Coin(Zeros(32), amount, 0, 0, false, Zeros(32), false, 0), |m|)
  {
    hide ParseTransfer, Preamble, ListedBytes;
    var v := CoinTo([0], amount);
    var t := Coin(Zeros(32), amount, 0, 0, false, Zeros(32), false, 0);
    assert Apply(HASH_AMOUNT, v, ZERO_COIN) == t && Apply(HASH_AMOUNT, v, t) == t;
    assert Same(v, 4) == [v, v, v, v];
    assert FourAmounts()[1..][1..][1..][1..] == [];
    ListedIsParsed(FourAmounts(), Same(v, 4), ZERO_COIN);
  }
}
