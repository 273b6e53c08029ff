/** The values of a transfer argument: how they are encoded, and what one does to the record. */
module CandidValues {
  import opened Bytes
  import opened Leb128
  import opened Candid

  /** What is encoded: lengths are free within the sizes of the parsed record's arrays. */
  datatype Value =
    | CoinValue(to: seq<byte>, amount: nat, coinFee: nat, coinMemo: nat,
                from: Option<seq<byte>>, created: Option<nat>)
    | TokenValue(owner: seq<byte>, sub: Option<seq<byte>>, amount: nat, fee: Option<nat>,
                 memo: Option<seq<byte>>, from: Option<seq<byte>>, created: Option<nat>)

  predicate FitsArray(b: seq<byte>, n: nat) { 0 < |b| <= n }
  predicate FitsOption(b: Option<seq<byte>>, n: nat) { b.Some? ==> FitsArray(b.value, n) }
  predicate FitsU64(v: Option<nat>) { v.Some? ==> v.value < U64 }

  predicate ValidValue(v: Value) {
    && v.amount < U64 && FitsOption(v.from, 32) && FitsU64(v.created)
    && (v.CoinValue? ==> FitsArray(v.to, 32) && v.coinFee < U64 && v.coinMemo < U64)
    && (v.TokenValue? ==> FitsArray(v.owner, 29) && FitsOption(v.sub, 32) && FitsU64(v.fee) && FitsOption(v.memo, 256))
  }

  // ---- The encoder.

  function Vec(b: seq<byte>): seq<byte> { Leb(|b|) + b }

  function OptVec(b: Option<seq<byte>>): seq<byte> {
    if b.None? then [0] else [1] + Vec(b.value)
  }

  function FieldBytes(hash: nat, v: Value): seq<byte> {
    if hash == HASH_TO then
      (if v.CoinValue? then Vec(v.to) else [1] + Vec(v.owner) + OptVec(v.sub))
    else if hash == HASH_AMOUNT then
      (if v.CoinValue? then LE(v.amount, 8) else Leb(v.amount))
    else if hash == HASH_FEE then
      (if v.CoinValue? then LE(v.coinFee, 8) else if v.fee.None? then [0] else [1] + Leb(v.fee.value))
    else if hash == HASH_MEMO then
      (if v.CoinValue? then LE(v.coinMemo, 8) else OptVec(v.memo))
    else if hash == HASH_FROM then OptVec(v.from)
    else if v.created.None? then [0] else [1] + LE(v.created.value, 8)
  }

  const HASHES := {HASH_TO, HASH_AMOUNT, HASH_FEE, HASH_MEMO, HASH_FROM, HASH_CREATED}

  // ---- The record that values give.

  function Pad(b: seq<byte>, n: nat): (r: seq<byte>)
    requires |b| <= n
    ensures |r| == n
  {
    b + Zeros(n - |b|)
  }

  function PadOption(b: Option<seq<byte>>, n: nat): (r: seq<byte>)
    requires FitsOption(b, n)
    ensures |r| == n
  {
    if b.Some? then Pad(b.value, n) else Zeros(n)
  }

  function OrZero(n: Option<nat>): nat { if n.Some? then n.value else 0 }

  /** The record with the fields in s filled in and all others still zero. */
  function Filled(v: Value, s: set<nat>): Transfer
    requires ValidValue(v)
  {
    var from := if HASH_FROM in s then v.from else None;
    var created := if HASH_CREATED in s then v.created else None;
    if v.CoinValue? then
      Coin(if HASH_TO in s then Pad(v.to, 32) else Zeros(32), if HASH_AMOUNT in s then v.amount else 0,
           if HASH_FEE in s then v.coinFee else 0, if HASH_MEMO in s then v.coinMemo else 0,
           from.Some?, PadOption(from, 32), created.Some?, OrZero(created))
    else
      var sub := if HASH_TO in s then v.sub else None;
      var fee := if HASH_FEE in s then v.fee else None;
      var memo := if HASH_MEMO in s then v.memo else None;
      Token(if HASH_TO in s then Pad(v.owner, 29) else Zeros(29), sub.Some?, PadOption(sub, 32),
            if HASH_AMOUNT in s then v.amount else 0, fee.Some?, OrZero(fee),
            memo.Some?, PadOption(memo, 256), if memo.Some? then |memo.value| else 0,
            from.Some?, PadOption(from, 32), created.Some?, OrZero(created))
  }

  function ZeroOf(v: Value): (t: Transfer)
    ensures Takes(t, v)
  {
    if v.CoinValue? then ZERO_COIN else ZERO_TOKEN
  }

  /** The front of an array is written over. */
  function Over(b: seq<byte>, dest: seq<byte>): (r: seq<byte>)
    requires |b| <= |dest|
    ensures |r| == |dest|
  {
    b + dest[|b|..]
  }

  function OverOption(b: Option<seq<byte>>, dest: seq<byte>): (r: seq<byte>)
    requires b.Some? ==> |b.value| <= |dest|
    ensures |r| == |dest|
  {
    if b.Some? then Over(b.value, dest) else dest
  }

  function OrElse(n: Option<nat>, otherwise: nat): nat { if n.Some? then n.value else otherwise }

  /** Coin or token, with arrays of their declared sizes. */
  predicate Takes(t: Transfer, v: Value) {
    if t.Coin? then v.CoinValue? && |t.to| == 32 && |t.from| == 32
    else v.TokenValue? && |t.owner| == 29 && |t.sub| == 32 && |t.memo| == 256 && |t.from| == 32
  }

  /** What v, listed under hash, does to the record. */
  function Apply(hash: nat, v: Value, t: Transfer): (u: Transfer)
    requires ValidValue(v) && Takes(t, v)
    ensures Takes(u, v) && u.Coin? == t.Coin?
  {
    if hash == HASH_TO then
      if t.Coin? then t.(to := Over(v.to, t.to))
      else t.(owner := Over(v.owner, t.owner), hasSub := v.sub.Some?, sub := OverOption(v.sub, t.sub))
    else if hash == HASH_AMOUNT then t.(amount := v.amount)
    else if hash == HASH_FEE then
      if t.Coin? then t.(coinFee := v.coinFee) else t.(hasFee := v.fee.Some?, fee := OrElse(v.fee, t.fee))
    else if hash == HASH_MEMO then
      if t.Coin? then t.(coinMemo := v.coinMemo)
      else if v.memo.None? then t
      else t.(hasMemo := true, memo := Over(v.memo.value, t.memo), memoSize := |v.memo.value|)
    else if hash == HASH_FROM then
      if v.from.None? then t else t.(hasFrom := true, from := Over(v.from.value, t.from))
    else if v.created.None? then t
    else t.(hasCreated := true, created := v.created.value)
  }

  /** Values that a record of t's kind can take. */
  predicate AllTake(t: Transfer, vals: seq<Value>) {
    forall v <- vals :: ValidValue(v) && Takes(t, v)
  }

  /** One value after the other, each under its field's hash. */
  function Fold(fields: seq<Field>, vals: seq<Value>, t: Transfer): (u: Transfer)
    requires |fields| == |vals| && AllTake(t, vals)
    decreases |fields|
  {
    if fields == [] then t
    else
      var u := Apply(fields[0].hash, vals[0], t);
      StillTakes(t, u, vals[0], vals);
      Fold(fields[1..], vals[1..], u)
  }

  lemma StillTakes(t: Transfer, u: Transfer, v: Value, vals: seq<Value>)
    requires vals != [] && v == vals[0] && AllTake(t, vals) && Takes(u, v) && u.Coin? == t.Coin?
    ensures AllTake(u, vals[1..])
  {
    hide ValidValue;
    forall w | w in vals[1..] ensures ValidValue(w) && Takes(u, w) {
      assert w in vals;
    }
  }

  function AnyValue(t: Transfer): (v: Value)
    ensures ValidValue(v) && v.CoinValue? == t.Coin?
  {
    if t.Coin? then CoinValue([0], 0, 0, 0, None, None) else TokenValue([0], None, 0, None, None, None, None)
  }
}
