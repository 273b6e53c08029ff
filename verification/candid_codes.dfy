/** All bytes that a reader takes for a value: numbers may be padded, flags may be any byte but 0. */
module CandidCodes {
  import opened Bytes
  import opened Leb128
  import opened Candid
  import opened CandidValues

  // ---- What the bytes of a value are.

  /** A length and that many bytes. */
  predicate VecCode(s: seq<byte>, b: seq<byte>) {
    |b| <= |s| && LebCode(s[..|s| - |b|], |b|) && s[|s| - |b|..] == b
  }

  predicate OptVecCode(s: seq<byte>, b: Option<seq<byte>>) {
    if b.None? then s == [0] else s != [] && s[0] != 0 && VecCode(s[1..], b.value)
  }

  predicate U64Code(s: seq<byte>, v: nat) { |s| == 8 && FromLE(s) == v }

  /** An account of n - 1 bytes with its length, then perhaps a subaccount. */
  predicate TokenTo(s: seq<byte>, n: nat, v: Value)
    requires v.TokenValue?
  {
    1 <= n <= |s| && s[0] != 0 && VecCode(s[1..n], v.owner) && OptVecCode(s[n..], v.sub)
  }

  /** s encodes what v holds under hash. */
  ghost predicate Encodes(hash: nat, v: Value, s: seq<byte>) {
    if hash == HASH_TO then
      if v.CoinValue? then VecCode(s, v.to) else exists n: nat :: TokenTo(s, n, v)
    else if hash == HASH_AMOUNT then
      if v.CoinValue? then U64Code(s, v.amount) else LebCode(s, v.amount)
    else if hash == HASH_FEE then
      if v.CoinValue? then U64Code(s, v.coinFee)
      else if v.fee.None? then s == [0]
      else s != [] && s[0] != 0 && LebCode(s[1..], v.fee.value)
    else if hash == HASH_MEMO then
      if v.CoinValue? then U64Code(s, v.coinMemo) else OptVecCode(s, v.memo)
    else if hash == HASH_FROM then OptVecCode(s, v.from)
    else if v.created.None? then s == [0]
    else s != [] && s[0] != 0 && U64Code(s[1..], v.created.value)
  }

  /** v and w hold the same under hash. */
  predicate SameFor(hash: nat, v: Value, w: Value) {
    v.CoinValue? == w.CoinValue? &&
    if hash == HASH_TO then
      (if v.CoinValue? then v.to == w.to else v.owner == w.owner && v.sub == w.sub)
    else if hash == HASH_AMOUNT then v.amount == w.amount
    else if hash == HASH_FEE then (if v.CoinValue? then v.coinFee == w.coinFee else v.fee == w.fee)
    else if hash == HASH_MEMO then (if v.CoinValue? then v.coinMemo == w.coinMemo else v.memo == w.memo)
    else if hash == HASH_FROM then v.from == w.from
    else v.created == w.created
  }

  lemma EncodesSame(hash: nat, v: Value, w: Value, s: seq<byte>)
    requires SameFor(hash, v, w) && Encodes(hash, w, s)
    ensures Encodes(hash, v, s)
  {
    hide VecCode, OptVecCode, U64Code, LebCode;
    if hash == HASH_TO && w.TokenValue? {
      var n: nat :| TokenTo(s, n, w);
      assert TokenTo(s, n, v);
    }
  }

  // ---- They are read where they stand.

  lemma U64Reads(data: seq<byte>, offset: nat, s: seq<byte>, v: nat)
    requires U64Code(s, v) && Has(data, offset, s)
    ensures U64At(data, offset) == Ok(v, offset + 8)
  {
  }

  lemma VecReads(data: seq<byte>, offset: nat, s: seq<byte>, b: seq<byte>, dest: seq<byte>)
    requires VecCode(s, b) && FitsArray(b, |dest|) && Has(data, offset, s)
    ensures FilledVecAt(data, offset, dest) == Ok((Over(b, dest), |b|), offset + |s|)
  {
    hide LebAt, Groups, Span;
    var n := |s| - |b|;
    HasPiece(data, offset, s, 0, n);
    HasPiece(data, offset, s, n, |s|);
    CodeStands(data, offset, s[..n]);
    assert s[0..n] == s[..n] && s[n..|s|] == b;
  }

  lemma OptVecReads(data: seq<byte>, offset: nat, s: seq<byte>, b: Option<seq<byte>>, dest: seq<byte>)
    requires OptVecCode(s, b) && FitsOption(b, |dest|) && Has(data, offset, s)
    ensures s != [] && ByteAt(data, offset) == Ok(s[0], offset + 1) && (s[0] == 0 <==> b.None?)
    ensures b.Some? ==> FilledVecAt(data, offset + 1, dest) == Ok((Over(b.value, dest), |b.value|), offset + |s|)
    ensures b.None? ==> |s| == 1
  {
    hide FilledVecAt, VecCode, Over;
    HasPiece(data, offset, s, 0, 1);
    if b.Some? {
      HasPiece(data, offset, s, 1, |s|);
      assert s[1..|s|] == s[1..];
      VecReads(data, offset + 1, s[1..], b.value, dest);
    }
  }

  lemma RecipientReads(data: seq<byte>, offset: nat, s: seq<byte>, v: Value, t: Transfer)
    requires ValidValue(v) && Takes(t, v) && Encodes(HASH_TO, v, s) && Has(data, offset, s)
    ensures RecipientAt(data, offset, t) == Ok(Apply(HASH_TO, v, t), offset + |s|)
  {
    hide FilledVecAt, VecCode, OptVecCode, Over;
    if v.CoinValue? {
      VecReads(data, offset, s, v.to, t.to);
    } else {
      var n: nat :| TokenTo(s, n, v);
      HasPiece(data, offset, s, 0, 1);
      HasPiece(data, offset, s, 1, n);
      HasPiece(data, offset, s, n, |s|);
      assert s[n..|s|] == s[n..];
      VecReads(data, offset + 1, s[1..n], v.owner, t.owner);
      OptVecReads(data, offset + n, s[n..], v.sub, t.sub);
    }
  }

  lemma AmountReads(data: seq<byte>, offset: nat, s: seq<byte>, v: Value, t: Transfer)
    requires ValidValue(v) && Takes(t, v) && Encodes(HASH_AMOUNT, v, s) && Has(data, offset, s)
    ensures AmountAt(data, offset, t) == Ok(Apply(HASH_AMOUNT, v, t), offset + |s|)
  {
    hide LebAt, U64At, Groups, Span, U64Code;
    if v.CoinValue? { U64Reads(data, offset, s, v.amount); U64Size(s, v.amount); } else { CodeStands(data, offset, s); }
  }

  lemma U64Size(s: seq<byte>, v: nat)
    requires U64Code(s, v)
    ensures |s| == 8
  {
  }

  lemma FeeReads(data: seq<byte>, offset: nat, s: seq<byte>, v: Value, t: Transfer)
    requires ValidValue(v) && Takes(t, v) && Encodes(HASH_FEE, v, s) && Has(data, offset, s)
    ensures FeeAt(data, offset, t) == Ok(Apply(HASH_FEE, v, t), offset + |s|)
  {
    hide LebAt, U64At, Groups, Span, U64Code;
    if v.CoinValue? {
      U64Reads(data, offset, s, v.coinFee);
      U64Size(s, v.coinFee);
    } else {
      HasPiece(data, offset, s, 0, 1);
      if v.fee.Some? {
        HasPiece(data, offset, s, 1, |s|);
        assert s[1..|s|] == s[1..];
        CodeStands(data, offset + 1, s[1..]);
      }
    }
  }

  lemma MemoReads(data: seq<byte>, offset: nat, s: seq<byte>, v: Value, t: Transfer)
    requires ValidValue(v) && Takes(t, v) && Encodes(HASH_MEMO, v, s) && Has(data, offset, s)
    ensures MemoAt(data, offset, t) == Ok(Apply(HASH_MEMO, v, t), offset + |s|)
  {
    hide FilledVecAt, U64At, U64Code, OptVecCode, Over;
    if v.CoinValue? {
      U64Reads(data, offset, s, v.coinMemo);
      U64Size(s, v.coinMemo);
    } else {
      OptVecReads(data, offset, s, v.memo, t.memo);
    }
  }

  lemma FromReads(data: seq<byte>, offset: nat, s: seq<byte>, v: Value, t: Transfer)
    requires ValidValue(v) && Takes(t, v) && Encodes(HASH_FROM, v, s) && Has(data, offset, s)
    ensures FromAt(data, offset, t) == Ok(Apply(HASH_FROM, v, t), offset + |s|)
  {
    hide FilledVecAt, OptVecCode, Over;
    OptVecReads(data, offset, s, v.from, t.from);
  }

  lemma CreatedReads(data: seq<byte>, offset: nat, s: seq<byte>, v: Value, t: Transfer)
    requires ValidValue(v) && Takes(t, v) && Encodes(HASH_CREATED, v, s) && Has(data, offset, s)
    ensures CreatedAt(data, offset, t) == Ok(Apply(HASH_CREATED, v, t), offset + |s|)
  {
    hide U64At, U64Code;
    HasPiece(data, offset, s, 0, 1);
    if v.created.Some? {
      HasPiece(data, offset, s, 1, |s|);
      assert s[1..|s|] == s[1..];
      U64Reads(data, offset + 1, s[1..], v.created.value);
      U64Size(s[1..], v.created.value);
    }
  }

  lemma ValueReads(hash: nat, data: seq<byte>, offset: nat, s: seq<byte>, v: Value, t: Transfer)
    requires ValidValue(v) && Takes(t, v) && hash in HASHES && Encodes(hash, v, s) && Has(data, offset, s)
    ensures ValueAt(hash, data, offset, t) == Ok(Apply(hash, v, t), offset + |s|)
  {
    hide Apply, Encodes, Has, RecipientAt, CreatedAt, AmountAt, FeeAt, MemoAt, FromAt;
    if hash == HASH_TO { RecipientReads(data, offset, s, v, t); }
    else if hash == HASH_AMOUNT { AmountReads(data, offset, s, v, t); }
    else if hash == HASH_FEE { FeeReads(data, offset, s, v, t); }
    else if hash == HASH_MEMO { MemoReads(data, offset, s, v, t); }
    else if hash == HASH_FROM { FromReads(data, offset, s, v, t); }
    else { CreatedReads(data, offset, s, v, t); }
  }

  // ---- And whatever is read was such a code.

  lemma U64Gives(data: seq<byte>, offset: nat)
    requires U64At(data, offset).Ok?
    ensures offset + 8 <= |data| && U64At(data, offset).next == offset + 8 && U64At(data, offset).value < U64
    ensures U64Code(data[offset..offset + 8], U64At(data, offset).value)
  {
    FromLEBound(data[offset..offset + 8]);
    Pow256Eight();
  }

  lemma VecGives(data: seq<byte>, offset: nat, dest: seq<byte>) returns (b: seq<byte>)
    requires FilledVecAt(data, offset, dest).Ok?
    ensures FitsArray(b, |dest|) && FilledVecAt(data, offset, dest).value == (Over(b, dest), |b|)
    ensures offset < FilledVecAt(data, offset, dest).next <= |data|
    ensures VecCode(data[offset..FilledVecAt(data, offset, dest).next], b)
  {
    hide LebAt, LebCode;
    var n := LebAt(data, offset);
    LebIsCode(data, offset);
    b := data[n.next..n.next + n.value];
    var s := data[offset..n.next + n.value];
    assert s[..|s| - |b|] == data[offset..n.next] && s[|s| - |b|..] == b;
  }

  lemma OptVecGives(data: seq<byte>, offset: nat, dest: seq<byte>) returns (b: Option<seq<byte>>, next: nat)
    requires offset < |data| && (data[offset] != 0 ==> FilledVecAt(data, offset + 1, dest).Ok?)
    ensures FitsOption(b, |dest|) && (b.None? <==> data[offset] == 0)
    ensures b.Some? ==> FilledVecAt(data, offset + 1, dest) == Ok((Over(b.value, dest), |b.value|), next)
    ensures b.None? ==> next == offset + 1
    ensures offset < next <= |data| && OptVecCode(data[offset..next], b)
  {
    hide FilledVecAt, VecCode, Over;
    if data[offset] == 0 {
      b, next := None, offset + 1;
    } else {
      var v := VecGives(data, offset + 1, dest);
      b, next := Some(v), FilledVecAt(data, offset + 1, dest).next;
      assert data[offset..next][1..] == data[offset + 1..next];
    }
  }

  lemma RecipientGives(data: seq<byte>, offset: nat, t: Transfer) returns (v: Value)
    requires RecipientAt(data, offset, t).Ok? && Takes(t, AnyValue(t))
    ensures ValidValue(v) && Takes(t, v) && RecipientAt(data, offset, t).value == Apply(HASH_TO, v, t)
    ensures offset < RecipientAt(data, offset, t).next <= |data|
    ensures Encodes(HASH_TO, v, data[offset..RecipientAt(data, offset, t).next])
  {
    hide FilledVecAt, VecCode, OptVecCode, Over;
    if t.Coin? {
      var to := VecGives(data, offset, t.to);
      v := CoinValue(to, 0, 0, 0, None, None);
    } else {
      var owner := VecGives(data, offset + 1, t.owner);
      var o1 := FilledVecAt(data, offset + 1, t.owner).next;
      var sub, next := OptVecGives(data, o1, t.sub);
      v := TokenValue(owner, sub, 0, None, None, None, None);
      var s, n := data[offset..next], o1 - offset;
      assert s[1..n] == data[offset + 1..o1] && s[n..] == data[o1..next] && s[0] == data[offset];
      assert TokenTo(s, n, v);
    }
  }

  lemma AmountGives(data: seq<byte>, offset: nat, t: Transfer) returns (v: Value)
    requires AmountAt(data, offset, t).Ok? && Takes(t, AnyValue(t))
    ensures ValidValue(v) && Takes(t, v) && AmountAt(data, offset, t).value == Apply(HASH_AMOUNT, v, t)
    ensures offset < AmountAt(data, offset, t).next <= |data|
    ensures Encodes(HASH_AMOUNT, v, data[offset..AmountAt(data, offset, t).next])
  {
    hide LebAt, U64At, U64Code, LebCode;
    if t.Coin? {
      U64Gives(data, offset);
      v := CoinValue([0], U64At(data, offset).value, 0, 0, None, None);
    } else {
      LebIsCode(data, offset);
      v := TokenValue([0], None, LebAt(data, offset).value, None, None, None, None);
    }
  }

  lemma FeeGives(data: seq<byte>, offset: nat, t: Transfer) returns (v: Value)
    requires FeeAt(data, offset, t).Ok? && Takes(t, AnyValue(t))
    ensures ValidValue(v) && Takes(t, v) && FeeAt(data, offset, t).value == Apply(HASH_FEE, v, t)
    ensures offset < FeeAt(data, offset, t).next <= |data|
    ensures Encodes(HASH_FEE, v, data[offset..FeeAt(data, offset, t).next])
  {
    hide LebAt, U64At, U64Code, LebCode;
    if t.Coin? {
      U64Gives(data, offset);
      v := CoinValue([0], 0, U64At(data, offset).value, 0, None, None);
    } else if data[offset] == 0 {
      v := TokenValue([0], None, 0, None, None, None, None);
    } else {
      LebIsCode(data, offset + 1);
      var r := LebAt(data, offset + 1);
      v := TokenValue([0], None, 0, Some(r.value), None, None, None);
      assert data[offset..r.next][1..] == data[offset + 1..r.next];
    }
  }

  lemma MemoGives(data: seq<byte>, offset: nat, t: Transfer) returns (v: Value)
    requires MemoAt(data, offset, t).Ok? && Takes(t, AnyValue(t))
    ensures ValidValue(v) && Takes(t, v) && MemoAt(data, offset, t).value == Apply(HASH_MEMO, v, t)
    ensures offset < MemoAt(data, offset, t).next <= |data|
    ensures Encodes(HASH_MEMO, v, data[offset..MemoAt(data, offset, t).next])
  {
    hide FilledVecAt, U64At, U64Code, OptVecCode, Over;
    if t.Coin? {
      U64Gives(data, offset);
      v := CoinValue([0], 0, 0, U64At(data, offset).value, None, None);
    } else {
      var memo, next := OptVecGives(data, offset, t.memo);
      v := TokenValue([0], None, 0, None, memo, None, None);
    }
  }

  lemma FromGives(data: seq<byte>, offset: nat, t: Transfer) returns (v: Value)
    requires FromAt(data, offset, t).Ok? && Takes(t, AnyValue(t))
    ensures ValidValue(v) && Takes(t, v) && FromAt(data, offset, t).value == Apply(HASH_FROM, v, t)
    ensures offset < FromAt(data, offset, t).next <= |data|
    ensures Encodes(HASH_FROM, v, data[offset..FromAt(data, offset, t).next])
  {
    hide FilledVecAt, OptVecCode, Over;
    var from, next := OptVecGives(data, offset, t.from);
    v := if t.Coin? then CoinValue([0], 0, 0, 0, from, None) else TokenValue([0], None, 0, None, None, from, None);
  }

  lemma CreatedGives(data: seq<byte>, offset: nat, t: Transfer) returns (v: Value)
    requires CreatedAt(data, offset, t).Ok? && Takes(t, AnyValue(t))
    ensures ValidValue(v) && Takes(t, v) && CreatedAt(data, offset, t).value == Apply(HASH_CREATED, v, t)
    ensures offset < CreatedAt(data, offset, t).next <= |data|
    ensures Encodes(HASH_CREATED, v, data[offset..CreatedAt(data, offset, t).next])
  {
    hide U64At, U64Code;
    var created: Option<nat> := None;
    if data[offset] != 0 {
      U64Gives(data, offset + 1);
      created := Some(U64At(data, offset + 1).value);
      assert data[offset..offset + 9][1..] == data[offset + 1..offset + 9];
    }
    v := if t.Coin? then CoinValue([0], 0, 0, 0, None, created)
         else TokenValue([0], None, 0, None, None, None, created);
  }

  /** An accepting reader has read a code of a value, and the record is what the value makes of it. */
  lemma ValueGives(hash: nat, data: seq<byte>, offset: nat, t: Transfer) returns (v: Value)
    requires ValueAt(hash, data, offset, t).Ok? && Takes(t, AnyValue(t))
    ensures hash in HASHES && ValidValue(v) && Takes(t, v)
    ensures ValueAt(hash, data, offset, t).value == Apply(hash, v, t)
    ensures offset < ValueAt(hash, data, offset, t).next <= |data|
    ensures Encodes(hash, v, data[offset..ValueAt(hash, data, offset, t).next])
  {
    hide Apply, Encodes, RecipientAt, CreatedAt, AmountAt, FeeAt, MemoAt, FromAt;
    if hash == HASH_TO { v := RecipientGives(data, offset, t); }
    else if hash == HASH_AMOUNT { v := AmountGives(data, offset, t); }
    else if hash == HASH_FEE { v := FeeGives(data, offset, t); }
    else if hash == HASH_MEMO { v := MemoGives(data, offset, t); }
    else if hash == HASH_FROM { v := FromGives(data, offset, t); }
    else { v := CreatedGives(data, offset, t); }
  }

  // ---- The encoder writes such codes.

  lemma VecIsCode(b: seq<byte>)
    requires |b| < U64
    ensures VecCode(Vec(b), b)
  {
    hide Leb, LebCode;
    ShortestLeb(|b|);
    var s := Vec(b);
    assert s[..|s| - |b|] == Leb(|b|) && s[|s| - |b|..] == b;
  }

  lemma OptVecIsCode(b: Option<seq<byte>>)
    requires b.Some? ==> |b.value| < U64
    ensures OptVecCode(OptVec(b), b)
  {
    hide VecCode, Vec;
    if b.Some? {
      VecIsCode(b.value);
      assert OptVec(b)[1..] == Vec(b.value);
    }
  }

  lemma LEIsCode(v: nat)
    requires v < U64
    ensures U64Code(LE(v, 8), v)
  {
    Pow256Eight();
    FromLERoundTrip(v, 8);
  }

  lemma WrittenIsCode(hash: nat, v: Value)
    requires ValidValue(v)
    ensures Encodes(hash, v, FieldBytes(hash, v))
  {
    hide VecCode, Vec, OptVec, OptVecCode, LE, U64Code, Leb, LebCode;
    OptVecIsCode(v.from);
    if v.created.Some? {
      LEIsCode(v.created.value);
      assert ([1] + LE(v.created.value, 8))[1..] == LE(v.created.value, 8);
    }
    if v.CoinValue? {
      VecIsCode(v.to);
      LEIsCode(v.amount);
      LEIsCode(v.coinFee);
      LEIsCode(v.coinMemo);
    } else {
      ShortestLeb(v.amount);
      OptVecIsCode(v.memo);
      TokenToIsCode(v);
      if v.fee.Some? {
        ShortestLeb(v.fee.value);
        assert ([1] + Leb(v.fee.value))[1..] == Leb(v.fee.value);
      }
    }
  }

  lemma TokenToIsCode(v: Value)
    requires ValidValue(v) && v.TokenValue?
    ensures TokenTo([1] + Vec(v.owner) + OptVec(v.sub), 1 + |Vec(v.owner)|, v)
  {
    hide VecCode, Vec, OptVec, OptVecCode;
    VecIsCode(v.owner);
    OptVecIsCode(v.sub);
    var s, n := [1] + Vec(v.owner) + OptVec(v.sub), 1 + |Vec(v.owner)|;
    assert s[1..n] == Vec(v.owner) && s[n..] == OptVec(v.sub);
  }

  // ---- Bytes have one meaning.

  lemma OneVec(s: seq<byte>, b: seq<byte>, c: seq<byte>)
    requires VecCode(s, b) && VecCode(s, c)
    ensures b == c
  {
    hide Span, Groups;
    var m, n := |s| - |b|, |s| - |c|;
    SpanAlone(s[..m], m, s[m..]);
    SpanAlone(s[..n], n, s[n..]);
    assert s == s[..m] + s[m..] && s == s[..n] + s[n..];
  }

  lemma OneOptVec(s: seq<byte>, b: Option<seq<byte>>, c: Option<seq<byte>>)
    requires OptVecCode(s, b) && OptVecCode(s, c)
    ensures b == c
  {
    hide VecCode;
    if b.Some? && c.Some? { OneVec(s[1..], b.value, c.value); }
  }

  /** A vector at the start of s ends itself. */
  lemma VecEndsItself(s: seq<byte>, m: nat, n: nat, b: seq<byte>, c: seq<byte>)
    requires m <= |s| && n <= |s| && VecCode(s[..m], b) && VecCode(s[..n], c)
    ensures m == n && b == c
  {
    hide Span, Groups;
    var i, j := m - |b|, n - |c|;
    assert s[..m][..i] == s[..i] && s[..n][..j] == s[..j];
    SpanAlone(s[..i], i, s[i..]);
    SpanAlone(s[..j], j, s[j..]);
    assert s == s[..i] + s[i..] && s == s[..j] + s[j..];
    OneVec(s[..m], b, c);
  }

  lemma OneTokenTo(s: seq<byte>, m: nat, n: nat, v: Value, w: Value)
    requires v.TokenValue? && w.TokenValue? && TokenTo(s, m, v) && TokenTo(s, n, w)
    ensures v.owner == w.owner && v.sub == w.sub
  {
    hide VecCode, OptVecCode;
    assert s[1..][..m - 1] == s[1..m] && s[1..][..n - 1] == s[1..n];
    VecEndsItself(s[1..], m - 1, n - 1, v.owner, w.owner);
    OneOptVec(s[m..], v.sub, w.sub);
  }

  /** Bytes that encode two values under one hash encode the same. */
  lemma OneMeaning(hash: nat, v: Value, w: Value, s: seq<byte>)
    requires v.CoinValue? == w.CoinValue? && Encodes(hash, v, s) && Encodes(hash, w, s)
    ensures SameFor(hash, v, w)
  {
    hide VecCode, OptVecCode, TokenTo;
    if hash == HASH_TO {
      if v.CoinValue? {
        OneVec(s, v.to, w.to);
      } else {
        var m: nat :| TokenTo(s, m, v);
        var n: nat :| TokenTo(s, n, w);
        OneTokenTo(s, m, n, v, w);
      }
    } else if hash == HASH_MEMO {
      if v.TokenValue? { OneOptVec(s, v.memo, w.memo); }
    } else if hash == HASH_FROM {
      OneOptVec(s, v.from, w.from);
    }
  }

  /** And a code at the start of s ends itself. */
  lemma CodeEndsItself(hash: nat, v: Value, w: Value, s: seq<byte>, m: nat, n: nat)
    requires hash in HASHES && ValidValue(v) && ValidValue(w) && v.CoinValue? == w.CoinValue? && m <= |s| && n <= |s|
    requires Encodes(hash, v, s[..m]) && Encodes(hash, w, s[..n])
    ensures m == n && SameFor(hash, v, w)
  {
    hide Encodes, ValueAt, Apply, ValidValue, ZeroOf;
    var t := ZeroOf(v);
    ValueReads(hash, s, 0, s[..m], v, t);
    ValueReads(hash, s, 0, s[..n], w, t);
    OneMeaning(hash, v, w, s[..m]);
  }
}
