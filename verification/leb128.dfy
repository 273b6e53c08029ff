/** LEB128 and SLEB128 (apps/icp_app/icp_txn_helpers.c). A shifted group of bits is or-ed into bits
    that are still clear, which is written as an addition here. */
module Leb128 {
  import opened Bytes

  /** The value read and the offset after it. Undefined stands for reads past the buffer and for
      shifts by 64 or more, which the C code does not guard against. */
  datatype Parse<+T> = Ok(value: T, next: nat) | Rejected | Undefined {
    predicate IsFailure() { !Ok? }
    function PropagateFailure<U>(): Parse<U> requires !Ok? { if Rejected? then Rejected else Undefined }
    function Extract(): (T, nat) requires Ok? { (value, next) }
  }

  function Pow128(k: nat): (p: nat)
    ensures p > 0
  {
    if k == 0 then 1 else 128 * Pow128(k - 1)
  }

  /** The unsigned LEB128 form of v. */
  function Leb(v: nat): (s: seq<byte>)
    ensures s != []
  {
    if v < 128 then [v] else [v % 128 + 128] + Leb(v / 128)
  }

  /** The signed LEB128 form of v. */
  function Sleb(v: int): (s: seq<byte>)
    ensures s != []
    decreases if v < 0 then -v else v
  {
    if -64 <= v < 64 then [v % 128] else [v % 128 + 128] + Sleb(v / 128)
  }

  /** Length of the code that starts at s[0]: up to and including the first byte below 128. */
  function Span(s: seq<byte>): Option<nat> {
    if s == [] then None
    else if s[0] < 128 then Some(1)
    else match Span(s[1..])
      case None => None
      case Some(k) => Some(k + 1)
  }

  /** The number whose groups of 7 bits are the low bits of s, least significant first. */
  function Groups(s: seq<byte>): nat {
    if s == [] then 0 else s[0] % 128 + 128 * Groups(s[1..])
  }

  /** The code at data[offset..], when it is at most ten bytes long. */
  function CodeAt(data: seq<byte>, offset: nat): (r: Option<seq<byte>>)
  {
    if offset > |data| then None
    else match Span(data[offset..])
      case Some(k) => if 0 < k <= 10 && k <= |data| - offset then Some(data[offset..offset + k]) else None
      case None => None
  }

  function LebAt(data: seq<byte>, offset: nat): (r: Parse<nat>)
    ensures r.Ok? ==> r.next <= |data|
  {
    match CodeAt(data, offset)
    case None => Undefined
    case Some(code) => Ok(Groups(code) % U64, offset + |code|)
  }

  function SlebAt(data: seq<byte>, offset: nat): (r: Parse<int>)
    ensures r.Ok? ==> r.next <= |data|
  {
    match CodeAt(data, offset)
    case None => Undefined
    case Some(code) => Ok(SignedValue(code), offset + |code|)
  }

  /** Codes of up to nine bytes are extended by their sign bit. */
  function SignedValue(code: seq<byte>): int {
    var negative := |code| <= 9 && code != [] && code[|code| - 1] / 64 % 2 == 1;
    Signed(Groups(code) - if negative then Pow128(|code|) else 0)
  }

  // ---- Codes, shortest or padded, of at most ten bytes.

  predicate IsCode(s: seq<byte>) {
    0 < |s| <= 10 && Span(s) == Some(|s|)
  }

  /** s is an unsigned code of v. */
  predicate LebCode(s: seq<byte>, v: nat) {
    IsCode(s) && v == Groups(s) % U64
  }

  /** s is a signed code of v. */
  predicate SlebCode(s: seq<byte>, v: int) {
    IsCode(s) && v == SignedValue(s)
  }

  /** A code ends itself. */
  lemma {:induction false} SpanAlone(s: seq<byte>, k: nat, rest: seq<byte>)
    requires k <= |s|
    ensures Span(s) == Some(k) ==> Span(s[..k]) == Some(k)
    ensures Span(s).Some? ==> Span(s + rest) == Span(s)
  {
    if s != [] && s[0] >= 128 {
      if k > 0 {
        SpanAlone(s[1..], k - 1, rest);
        assert s[..k][1..] == s[1..][..k - 1];
      } else {
        SpanAlone(s[1..], 0, rest);
        SpanFits(s[1..]);
      }
      assert (s + rest)[1..] == s[1..] + rest;
    }
  }

  /** Codes are read where they stand. */
  lemma CodeStands(data: seq<byte>, offset: nat, s: seq<byte>)
    requires Has(data, offset, s) && IsCode(s)
    ensures LebAt(data, offset) == Ok(Groups(s) % U64, offset + |s|)
    ensures SlebAt(data, offset) == Ok(SignedValue(s), offset + |s|)
  {
    hide Span, Groups, SignedValue;
    assert CodeAt(data, offset) == Some(s) by { CodeIsThere(data, offset, s); }
  }

  lemma CodeIsThere(data: seq<byte>, offset: nat, s: seq<byte>)
    requires Has(data, offset, s) && IsCode(s)
    ensures CodeAt(data, offset) == Some(s)
  {
    hide Span;
    var rest := data[offset + |s|..];
    SpanAlone(s, |s|, rest);
    assert data[offset..] == s + rest;
  }

  lemma LebCodeStands(data: seq<byte>, offset: nat, s: seq<byte>, v: nat)
    requires Has(data, offset, s) && LebCode(s, v)
    ensures LebAt(data, offset) == Ok(v, offset + |s|)
  {
    hide Groups, IsCode, LebAt;
    CodeStands(data, offset, s);
  }

  lemma SlebCodeStands(data: seq<byte>, offset: nat, s: seq<byte>, v: int)
    requires Has(data, offset, s) && SlebCode(s, v)
    ensures SlebAt(data, offset) == Ok(v, offset + |s|)
  {
    hide SignedValue, IsCode, SlebAt;
    CodeStands(data, offset, s);
  }

  /** And what is read is a code. */
  lemma LebIsCode(data: seq<byte>, offset: nat)
    requires LebAt(data, offset).Ok?
    ensures var r := LebAt(data, offset);
      offset < r.next <= |data| && LebCode(data[offset..r.next], r.value) && r.value < U64
  {
    hide Span, Groups;
    var code := CodeAt(data, offset).value;
    SpanAlone(data[offset..], |code|, []);
    assert data[offset..][..|code|] == code;
  }

  lemma SlebIsCode(data: seq<byte>, offset: nat)
    requires SlebAt(data, offset).Ok?
    ensures var r := SlebAt(data, offset);
      offset < r.next <= |data| && SlebCode(data[offset..r.next], r.value)
  {
    hide Span, Groups, SignedValue;
    var code := CodeAt(data, offset).value;
    SpanAlone(data[offset..], |code|, []);
    assert data[offset..][..|code|] == code;
  }

  // ---- The decoders.

  lemma {:induction false} GroupsAppend(s: seq<byte>, b: byte)
    ensures Groups(s + [b]) == Groups(s) + Pow128(|s|) * (b % 128)
  {
    if s == [] {
      assert s + [b] == [b] && Groups([b][1..]) == 0;
    } else {
      assert (s + [b])[1..] == s[1..] + [b];
      GroupsAppend(s[1..], b);
      assert 128 * (Pow128(|s| - 1) * (b % 128)) == Pow128(|s|) * (b % 128);
    }
  }

  predicate Continues(s: seq<byte>) {
    forall i | 0 <= i < |s| :: s[i] >= 128
  }

  lemma {:induction false} SpanContinues(s: seq<byte>, k: nat)
    requires k <= |s| && Continues(s[..k])
    ensures Span(s) == match Span(s[k..]) case None => None case Some(n) => Some(n + k)
  {
    if k == 0 {
      assert s[0..] == s;
    } else {
      assert s[0] == s[..k][0] && s[1..][..k - 1] == s[..k][1..] && s[1..][k - 1..] == s[k..];
      SpanContinues(s[1..], k - 1);
    }
  }

  lemma {:induction false} SpanFits(s: seq<byte>)
    ensures Span(s).Some? ==> 0 < Span(s).value <= |s|
  {
    if s != [] { SpanFits(s[1..]); }
  }

  /** The loop shared by leb_decode and sleb_decode: groups are added in at increasing shifts. */
  method ReadGroups(data: seq<byte>, offset: nat) returns (ok: bool, result: nat, last: byte, next: nat)
    requires offset <= |data|
    ensures ok <==> CodeAt(data, offset).Some?
    ensures ok ==> var code := CodeAt(data, offset).value;
      code != [] && result == Groups(code) && last == code[|code| - 1] && next == offset + |code|
  {
    hide Groups, Span;
    result, next, last := 0, offset, 128;
    var scale := 1;
    assert Groups(data[offset..offset]) == 0 by { EmptyGroups(data[offset..offset]); }
    while true
      invariant offset <= next <= |data| && next - offset <= 10 && scale == Pow128(next - offset)
      invariant result == Groups(data[offset..next]) && Continues(data[offset..next])
      decreases |data| - next
    {
      var k := next - offset;
      assert data[offset..][..k] == data[offset..next] && data[offset..][k..] == data[next..];
      SpanContinues(data[offset..], k);
      SpanFits(data[next..]);
      if next == |data| || k == 10 {
        SpanStart(data[next..]);
        return false, 0, 0, next;
      }
      last := data[next];
      GroupsAppend(data[offset..next], last);
      assert data[offset..next] + [last] == data[offset..next + 1];
      result := result + scale * (last % 128);
      scale := scale * 128;
      next := next + 1;
      if last < 128 {
        SpanStart(data[next - 1..]);
        return true, result, last, next;
      }
    }
  }

  lemma EmptyGroups(s: seq<byte>)
    requires s == []
    ensures Groups(s) == 0
  {
  }

  lemma SpanStart(s: seq<byte>)
    ensures s == [] ==> Span(s).None?
    ensures s != [] && s[0] < 128 ==> Span(s) == Some(1)
  {
  }

  /** leb_decode. */
  method LebDecode(data: seq<byte>, offset: nat) returns (r: Parse<nat>)
    requires offset <= |data|
    ensures r == LebAt(data, offset)
  {
    var ok, result, last, next := ReadGroups(data, offset);
    r := if ok then Ok(result % U64, next) else Undefined;
  }

  /** sleb_decode: bit 6 of the last byte is extended unless the shift has reached 64. */
  method SlebDecode(data: seq<byte>, offset: nat) returns (r: Parse<int>)
    requires offset <= |data|
    ensures r == SlebAt(data, offset)
  {
    var ok, result, last, next := ReadGroups(data, offset);
    if !ok {
      return Undefined;
    }
    var shift := 7 * (next - offset);
    if shift < 64 && last / 64 % 2 == 1 {
      result := result - Pow128(next - offset);
    }
    r := Ok(Signed(result), next);
  }

  /** Ten bytes that all continue are more than a number has. */
  lemma TenContinuations(data: seq<byte>, offset: nat)
    requires offset + 10 <= |data| && forall i | offset <= i < offset + 10 :: data[i] >= 0x80
    ensures LebAt(data, offset) == Undefined && SlebAt(data, offset) == Undefined
  {
    hide Span, Groups;
    var s := data[offset..];
    assert forall i | 0 <= i < 10 :: s[i] == data[offset + i];
    SpanContinues(s, 10);
    SpanFits(s[10..]);
  }

  // ---- The encoders, and the round trips.

  /** Seven bits a byte, the lowest first; all bytes but the last have their top bit set. */
  lemma LebSplits(u: nat)
    ensures Leb(u) == if u < 128 then [u] else [u % 128 + 128] + Leb(u / 128)
  {
  }

  lemma LebStep(v: nat)
    ensures Leb(v)[0] == v % 128 + if v >= 128 then 128 else 0
    ensures Leb(v)[1..] == if v >= 128 then Leb(v / 128) else []
  {
  }

  /** hash_leb128: the bytes go through a buffer of ten. */
  method HashLeb128(h: Hash, value: nat) returns (digest: Digest)
    requires value < U64
    ensures digest == h(Leb(value)) && |Leb(value)| <= 10
  {
    hide Leb;
    Pow128Ten();
    LebLength(value, 10);
    var buffer := new byte[10](_ => 0);
    var offset, left := 0, value;
    ghost var code := Leb(value);
    while true
      invariant 0 <= offset < |code| && code[offset..] == Leb(left)
      invariant forall i | 0 <= i < offset :: buffer[i] == code[i]
      decreases left
    {
      LebStep(left);
      assert code[offset..][0] == code[offset] && code[offset..][1..] == code[offset + 1..];
      buffer[offset] := left % 128 + if left >= 128 then 128 else 0;
      offset := offset + 1;
      if left < 128 {
        break;
      }
      left := left / 128;
    }
    assert buffer[..offset] == code;
    digest := h(buffer[..offset]);
  }

  lemma {:induction false} LebLength(v: nat, k: nat)
    requires k > 0 && v < Pow128(k)
    ensures |Leb(v)| <= k
    decreases k
  {
    if v >= 128 {
      assert k > 1 by { assert Pow128(1) == 128 * Pow128(0); }
      LebLength(v / 128, k - 1);
    }
  }

  lemma Pow128Ten()
    ensures Pow128(9) == S63 && Pow128(10) == 64 * U64
  {
    assert Pow128(3) == 128 * (128 * (128 * Pow128(0)));
    assert Pow128(6) == 128 * (128 * (128 * Pow128(3)));
    assert Pow128(9) == 128 * (128 * (128 * Pow128(6)));
  }

  lemma {:induction false} LebReads(v: nat, rest: seq<byte>)
    ensures Span(Leb(v) + rest) == Some(|Leb(v)|) && Groups(Leb(v)) == v
  {
    if v >= 128 {
      LebReads(v / 128, rest);
      assert (Leb(v) + rest)[1..] == Leb(v / 128) + rest && Leb(v)[1..] == Leb(v / 128);
    } else {
      assert Leb(v)[1..] == [];
    }
  }

  /** Every uint64 comes back from its code, whatever stands before and after it. */
  lemma LebRoundTrip(before: seq<byte>, v: nat, rest: seq<byte>)
    requires v < U64
    ensures |Leb(v)| <= 10
    ensures LebAt(before + Leb(v) + rest, |before|) == Ok(v, |before| + |Leb(v)|)
  {
    hide Leb, Groups, Span;
    LebReads(v, rest);
    Pow128Ten();
    LebLength(v, 10);
    var data := before + Leb(v) + rest;
    assert data[|before|..] == Leb(v) + rest && data[|before|..|before| + |Leb(v)|] == Leb(v);
  }

  lemma {:induction false} SlebLength(v: int, k: nat)
    requires k > 0 && -64 * Pow128(k - 1) <= v < 64 * Pow128(k - 1)
    ensures |Sleb(v)| <= k
    decreases k
  {
    if !(-64 <= v < 64) {
      assert k > 1 by { assert Pow128(0) == 1; }
      SlebLength(v / 128, k - 1);
    }
  }

  lemma SlebStep(v: int)
    ensures Sleb(v) == if -64 <= v < 64 then [v % 128] else [v % 128 + 128] + Sleb(v / 128)
  {
  }

  lemma {:induction false} SlebSpan(v: int, rest: seq<byte>)
    ensures Span(Sleb(v) + rest) == Some(|Sleb(v)|)
    decreases if v < 0 then -v else v
  {
    hide Sleb;
    SlebStep(v);
    if !(-64 <= v < 64) {
      SlebSpan(v / 128, rest);
      assert (Sleb(v) + rest)[1..] == Sleb(v / 128) + rest;
    }
  }

  lemma {:induction false} SlebReads(v: int)
    ensures Groups(Sleb(v)) == v + if v < 0 then Pow128(|Sleb(v)|) else 0
    ensures Sleb(v)[|Sleb(v)| - 1] / 64 % 2 == if v < 0 then 1 else 0
    decreases if v < 0 then -v else v
  {
    hide Sleb;
    SlebStep(v);
    if -64 <= v < 64 {
      assert Sleb(v)[1..] == [] && Groups([]) == 0 && Pow128(1) == 128 * Pow128(0);
    } else {
      var more := Sleb(v / 128);
      SlebReads(v / 128);
      assert Sleb(v)[1..] == more && Sleb(v)[|Sleb(v)| - 1] == more[|more| - 1];
      assert v % 128 + 128 * (v / 128) == v && (v < 0 <==> v / 128 < 0);
    }
  }

  /** Ten groups hold 70 bits, of which 64 are kept; fewer are extended by the sign bit. */
  lemma SignExtended(v: int, k: nat)
    requires -S63 <= v < S63 && k <= 10
    ensures Signed(v) == v
    ensures k == 10 ==> Signed(v + Pow128(k)) == v
  {
    Pow128Ten();
    if k == 10 {
      assert (v + 64 * U64) % U64 == v % U64;
    }
  }

  /** Every int64 comes back from its code, sign extension included. */
  lemma SlebRoundTrip(before: seq<byte>, v: int, rest: seq<byte>)
    requires -S63 <= v < S63
    ensures |Sleb(v)| <= 10
    ensures SlebAt(before + Sleb(v) + rest, |before|) == Ok(v, |before| + |Sleb(v)|)
  {
    hide Sleb, Groups, Span, Signed, Pow128;
    SlebSpan(v, rest);
    SlebReads(v);
    assert |Sleb(v)| <= 10 by { Pow128Ten(); SlebLength(v, 10); }
    var data := before + Sleb(v) + rest;
    assert data[|before|..] == Sleb(v) + rest && data[|before|..|before| + |Sleb(v)|] == Sleb(v);
    SignExtended(v, |Sleb(v)|);
  }

  /** The shortest codes are codes. */
  lemma ShortestLeb(v: nat)
    requires v < U64
    ensures LebCode(Leb(v), v)
  {
    hide Leb, LebAt;
    LebRoundTrip([], v, []);
    assert [] + Leb(v) + [] == Leb(v) && Leb(v)[0..|Leb(v)|] == Leb(v);
    LebIsCode(Leb(v), 0);
  }

  lemma ShortestSleb(v: int)
    requires -S63 <= v < S63
    ensures SlebCode(Sleb(v), v)
  {
    hide Sleb, SlebAt;
    SlebRoundTrip([], v, []);
    assert [] + Sleb(v) + [] == Sleb(v) && Sleb(v)[0..|Sleb(v)|] == Sleb(v);
    SlebIsCode(Sleb(v), 0);
  }
}
