/** Bytes, byte orders and the uninterpreted hash functions shared by every model. */
module Bytes {
  const U32 := 0x1_0000_0000
  const U64 := 0x1_0000_0000_0000_0000
  const S63 := 0x8000_0000_0000_0000

  type byte = b: int | 0 <= b < 256

  type Digest = s: seq<byte> | |s| == 32 witness seq(32, _ => 0)

  /** SHA-256 and Keccak-256 stay uninterpreted: any function to 32 bytes. */
  type Hash = seq<byte> -> Digest

  datatype Option<+T> = None | Some(value: T)

  function Pow256(k: nat): (p: nat)
    ensures p > 0
  {
    if k == 0 then 1 else 256 * Pow256(k - 1)
  }

  lemma Pow256Eight()
    ensures Pow256(8) == U64
  {
    assert Pow256(4) == 256 * (256 * (256 * (256 * Pow256(0))));
    assert Pow256(8) == 256 * (256 * (256 * (256 * Pow256(4))));
  }

  function Zeros(n: nat): (s: seq<byte>)
    ensures |s| == n
  {
    seq(n, _ => 0)
  }

  /** The k low bytes of n, least significant first. */
  function LE(n: nat, k: nat): (s: seq<byte>)
    ensures |s| == k
  {
    if k == 0 then [] else [n % 256] + LE(n / 256, k - 1)
  }

  function FromLE(s: seq<byte>): (n: nat)
  {
    if s == [] then 0 else s[0] + 256 * FromLE(s[1..])
  }

  function FromBE(s: seq<byte>): (n: nat)
  {
    if s == [] then 0 else FromBE(s[..|s| - 1]) * 256 + s[|s| - 1]
  }

  lemma TwoMore(s: seq<byte>, k: nat)
    requires k + 2 <= |s|
    ensures FromLE(s[k..]) == s[k] as int + 0x100 * s[k + 1] as int + 0x1_0000 * FromLE(s[k + 2..])
    ensures |s| == k + 2 ==> FromLE(s[k + 2..]) == 0
  {
    assert s[k..][1..] == s[k + 1..] && s[k + 1..][1..] == s[k + 2..];
  }

  /** Little-endian numbers of two, four and eight bytes, written out. */
  lemma LittleEndianDigits(s: seq<byte>)
    ensures |s| == 2 ==> FromLE(s) == s[0] as int + 0x100 * s[1] as int
    ensures |s| == 4 ==>
      FromLE(s) == s[0] as int + 0x100 * s[1] as int + 0x1_0000 * s[2] as int + 0x100_0000 * s[3] as int
    ensures |s| == 8 ==>
      FromLE(s) == s[0] as int + 0x100 * s[1] as int + 0x1_0000 * s[2] as int + 0x100_0000 * s[3] as int
        + 0x1_0000_0000 * s[4] as int + 0x100_0000_0000 * s[5] as int + 0x1_0000_0000_0000 * s[6] as int
        + 0x100_0000_0000_0000 * s[7] as int
  {
    hide FromLE;
    assert s[0..] == s;
    if |s| >= 2 { TwoMore(s, 0); }
    if |s| >= 4 { TwoMore(s, 2); }
    if |s| == 8 {
      TwoMore(s, 4);
      TwoMore(s, 6);
    }
  }

  lemma PowersOf256()
    ensures Pow256(0) == 1 && Pow256(1) == 0x100 && Pow256(2) == 0x1_0000 && Pow256(3) == 0x100_0000
    ensures Pow256(4) == 0x1_0000_0000 && Pow256(8) == 0x1_0000_0000_0000_0000
  {
    assert Pow256(2) == 0x100 * Pow256(1);
    assert Pow256(4) == 0x100 * (0x100 * Pow256(2));
    assert Pow256(6) == 0x100 * (0x100 * Pow256(4));
  }

  /** Big-endian numbers of two and four bytes, written out. */
  lemma BigEndianDigits(s: seq<byte>)
    ensures |s| == 1 ==> FromBE(s) == s[0]
    ensures |s| == 2 ==> FromBE(s) == 0x100 * s[0] as int + s[1] as int
    ensures |s| == 4 ==>
      FromBE(s) == 0x100_0000 * s[0] as int + 0x1_0000 * s[1] as int + 0x100 * s[2] as int + s[3] as int
  {
    if |s| >= 1 && |s| <= 4 {
      var n := |s|;
      assert n >= 2 ==> s[..n - 1][..n - 2] == s[..n - 2];
      assert n >= 3 ==> s[..n - 2][..n - 3] == s[..n - 3];
      assert n >= 4 ==> s[..n - 3][..n - 4] == s[..n - 4];
      assert s[..0] == [];
    }
  }

  /** A number modulo 2^64 as the signed one of 64 bits. */
  lemma SignedRange(u: int)
    ensures -0x8000_0000_0000_0000 <= Signed(u) < 0x8000_0000_0000_0000
    ensures (Signed(u) - u) % 0x1_0000_0000_0000_0000 == 0
  {
  }

  lemma ZeroBytes(n: nat)
    ensures |Zeros(n)| == n && forall i | 0 <= i < n :: Zeros(n)[i] == 0
  {
  }

  lemma {:induction false} FromLERoundTrip(n: nat, k: nat)
    requires n < Pow256(k)
    ensures FromLE(LE(n, k)) == n
  {
    if k == 0 {
    } else {
      FromLERoundTrip(n / 256, k - 1);
      assert LE(n, k)[1..] == LE(n / 256, k - 1);
    }
  }

  lemma {:induction false} FromLEBound(s: seq<byte>)
    ensures FromLE(s) < Pow256(|s|)
  {
    if s == [] {
    } else {
      FromLEBound(s[1..]);
    }
  }

  /** Appending zero bytes at the most significant end changes nothing. */
  lemma {:induction false} FromLEZeroPadded(s: seq<byte>, k: nat)
    ensures FromLE(s + Zeros(k)) == FromLE(s)
  {
    if s != [] {
      FromLEZeroPadded(s[1..], k);
      assert (s + Zeros(k))[1..] == s[1..] + Zeros(k);
    } else if k > 0 {
      FromLEZeroPadded([], k - 1);
      assert s + Zeros(k) == Zeros(k);
      assert Zeros(k)[1..] == [] + Zeros(k - 1);
    }
  }

  lemma {:induction false} FromBEBound(s: seq<byte>)
    ensures FromBE(s) < Pow256(|s|)
  {
    if s == [] {
    } else {
      FromBEBound(s[..|s| - 1]);
    }
  }

  /** The n low bytes of v, most significant first. */
  function ToBE(v: nat, n: nat): (s: seq<byte>)
    ensures |s| == n
  {
    if n == 0 then [] else ToBE(v / 256, n - 1) + [v % 256]
  }

  lemma {:induction false} ToBERoundTrip(s: seq<byte>)
    ensures ToBE(FromBE(s), |s|) == s
  {
    if s != [] {
      ToBERoundTrip(s[..|s| - 1]);
    }
  }

  /** memcpy of bytes to output[at..]. */
  method CopyTo(output: array<byte>, at: nat, bytes: seq<byte>)
    requires at + |bytes| <= output.Length
    modifies output
    ensures output[at..at + |bytes|] == bytes
    ensures output[..at] == old(output[..at]) && output[at + |bytes|..] == old(output[at + |bytes|..])
  {
    forall i | 0 <= i < |bytes| {
      output[at + i] := bytes[i];
    }
  }

  /** s has been written over the start of a buffer. */
  predicate Written(now: seq<byte>, was: seq<byte>, s: seq<byte>) {
    |s| <= |was| && now == s + was[|s|..]
  }

  /** memcpy behind what is written already. */
  method Append(output: array<byte>, at: nat, piece: seq<byte>, ghost was: seq<byte>, ghost s: seq<byte>)
    requires at == |s| && Written(output[..], was, s) && at + |piece| <= output.Length
    modifies output
    ensures Written(output[..], was, s + piece)
  {
    hide Written;
    ghost var before := output[..];
    CopyTo(output, at, piece);
    ghost var now := output[..];
    assert before[..at] == now[..at] && now[at..at + |piece|] == piece && before[at + |piece|..] == now[at + |piece|..];
    Appended(now, before, was, s, piece);
  }

  lemma Appended(now: seq<byte>, before: seq<byte>, was: seq<byte>, s: seq<byte>, piece: seq<byte>)
    requires Written(before, was, s) && |now| == |before| && |s| + |piece| <= |before|
    requires now[..|s|] == before[..|s|] && now[|s|..|s| + |piece|] == piece
    requires now[|s| + |piece|..] == before[|s| + |piece|..]
    ensures Written(now, was, s + piece)
  {
    assert before[..|s|] == s && before[|s| + |piece|..] == was[|s| + |piece|..];
    assert now == now[..|s|] + now[|s|..|s| + |piece|] + now[|s| + |piece|..];
  }

  lemma Untouched(was: seq<byte>)
    ensures Written(was, was, [])
  {
  }

  lemma WrittenParts(now: seq<byte>, was: seq<byte>, s: seq<byte>)
    requires Written(now, was, s)
    ensures |now| == |was| && now[..|s|] == s && now[|s|..] == was[|s|..]
  {
  }

  lemma Parts(a: seq<byte>, b: seq<byte>, c: seq<byte>)
    ensures (a + (b + c))[..|a|] == a
    ensures (a + (b + c))[|a|..|a| + |b|] == b
    ensures (a + (b + c))[|a| + |b|..] == c
  {
  }

  predicate Has(data: seq<byte>, offset: nat, piece: seq<byte>) {
    offset + |piece| <= |data| && data[offset..offset + |piece|] == piece
  }

  lemma HasSplit(data: seq<byte>, offset: nat, a: seq<byte>, b: seq<byte>)
    requires Has(data, offset, a + b)
    ensures Has(data, offset, a) && Has(data, offset + |a|, b)
  {
    var piece := data[offset..offset + |a + b|];
    assert piece[..|a|] == a && piece[|a|..] == b;
  }

  lemma HasPiece(data: seq<byte>, offset: nat, s: seq<byte>, i: nat, j: nat)
    requires Has(data, offset, s) && i <= j <= |s|
    ensures Has(data, offset + i, s[i..j]) && (i < j ==> data[offset + i] == s[i])
  {
    forall k | i <= k < j ensures data[offset + k] == s[k] {
      assert data[offset..offset + |s|][k] == data[offset + k];
    }
  }

  lemma HasCut(data: seq<byte>, offset: nat, s: seq<byte>, n: nat)
    requires Has(data, offset, s) && n <= |s|
    ensures Has(data, offset, s[..n]) && Has(data, offset + n, s[n..])
  {
    HasPiece(data, offset, s, 0, n);
    HasPiece(data, offset, s, n, |s|);
    assert s[..n] == s[0..n] && s[n..] == s[n..|s|];
  }

  lemma PieceOfPrefix(data: seq<byte>, d: nat, i: nat, j: nat)
    requires i <= j <= d <= |data|
    ensures data[..d][i..j] == data[i..j]
  {
  }

  lemma Cut(data: seq<byte>, offset: nat, end: nat, n: nat)
    requires offset <= end <= |data| && n <= end - offset
    ensures data[offset..end][..n] == data[offset..offset + n] && data[offset..end][n..] == data[offset + n..end]
  {
    assert forall k | 0 <= k < end - offset :: data[offset..end][k] == data[offset + k];
  }

  /** The 64 bits of u as an int64. */
  function Signed(u: int): int {
    var m := u % U64;
    if m < S63 then m else m - U64
  }
}
