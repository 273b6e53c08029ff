/** EIP-712 hashing of a typed-data tree: encode_data and hash_struct
    (apps/evm_family/eip712_utils.c), evm_get_typed_struct_data_digest
    (apps/evm_family/evm_typed_data_helper.c). */
module TypedData {
  import opened Bytes

  datatype Kind = Uint | Int | Bool | Address | ByteString | Text | Array | Struct | Unknown

  datatype Node = Node(name: string, kind: Kind, structName: string, size: nat, data: seq<byte>,
                       typeHash: seq<byte>, children: seq<Node>)

  /** Keccak-256 and the ABI encoder for leaf values, which may refuse a value. */
  datatype Crypto = Crypto(keccak: Hash, abi: (Kind, seq<byte>) -> Option<Digest>)

  /** What the code takes for granted of every node it is handed. */
  predicate Sized(n: Node) {
    n.size <= |n.data| && (n.kind.Struct? ==> |n.typeHash| == 32) && forall c <- n.children :: Sized(c)
  }

  function Payload(n: Node): seq<byte>
    requires Sized(n)
  {
    n.data[..n.size]
  }

  /** Strings and `bytes` are hashed; bytes1 to bytes32 are encoded like numbers. */
  predicate IsDynamic(n: Node) {
    n.kind.Text? || (n.kind.ByteString? && n.structName == "bytes")
  }

  /** Every leaf value is acceptable to the ABI encoder and no struct is empty. */
  predicate Encodable(c: Crypto, n: Node)
    requires Sized(n)
  {
    if n.kind.Array? || n.kind.Struct? then
      (n.kind.Struct? ==> n.children != []) && forall x <- n.children :: Encodable(c, x)
    else
      n.kind.Unknown? || IsDynamic(n) || c.abi(n.kind, Payload(n)).Some?
  }

  predicate AllEncodable(c: Crypto, nodes: seq<Node>)
    requires forall x <- nodes :: Sized(x)
  {
    forall x <- nodes :: Encodable(c, x)
  }

  /** "Definition of encodeData" in EIP-712: the 32 bytes that stand for one member. A node of
      unknown kind, on which the EIP says nothing, leaves the zeroed buffer as it is. */
  function Member(c: Crypto, n: Node): (d: seq<byte>)
    requires Sized(n) && Encodable(c, n)
    ensures |d| == 32
    decreases n, 1
  {
    if n.kind.Array? then c.keccak(Members(c, n.children))
    else if n.kind.Struct? then HashOfStruct(c, n)
    else if n.kind.Unknown? then Zeros(32)
    else if IsDynamic(n) then c.keccak(Payload(n))
    else c.abi(n.kind, Payload(n)).value
  }

  /** The encodings of the members, concatenated. */
  function Members(c: Crypto, nodes: seq<Node>): (d: seq<byte>)
    requires (forall x <- nodes :: Sized(x)) && AllEncodable(c, nodes)
    ensures |d| == 32 * |nodes|
    decreases nodes, 0
  {
    if nodes == [] then [] else
      var k := |nodes| - 1;
      Members(c, nodes[..k]) + Member(c, nodes[k])
  }

  /** "Definition of hashStruct": keccak of the type hash followed by encodeData. */
  function HashOfStruct(c: Crypto, n: Node): Digest
    requires Sized(n) && n.kind.Struct? && Encodable(c, n)
    decreases n, 0
  {
    c.keccak(n.typeHash + Members(c, n.children))
  }

  // ---- The same in full.

  /** What is written for a leaf: strings and `bytes` are hashed, all other values are left to the ABI
      encoder. */
  lemma LeafInFull(c: Crypto, n: Node)
    requires Sized(n)
    ensures n.kind == Text || (n.kind == ByteString && n.structName == "bytes") ==>
      Encodable(c, n) && Member(c, n) == c.keccak(n.data[..n.size])
    ensures n.kind in {Uint, Int, Bool, Address} || (n.kind == ByteString && n.structName != "bytes") ==>
      (Encodable(c, n) <==> c.abi(n.kind, n.data[..n.size]).Some?) &&
      (Encodable(c, n) ==> Some(Member(c, n)) == c.abi(n.kind, n.data[..n.size]))
    ensures n.kind == Unknown ==> Encodable(c, n) && Member(c, n) == Zeros(32)
  {
  }

  /** The members stand one behind the other, 32 bytes each. */
  lemma {:induction false} MemberAt(c: Crypto, nodes: seq<Node>, k: nat)
    requires (forall x <- nodes :: Sized(x)) && AllEncodable(c, nodes) && k < |nodes|
    ensures |Members(c, nodes)| == 32 * |nodes| && Members(c, nodes)[32 * k..32 * k + 32] == Member(c, nodes[k])
    decreases |nodes|
  {
    hide Member, Encodable;
    var n := |nodes| - 1;
    var all := Members(c, nodes);
    assert all == Members(c, nodes[..n]) + Member(c, nodes[n]);
    if k < n {
      MemberAt(c, nodes[..n], k);
      assert all[32 * k..32 * k + 32] == Members(c, nodes[..n])[32 * k..32 * k + 32];
    }
  }

  /** Arrays and structs: what is hashed is m, the members' 32 bytes one behind the other, in a struct
      with its type hash in front; an empty struct and a refused leaf inside are failures. */
  lemma CompositeInFull(c: Crypto, n: Node) returns (m: seq<byte>)
    requires Sized(n) && n.kind in {Array, Struct}
    ensures Encodable(c, n) <==>
      (n.kind == Struct ==> |n.children| > 0) && forall k | 0 <= k < |n.children| :: Encodable(c, n.children[k])
    ensures Encodable(c, n) ==> Member(c, n) == c.keccak(if n.kind == Struct then n.typeHash + m else m)
    ensures Encodable(c, n) && n.kind == Struct ==> HashOfStruct(c, n) == c.keccak(n.typeHash + m)
    ensures Encodable(c, n) ==>
      |m| == 32 * |n.children| &&
      forall k | 0 <= k < |n.children| :: m[32 * k..32 * k + 32] == Member(c, n.children[k])
  {
    m := [];
    if Encodable(c, n) {
      m := Members(c, n.children);
      forall k | 0 <= k < |n.children| ensures m[32 * k..32 * k + 32] == Member(c, n.children[k]) {
        MemberAt(c, n.children, k);
      }
    }
  }

  datatype Status = OK | MemoryLimitExceeded | AbiEncodingFailed | InvalidData

  lemma NoMembers(c: Crypto)
    ensures Members(c, []) == []
  {
  }

  lemma OneMoreMember(c: Crypto, nodes: seq<Node>, i: nat)
    requires i < |nodes| && (forall x <- nodes :: Sized(x)) && AllEncodable(c, nodes[..i]) && Encodable(c, nodes[i])
    ensures AllEncodable(c, nodes[..i + 1])
    ensures Members(c, nodes[..i + 1]) == Members(c, nodes[..i]) + Member(c, nodes[i])
  {
    assert nodes[..i + 1][..i] == nodes[..i];
  }

  /** The next 32 bytes of a zeroed rest are zero, and so is what follows them. */
  lemma ZeroTail(bytes: seq<byte>, at: nat)
    requires at + 32 <= |bytes| && bytes[at..] == Zeros(|bytes| - at)
    ensures bytes[at..at + 32] == Zeros(32) && bytes[at + 32..] == Zeros(|bytes| - at - 32)
  {
    assert bytes[at..at + 32] == bytes[at..][..32] && bytes[at + 32..] == bytes[at..][32..];
  }

  /** The loop shared by the array and the struct case: 32 bytes a member in a zeroed buffer. */
  method EncodeMembers(c: Crypto, n: Node) returns (status: Status, result: array<byte>)
    requires Sized(n)
    ensures fresh(result) && result.Length == 32 * |n.children|
    ensures status == OK <==> AllEncodable(c, n.children)
    ensures status == OK ==> result[..] == Members(c, n.children)
    decreases n, 0
  {
    hide Member, Encodable, Members;
    assert n.children[..0] == [] && Members(c, []) == [] by { NoMembers(c); }
    result := new byte[32 * |n.children|](_ => 0);
    for i := 0 to |n.children|
      invariant AllEncodable(c, n.children[..i])
      invariant result[32 * i..] == Zeros(32 * (|n.children| - i))
      invariant result[..32 * i] == Members(c, n.children[..i])
    {
      var child := n.children[i];
      ghost var before := result[..32 * i];
      ZeroTail(result[..], 32 * i);
      status := EncodeChild(c, child, result, 32 * i);
      if status != OK {
        return;
      }
      OneMoreMember(c, n.children, i);
      assert result[..32 * (i + 1)] == before + result[32 * i..32 * i + 32];
    }
    assert n.children[..|n.children|] == n.children;
    assert result[..] == result[..32 * |n.children|];
    status := OK;
  }

  /** A struct among the children is hashed, anything else is encoded. */
  method EncodeChild(c: Crypto, n: Node, output: array<byte>, at: nat) returns (status: Status)
    requires Sized(n) && at + 32 <= output.Length && output[at..at + 32] == Zeros(32)
    modifies output
    ensures status == OK <==> Encodable(c, n)
    ensures output[..at] == old(output[..at]) && output[at + 32..] == old(output[at + 32..])
    ensures status == OK ==> output[at..at + 32] == Member(c, n)
    decreases n, 3
  {
    if n.kind.Struct? {
      status := HashStruct(c, n, output, at);
    } else {
      var written;
      status, written := EncodeData(c, n, output, at, 32);
    }
  }

  /** encode_data: room is output_size, written is what is added to *bytes_written. */
  method EncodeData(c: Crypto, n: Node, output: array<byte>, at: nat, room: nat) returns (status: Status, written: nat)
    requires Sized(n) && at + room <= output.Length
    requires n.kind.Unknown? && room >= 32 ==> output[at..at + 32] == Zeros(32)
    modifies output
    ensures status == OK <==>
      room >= 32 &&
      (if n.kind.Struct? then 32 * |n.children| <= room && AllEncodable(c, n.children) else Encodable(c, n))
    ensures output[..at] == old(output[..at]) && output[at + room..] == old(output[at + room..])
    ensures status == OK && n.kind.Struct? ==>
      written == 32 * |n.children| && output[at..at + written] == Members(c, n.children)
    ensures status == OK && !n.kind.Struct? ==>
      written == (if n.kind.Unknown? then 0 else 32) && output[at..at + 32] == Member(c, n)
      && output[at + 32..] == old(output[at + 32..])
    ensures room >= 32 && (n.kind == Text || (n.kind == ByteString && n.structName == "bytes")) ==>
      status == OK && output[at..at + 32] == c.keccak(n.data[..n.size])
    ensures
      room >= 32 && (n.kind in {Uint, Int, Bool, Address} || (n.kind == ByteString && n.structName != "bytes")) ==>
      (status == OK <==> c.abi(n.kind, n.data[..n.size]).Some?) &&
      (status == OK ==> c.abi(n.kind, n.data[..n.size]) == Some(output[at..at + 32]))
    decreases n, 1
  {
    written := 0;
    if room < 32 {
      return MemoryLimitExceeded, 0;
    }
    if n.kind.Array? {
      var result;
      status, result := EncodeMembers(c, n);
      if status != OK { return; }
      CopyTo(output, at, c.keccak(result[..]));
      written := 32;
    } else if n.kind.Struct? {
      if 32 * |n.children| > room {
        return MemoryLimitExceeded, 0;
      }
      var result;
      status, result := EncodeMembers(c, n);
      if status != OK { return; }
      CopyTo(output, at, result[..]);
      written := result.Length;
    } else if n.kind.Text? || (n.kind.ByteString? && n.structName == "bytes") {
      CopyTo(output, at, c.keccak(n.data[..n.size]));
      written := 32;
    } else if !n.kind.Unknown? {
      var encoded := c.abi(n.kind, n.data[..n.size]);
      if encoded.None? {
        return AbiEncodingFailed, 0;
      }
      CopyTo(output, at, encoded.value);
      written := 32;
    }
    status := OK;
  }

  /** hash_struct: the digest is written whatever the status is. */
  method HashStruct(c: Crypto, n: Node, output: array<byte>, at: nat) returns (status: Status)
    requires Sized(n) && at + 32 <= output.Length
    modifies output
    ensures status == OK <==> n.kind.Struct? && Encodable(c, n)
    ensures output[..at] == old(output[..at]) && output[at + 32..] == old(output[at + 32..])
    ensures status == OK ==> output[at..at + 32] == HashOfStruct(c, n)
    decreases n, 2
  {
    if !n.kind.Struct? {
      return InvalidData;
    }
    var size := 32 + 32 * |n.children|;
    var data := new byte[size];
    CopyTo(data, 0, n.typeHash);
    var used;
    status, used := EncodeData(c, n, data, 32, size - 32);
    assert data[..] == data[..32] + data[32..];
    assert status == OK ==> data[..32] == n.typeHash && data[32..] == Members(c, n.children);
    CopyTo(output, at, c.keccak(data[..]));
  }

  const SIGN_IDENTIFIER: seq<byte> := [0x19, 0x01]

  predicate IsStruct(c: Crypto, n: Node)
    requires Sized(n)
  {
    n.kind.Struct? && Encodable(c, n)
  }

  /** "Specification" of EIP-712: the sign identifier, the domain separator and the message hash. */
  function DigestOf(c: Crypto, domain: Node, message: Node): Digest
    requires Sized(domain) && Sized(message) && IsStruct(c, domain) && IsStruct(c, message)
  {
    c.keccak(SIGN_IDENTIFIER + HashOfStruct(c, domain) + HashOfStruct(c, message))
  }

  /** evm_get_typed_struct_data_digest. */
  method TypedDataDigest(c: Crypto, domain: Node, message: Node) returns (digest: Option<Digest>)
    requires Sized(domain) && Sized(message)
    ensures digest.Some? <==>
      if domain.children == [] then message.structName == "EIP712Domain"
      else IsStruct(c, domain) && (message.children == [] || IsStruct(c, message))
    ensures digest.Some? ==>
      digest.value == c.keccak(
        if domain.children == [] then [0x19, 0x01]
        else if message.children == [] then [0x19, 0x01] + HashOfStruct(c, domain)
        else [0x19, 0x01] + HashOfStruct(c, domain) + HashOfStruct(c, message))
    ensures digest.Some? && domain.children != [] && message.children != [] ==>
      digest.value == DigestOf(c, domain, message)
  {
    var size := 2;
    if 0 < |domain.children| {
      size := size + 32;
      if 0 < |message.children| {
        size := size + 32;
      }
    }
    var data := new byte[size](_ => 0);
    CopyTo(data, 0, SIGN_IDENTIFIER);
    var ok := false;
    if 0 < |domain.children| {
      var status := HashStruct(c, domain, data, 2);
      ok := status == OK;
      assert data[..34] == data[..2] + data[2..34];
      if 0 < |message.children| {
        status := HashStruct(c, message, data, 34);
        ok := ok && status == OK;
        assert data[..] == data[..34] + data[34..66];
      }
    } else if message.structName == "EIP712Domain" {
      ok := true;
    }
    digest := if ok then Some(c.keccak(data[..])) else None;
    assert size == 34 ==> data[..] == data[..34];
    assert size == 2 ==> data[..] == data[..2];
  }

  // ---- What a digest commits to.

  /** Every byte string that Keccak is applied to when n is encoded as a member. */
  ghost function Hashed(c: Crypto, n: Node): set<seq<byte>>
    requires Sized(n) && Encodable(c, n)
    decreases n, 1
  {
    if n.kind.Array? then {Members(c, n.children)} + HashedIn(c, n.children)
    else if n.kind.Struct? then {n.typeHash + Members(c, n.children)} + HashedIn(c, n.children)
    else if IsDynamic(n) then {Payload(n)}
    else {}
  }

  ghost function HashedIn(c: Crypto, nodes: seq<Node>): set<seq<byte>>
    requires (forall x <- nodes :: Sized(x)) && AllEncodable(c, nodes)
    decreases nodes, 0
  {
    if nodes == [] then {} else
      var k := |nodes| - 1;
      HashedIn(c, nodes[..k]) + Hashed(c, nodes[k])
  }

  ghost predicate NoCollision(h: Hash, inputs: set<seq<byte>>) {
    forall x <- inputs, y <- inputs :: h(x) == h(y) ==> x == y
  }

  /** Trees of one declared type: they may differ in leaf values, type hashes and array lengths. */
  predicate SameShape(a: Node, b: Node) {
    && a.kind == b.kind && IsDynamic(a) == IsDynamic(b)
    && (a.kind.Struct? ==> |a.children| == |b.children|)
    && forall i, j | 0 <= i < |a.children| && 0 <= j < |b.children| && (a.kind.Struct? ==> i == j) ::
         SameShape(a.children[i], b.children[j])
  }

  /** The two trees say the same: equal type hashes, array lengths and encoded leaf values. */
  ghost predicate SaysTheSame(c: Crypto, a: Node, b: Node)
    requires Sized(a) && Sized(b) && Encodable(c, a) && Encodable(c, b)
  {
    if a.kind.Array? || a.kind.Struct? then
      && a.kind == b.kind && |a.children| == |b.children| && (a.kind.Struct? ==> a.typeHash == b.typeHash)
      && forall i | 0 <= i < |a.children| :: SaysTheSame(c, a.children[i], b.children[i])
    else if a.kind.Unknown? then b.kind.Unknown?
    else if IsDynamic(a) then IsDynamic(b) && Payload(a) == Payload(b)
    else a.kind == b.kind && !IsDynamic(b) && c.abi(a.kind, Payload(a)) == c.abi(b.kind, Payload(b))
  }

  /** Unless Keccak collides on the strings hashed on the way, equal encodings of two trees of one
      type mean that the trees say the same. */
  lemma {:induction false} EncodingCommits(c: Crypto, a: Node, b: Node)
    requires Sized(a) && Sized(b) && Encodable(c, a) && Encodable(c, b) && SameShape(a, b)
    requires NoCollision(c.keccak, Hashed(c, a) + Hashed(c, b))
    requires Member(c, a) == Member(c, b)
    ensures SaysTheSame(c, a, b)
    decreases a, 1
  {
    if a.kind.Array? || a.kind.Struct? {
      var ma, mb := Members(c, a.children), Members(c, b.children);
      if a.kind.Array? {
        assert ma in Hashed(c, a) && mb in Hashed(c, b);
      } else {
        assert a.typeHash + ma in Hashed(c, a) && b.typeHash + mb in Hashed(c, b);
        assert a.typeHash == (a.typeHash + ma)[..32] && b.typeHash == (b.typeHash + mb)[..32];
        assert ma == (a.typeHash + ma)[32..] && mb == (b.typeHash + mb)[32..];
      }
      MembersCommit(c, a.children, b.children);
    }
  }

  lemma LastMember(c: Crypto, nodes: seq<Node>)
    requires nodes != [] && (forall x <- nodes :: Sized(x)) && AllEncodable(c, nodes)
    ensures var k := |nodes| - 1;
      && AllEncodable(c, nodes[..k]) && Encodable(c, nodes[k])
      && Members(c, nodes[..k]) == Members(c, nodes)[..32 * k] && Member(c, nodes[k]) == Members(c, nodes)[32 * k..]
  {
    hide Member, Encodable;
  }

  lemma {:induction false} MembersCommit(c: Crypto, as_: seq<Node>, bs: seq<Node>)
    requires (forall x <- as_ :: Sized(x)) && AllEncodable(c, as_)
    requires (forall x <- bs :: Sized(x)) && AllEncodable(c, bs)
    requires |as_| == |bs| && forall i | 0 <= i < |as_| :: SameShape(as_[i], bs[i])
    requires NoCollision(c.keccak, HashedIn(c, as_) + HashedIn(c, bs))
    requires Members(c, as_) == Members(c, bs)
    ensures forall i | 0 <= i < |as_| :: SaysTheSame(c, as_[i], bs[i])
    decreases as_, 0
  {
    if as_ != [] {
      var k := |as_| - 1;
      var ma, mb := Members(c, as_[..k]), Members(c, bs[..k]);
      LastMember(c, as_);
      LastMember(c, bs);
      MembersCommit(c, as_[..k], bs[..k]);
      EncodingCommits(c, as_[k], bs[k]);
      forall i | 0 <= i < |as_| ensures SaysTheSame(c, as_[i], bs[i]) {
        if i < k { assert SaysTheSame(c, as_[..k][i], bs[..k][i]); }
      }
    }
  }

  lemma StructMember(c: Crypto, n: Node)
    requires Sized(n) && n.kind.Struct? && Encodable(c, n)
    ensures Member(c, n) == HashOfStruct(c, n)
  {
  }

  /** One signed digest stands for one domain and one message of the given types. */
  lemma DigestCommits(c: Crypto, d1: Node, m1: Node, d2: Node, m2: Node)
    requires Sized(d1) && Sized(m1) && Sized(d2) && Sized(m2)
    requires IsStruct(c, d1) && IsStruct(c, m1) && IsStruct(c, d2) && IsStruct(c, m2)
    requires SameShape(d1, d2) && SameShape(m1, m2)
    requires DigestOf(c, d1, m1) == DigestOf(c, d2, m2)
    requires NoCollision(c.keccak, Hashed(c, d1) + Hashed(c, m1) + Hashed(c, d2) + Hashed(c, m2)
      + {SIGN_IDENTIFIER + HashOfStruct(c, d1) + HashOfStruct(c, m1),
         SIGN_IDENTIFIER + HashOfStruct(c, d2) + HashOfStruct(c, m2)})
    ensures SaysTheSame(c, d1, d2) && SaysTheSame(c, m1, m2)
  {
    hide Hashed, SaysTheSame, SameShape, Encodable, Sized, HashOfStruct;
    var x := SIGN_IDENTIFIER + HashOfStruct(c, d1) + HashOfStruct(c, m1);
    var y := SIGN_IDENTIFIER + HashOfStruct(c, d2) + HashOfStruct(c, m2);
    assert x == y;
    StructMember(c, d1);
    StructMember(c, d2);
    StructMember(c, m1);
    StructMember(c, m2);
    assert x[2..34] == Member(c, d1) && x[34..] == Member(c, m1);
    assert y[2..34] == Member(c, d2) && y[34..] == Member(c, m2);
    EncodingCommits(c, d1, d2);
    EncodingCommits(c, m1, m2);
  }
}
