/** The representation-independent hash of a request (hash_icp_transfer_request and
    hash_icp_read_state_request, apps/icp_app/icp_txn_helpers.c). */
module RequestHash {
  import opened Bytes

  datatype Pair = Pair(key: Digest, val: Digest)

  // ---- The order of memcmp, and sorting by it.

  /** memcmp(a, b, n) <= 0 for arrays of one length. */
  predicate AtMost(a: seq<byte>, b: seq<byte>) {
    a == [] || b == [] || a[0] < b[0] || (a[0] == b[0] && AtMost(a[1..], b[1..]))
  }

  lemma {:induction false} AtMostIsTotal(a: seq<byte>, b: seq<byte>)
    requires |a| == |b|
    ensures AtMost(a, b) || AtMost(b, a)
    ensures AtMost(a, b) && AtMost(b, a) ==> a == b
  {
    if a != [] {
      AtMostIsTotal(a[1..], b[1..]);
      assert a == [a[0]] + a[1..] && b == [b[0]] + b[1..];
    }
  }

  lemma {:induction false} AtMostIsTransitive(a: seq<byte>, b: seq<byte>, c: seq<byte>)
    requires |a| == |b| == |c| && AtMost(a, b) && AtMost(b, c)
    ensures AtMost(a, c)
  {
    if a != [] && a[0] == b[0] == c[0] {
      AtMostIsTransitive(a[1..], b[1..], c[1..]);
    }
  }

  predicate SortedByKey(pairs: seq<Pair>) {
    forall i, j | 0 <= i < j < |pairs| :: AtMost(pairs[i].key, pairs[j].key)
  }

  predicate DistinctKeys(pairs: seq<Pair>) {
    forall i, j | 0 <= i < j < |pairs| :: pairs[i].key != pairs[j].key
  }

  /** What qsort promises. */
  predicate IsSortOf(sorted: seq<Pair>, pairs: seq<Pair>) {
    SortedByKey(sorted) && multiset(sorted) == multiset(pairs)
  }

  function Insert(p: Pair, sorted: seq<Pair>): (r: seq<Pair>)
    requires SortedByKey(sorted)
    ensures IsSortOf(r, [p] + sorted) && |r| == |sorted| + 1
  {
    if sorted == [] then [p]
    else
      AtMostIsTotal(p.key, sorted[0].key);
      if AtMost(p.key, sorted[0].key) then
        FirstIsLeast(p, sorted);
        [p] + sorted
      else
        var rest := Insert(p, sorted[1..]);
        assert sorted == [sorted[0]] + sorted[1..];
        InsertedAbove(sorted[0], p, sorted[1..], rest);
        [sorted[0]] + rest
  }

  lemma FirstIsLeast(p: Pair, sorted: seq<Pair>)
    requires SortedByKey(sorted) && sorted != [] && AtMost(p.key, sorted[0].key)
    ensures SortedByKey([p] + sorted)
  {
    forall j | 0 <= j < |sorted| ensures AtMost(p.key, sorted[j].key) {
      if j > 0 { AtMostIsTransitive(p.key, sorted[0].key, sorted[j].key); }
    }
  }

  lemma InsertedAbove(first: Pair, p: Pair, tail: seq<Pair>, rest: seq<Pair>)
    requires SortedByKey([first] + tail) && AtMost(first.key, p.key)
    requires IsSortOf(rest, [p] + tail)
    ensures IsSortOf([first] + rest, [p] + ([first] + tail))
  {
    forall j | 0 <= j < |rest| ensures AtMost(first.key, rest[j].key) {
      assert rest[j] in multiset([p] + tail);
      if rest[j] != p {
        assert rest[j] in tail;
        var k :| 0 <= k < |tail| && tail[k] == rest[j];
        var all := [first] + tail;
        assert AtMost(all[0].key, all[k + 1].key);
      }
    }
  }

  /** The sorted pairs; by SortIsCanonical any other sorting algorithm gives the same. */
  function Sort(pairs: seq<Pair>): (r: seq<Pair>)
    ensures IsSortOf(r, pairs) && |r| == |pairs|
  {
    if pairs == [] then []
    else
      assert pairs == [pairs[0]] + pairs[1..];
      Insert(pairs[0], Sort(pairs[1..]))
  }

  /** Sorted sequences of the same pairs with distinct keys are the same sequence. */
  lemma {:induction false} SortIsCanonical(a: seq<Pair>, b: seq<Pair>)
    requires SortedByKey(a) && SortedByKey(b) && multiset(a) == multiset(b) && DistinctKeys(a)
    ensures a == b
    decreases |a|
  {
    hide AtMost;
    assert |a| == |multiset(a)| == |multiset(b)| == |b|;
    if a != [] {
      assert a[0] in multiset(b) && b[0] in multiset(a);
      SameLeast(a, b);
      TailMultiset(a);
      TailMultiset(b);
      SortIsCanonical(a[1..], b[1..]);
      assert a == [a[0]] + a[1..] && b == [b[0]] + b[1..];
    }
  }

  lemma TailMultiset(a: seq<Pair>)
    requires a != []
    ensures multiset(a[1..]) == multiset(a) - multiset{a[0]}
  {
    assert a == [a[0]] + a[1..];
  }

  lemma SameLeast(a: seq<Pair>, b: seq<Pair>)
    requires SortedByKey(a) && SortedByKey(b) && DistinctKeys(a) && a != [] && b != []
    requires a[0] in b && b[0] in a
    ensures a[0] == b[0]
  {
    var i :| 0 <= i < |a| && a[i] == b[0];
    var j :| 0 <= j < |b| && b[j] == a[0];
    if i > 0 {
      assert AtMost(a[0].key, a[i].key);
      if j > 0 { assert AtMost(b[0].key, b[j].key); }
      AtMostIsTotal(a[0].key, b[0].key);
      assert false;
    }
  }

  // ---- The hash.

  function Joined(pairs: seq<Pair>): (s: seq<byte>)
    ensures |s| == 64 * |pairs|
  {
    if pairs == [] then []
    else
      var k := |pairs| - 1;
      Joined(pairs[..k]) + (pairs[k].key + pairs[k].val)
  }

  /** The bytes that are hashed determine the pairs. */
  lemma {:induction false} JoinedIsInjective(a: seq<Pair>, b: seq<Pair>)
    requires Joined(a) == Joined(b)
    ensures a == b
  {
    assert |Joined(a)| == 64 * |a| && |Joined(b)| == 64 * |b|;
    if a != [] {
      var k := |a| - 1;
      LastPair(a);
      LastPair(b);
      JoinedIsInjective(a[..k], b[..k]);
      assert a == a[..k] + [a[k]] && b == b[..k] + [b[k]];
    }
  }

  lemma LastPair(a: seq<Pair>)
    requires a != []
    ensures var k := |a| - 1; var s := Joined(a);
      Joined(a[..k]) == s[..64 * k] && a[k].key == s[64 * k..64 * k + 32] && a[k].val == s[64 * k + 32..]
  {
    hide Joined;
    var k := |a| - 1;
    JoinedEnds(a);
    Parts(Joined(a[..k]), a[k].key, a[k].val);
  }

  lemma JoinedEnds(a: seq<Pair>)
    requires a != []
    ensures var k := |a| - 1; Joined(a) == Joined(a[..k]) + (a[k].key + a[k].val)
  {
  }

  /** Filling the fields in another order gives the same bytes, and only the same pairs do. */
  lemma BytesDependOnThePairsOnly(a: seq<Pair>, b: seq<Pair>)
    requires DistinctKeys(a)
    ensures Joined(Sort(a)) == Joined(Sort(b)) <==> multiset(a) == multiset(b)
  {
    if multiset(a) == multiset(b) {
      DistinctAfterSort(a);
      SortIsCanonical(Sort(a), Sort(b));
    }
    if Joined(Sort(a)) == Joined(Sort(b)) {
      JoinedIsInjective(Sort(a), Sort(b));
    }
  }

  lemma {:induction false} DistinctAfterSort(a: seq<Pair>)
    requires DistinctKeys(a)
    ensures DistinctKeys(Sort(a))
  {
    var s := Sort(a);
    forall i, j | 0 <= i < j < |s| ensures s[i].key != s[j].key {
      if s[i].key == s[j].key {
        assert s[i] in multiset(a) && s[j] in multiset(a);
        assert s[i] == s[j] by {
          var k :| 0 <= k < |a| && a[k] == s[i];
          var l :| 0 <= l < |a| && a[l] == s[j];
          assert k == l;
        }
        TwiceInSeq(s, i, j);
        OnceInDistinct(a, s[i]);
      }
    }
  }

  lemma TwiceInSeq(s: seq<Pair>, i: nat, j: nat)
    requires i < j < |s| && s[i] == s[j]
    ensures multiset(s)[s[i]] >= 2
  {
    assert s == s[..i] + [s[i]] + s[i + 1..j] + [s[j]] + s[j + 1..];
  }

  lemma {:induction false} OnceInDistinct(a: seq<Pair>, p: Pair)
    requires DistinctKeys(a)
    ensures multiset(a)[p] <= 1
  {
    if a != [] {
      OnceInDistinct(a[1..], p);
      assert a == [a[0]] + a[1..];
      forall k | 0 <= k < |a[1..]| ensures a[1..][k].key != a[0].key {
        assert a[1..][k] == a[k + 1];
      }
    }
  }

  // ---- The two requests.

  function Ascii(s: string): seq<byte> {
    seq(|s|, i requires 0 <= i < |s| => s[i] as int % 256)
  }

  function PairOf(h: Hash, name: string, val: seq<byte>): Pair {
    Pair(h(Ascii(name)), h(val))
  }

  /** "Request ids" of the Internet Computer interface: hash of the sorted, joined pairs. */
  function RequestId(h: Hash, pairs: seq<Pair>): Digest {
    h(Joined(Sort(pairs)))
  }

  /** The id is a function of the fields, not of the order they are filled in. */
  lemma OrderDoesNotMatter(h: Hash, a: seq<Pair>, b: seq<Pair>)
    requires DistinctKeys(a) && multiset(a) == multiset(b)
    ensures RequestId(h, a) == RequestId(h, b)
  {
    BytesDependOnThePairsOnly(a, b);
  }

  datatype TransferRequest = TransferRequest(requestType: seq<byte>, canisterId: seq<byte>, methodName: seq<byte>,
    sender: seq<byte>, ingressExpiry: seq<byte>, nonce: seq<byte>, arg: seq<byte>)

  const MAX_CONCATENATED := 512

  lemma OneMorePair(pairs: seq<Pair>, i: nat)
    requires i < |pairs|
    ensures Joined(pairs[..i + 1]) == Joined(pairs[..i]) + (pairs[i].key + pairs[i].val)
  {
    assert pairs[..i + 1][..i] == pairs[..i];
  }

  /** qsort: what it does with these pairs is some sorting of them. */
  type QSort = seq<Pair> -> seq<Pair>

  ghost predicate Sorts(qsort: QSort) {
    forall pairs: seq<Pair> :: IsSortOf(qsort(pairs), pairs)
  }

  lemma SortedAsSort(qsort: QSort, pairs: seq<Pair>)
    requires Sorts(qsort)
    ensures |qsort(pairs)| == |pairs|
    ensures DistinctKeys(pairs) ==> qsort(pairs) == Sort(pairs)
  {
    hide SortedByKey;
    assert IsSortOf(qsort(pairs), pairs);
    assert |multiset(qsort(pairs))| == |multiset(pairs)|;
    if DistinctKeys(pairs) {
      DistinctAfterSort(pairs);
      SortIsCanonical(Sort(pairs), qsort(pairs));
    }
  }

  /** The common end of both functions: qsort, memcpy of every pair into a fixed buffer, SHA-256. */
  method HashPairs(h: Hash, qsort: QSort, pairs: seq<Pair>) returns (hash: Digest)
    requires Sorts(qsort) && 64 * |pairs| <= MAX_CONCATENATED
    ensures hash == h(Joined(qsort(pairs)))
    ensures DistinctKeys(pairs) ==> hash == RequestId(h, pairs)
  {
    hide Joined, Sorts, DistinctKeys, Sort;
    var sorted := qsort(pairs);
    SortedAsSort(qsort, pairs);
    var concatenated := new byte[MAX_CONCATENATED](_ => 0);
    var offset := 0;
    for i := 0 to |sorted|
      invariant offset == 64 * i
      invariant concatenated[..offset] == Joined(sorted[..i])
    {
      ghost var done := concatenated[..offset];
      var piece := sorted[i].key + sorted[i].val;
      CopyTo(concatenated, offset, piece);
      assert concatenated[..offset + 64] == done + piece;
      OneMorePair(sorted, i);
      offset := offset + 64;
    }
    assert sorted[..|sorted|] == sorted;
    hash := h(concatenated[..offset]);
  }

  /** The key hashes of these field names differ. */
  predicate Apart(h: Hash, names: seq<string>) {
    forall i, j | 0 <= i < j < |names| :: h(Ascii(names[i])) != h(Ascii(names[j]))
  }

  const TRANSFER_NAMES := ["request_type", "canister_id", "method_name", "sender", "ingress_expiry", "nonce", "arg"]
  const READ_STATE_NAMES := ["request_type", "sender", "ingress_expiry", "paths"]

  /** Field by field the pairs have the hashes of the names as keys. */
  predicate Named(h: Hash, names: seq<string>, pairs: seq<Pair>) {
    |pairs| == |names| && forall i | 0 <= i < |names| :: pairs[i].key == h(Ascii(names[i]))
  }

  lemma NamesTellPairsApart(h: Hash, names: seq<string>, pairs: seq<Pair>)
    requires Named(h, names, pairs)
    ensures DistinctKeys(pairs) <==> Apart(h, names)
  {
    hide Ascii;
    if Apart(h, names) {
      forall i, j | 0 <= i < j < |pairs| ensures pairs[i].key != pairs[j].key {
        assert h(Ascii(names[i])) != h(Ascii(names[j]));
      }
    }
    if DistinctKeys(pairs) {
      forall i, j | 0 <= i < j < |names| ensures h(Ascii(names[i])) != h(Ascii(names[j])) {
        assert pairs[i].key != pairs[j].key;
      }
    }
  }

  /** hash_icp_transfer_request. */
  method HashTransferRequest(h: Hash, qsort: QSort, r: TransferRequest) returns (hash: Digest)
    requires Sorts(qsort)
    ensures hash == h(Joined(qsort(TransferPairs(h, r))))
    ensures Apart(h, TRANSFER_NAMES) ==> hash == RequestId(h, TransferPairs(h, r))
  {
    hide RequestId, Sorts, Apart, DistinctKeys, Joined, Ascii;
    var pairs := [];
    pairs := pairs + [PairOf(h, "request_type", r.requestType)];
    pairs := pairs + [PairOf(h, "canister_id", r.canisterId)];
    pairs := pairs + [PairOf(h, "method_name", r.methodName)];
    pairs := pairs + [PairOf(h, "sender", r.sender)];
    pairs := pairs + [PairOf(h, "ingress_expiry", r.ingressExpiry)];
    pairs := pairs + [PairOf(h, "nonce", r.nonce)];
    pairs := pairs + [PairOf(h, "arg", r.arg)];
    assert pairs == TransferPairs(h, r);
    NamesTellPairsApart(h, TRANSFER_NAMES, pairs);
    hash := HashPairs(h, qsort, pairs);
  }

  function TransferPairs(h: Hash, r: TransferRequest): seq<Pair> {
    [PairOf(h, "request_type", r.requestType), PairOf(h, "canister_id", r.canisterId),
     PairOf(h, "method_name", r.methodName), PairOf(h, "sender", r.sender),
     PairOf(h, "ingress_expiry", r.ingressExpiry), PairOf(h, "nonce", r.nonce), PairOf(h, "arg", r.arg)]
  }

  datatype ReadStateRequest = ReadStateRequest(requestType: string, sender: seq<byte>, ingressExpiry: seq<byte>,
    paths: seq<seq<seq<byte>>>)

  /** The hashes of the items, joined. */
  function HashAll(h: Hash, items: seq<seq<byte>>): (s: seq<byte>)
    ensures |s| == 32 * |items|
  {
    if items == [] then [] else HashAll(h, items[..|items| - 1]) + h(items[|items| - 1])
  }

  /** A list hashes like its joined element hashes; a path is a list of segments. */
  function HashPaths(h: Hash, paths: seq<seq<seq<byte>>>): (s: seq<byte>)
    ensures |s| == 32 * |paths|
  {
    if paths == [] then []
    else HashPaths(h, paths[..|paths| - 1]) + h(HashAll(h, paths[|paths| - 1]))
  }

  /** The nested loops over paths and their segments. */
  method HashAllPaths(h: Hash, paths: seq<seq<seq<byte>>>) returns (pathHashes: seq<byte>)
    ensures pathHashes == HashPaths(h, paths)
  {
    pathHashes := [];
    for p := 0 to |paths|
      invariant pathHashes == HashPaths(h, paths[..p])
    {
      var segments := paths[p];
      var segmentHashes: seq<byte> := [];
      for s := 0 to |segments|
        invariant segmentHashes == HashAll(h, segments[..s])
      {
        assert segments[..s + 1][..s] == segments[..s];
        segmentHashes := segmentHashes + h(segments[s]);
      }
      assert segments[..|segments|] == segments;
      assert paths[..p + 1][..p] == paths[..p];
      pathHashes := pathHashes + h(segmentHashes);
    }
    assert paths[..|paths|] == paths;
  }

  function ReadStatePairs(h: Hash, r: ReadStateRequest): seq<Pair> {
    [PairOf(h, "request_type", Ascii(r.requestType)), PairOf(h, "sender", r.sender),
     PairOf(h, "ingress_expiry", r.ingressExpiry), PairOf(h, "paths", HashPaths(h, r.paths))]
  }

  /** hash_icp_read_state_request. */
  method HashReadStateRequest(h: Hash, qsort: QSort, r: ReadStateRequest) returns (hash: Digest)
    requires Sorts(qsort)
    ensures hash == h(Joined(qsort(ReadStatePairs(h, r))))
    ensures Apart(h, READ_STATE_NAMES) ==> hash == RequestId(h, ReadStatePairs(h, r))
  {
    hide RequestId, Sorts, Apart, DistinctKeys, Joined, Ascii, HashPaths;
    var pairs := [];
    pairs := pairs + [PairOf(h, "request_type", Ascii(r.requestType))];
    pairs := pairs + [PairOf(h, "sender", r.sender)];
    pairs := pairs + [PairOf(h, "ingress_expiry", r.ingressExpiry)];
    var pathHashes := HashAllPaths(h, r.paths);
    pairs := pairs + [PairOf(h, "paths", pathHashes)];
    assert pairs == ReadStatePairs(h, r);
    NamesTellPairsApart(h, READ_STATE_NAMES, pairs);
    hash := HashPairs(h, qsort, pairs);
  }

  // ---- The requests in full.

  predicate LessAt(a: seq<byte>, b: seq<byte>, i: nat)
    requires |a| == |b|
  {
    i < |a| && a[..i] == b[..i] && a[i] < b[i]
  }

  lemma LessAtNext(a: seq<byte>, b: seq<byte>, i: nat)
    requires |a| == |b| > 0
    ensures LessAt(a, b, i + 1) <==> a[0] == b[0] && LessAt(a[1..], b[1..], i)
    ensures LessAt(a, b, 0) <==> a[0] < b[0]
  {
    if i + 1 < |a| {
      assert a[..i + 1] == [a[0]] + a[1..][..i] && b[..i + 1] == [b[0]] + b[1..][..i];
    }
  }

  /** memcmp: the first byte that differs decides. */
  lemma {:induction false} FirstDifferenceDecides(a: seq<byte>, b: seq<byte>)
    requires |a| == |b|
    ensures AtMost(a, b) <==> a == b || exists i: nat :: LessAt(a, b, i)
  {
    hide LessAt;
    if a == [] {
      forall i: nat ensures !LessAt(a, b, i) {
        NothingIsLess(i);
      }
    } else {
      FirstDifferenceDecides(a[1..], b[1..]);
      assert a == [a[0]] + a[1..] && b == [b[0]] + b[1..];
      LessAtNext(a, b, 0);
      if i: nat :| LessAt(a, b, i) {
        if i > 0 { LessAtNext(a, b, i - 1); }
      }
      if i: nat :| LessAt(a[1..], b[1..], i) {
        LessAtNext(a, b, i);
      }
    }
  }

  lemma NothingIsLess(i: nat)
    ensures !LessAt([], [], i)
  {
  }

  /** 64 bytes a pair: key, then value. */
  lemma {:induction false} JoinedAt(pairs: seq<Pair>, k: nat)
    requires k < |pairs|
    ensures Joined(pairs)[64 * k..64 * k + 32] == pairs[k].key
    ensures Joined(pairs)[64 * k + 32..64 * k + 64] == pairs[k].val
    decreases |pairs|
  {
    hide Joined;
    var n := |pairs| - 1;
    LastPair(pairs);
    if k < n {
      JoinedAt(pairs[..n], k);
      var s, t := Joined(pairs), Joined(pairs[..n]);
      assert t[64 * k..64 * k + 32] == s[64 * k..64 * k + 32];
      assert t[64 * k + 32..64 * k + 64] == s[64 * k + 32..64 * k + 64];
    }
  }

  /** The field stands in s with its hashed name before its hashed value. */
  predicate Stands(h: Hash, s: seq<byte>, name: string, val: seq<byte>) {
    exists i | 0 <= i < |s| / 64 :: s[64 * i..64 * i + 32] == h(Ascii(name)) && s[64 * i + 32..64 * i + 64] == h(val)
  }

  lemma IdInFull(h: Hash, pairs: seq<Pair>) returns (s: seq<byte>)
    ensures RequestId(h, pairs) == h(s) && |s| == 64 * |pairs|
    ensures forall i, j | 0 <= i < j < |pairs| :: AtMost(s[64 * i..64 * i + 32], s[64 * j..64 * j + 32])
    ensures forall p <- pairs ::
      exists i | 0 <= i < |pairs| :: s[64 * i..64 * i + 32] == p.key && s[64 * i + 32..64 * i + 64] == p.val
  {
    hide Joined, AtMost, Sort;
    var sorted := Sort(pairs);
    s := Joined(sorted);
    forall i, j | 0 <= i < j < |pairs| ensures AtMost(s[64 * i..64 * i + 32], s[64 * j..64 * j + 32]) {
      JoinedAt(sorted, i);
      JoinedAt(sorted, j);
    }
    forall p | p in pairs
      ensures exists i | 0 <= i < |pairs| :: s[64 * i..64 * i + 32] == p.key && s[64 * i + 32..64 * i + 64] == p.val
    {
      assert p in multiset(pairs) && p in multiset(sorted);
      var i :| 0 <= i < |sorted| && sorted[i] == p;
      JoinedAt(sorted, i);
    }
  }

  /** The id of a call request hashes seven fields, 64 bytes each, by ascending name hash. */
  lemma TransferIdInFull(h: Hash, r: TransferRequest) returns (s: seq<byte>)
    ensures RequestId(h, TransferPairs(h, r)) == h(s) && |s| == 448
    ensures forall i, j | 0 <= i < j < 7 :: AtMost(s[64 * i..64 * i + 32], s[64 * j..64 * j + 32])
    ensures Stands(h, s, "request_type", r.requestType) && Stands(h, s, "canister_id", r.canisterId)
    ensures Stands(h, s, "method_name", r.methodName) && Stands(h, s, "sender", r.sender)
    ensures Stands(h, s, "ingress_expiry", r.ingressExpiry) && Stands(h, s, "nonce", r.nonce)
    ensures Stands(h, s, "arg", r.arg)
  {
    hide RequestId, AtMost, Ascii;
    var pairs := TransferPairs(h, r);
    s := IdInFull(h, pairs);
    assert pairs[0] in pairs && pairs[1] in pairs && pairs[2] in pairs && pairs[3] in pairs;
    assert pairs[4] in pairs && pairs[5] in pairs && pairs[6] in pairs;
  }

  /** The id of a read-state request hashes four; the paths count as a list of lists. */
  lemma ReadStateIdInFull(h: Hash, r: ReadStateRequest) returns (s: seq<byte>)
    ensures RequestId(h, ReadStatePairs(h, r)) == h(s) && |s| == 256
    ensures forall i, j | 0 <= i < j < 4 :: AtMost(s[64 * i..64 * i + 32], s[64 * j..64 * j + 32])
    ensures Stands(h, s, "request_type", Ascii(r.requestType)) && Stands(h, s, "sender", r.sender)
    ensures Stands(h, s, "ingress_expiry", r.ingressExpiry) && Stands(h, s, "paths", HashPaths(h, r.paths))
  {
    hide RequestId, AtMost, Ascii, HashPaths;
    var pairs := ReadStatePairs(h, r);
    s := IdInFull(h, pairs);
    assert pairs[0] in pairs && pairs[1] in pairs && pairs[2] in pairs && pairs[3] in pairs;
  }

  /** A path's segments are hashed and joined, and so are the hashes of the paths. */
  lemma {:induction false} PathsInFull(h: Hash, paths: seq<seq<seq<byte>>>, k: nat)
    requires k < |paths|
    ensures HashPaths(h, paths)[32 * k..32 * k + 32] == h(HashAll(h, paths[k]))
  {
    var n := |paths| - 1;
    var front := HashPaths(h, paths[..n]);
    if k < n {
      PathsInFull(h, paths[..n], k);
      assert HashPaths(h, paths)[32 * k..32 * k + 32] == front[32 * k..32 * k + 32];
    }
  }

  lemma {:induction false} SegmentsInFull(h: Hash, items: seq<seq<byte>>, k: nat)
    requires k < |items|
    ensures HashAll(h, items)[32 * k..32 * k + 32] == h(items[k])
  {
    var n := |items| - 1;
    var front := HashAll(h, items[..n]);
    if k < n {
      SegmentsInFull(h, items[..n], k);
      assert HashAll(h, items)[32 * k..32 * k + 32] == front[32 * k..32 * k + 32];
    }
  }

  lemma AsciiInFull()
    ensures Ascii("arg") == [0x61, 0x72, 0x67] && Ascii("sender") == [0x73, 0x65, 0x6e, 0x64, 0x65, 0x72]
  {
  }
}
