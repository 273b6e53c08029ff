/** Signed integers of typed data (twos_complement_of_byte_array and the EVM_EIP_712_DATA_TYPE_INT
    case of fill_string_with_data, apps/evm_family/eip712_utils.c). */
module TwosComplement {
  import opened Bytes

  /** The big-endian two's complement number that s denotes. */
  function SignedBE(s: seq<byte>): int {
    if s != [] && s[0] >= 128 then FromBE(s) - Pow256(|s|) else FromBE(s)
  }

  lemma Times(a: int, b: int, p: nat)
    requires a <= b
    ensures a * p <= b * p
  {
  }

  lemma Times256(a: int, p: nat)
    ensures a * (256 * p) == 256 * (a * p)
  {
  }

  lemma OneMorePower(k: nat)
    ensures Pow256(k + 1) == 256 * Pow256(k) && Pow256(0) == 1
  {
  }

  lemma LastByte(s: seq<byte>)
    requires s != []
    ensures FromBE(s) == FromBE(s[..|s| - 1]) * 256 + s[|s| - 1] && FromBE([]) == 0
  {
  }

  lemma {:induction false} FirstByteWeighsMost(s: seq<byte>)
    requires s != []
    ensures s[0] as int * Pow256(|s| - 1) <= FromBE(s) < (s[0] as int + 1) * Pow256(|s| - 1)
  {
    hide FromBE, Pow256;
    var front := s[..|s| - 1];
    LastByte(s);
    OneMorePower(0);
    if |s| == 1 {
      assert front == [];
    } else {
      FirstByteWeighsMost(front);
      var p := Pow256(|s| - 2);
      OneMorePower(|s| - 2);
      Times256(s[0], p);
      Times256(s[0] as int + 1, p);
    }
  }

  /** It is the one number from -128 * 256^(n-1) to 128 * 256^(n-1) - 1 that differs from the unsigned one
      by 256^n or nothing. */
  lemma SignedRangeOfBytes(s: seq<byte>)
    requires s != []
    ensures -128 * Pow256(|s| - 1) <= SignedBE(s) < 128 * Pow256(|s| - 1)
    ensures SignedBE(s) == FromBE(s) || SignedBE(s) == FromBE(s) - 256 * Pow256(|s| - 1)
  {
    hide FromBE, Pow256;
    FirstByteWeighsMost(s);
    var p := Pow256(|s| - 1);
    OneMorePower(|s| - 1);
    if s[0] >= 128 {
      Times(128, s[0], p);
      Times(s[0] as int + 1, 256, p);
    } else {
      Times(0, s[0], p);
      Times(s[0] as int + 1, 128, p);
    }
  }

  function Flip(s: seq<byte>): (r: seq<byte>)
    ensures |r| == |s|
  {
    if s == [] then [] else Flip(s[..|s| - 1]) + [255 - s[|s| - 1]]
  }

  predicate AllOnes(s: seq<byte>) {
    forall i | 0 <= i < |s| :: s[i] == 255
  }

  function Increment(s: seq<byte>): (r: seq<byte>)
    ensures |r| == |s|
  {
    if s == [] then []
    else
      var front, last := s[..|s| - 1], s[|s| - 1];
      if last == 255 then Increment(front) + [0] else front + [last + 1]
  }

  lemma {:induction false} FlipValue(s: seq<byte>)
    ensures FromBE(Flip(s)) == Pow256(|s|) - 1 - FromBE(s)
  {
    if s != [] {
      FlipValue(s[..|s| - 1]);
      assert Flip(s)[..|s| - 1] == Flip(s[..|s| - 1]);
    }
  }

  lemma {:induction false} FlipAt(s: seq<byte>, k: nat)
    requires k < |s|
    ensures Flip(s)[k] == 255 - s[k]
  {
    if k < |s| - 1 {
      FlipAt(s[..|s| - 1], k);
    }
  }

  lemma {:induction false} IncrementValue(s: seq<byte>)
    requires !AllOnes(s)
    ensures FromBE(Increment(s)) == FromBE(s) + 1
  {
    var front, last := s[..|s| - 1], s[|s| - 1];
    if last == 255 {
      assert !AllOnes(front);
      IncrementValue(front);
      assert Increment(s)[..|s| - 1] == Increment(front);
    } else {
      assert Increment(s)[..|s| - 1] == front;
    }
  }

  /** A carry runs through trailing ones, which become zeros. */
  lemma {:induction false} CarryRuns(s: seq<byte>, k: nat)
    requires k <= |s| && AllOnes(s[k..])
    ensures Increment(s) == Increment(s[..k]) + Zeros(|s| - k)
  {
    if k == |s| {
      assert s[..k] == s;
    } else {
      var front := s[..|s| - 1];
      assert front[k..] == s[k..][..|s| - 1 - k] && front[..k] == s[..k] && s[|s| - 1] == s[k..][|s| - 1 - k];
      CarryRuns(front, k);
      assert Zeros(|s| - 1 - k) + [0] == Zeros(|s| - k);
    }
  }

  lemma Bumped(s: seq<byte>)
    requires s != [] && s[|s| - 1] < 255
    ensures Increment(s) == s[..|s| - 1] + [s[|s| - 1] + 1]
  {
  }

  method FlipBits(arr: array<byte>, size: nat)
    requires size <= arr.Length
    modifies arr
    ensures arr[..size] == Flip(old(arr[..size])) && arr[size..] == old(arr[size..])
  {
    hide Flip;
    ghost var was := arr[..size];
    for i := 0 to size
      invariant forall k | 0 <= k < i :: arr[k] == Flip(was)[k]
      invariant forall k | i <= k < size :: arr[k] == was[k]
      invariant arr[size..] == old(arr[size..])
    {
      FlipAt(was, i);
      arr[i] := 255 - arr[i];
    }
  }

  /** Some byte is not 255, so the loop ends with `break` before its unsigned index would go
      below 0. */
  method AddOne(arr: array<byte>, size: nat)
    requires size <= arr.Length && !AllOnes(arr[..size])
    modifies arr
    ensures arr[..size] == Increment(old(arr[..size])) && arr[size..] == old(arr[size..])
  {
    hide Increment;
    ghost var was := arr[..size];
    var i := size - 1;
    while true
      invariant 0 <= i < size && AllOnes(was[i + 1..])
      invariant arr[..i + 1] == was[..i + 1]
      invariant arr[i + 1..size] == Zeros(size - i - 1)
      invariant arr[size..] == old(arr[size..])
      decreases i
    {
      ghost var head := was[..i + 1];
      assert head[i] == was[i] == arr[..i + 1][i];
      if arr[i] != 255 {
        arr[i] := arr[i] + 1;
        CarryRuns(was, i + 1);
        Bumped(head);
        assert arr[..i + 1] == head[..i] + [head[i] + 1];
        assert arr[..size] == arr[..i + 1] + arr[i + 1..size] == Increment(was);
        break;
      }
      assert forall k | i <= k < size :: was[k] == 255 by {
        assert forall k | i < k < size :: was[k] == was[i + 1..][k - i - 1];
      }
      arr[i] := 0;
      assert arr[i..size] == [0] + arr[i + 1..size] == Zeros(size - i);
      i := i - 1;
    }
  }

  /** twos_complement_of_byte_array: the new number is 256^size minus the old. */
  method TwosComplementOfByteArray(arr: array<byte>, size: nat)
    requires size <= arr.Length && exists k | 0 <= k < size :: arr[k] != 0
    modifies arr
    ensures FromBE(arr[..size]) == Pow256(size) - FromBE(old(arr[..size]))
    ensures arr[size..] == old(arr[size..])
  {
    hide FromBE, Pow256, Increment, Flip;
    ghost var was := arr[..size];
    ghost var k :| 0 <= k < size && was[k] != 0;
    FlipAt(was, k);
    FlipValue(was);
    IncrementValue(Flip(was));
    FlipBits(arr, size);
    AddOne(arr, size);
  }

  /** The sign and the magnitude shown for an int of `size` bytes: together they are the number. */
  method ShownInt(bytes: seq<byte>, size: nat) returns (negative: bool, magnitude: seq<byte>)
    requires |bytes| >= 32 && size <= 32 && (size == 0 ==> bytes[0] < 128)
    ensures |magnitude| == size
    ensures SignedBE(bytes[..size]) == if negative then -(FromBE(magnitude) as int) else FromBE(magnitude)
    ensures negative <==> SignedBE(bytes[..size]) < 0
  {
    hide FromBE, Pow256;
    var copy := new byte[32](_ => 0);
    CopyTo(copy, 0, bytes[..32]);
    assert copy[..size] == bytes[..size];
    negative := false;
    FromBEBound(bytes[..size]);
    if copy[0] >= 128 {
      assert copy[0] != 0;
      TwosComplementOfByteArray(copy, size);
      negative := true;
    }
    magnitude := copy[..size];
  }
}
