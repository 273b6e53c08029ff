/** Kryo string framing (encode_var_length and kryo_serialize,
    apps/constellation_app/constellation_helpers.c). Bits or-ed into clear bits are added here. */
module Kryo {
  import opened Bytes
  import opened Leb128

  /** The length code, for numbers of any size: six bits with the flag 0x80 and the continuation
      flag 0x40, then the rest in groups of seven. */
  function Code(value: nat): (code: seq<byte>)
  {
    if value < 64 then [value + 128] else [value % 64 + 192] + Leb(value / 64)
  }

  /** The number whose code starts s, and how long that code is. */
  function ReadCode(s: seq<byte>): Option<(nat, nat)> {
    if s == [] || s[0] < 128 then None
    else if s[0] < 192 then Some((s[0] - 128, 1))
    else match Span(s[1..])
      case None => None
      case Some(k) => if k < |s| then Some((s[0] - 192 + 64 * Groups(s[1..k + 1]), k + 1)) else None
  }

  function Frame(msg: seq<byte>): (output: seq<byte>) {
    [3] + Code((|msg| + 1) % U32) + msg
  }

  /** The message at the start of s, and how many bytes of s its frame takes. */
  function ReadFrame(s: seq<byte>): Option<(seq<byte>, nat)> {
    if s == [] || s[0] != 3 then None
    else match ReadCode(s[1..])
      case None => None
      case Some((value, used)) =>
        if 1 <= value <= |s| - used
        then Some((s[used + 1..used + value], used + value))
        else None
  }

  lemma CodeReads(value: nat, rest: seq<byte>)
    ensures ReadCode(Code(value) + rest) == Some((value, |Code(value)|))
  {
    hide Leb, Span, Groups;
    if value >= 64 {
      var more := Leb(value / 64);
      LebReads(value / 64, rest);
      assert (Code(value) + rest)[1..] == more + rest;
      assert (Code(value) + rest)[1..|more| + 1] == more;
    }
  }

  /** No code is the beginning of another. */
  lemma CodesAreSelfDelimiting(v: nat, w: nat, a: seq<byte>, b: seq<byte>)
    requires Code(v) + a == Code(w) + b
    ensures v == w && a == b
  {
    hide Code, ReadCode;
    CodeReads(v, a);
    CodeReads(w, b);
    assert (Code(v) + a)[|Code(v)|..] == a && (Code(w) + b)[|Code(w)|..] == b;
  }

  lemma FrameReads(msg: seq<byte>, rest: seq<byte>)
    requires |msg| + 1 < U32
    ensures ReadFrame(Frame(msg) + rest) == Some((msg, |Frame(msg)|))
    ensures |Frame(msg)| == 1 + |Code(|msg| + 1)| + |msg|
  {
    hide Code, ReadCode;
    var code := Code(|msg| + 1);
    CodeReads(|msg| + 1, msg + rest);
    var s := Frame(msg) + rest;
    assert s[1..] == code + (msg + rest);
    assert s[1 + |code|..1 + |code| + |msg|] == msg;
  }

  /** The length is cut to 32 bits, so a frame is read back exactly when its length fits. */
  lemma FrameRoundTrip(msg: seq<byte>)
    ensures ReadFrame(Frame(msg)) == Some((msg, |Frame(msg)|)) <==> |msg| + 1 < U32
  {
    hide Code, ReadCode;
    assert Frame(msg) + [] == Frame(msg);
    if |msg| + 1 < U32 {
      FrameReads(msg, []);
    } else {
      CodeReads((|msg| + 1) % U32, msg);
      assert Frame(msg)[1..] == Code((|msg| + 1) % U32) + msg;
    }
  }

  /** Frames of different messages differ, even when more bytes follow. */
  lemma FramesAreInjective(m: seq<byte>, n: seq<byte>, a: seq<byte>, b: seq<byte>)
    requires |m| + 1 < U32 && |n| + 1 < U32
    requires Frame(m) + a == Frame(n) + b
    ensures m == n && a == b
  {
    hide Frame, ReadFrame;
    FrameReads(m, a);
    FrameReads(n, b);
    assert (Frame(m) + a)[|Frame(m)|..] == a && (Frame(n) + b)[|Frame(n)|..] == b;
  }

  // ---- The C functions.

  lemma TwoGroups(u: nat)
    requires 0x80 <= u < 0x4000
    ensures Leb(u) == [u % 128 + 128, u / 128]
  {
    hide Leb;
    LebSplits(u);
    LebSplits(u / 128);
  }

  lemma ThreeGroups(u: nat)
    requires 0x4000 <= u < 0x20_0000
    ensures Leb(u) == [u % 128 + 128, u / 128 % 128 + 128, u / 0x4000]
  {
    hide Leb;
    LebSplits(u);
    TwoGroups(u / 128);
    assert u / 128 / 128 == u / 0x4000;
  }

  lemma FourGroups(u: nat)
    requires 0x20_0000 <= u < 0x1000_0000
    ensures Leb(u) == [u % 128 + 128, u / 128 % 128 + 128, u / 0x4000 % 128 + 128, u / 0x20_0000]
  {
    hide Leb;
    LebSplits(u);
    ThreeGroups(u / 128);
    assert u / 128 / 128 == u / 0x4000 && u / 128 / 0x4000 == u / 0x20_0000;
  }

  function CodeLength(v: nat): nat {
    if v < 0x40 then 1 else if v < 0x2000 then 2 else if v < 0x10_0000 then 3 else if v < 0x800_0000 then 4 else 5
  }

  /** The bytes that encode_var_length writes in its five size classes. */
  function ByClass(v: nat): (code: seq<byte>)
    requires v < U32
    ensures code == Code(v) && |code| == CodeLength(v)
  {
    hide Leb;
    var u := v / 64;
    assert u / 128 == v / 0x2000 && u / 0x4000 == v / 0x10_0000 && u / 0x20_0000 == v / 0x800_0000;
    if v < 0x40 then
      [v + 128]
    else if v < 0x2000 then
      LebSplits(u);
      [v % 64 + 192, v / 64]
    else if v < 0x10_0000 then
      TwoGroups(u);
      [v % 64 + 192, v / 64 % 128 + 128, v / 0x2000]
    else if v < 0x800_0000 then
      ThreeGroups(u);
      [v % 64 + 192, v / 64 % 128 + 128, v / 0x2000 % 128 + 128, v / 0x10_0000]
    else
      FourGroups(u);
      [v % 64 + 192, v / 64 % 128 + 128, v / 0x2000 % 128 + 128, v / 0x10_0000 % 128 + 128, v / 0x800_0000]
  }

  /** The codes of the five classes, byte by byte. */
  lemma CodeInFull(v: nat)
    requires v < 0x1_0000_0000
    ensures v < 0x40 ==> Code(v) == [0x80 + v]
    ensures 0x40 <= v < 0x2000 ==> Code(v) == [0xc0 + v % 0x40, v / 0x40]
    ensures 0x2000 <= v < 0x10_0000 ==> Code(v) == [0xc0 + v % 0x40, 0x80 + v / 0x40 % 0x80, v / 0x2000]
    ensures 0x10_0000 <= v < 0x800_0000 ==>
      Code(v) == [0xc0 + v % 0x40, 0x80 + v / 0x40 % 0x80, 0x80 + v / 0x2000 % 0x80, v / 0x10_0000]
    ensures v >= 0x800_0000 ==>
      Code(v) == [0xc0 + v % 0x40, 0x80 + v / 0x40 % 0x80, 0x80 + v / 0x2000 % 0x80, 0x80 + v / 0x10_0000 % 0x80,
                  v / 0x800_0000]
  {
    hide Code;
    assert ByClass(v) == Code(v);
  }

  /** A frame begins with 3 and the code of the message's length plus one. */
  lemma FrameInFull(msg: seq<byte>)
    ensures |msg| < 63 ==> Frame(msg) == [3, 0x81 + |msg|] + msg
    ensures Frame(msg) == [3] + Code((|msg| + 1) % 0x1_0000_0000) + msg
  {
    hide Code;
    CodeInFull((|msg| + 1) % 0x1_0000_0000);
  }

  /** A longer code exactly from 2^6, 2^13, 2^20 and 2^27 on. */
  lemma CodeLengths(value: nat)
    requires value < U32
    ensures |Code(value)| == CodeLength(value)
  {
    hide Code, ByClass;
    assert |ByClass(value)| == CodeLength(value);
  }

  /** encode_var_length: five size classes, written out. */
  method EncodeVarLength(value: nat, output: array<byte>) returns (position: nat)
    requires value < U32 && output.Length >= 5
    modifies output
    ensures position == |Code(value)| == CodeLength(value) && output[..position] == Code(value)
    ensures output[position..] == old(output[position..])
  {
    hide Leb, Code;
    position := 0;
    if value < 0x40 {
      output[0] := value + 128;
      position := 1;
    } else if value < 0x2000 {
      output[0], output[1] := value % 64 + 192, value / 64;
      position := 2;
    } else if value < 0x10_0000 {
      output[0], output[1] := value % 64 + 192, value / 64 % 128 + 128;
      output[2] := value / 0x2000;
      position := 3;
    } else if value < 0x800_0000 {
      output[0], output[1] := value % 64 + 192, value / 64 % 128 + 128;
      output[2], output[3] := value / 0x2000 % 128 + 128, value / 0x10_0000;
      position := 4;
    } else {
      output[0], output[1] := value % 64 + 192, value / 64 % 128 + 128;
      output[2], output[3] := value / 0x2000 % 128 + 128, value / 0x10_0000 % 128 + 128;
      output[4] := value / 0x800_0000;
      position := 5;
    }
    assert output[..position] == ByClass(value);
  }

  /** kryo_serialize: the prefix 3, the code of the length plus one, the message. */
  method KryoSerialize(msg: seq<byte>, output: array<byte>) returns (written: nat)
    requires |Frame(msg)| <= output.Length
    modifies output
    ensures written == |Frame(msg)| && output[..written] == Frame(msg)
    ensures output[written..] == old(output[written..])
  {
    hide Code, Written;
    assert Written(output[..], output[..], []) by { Untouched(output[..]); }
    var lengthEncoded := new byte[5](_ => 0);
    var len := EncodeVarLength((|msg| + 1) % U32, lengthEncoded);
    var code := lengthEncoded[..len];
    ghost var was := output[..];
    Append(output, 0, [3], was, []);
    assert [] + [3] == [3];
    Append(output, 1, code, was, [3]);
    Append(output, 1 + len, msg, was, [3] + code);
    written := 1 + len + |msg|;
    WrittenParts(output[..], was, Frame(msg));
  }
}
