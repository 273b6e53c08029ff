/** Base32 with the lower-case alphabet (base32_encode and its helpers,
    common/libraries/crypto/base32.c). Bits or-ed into clear bits are added here. */
module Base32 {
  import opened Bytes

  type Symbol = d: int | 0 <= d < 32

  /** The value of base-32 digits, most significant first. */
  function Value32(s: seq<Symbol>): nat {
    if s == [] then 0 else Value32(s[..|s| - 1]) * 32 + s[|s| - 1]
  }

  function Digits32(v: nat, n: nat): (s: seq<Symbol>)
    ensures |s| == n
  {
    if n == 0 then [] else Digits32(v / 32, n - 1) + [v % 32]
  }

  function Pow32(k: nat): nat {
    if k == 0 then 1 else 32 * Pow32(k - 1)
  }

  /** base32_encoded_length and base32_decoded_length. */
  function EncodedLength(n: nat): nat { n / 5 * 8 + (n % 5 * 8 + 4) / 5 }
  function DecodedLength(n: nat): nat { n / 8 * 5 + n % 8 * 5 / 8 }

  /** Two to the number of zero bits that fill the last symbol. */
  function Filler(n: nat): (f: nat)
    ensures f > 0
  {
    if n % 5 == 0 then 1 else if n % 5 == 1 then 4 else if n % 5 == 2 then 16 else if n % 5 == 3 then 2 else 8
  }

  /** Section 6 of RFC 4648 without padding characters: the bytes are one bit string, zero bits
      are added on the right to a multiple of five, and each five bits are a symbol. */
  function Symbols(b: seq<byte>): (s: seq<Symbol>)
  {
    Digits32(FromBE(b) * Filler(|b|), EncodedLength(|b|))
  }

  /** The bytes back from the symbols. */
  function BytesOf(s: seq<Symbol>): (b: seq<byte>)
  {
    hide Value32, Filler, ToBE, DecodedLength;
    var n := DecodedLength(|s|);
    ToBE(Value32(s) / Filler(n), n)
  }

  function Letter(d: Symbol): (c: byte)
  {
    if d < 26 then 'a' as int + d else '2' as int + d - 26
  }

  function SymbolOf(c: byte): Option<Symbol> {
    if 'a' as int <= c <= 'z' as int then Some(c - 'a' as int)
    else if '2' as int <= c <= '7' as int then Some(c - '2' as int + 26)
    else None
  }

  function Letters(s: seq<Symbol>): (text: seq<byte>)
    ensures |text| == |s|
  {
    if s == [] then [] else [Letter(s[0])] + Letters(s[1..])
  }

  /** The symbols that letters stand for, letters outside the alphabet left out. */
  function SymbolsOf(text: seq<byte>): seq<Symbol> {
    if text == [] then []
    else match SymbolOf(text[0])
      case None => SymbolsOf(text[1..])
      case Some(d) => [d] + SymbolsOf(text[1..])
  }

  // ---- Digits and values.

  lemma ValueAppend(s: seq<Symbol>, d: Symbol)
    ensures Value32(s + [d]) == Value32(s) * 32 + d
  {
    assert (s + [d])[..|s|] == s;
  }

  lemma BytesAppend(s: seq<byte>, b: byte)
    ensures FromBE(s + [b]) == FromBE(s) * 256 + b
  {
    assert (s + [b])[..|s|] == s;
  }

  lemma {:induction false} DigitsOfValue(s: seq<Symbol>)
    ensures Digits32(Value32(s), |s|) == s
  {
    if s != [] {
      DigitsOfValue(s[..|s| - 1]);
    }
  }

  lemma {:induction false} ValueOfDigits(v: nat, n: nat)
    requires v < Pow32(n)
    ensures Value32(Digits32(v, n)) == v
  {
    if n > 0 {
      ValueOfDigits(v / 32, n - 1);
      ValueAppend(Digits32(v / 32, n - 1), v % 32);
    }
  }

  lemma {:induction false} SymbolsFit(n: nat)
    ensures Pow256(n) * Filler(n) == Pow32(EncodedLength(n))
  {
    hide Pow256, Pow32, EncodedLength;
    if n < 5 {
      SmallPowers();
      assert EncodedLength(0) == 0 && EncodedLength(1) == 2 && EncodedLength(2) == 4 by { Lengths(); }
      assert EncodedLength(3) == 5 && EncodedLength(4) == 7 by { Lengths(); }
    } else {
      var m := n - 5;
      SymbolsFit(m);
      FiveMore(m);
      EightMore(EncodedLength(m));
      assert Filler(n) == Filler(m) && EncodedLength(n) == EncodedLength(m) + 8 by { Five(m); }
      Scale(Pow256(m), Filler(m));
    }
  }

  lemma Lengths()
    ensures EncodedLength(0) == 0 && EncodedLength(1) == 2 && EncodedLength(2) == 4
    ensures EncodedLength(3) == 5 && EncodedLength(4) == 7 && EncodedLength(5) == 8
    ensures Filler(5) == 1
  {
  }

  lemma Five(m: nat)
    ensures Filler(m + 5) == Filler(m) && EncodedLength(m + 5) == EncodedLength(m) + 8
  {
  }

  lemma Scale(x: nat, f: nat)
    ensures 0x100_0000_0000 * x * f == 0x100_0000_0000 * (x * f)
  {
  }

  lemma SmallPowers()
    ensures Pow256(0) == 1 && Pow256(1) == 0x100 && Pow256(2) == 0x1_0000
    ensures Pow256(3) == 0x100_0000 && Pow256(4) == 0x1_0000_0000
    ensures Pow32(0) == 1 && Pow32(2) == 0x400 && Pow32(4) == 0x10_0000
    ensures Pow32(5) == 0x200_0000 && Pow32(7) == 0x8_0000_0000
  {
    assert Pow256(2) == 0x100 * Pow256(1);
    assert Pow32(1) == 32;
    assert Pow32(2) == 32 * Pow32(1);
    assert Pow32(4) == 32 * Pow32(3);
    assert Pow32(6) == 32 * Pow32(5);
  }

  lemma FiveMore(n: nat)
    ensures Pow256(n + 5) == 0x100_0000_0000 * Pow256(n)
  {
    assert Pow256(n + 2) == 0x1_0000 * Pow256(n);
    assert Pow256(n + 4) == 0x1_0000 * Pow256(n + 2);
  }

  lemma EightMore(n: nat)
    ensures Pow32(n + 8) == 0x100_0000_0000 * Pow32(n)
  {
    assert Pow32(n + 2) == 0x400 * Pow32(n);
    assert Pow32(n + 4) == 0x400 * Pow32(n + 2);
    assert Pow32(n + 6) == 0x400 * Pow32(n + 4);
  }

  lemma Decoded(n: nat)
    ensures DecodedLength(EncodedLength(n)) == n
  {
    var q, r := n / 5, n % 5;
    assert EncodedLength(n) == q * 8 + (r * 8 + 4) / 5 && (r * 8 + 4) / 5 < 8;
    assert EncodedLength(n) / 8 == q && EncodedLength(n) % 8 == (r * 8 + 4) / 5;
  }

  /** Every byte string is read back from its symbols. */
  lemma SymbolsRoundTrip(b: seq<byte>)
    ensures BytesOf(Symbols(b)) == b
  {
    hide Digits32, Value32, FromBE, EncodedLength, DecodedLength, Pow32, Pow256;
    var n, f := |b|, Filler(|b|);
    FromBEBound(b);
    SymbolsFit(n);
    assert FromBE(b) * f < Pow256(n) * f;
    ValueOfDigits(FromBE(b) * f, EncodedLength(n));
    Decoded(n);
    assert FromBE(b) * f / f == FromBE(b);
    ToBERoundTrip(b);
  }

  lemma {:induction false} LettersRoundTrip(s: seq<Symbol>)
    ensures SymbolsOf(Letters(s)) == s
  {
    if s != [] {
      LettersRoundTrip(s[1..]);
    }
  }

  lemma {:induction false} LettersAt(s: seq<Symbol>, i: nat)
    requires i < |s|
    ensures Letters(s)[i] == Letter(s[i])
  {
    if i > 0 {
      LettersAt(s[1..], i - 1);
    }
  }

  // ---- The C functions.

  function ByteAt(b: seq<byte>, i: nat): byte {
    if i < |b| then b[i] else 0
  }

  /** The bits of x above its divisor `unit`, as many as `width` has values. */
  function Bits(x: byte, unit: nat, width: nat): (r: byte)
    requires unit > 0 && 0 < width <= 32
    ensures r < width && (x == 0 ==> r == 0)
  {
    x / unit % width
  }

  /** The eight symbols of five bytes: each takes five bits from one byte or from a neighbouring
      pair. Missing bytes count as 0. */
  function Eight(b: seq<byte>): (s: seq<Symbol>)
    ensures |s| == 8
  {
    hide Bits;
    var b0, b1, b2, b3, b4 := ByteAt(b, 0), ByteAt(b, 1), ByteAt(b, 2), ByteAt(b, 3), ByteAt(b, 4);
    [Bits(b0, 8, 32), Bits(b0, 1, 8) * 4 + Bits(b1, 64, 4),
     Bits(b1, 2, 32), Bits(b1, 1, 2) * 16 + Bits(b2, 16, 16),
     Bits(b2, 1, 16) * 2 + Bits(b3, 128, 2),
     Bits(b3, 4, 32), Bits(b3, 1, 4) * 8 + Bits(b4, 32, 8), Bits(b4, 1, 32)]
  }

  function Group(b: seq<byte>): (s: seq<Symbol>)
    requires |b| <= 5
  {
    Eight(b)[..EncodedLength(|b|)]
  }

  /** base32_5to8, up to the second byte: the fourth symbol is still without the third byte's bits. */
  method EncodeHead(b: seq<byte>, output: array<byte>, at: nat)
    requires 1 <= |b| <= 5 && at + (if |b| == 1 then 2 else 4) <= output.Length
    modifies output
    ensures output[at] == Bits(b[0], 8, 32)
    ensures output[at + 1] == Bits(b[0], 1, 8) * 4 + Bits(ByteAt(b, 1), 64, 4)
    ensures |b| >= 2 ==> output[at + 2] == Bits(b[1], 2, 32) && output[at + 3] == Bits(b[1], 1, 2) * 16
    ensures forall k | 0 <= k < output.Length && !(at <= k < at + if |b| == 1 then 2 else 4) ::
      output[k] == old(output[k])
  {
    hide Bits;
    output[at], output[at + 1] := Bits(b[0], 8, 32), Bits(b[0], 1, 8) * 4;
    if |b| >= 2 {
      output[at + 1] := output[at + 1] + Bits(b[1], 64, 4);
      output[at + 2], output[at + 3] := Bits(b[1], 2, 32), Bits(b[1], 1, 2) * 16;
    }
  }

  /** From the third byte on. */
  method EncodeTail(b: seq<byte>, output: array<byte>, at: nat)
    requires 3 <= |b| <= 5 && at + EncodedLength(|b|) <= output.Length
    requires output[at + 3] == Bits(b[1], 1, 2) * 16
    modifies output
    ensures forall k | 3 <= k < EncodedLength(|b|) :: output[at + k] == Eight(b)[k]
    ensures forall k | 0 <= k < output.Length && !(at + 3 <= k < at + EncodedLength(|b|)) ::
      output[k] == old(output[k])
  {
    hide Bits, EncodedLength;
    Lengths();
    output[at + 3] := output[at + 3] + Bits(b[2], 16, 16);
    output[at + 4] := Bits(b[2], 1, 16) * 2;
    if |b| >= 4 {
      output[at + 4] := output[at + 4] + Bits(b[3], 128, 2);
      output[at + 5], output[at + 6] := Bits(b[3], 4, 32), Bits(b[3], 1, 4) * 8;
    }
    if |b| >= 5 {
      output[at + 6] := output[at + 6] + Bits(b[4], 32, 8);
      output[at + 7] := Bits(b[4], 1, 32);
    }
  }

  /** base32_5to8: writes the symbols of a group at output[at..], or-ing the halves together. */
  method EncodeGroup(b: seq<byte>, output: array<byte>, at: nat)
    requires 1 <= |b| <= 5 && at + EncodedLength(|b|) <= output.Length
    modifies output
    ensures forall k | 0 <= k < EncodedLength(|b|) :: output[at + k] == Eight(b)[k]
    ensures forall k | 0 <= k < output.Length && !(at <= k < at + EncodedLength(|b|)) ::
      output[k] == old(output[k])
  {
    hide Bits, EncodedLength;
    Lengths();
    EncodeHead(b, output, at);
    if |b| >= 3 {
      EncodeTail(b, output, at);
    }
  }

  // A byte is the sum of the pieces that go to different symbols.

  lemma FiveThree(x: byte)
    ensures x == Bits(x, 8, 32) * 8 + Bits(x, 1, 8)
  {
  }

  lemma TwoFiveOne(x: byte)
    ensures x == Bits(x, 64, 4) * 64 + Bits(x, 2, 32) * 2 + Bits(x, 1, 2)
  {
  }

  lemma FourFour(x: byte)
    ensures x == Bits(x, 16, 16) * 16 + Bits(x, 1, 16)
  {
  }

  lemma OneFiveTwo(x: byte)
    ensures x == Bits(x, 128, 2) * 128 + Bits(x, 4, 32) * 4 + Bits(x, 1, 4)
  {
  }

  lemma ThreeFive(x: byte)
    ensures x == Bits(x, 32, 8) * 32 + Bits(x, 1, 32)
  {
  }

  lemma ValueGrows(s: seq<Symbol>, t: seq<Symbol>, k: nat)
    requires k < |t|
    ensures Value32(s + t[..k + 1]) == Value32(s + t[..k]) * 32 + t[k]
  {
    hide Value32;
    ValueAppend(s + t[..k], t[k]);
    assert s + t[..k] + [t[k]] == s + t[..k + 1];
  }

  lemma BytesGrow(s: seq<byte>, t: seq<byte>, k: nat)
    requires k < |t|
    ensures FromBE(s + t[..k + 1]) == FromBE(s + t[..k]) * 256 + t[k]
  {
    hide FromBE;
    BytesAppend(s + t[..k], t[k]);
    assert s + t[..k] + [t[k]] == s + t[..k + 1];
  }

  // After m bytes, the complete symbols and the bits left over make up the value of the bytes.

  lemma AfterOne(s: seq<Symbol>, a: seq<byte>, b: seq<byte>)
    requires Value32(s) == FromBE(a) && 1 <= |b| <= 5
    ensures Value32(s + Eight(b)[..1]) * 8 + Bits(b[0], 1, 8) == FromBE(a + b[..1])
    ensures |b| == 1 ==> Value32(s + Eight(b)[..2]) == FromBE(a + b) * 4
  {
    hide Value32, FromBE, Bits;
    FiveThree(b[0]);
    assert s + Eight(b)[..0] == s && a + b[..0] == a;
    ValueGrows(s, Eight(b), 0);
    BytesGrow(a, b, 0);
    ValueGrows(s, Eight(b), 1);
    assert |b| == 1 ==> b[..1] == b;
  }

  lemma AfterTwo(s: seq<Symbol>, a: seq<byte>, b: seq<byte>)
    requires Value32(s) == FromBE(a) && 2 <= |b| <= 5
    ensures Value32(s + Eight(b)[..3]) * 2 + Bits(b[1], 1, 2) == FromBE(a + b[..2])
    ensures |b| == 2 ==> Value32(s + Eight(b)[..4]) == FromBE(a + b) * 16
  {
    hide Value32, FromBE, Bits;
    AfterOne(s, a, b);
    TwoFiveOne(b[1]);
    ValueGrows(s, Eight(b), 1);
    ValueGrows(s, Eight(b), 2);
    BytesGrow(a, b, 1);
    ValueGrows(s, Eight(b), 3);
    assert |b| == 2 ==> b[..2] == b;
  }

  lemma AfterThree(s: seq<Symbol>, a: seq<byte>, b: seq<byte>)
    requires Value32(s) == FromBE(a) && 3 <= |b| <= 5
    ensures Value32(s + Eight(b)[..4]) * 16 + Bits(b[2], 1, 16) == FromBE(a + b[..3])
    ensures |b| == 3 ==> Value32(s + Eight(b)[..5]) == FromBE(a + b) * 2
  {
    hide Value32, FromBE, Bits;
    AfterTwo(s, a, b);
    FourFour(b[2]);
    ValueGrows(s, Eight(b), 3);
    BytesGrow(a, b, 2);
    ValueGrows(s, Eight(b), 4);
    assert |b| == 3 ==> b[..3] == b;
  }

  lemma AfterFour(s: seq<Symbol>, a: seq<byte>, b: seq<byte>)
    requires Value32(s) == FromBE(a) && 4 <= |b| <= 5
    ensures Value32(s + Eight(b)[..6]) * 4 + Bits(b[3], 1, 4) == FromBE(a + b[..4])
    ensures |b| == 4 ==> Value32(s + Eight(b)[..7]) == FromBE(a + b) * 8
  {
    hide Value32, FromBE, Bits;
    AfterThree(s, a, b);
    OneFiveTwo(b[3]);
    ValueGrows(s, Eight(b), 4);
    ValueGrows(s, Eight(b), 5);
    BytesGrow(a, b, 3);
    ValueGrows(s, Eight(b), 6);
    assert |b| == 4 ==> b[..4] == b;
  }

  lemma AfterFive(s: seq<Symbol>, a: seq<byte>, b: seq<byte>)
    requires Value32(s) == FromBE(a) && |b| == 5
    ensures Value32(s + Eight(b)[..8]) == FromBE(a + b[..5])
  {
    hide Value32, FromBE, Bits;
    AfterFour(s, a, b);
    ThreeFive(b[4]);
    ValueGrows(s, Eight(b), 6);
    ValueGrows(s, Eight(b), 7);
    BytesGrow(a, b, 4);
  }

  /** The value of the symbols keeps pace with the value of the bytes. */
  lemma GroupValue(s: seq<Symbol>, a: seq<byte>, b: seq<byte>)
    requires Value32(s) == FromBE(a) && 1 <= |b| <= 5
    ensures Value32(s + Group(b)) == FromBE(a + b) * Filler(|b|)
  {
    hide Value32, FromBE, Bits, EncodedLength;
    hide Eight;
    Lengths();
    if |b| == 1 {
      AfterOne(s, a, b);
    } else if |b| == 2 {
      AfterTwo(s, a, b);
    } else if |b| == 3 {
      AfterThree(s, a, b);
    } else if |b| == 4 {
      AfterFour(s, a, b);
    } else {
      AfterFive(s, a, b);
      assert b[..5] == b;
    }
  }

  lemma SymbolsAreUnique(b: seq<byte>, s: seq<Symbol>)
    requires |s| == EncodedLength(|b|) && Value32(s) == FromBE(b) * Filler(|b|)
    ensures s == Symbols(b)
  {
    DigitsOfValue(s);
  }

  /** Appending the symbols of a group to what is there. */
  method AppendGroup(b: seq<byte>, output: array<byte>, at: nat)
    requires 1 <= |b| <= 5 && at + EncodedLength(|b|) <= output.Length
    modifies output
    ensures output[..at + EncodedLength(|b|)] == old(output[..at]) + Group(b)
    ensures forall k | at + EncodedLength(|b|) <= k < output.Length :: output[k] == old(output[k])
  {
    hide Eight, EncodedLength;
    Lengths();
    ghost var n, before := EncodedLength(|b|), output[..at];
    EncodeGroup(b, output, at);
    assert output[at..at + n] == Group(b) && output[..at] == before;
    assert output[..at + n] == output[..at] + output[at..at + n];
  }

  /** base32_encode_unsafe: whole groups of five bytes, then the remainder. */
  method EncodeUnsafe(input: seq<byte>, output: array<byte>)
    requires EncodedLength(|input|) <= output.Length
    modifies output
    ensures output[..EncodedLength(|input|)] == Symbols(input)
    ensures forall k | EncodedLength(|input|) <= k < output.Length :: output[k] == old(output[k])
  {
    hide Value32, FromBE, Symbols, Group, Filler, EncodedLength;
    Lengths();
    var remainder := |input| % 5;
    var limit := |input| - remainder;
    Remainder(|input|);
    var i, j := 0, 0;
    ghost var groups, done: seq<Symbol> := 0, [];
    assert Value32([]) == 0 && FromBE([]) == 0 by { Empty(); }
    while i < limit
      invariant i == 5 * groups && j == 8 * groups && 0 <= groups <= |input| / 5
      invariant output[..j] == done && Value32(done) == FromBE(input[..i])
      invariant forall k | j <= k < output.Length :: output[k] == old(output[k])
    {
      var b := input[i..i + 5];
      GroupValue(done, input[..i], b);
      assert input[..i] + b == input[..i + 5];
      AppendGroup(b, output, j);
      done := done + Group(b);
      i, j, groups := i + 5, j + 8, groups + 1;
    }
    if remainder != 0 {
      var b := input[i..];
      GroupValue(done, input[..i], b);
      assert input[..i] + b == input;
      AppendGroup(b, output, j);
      done := done + Group(b);
    } else {
      assert input[..i] == input;
    }
    SymbolsAreUnique(input, done);
  }

  lemma Empty()
    ensures Value32([]) == 0 && FromBE([]) == 0
  {
  }

  lemma Remainder(n: nat)
    ensures Filler(n) == Filler(n % 5) && Filler(0) == 1
    ensures EncodedLength(n) == n / 5 * 8 + EncodedLength(n % 5) >= n / 5 * 8
  {
  }

  // ---- In full.

  /** The lower-case alphabet of section 6 of RFC 4648. */
  lemma Alphabet(d: Symbol)
    ensures Letter(d) == "abcdefghijklmnopqrstuvwxyz234567"[d] as int
  {
  }

  /** As few symbols as hold eight bits a byte. */
  lemma LengthInFull(n: nat)
    ensures 8 * n <= 5 * EncodedLength(n) < 8 * n + 5
  {
    var q, r := n / 5, n % 5;
    assert n == 5 * q + r && 5 * EncodedLength(n) == 40 * q + 5 * ((r * 8 + 4) / 5);
  }

  /** A group of up to five bytes, behind whole groups. */
  lemma SymbolsAppend(a: seq<byte>, b: seq<byte>)
    requires |a| % 5 == 0 && 1 <= |b| <= 5
    ensures Symbols(a + b) == Symbols(a) + Group(b)
  {
    hide Value32, FromBE, Digits32, Group, EncodedLength, Filler, Pow32, Pow256;
    var s := Symbols(a);
    SymbolsValue(a);
    GroupValue(s, a, b);
    Remainder(|a|);
    Remainder(|a| + |b|);
    GroupLengths(|a|, |b|);
    GroupSize(b);
    SymbolsAreUnique(a + b, s + Group(b));
  }

  lemma SymbolsValue(a: seq<byte>)
    requires |a| % 5 == 0
    ensures |Symbols(a)| == EncodedLength(|a|) && Value32(Symbols(a)) == FromBE(a)
  {
    hide Value32, FromBE, Digits32, EncodedLength, Pow32, Pow256;
    FromBEBound(a);
    SymbolsFit(|a|);
    ValueOfDigits(FromBE(a), EncodedLength(|a|));
  }

  lemma GroupSize(b: seq<byte>)
    requires |b| <= 5
    ensures |Group(b)| == EncodedLength(|b|)
  {
    hide Eight;
  }

  lemma GroupLengths(m: nat, n: nat)
    requires m % 5 == 0 && n <= 5
    ensures EncodedLength(m + n) == EncodedLength(m) + EncodedLength(n) && Filler(m + n) == Filler(n)
  {
    assert (m + n) % 5 == n % 5 && (m + n) / 5 == m / 5 + n / 5;
  }

  lemma HighBits(x: byte)
    ensures Bits(x, 8, 32) == x / 8 && Bits(x, 64, 4) == x / 64 && Bits(x, 16, 16) == x / 16
    ensures Bits(x, 128, 2) == x / 128 && Bits(x, 32, 8) == x / 32
  {
  }

  lemma LowBits(x: byte)
    ensures Bits(x, 1, 8) == x % 8 && Bits(x, 1, 2) == x % 2 && Bits(x, 1, 16) == x % 16
    ensures Bits(x, 1, 4) == x % 4 && Bits(x, 1, 32) == x % 32
  {
  }

  lemma MiddleBits(x: byte)
    ensures Bits(x, 2, 32) == x / 2 % 32 && Bits(x, 4, 32) == x / 4 % 32
  {
  }

  /** The symbols of a group take five bits each from its bytes, zero bytes being taken for missing ones. */
  lemma GroupInFull(b: seq<byte>, x: seq<byte>)
    requires 1 <= |b| <= 5 && x == b + Zeros(5 - |b|)
    ensures Group(b) == [x[0] / 8, x[0] % 8 * 4 + x[1] / 64, x[1] / 2 % 32, x[1] % 2 * 16 + x[2] / 16,
                         x[2] % 16 * 2 + x[3] / 128, x[3] / 4 % 32, x[3] % 4 * 8 + x[4] / 32, x[4] % 32]
                        [..(8 * |b| + 4) / 5]
  {
    hide Bits, EncodedLength;
    Lengths();
    assert ByteAt(b, 0) == x[0] && ByteAt(b, 1) == x[1] && ByteAt(b, 2) == x[2];
    assert ByteAt(b, 3) == x[3] && ByteAt(b, 4) == x[4];
    forall y: byte
      ensures Bits(y, 8, 32) == y / 8 && Bits(y, 64, 4) == y / 64 && Bits(y, 16, 16) == y / 16
      ensures Bits(y, 128, 2) == y / 128 && Bits(y, 32, 8) == y / 32
      ensures Bits(y, 1, 8) == y % 8 && Bits(y, 1, 2) == y % 2 && Bits(y, 1, 16) == y % 16
      ensures Bits(y, 1, 4) == y % 4 && Bits(y, 1, 32) == y % 32
      ensures Bits(y, 2, 32) == y / 2 % 32 && Bits(y, 4, 32) == y / 4 % 32
    {
      HighBits(y);
      LowBits(y);
      MiddleBits(y);
    }
  }

  /** base32_encode: the letters and a terminating zero, if there is room for them. */
  method Encode(input: seq<byte>, output: array<byte>) returns (ok: bool)
    modifies output
    ensures ok <==> EncodedLength(|input|) < output.Length
    ensures ok ==> output[..EncodedLength(|input|)] == Letters(Symbols(input))
    ensures ok ==> output[EncodedLength(|input|)] == 0
    ensures !ok ==> output[..] == old(output[..])
  {
    hide Symbols, Letters, EncodedLength, Letter;
    var length := EncodedLength(|input|);
    if output.Length <= length {
      return false;
    }
    EncodeUnsafe(input, output);
    ghost var symbols := Symbols(input);
    for i := 0 to length
      invariant forall k | 0 <= k < i :: output[k] == Letter(symbols[k])
      invariant forall k | i <= k < length :: output[k] == symbols[k]
    {
      output[i] := Letter(output[i]);
    }
    output[length] := 0;
    forall k | 0 <= k < length ensures Letters(symbols)[k] == Letter(symbols[k]) {
      LettersAt(symbols, k);
    }
    ok := true;
  }
}
