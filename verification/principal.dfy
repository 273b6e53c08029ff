/** Principal identifiers as text (get_principal_id_to_display, apps/icp_app/icp_helpers.c). */
module Principal {
  import opened Bytes
  import Base32
  import Crc32

  const HYPHEN: byte := 45

  /** The text in groups of five joined by hyphens. */
  function Grouped(text: seq<byte>): (r: seq<byte>) {
    if |text| <= 5 then text else text[..5] + [HYPHEN] + Grouped(text[5..])
  }

  function WithoutHyphens(text: seq<byte>): seq<byte> {
    if text == [] then []
    else if text[0] == HYPHEN then WithoutHyphens(text[1..])
    else [text[0]] + WithoutHyphens(text[1..])
  }

  function AsBits(data: seq<byte>): (r: seq<bv8>)
    ensures |r| == |data|
  {
    if data == [] then [] else AsBits(data[..|data| - 1]) + [data[|data| - 1] as bv8]
  }

  /** The checksum, most significant byte first, and the bytes themselves. */
  function Checked(principal: seq<byte>): (b: seq<byte>)
    ensures |b| == |principal| + 4
  {
    ToBE(Crc32.Crc(AsBits(principal)) as int, 4) + principal
  }

  function Plain(principal: seq<byte>): (text: seq<byte>) {
    Base32.Letters(Base32.Symbols(Checked(principal)))
  }

  /** The text shown for a principal. */
  function Text(principal: seq<byte>): (text: seq<byte>) {
    Grouped(Plain(principal))
  }

  /** Checksum and bytes read from a text. */
  function ReadText(text: seq<byte>): (b: seq<byte>) {
    Base32.BytesOf(Base32.SymbolsOf(WithoutHyphens(text)))
  }

  // ---- Grouping.

  predicate NoHyphens(text: seq<byte>) {
    forall i | 0 <= i < |text| :: text[i] != HYPHEN
  }

  lemma {:induction false} HyphensRemoved(a: seq<byte>, b: seq<byte>)
    requires NoHyphens(a)
    ensures WithoutHyphens(a + b) == a + WithoutHyphens(b)
  {
    if a == [] {
      assert a + b == b;
    } else {
      HyphensRemoved(a[1..], b);
      assert (a + b)[1..] == a[1..] + b;
    }
  }

  /** Removing the hyphens gives the text back. */
  lemma {:induction false} GroupedRoundTrip(text: seq<byte>)
    requires NoHyphens(text)
    ensures WithoutHyphens(Grouped(text)) == text
  {
    if |text| <= 5 {
      HyphensRemoved(text, []);
      assert text + [] == text;
    } else {
      var rest := [HYPHEN] + Grouped(text[5..]);
      HyphensRemoved(text[..5], rest);
      assert rest[1..] == Grouped(text[5..]);
      assert Grouped(text) == text[..5] + rest;
      GroupedRoundTrip(text[5..]);
    }
  }

  /** One hyphen for every started group but the last. */
  lemma {:induction false} GroupedLength(text: seq<byte>)
    ensures |Grouped(text)| == |text| + if text == [] then 0 else (|text| + 4) / 5 - 1
  {
    if |text| > 5 {
      GroupedLength(text[5..]);
    }
  }

  /** The hyphens are exactly every sixth character, and the last character is none. */
  lemma {:induction false} HyphenPlaces(text: seq<byte>, i: nat)
    requires NoHyphens(text) && i < |Grouped(text)|
    ensures Grouped(text)[i] == HYPHEN <==> i % 6 == 5
    ensures i == |Grouped(text)| - 1 ==> Grouped(text)[i] != HYPHEN
  {
    if |text| > 5 {
      assert Grouped(text) == text[..5] + [HYPHEN] + Grouped(text[5..]);
      GroupedLength(text[5..]);
      if i >= 6 {
        HyphenPlaces(text[5..], i - 6);
      }
    }
  }

  // ---- The text of a principal.

  lemma PlainHasNoHyphens(principal: seq<byte>)
    ensures NoHyphens(Plain(principal))
  {
    hide Base32.Symbols, Base32.Letters, Checked;
    var s := Base32.Symbols(Checked(principal));
    forall i | 0 <= i < |s| ensures Base32.Letters(s)[i] != HYPHEN {
      Base32.LettersAt(s, i);
    }
  }

  /** The checksum and the bytes can be read back from the text. */
  lemma TextRoundTrip(principal: seq<byte>)
    ensures ReadText(Text(principal)) == ToBE(Crc32.Crc(AsBits(principal)) as int, 4) + principal
  {
    hide Grouped, WithoutHyphens, Base32.Symbols, Base32.SymbolsOf, Base32.Letters, Base32.BytesOf;
    hide ToBE, NoHyphens, Crc32.Crc;
    PlainHasNoHyphens(principal);
    GroupedRoundTrip(Plain(principal));
    Base32.LettersRoundTrip(Base32.Symbols(Checked(principal)));
    Base32.SymbolsRoundTrip(Checked(principal));
  }

  /** Different principals have different texts. */
  lemma TextsAreDistinct(p: seq<byte>, q: seq<byte>)
    requires Text(p) == Text(q)
    ensures p == q
  {
    hide Text, ReadText, ToBE, AsBits, Crc32.Crc;
    TextRoundTrip(p);
    TextRoundTrip(q);
    assert p == ReadText(Text(p))[4..] && q == ReadText(Text(q))[4..];
  }

  lemma TextLength(principal: seq<byte>)
    ensures var n := Base32.EncodedLength(|principal| + 4);
      |Text(principal)| == n + (n + 4) / 5 - 1
    ensures |principal| == 29 ==> |Text(principal)| == 63
  {
    hide Grouped, Base32.Symbols, Base32.Letters, Checked;
    GroupedLength(Plain(principal));
    SymbolCount(Checked(principal));
  }

  lemma SymbolCount(b: seq<byte>)
    ensures |Base32.Symbols(b)| == Base32.EncodedLength(|b|)
  {
  }

  // ---- Two texts that are known.

  lemma FourDigits(v: nat, d: seq<byte>)
    requires |d| == 4
    requires v == 0x100_0000 * d[0] as int + 0x1_0000 * d[1] as int + 0x100 * d[2] as int + d[3] as int
    ensures ToBE(v, 4) == d
  {
    hide FromBE, ToBE;
    BigEndianDigits(d);
    ToBERoundTrip(d);
  }

  lemma LettersOf(s: seq<Base32.Symbol>, text: seq<byte>)
    requires |s| == |text|
    requires forall i | 0 <= i < |s| :: "abcdefghijklmnopqrstuvwxyz234567"[s[i]] as int == text[i]
    ensures Base32.Letters(s) == text
  {
    hide Base32.Letters, Base32.Letter;
    forall i | 0 <= i < |s| ensures Base32.Letters(s)[i] == text[i] {
      Base32.LettersAt(s, i);
      Base32.Alphabet(s[i]);
    }
  }

  /** The symbols of up to five bytes. */
  lemma OneGroup(bytes: seq<byte>)
    requires 1 <= |bytes| <= 5
    ensures Base32.Symbols(bytes) == Base32.Group(bytes)
  {
    hide Base32.Group;
    assert [] + bytes == bytes && [] + Base32.Group(bytes) == Base32.Group(bytes);
    assert Base32.Symbols([]) == [] by { NoSymbols(); }
    Base32.SymbolsAppend([], bytes);
  }

  lemma NoSymbols()
    ensures Base32.Symbols([]) == []
  {
  }

  lemma ZeroSymbols(bytes: seq<byte>)
    requires bytes == [0, 0, 0, 0]
    ensures Base32.Symbols(bytes) == [0, 0, 0, 0, 0, 0, 0]
  {
    hide Base32.Symbols, Base32.Group;
    OneGroup(bytes);
    var x: seq<byte> := [0, 0, 0, 0, 0];
    assert x == bytes + Zeros(1);
    Base32.GroupInFull(bytes, x);
  }

  /** The management canister, which has no bytes: aaaaa-aa. */
  lemma ManagementCanister()
    ensures Text([]) == [0x61, 0x61, 0x61, 0x61, 0x61, 0x2d, 0x61, 0x61]
  {
    hide ToBE, Crc32.Crc, Base32.Symbols, Base32.Letters;
    Crc32.CheckValue();
    assert AsBits([]) == [];
    var bytes: seq<byte> := [0, 0, 0, 0];
    FourDigits(0, bytes);
    assert Checked([]) == bytes;
    ZeroSymbols(bytes);
    var text: seq<byte> := [0x61, 0x61, 0x61, 0x61, 0x61, 0x61, 0x61];
    LettersOf([0, 0, 0, 0, 0, 0, 0], text);
    assert Grouped(text) == text[..5] + [HYPHEN] + text[5..];
  }

  lemma AnonymousSymbols(bytes: seq<byte>)
    requires bytes == [0xd5, 0x6f, 0x2b, 0x94, 4]
    ensures Base32.Symbols(bytes) == [26, 21, 23, 18, 23, 5, 0, 4]
  {
    hide Base32.Symbols, Base32.Group;
    OneGroup(bytes);
    assert bytes == bytes + Zeros(0);
    Base32.GroupInFull(bytes, bytes);
  }

  /** The anonymous principal, whose one byte is 4: 2vxsx-fae. */
  lemma AnonymousPrincipal()
    ensures Text([4]) == [0x32, 0x76, 0x78, 0x73, 0x78, 0x2d, 0x66, 0x61, 0x65]
  {
    hide ToBE, Crc32.Crc, Base32.Symbols, Base32.Letters;
    Crc32.OneFour();
    assert AsBits([4]) == [4] by { OneBit(); }
    var sum: seq<byte> := [0xd5, 0x6f, 0x2b, 0x94];
    FourDigits(0xd56f2b94, sum);
    var bytes: seq<byte> := [0xd5, 0x6f, 0x2b, 0x94, 4];
    assert Checked([4]) == bytes;
    AnonymousSymbols(bytes);
    var text: seq<byte> := [0x32, 0x76, 0x78, 0x73, 0x78, 0x66, 0x61, 0x65];
    LettersOf([26, 21, 23, 18, 23, 5, 0, 4], text);
    assert Grouped(text) == text[..5] + [HYPHEN] + text[5..];
  }

  lemma OneBit()
    ensures AsBits([4]) == [4]
  {
    assert [4][..0] == [];
  }

  // ---- The C function.

  lemma GroupedRest(text: seq<byte>, offset: nat, done: seq<byte>)
    requires offset < |text|
    ensures var end := if 5 <= |text| - offset then offset + 5 else |text|;
      done + Rest(text, offset) ==
      done + text[offset..end] + (if end < |text| then [HYPHEN] else []) + Rest(text, end)
  {
    if |text| - offset > 5 {
      assert text[offset..][..5] == text[offset..offset + 5];
      assert text[offset..][5..] == text[offset + 5..];
    }
  }

  /** The hyphenation loop and the terminating zero. */
  method Hyphenate(text: seq<byte>, output: array<byte>)
    requires |Grouped(text)| < output.Length
    modifies output
    ensures Written(output[..], old(output[..]), Grouped(text) + [0])
  {
    hide Grouped, Written;
    ghost var was, done: seq<byte> := output[..], [];
    var length, offset, hyphens := |text|, 0, 0;
    Start(text, was);
    while offset < length
      invariant 0 <= offset <= length && 0 <= hyphens && offset + hyphens == |done|
      invariant done + Rest(text, offset) == Grouped(text)
      invariant Written(output[..], was, done)
    {
      var size := if 5 <= length - offset then 5 else length - offset;
      var piece := text[offset..offset + size];
      GroupedRest(text, offset, done);
      Append(output, offset + hyphens, piece, was, done);
      done := done + piece;
      offset := offset + size;
      if offset < length {
        Append(output, offset + hyphens, [HYPHEN], was, done);
        done := done + [HYPHEN];
        hyphens := hyphens + 1;
      }
    }
    assert done == Grouped(text);
    Append(output, offset + hyphens, [0], was, done);
  }

  lemma Start(text: seq<byte>, was: seq<byte>)
    ensures [] + Rest(text, 0) == Grouped(text) && Written(was, was, [])
  {
    assert text[0..] == text;
  }

  /** What the loop has still to write. */
  ghost function Rest(text: seq<byte>, offset: nat): seq<byte>
    requires offset <= |text|
  {
    if offset < |text| then Grouped(text[offset..]) else []
  }

  /** get_principal_id_to_display: nothing happens without both buffers; the local text buffer
      has 200 characters. */
  method PrincipalIdToDisplay(table: array<bv32>, principal: array?<byte>, length: nat, output: array?<byte>)
    requires table.Length == 256 && output as object? != table
    requires principal != null ==> length <= principal.Length
    requires principal != null && output != null ==>
      length <= 120 && |Text(principal[..length])| < output.Length && principal != output
    modifies table, output
    ensures output != null && principal == null ==> output[..] == old(output[..])
    ensures output != null && principal != null ==>
      var r := Text(old(principal[..length]));
      Written(output[..], old(output[..]), r + [0])
  {
    hide Grouped, Written, ToBE, Base32.Symbols, Base32.Letters, Crc32.Crc;
    if principal == null || output == null {
      return;
    }
    var data := principal[..length];
    var checksum := Crc32.Compute(table, AsBits(data));
    var bytes := ToBE(checksum as int, 4) + data;
    var plain := new byte[200](_ => 0);
    SymbolCount(bytes);
    var ok := Base32.Encode(bytes, plain);
    assert ok;
    Hyphenate(plain[..Base32.EncodedLength(|bytes|)], output);
  }
}
