/** RLP items by the ranges of "Recursive-length prefix serialization", without the decoder. */
module RlpItems {
  import opened Bytes
  import opened Rlp
  import RlpTheorems

  datatype Announcement = Announcement(header: nat, payload: nat, kind: SeqType)

  /** What the first bytes announce; None when the length bytes are not all there. */
  function Announced(s: seq<byte>): Option<Announcement>
    requires s != []
  {
    var first := s[0];
    if first <= 0x7f then Some(Announcement(0, 1, STRING))
    else if first <= 0xb7 then Some(Announcement(1, first - 0x80, STRING))
    else if first <= 0xbf then WithLength(s, first - 0xb7, STRING)
    else if first <= 0xf7 then Some(Announcement(1, first - 0xc0, LIST))
    else WithLength(s, first - 0xf7, LIST)
  }

  function WithLength(s: seq<byte>, k: nat, kind: SeqType): Option<Announcement> {
    if |s| <= k then None else Some(Announcement(1 + k, FromBE(s[1..1 + k]), kind))
  }

  /** A header and exactly the payload it announces. */
  predicate IsItem(p: seq<byte>, payload: seq<byte>, kind: SeqType) {
    && p != [] && |payload| <= |p| && p[|p| - |payload|..] == payload
    && Announced(p) == Some(Announcement(|p| - |payload|, |payload|, kind))
  }

  /** The item that s starts with is all there. */
  predicate Complete(s: seq<byte>) {
    s != [] && Announced(s).Some? && Announced(s).value.header + Announced(s).value.payload <= |s|
  }

  /** Length of the item that s starts with. */
  function ItemLength(s: seq<byte>): (n: nat)
    requires Complete(s)
    ensures 0 < n <= |s|
  {
    Announced(s).value.header + Announced(s).value.payload
  }

  /** One of the first n items of s is cut off: what is left is shorter than what it announces. */
  predicate CutOff(n: nat, s: seq<byte>) {
    n > 0 && s != [] && (!Complete(s) || CutOff(n - 1, s[ItemLength(s)..]))
  }

  /** What the encoder writes are items. */
  lemma EncodedItem(b: seq<byte>)
    requires |b| < U64
    ensures IsItem(RlpTheorems.Item(b), b, STRING) && IsItem(RlpTheorems.ListItem(b), b, LIST)
  {
    hide FromBE, RlpTheorems.BE, IsItem;
    if |b| > 55 {
      RlpTheorems.BEStarts(|b|);
      var be := RlpTheorems.BE(|b|);
      LongItem(0xb7, be, b);
      LongItem(0xf7, be, b);
    } else {
      ShortItem(b);
    }
  }

  lemma ShortItem(b: seq<byte>)
    requires |b| <= 55
    ensures IsItem([0x80 + |b|] + b, b, STRING) && IsItem([0xc0 + |b|] + b, b, LIST)
    ensures |b| == 1 && b[0] < 0x80 ==> IsItem(b, b, STRING)
  {
    hide WithLength;
  }

  lemma LongItem(base: nat, length: seq<byte>, b: seq<byte>)
    requires 1 <= |length| <= 8 && (base == 0xb7 || base == 0xf7) && FromBE(length) == |b|
    ensures IsItem([base + |length|] + length + b, b, if base == 0xb7 then STRING else LIST)
  {
    hide FromBE;
    var p := [base + |length|] + length + b;
    assert p[1..1 + |length|] == length;
  }

  /** An announcement says nothing about the bytes behind its header. */
  lemma SameAnnouncement(s: seq<byte>, p: seq<byte>)
    requires p != [] && p <= s && Announced(p).Some?
    ensures Announced(s) == Announced(p)
  {
    hide FromBE;
    if p[0] > 0xb7 {
      var k := if p[0] <= 0xbf then p[0] - 0xb7 else if p[0] <= 0xf7 then 0 else p[0] - 0xf7;
      assert k < |p| ==> s[1..1 + k] == p[1..1 + k];
    }
  }

  lemma FirstItem(s: seq<byte>)
    requires Complete(s)
    ensures var a := Announced(s).value; IsItem(s[..ItemLength(s)], s[a.header..ItemLength(s)], a.kind)
  {
    hide FromBE;
    var a := Announced(s).value;
    var p := s[..ItemLength(s)];
    HeaderFits(s);
    if s[0] > 0xb7 && a.header > 1 {
      assert s[1..a.header] == p[1..a.header];
    }
    assert p[|p| - a.payload..] == s[a.header..ItemLength(s)];
  }

  lemma HeaderFits(s: seq<byte>)
    requires s != [] && Announced(s).Some?
    ensures Announced(s).value.header <= |s| && Announced(s).value.header <= 9
    ensures Announced(s).value.payload < U64
    ensures Announced(s).value.kind == STRING || Announced(s).value.kind == LIST
  {
    var a := Announced(s).value;
    if a.header > 1 { LengthFits(s[1..a.header]); }
  }

  lemma LengthFits(length: seq<byte>)
    requires |length| <= 8
    ensures FromBE(length) < U64
  {
    FromBEBound(length);
    Pow256Grows(|length|, 8);
    Pow256Eight();
  }

  lemma {:induction false} Pow256Grows(k: nat, n: nat)
    requires k <= n
    ensures Pow256(k) <= Pow256(n)
  {
    if k < n { Pow256Grows(k, n - 1); }
  }

  /** Items are found where they stand. */
  lemma ItemStands(s: seq<byte>, p: seq<byte>, payload: seq<byte>, kind: SeqType)
    requires p <= s && IsItem(p, payload, kind)
    ensures Complete(s) && ItemLength(s) == |p|
    ensures Announced(s).value.kind == kind && Announced(s).value.payload == |payload|
    ensures s[Announced(s).value.header..ItemLength(s)] == payload
  {
    hide Announced;
    SameAnnouncement(s, p);
    assert s[|p| - |payload|..|p|] == p[|p| - |payload|..];
  }

  // ---- Items that are cut off, and what becomes of them.

  /** What is left is too short for get_decode_length: the length bytes are not all there, or a payload
      of up to 55 bytes is not. (A longer payload is not looked for.) */
  predicate TooFew(s: seq<byte>) {
    s != [] && (Announced(s).None? || (Announced(s).value.header == 1 && !Complete(s)))
  }

  /** The first bytes that announce 55 bytes, which are then read as long forms without length bytes. */
  predicate IsBare(first: byte) { first == 0xb7 || first == 0xf7 }

  /** How many bytes of a list header the envelope takes; the length in it is not compared. */
  function HeadLength(s: seq<byte>): Option<nat> {
    if s == [] || s[0] < 0xc0 then None
    else if s[0] == 0xf7 then Some(1)
    else if TooFew(s) then None
    else Some(Announced(s).value.header)
  }

  /** What get_decode_length reads at a cursor, in terms of announcements. */
  function ReadOnBytes(s: seq<byte>, c: Cursor): (nat, Cursor)
    requires s != []
  {
    if !TooFew(s) then
      var a := Announced(s).value; (a.payload, Cursor(c.offset + a.header, a.header, a.kind))
    else if IsBare(s[0]) then (0, Cursor(c.offset + 1, 1, if s[0] == 0xb7 then STRING else LIST))
    else (0, c.(offset := c.offset + c.decodedLen))
  }

  lemma HeaderOnBytes(b: Buffer, c: Cursor)
    requires 0 <= c.offset < |b.data| < U32 && c.decodedLen <= 9
    ensures HeaderAt(b, c) == Ok(ReadOnBytes(b.data[c.offset..], c))
  {
    hide HeaderAt, ReadOnBytes;
    if b.data[c.offset] <= 0xb7 || 0xc0 <= b.data[c.offset] <= 0xf7 {
      ShortFormOnBytes(b, c);
    } else {
      LongFormOnBytes(b, c);
    }
  }

  lemma ShortFormOnBytes(b: Buffer, c: Cursor)
    requires 0 <= c.offset < |b.data| < U32 && c.decodedLen <= 9
    requires b.data[c.offset] <= 0xb7 || 0xc0 <= b.data[c.offset] <= 0xf7
    ensures HeaderAt(b, c) == Ok(ReadOnBytes(b.data[c.offset..], c))
  {
    hide FromBE;
    NoLength();
    assert b.data[c.offset..][0] == b.data[c.offset];
  }

  lemma LongFormOnBytes(b: Buffer, c: Cursor)
    requires 0 <= c.offset < |b.data| < U32 && c.decodedLen <= 9
    requires 0xb8 <= b.data[c.offset] <= 0xbf || 0xf8 <= b.data[c.offset]
    ensures HeaderAt(b, c) == Ok(ReadOnBytes(b.data[c.offset..], c))
  {
    hide FromBE;
    var s := b.data[c.offset..];
    var k := if s[0] <= 0xbf then s[0] - 0xb7 else s[0] - 0xf7;
    if |s| > k {
      assert s[1..1 + k] == b.data[c.offset + 1..c.offset + 1 + k];
    }
  }

  lemma NoLength()
    ensures forall s: seq<byte> :: s == [] ==> FromBE(s) == 0
  {
  }

  lemma HeadIsRead(b: Buffer)
    requires |b.data| < U32
    ensures HeadLength(b.data).Some? <==> HeaderAt(b, START).Ok? && HeaderAt(b, START).value.1.kind == LIST
    ensures HeadLength(b.data).Some? ==>
      var h := HeadLength(b.data).value;
      && 0 < h <= |b.data| && h <= 9 && HeaderAt(b, START).value.1 == Cursor(h, h, LIST)
      && HeaderAt(b, START).value.0 == if TooFew(b.data) then 0 else Announced(b.data).value.payload
  {
    hide Announced, HeaderAt;
    if b.data != [] {
      HeaderOnBytes(b, START);
      assert b.data[0..] == b.data;
      if Announced(b.data).Some? { HeaderFits(b.data); }
      Kinds(b.data);
    } else {
      NothingToRead(b);
    }
  }

  lemma NothingToRead(b: Buffer)
    requires b.data == []
    ensures HeaderAt(b, START) == Undefined
  {
  }

  lemma Kinds(s: seq<byte>)
    requires s != []
    ensures Announced(s).Some? ==> (Announced(s).value.kind == LIST <==> s[0] >= 0xc0)
    ensures Announced(s).Some? && s[0] >= 0xc0 ==> Announced(s).value.header > 0
    ensures s[0] == 0xf7 ==> Announced(s).Some? && Announced(s).value.header == 1
  {
  }
}
