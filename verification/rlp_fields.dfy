/** Unsigned transactions from the outside: headers in bytes, items in order, fields by name. */
module RlpFields {
  import opened Bytes
  import opened Rlp
  import opened RlpTheorems

  // ---- Headers and numbers.

  lemma HeaderForms(base: nat, n: nat)
    requires (base == 0x80 || base == 0xc0) && n < 0x1_0000
    ensures n <= 55 ==> Header(base, n) == [base + n]
    ensures 55 < n < 0x100 ==> Header(base, n) == [base + 56, n]
    ensures n >= 0x100 ==> Header(base, n) == [base + 57, n / 0x100, n % 0x100]
  {
    hide BE;
    BEDigits(n);
  }

  lemma BEDigits(n: nat)
    ensures n == 0 ==> BE(n) == []
    ensures 0 < n < 0x100 ==> BE(n) == [n]
    ensures 0x100 <= n < 0x1_0000 ==> BE(n) == [n / 0x100, n % 0x100]
  {
    BEUnfolds(n);
    BEUnfolds(n / 256);
    BEUnfolds(n / 256 / 256);
  }

  lemma BEUnfolds(n: nat)
    ensures BE(n) == if n == 0 then [] else BE(n / 256) + [n % 256]
  {
  }

  /** Numbers have no leading zero, and their value back. */
  lemma {:induction false} BEIsShortest(n: nat)
    ensures FromBE(BE(n)) == n && (n > 0 ==> BE(n) != [] && BE(n)[0] != 0)
  {
    BERoundTrip(n);
    if n > 0 {
      BEIsShortest(n / 256);
      if n < 256 { assert BE(n / 256) == []; }
    }
  }

  /** Strings and lists in bytes. */
  lemma ItemForms(b: seq<byte>)
    requires |b| < 0x1_0000
    ensures b == [] ==> Item(b) == [0x80] && ListItem(b) == [0xc0]
    ensures |b| == 1 && b[0] <= 0x7f ==> Item(b) == b
    ensures |b| == 1 && b[0] >= 0x80 ==> Item(b) == [0x81] + b
    ensures 2 <= |b| <= 55 ==> Item(b) == [0x80 + |b|] + b
    ensures 56 <= |b| < 0x100 ==> Item(b) == [0xb8, |b|] + b && ListItem(b) == [0xf8, |b|] + b
    ensures |b| >= 0x100 ==> Item(b) == [0xb9, |b| / 0x100, |b| % 0x100] + b
    ensures |b| >= 0x100 ==> ListItem(b) == [0xf9, |b| / 0x100, |b| % 0x100] + b
    ensures 1 <= |b| <= 55 ==> ListItem(b) == [0xc0 + |b|] + b
  {
    hide Header;
    HeaderForms(0x80, |b|);
    HeaderForms(0xc0, |b|);
  }

  // ---- The items of the three kinds, in order.

  function N(n: nat): seq<byte>
    requires |BE(n)| < U64
  {
    Item(BE(n))
  }

  lemma Short(n: nat)
    requires n < Pow256(32)
    ensures |BE(n)| < U64
  {
    BELength(n, 32);
  }

  lemma NumbersAreShort(t: Tx)
    requires NumbersFit(t)
    ensures |BE(t.nonce)| < U64 && |BE(t.gasPrice)| < U64 && |BE(t.gasLimit)| < U64 && |BE(t.value)| < U64
    ensures |BE(t.chainId)| < U64 && (t.DynamicFeeTx? ==> |BE(t.maxPriorityFee)| < U64)
  {
    hide Pow256, BE;
    Short(t.nonce);
    Short(t.gasPrice);
    Short(t.gasLimit);
    Short(t.value);
    BELength(t.chainId, 8);
    if t.DynamicFeeTx? { Short(t.maxPriorityFee); }
  }

  /** EIP-155: nine items. */
  lemma LegacyItems(t: Tx)
    requires t.LegacyTx? && Encodable(t)
    ensures NumbersFit(t) && |BE(t.nonce)| < U64 && |BE(t.gasPrice)| < U64 && |BE(t.gasLimit)| < U64
    ensures |BE(t.value)| < U64 && |BE(t.chainId)| < U64
    ensures SlotsBytes(t, SlotsOf(t))
      == N(t.nonce) + (N(t.gasPrice) + (N(t.gasLimit) + (Item(t.to) + (N(t.value) + (Item(t.data)
         + (N(t.chainId) + ([0x80] + ([0x80] + []))))))))
    ensures Encode(t) == ListItem(SlotsBytes(t, SlotsOf(t)))
  {
    hide BE, Item, ListItem, SlotsBytes, Pow256;
    NumbersAreShort(t);
    EmptyItem();
    SlotsInFront(t, LEGACY, 0);
    SlotsInFront(t, LEGACY, 1);
    SlotsInFront(t, LEGACY, 2);
    SlotsInFront(t, LEGACY, 3);
    SlotsInFront(t, LEGACY, 4);
    SlotsInFront(t, LEGACY, 5);
    SlotsInFront(t, LEGACY, 6);
    SlotsInFront(t, LEGACY, 7);
    SlotsInFront(t, LEGACY, 8);
    NoSlots(t, LEGACY);
  }

  /** EIP-2930: the type 1, then eight items, the last one a list. */
  lemma AccessListItems(t: Tx)
    requires t.AccessListTx? && Encodable(t)
    ensures NumbersFit(t) && |BE(t.nonce)| < U64 && |BE(t.gasPrice)| < U64 && |BE(t.gasLimit)| < U64
    ensures |BE(t.value)| < U64 && |BE(t.chainId)| < U64
    ensures SlotsBytes(t, SlotsOf(t))
      == N(t.chainId) + (N(t.nonce) + (N(t.gasPrice) + (N(t.gasLimit) + (Item(t.to) + (N(t.value) + (Item(t.data)
         + (ListItem(t.accessList) + [])))))))
    ensures Encode(t) == [1] + ListItem(SlotsBytes(t, SlotsOf(t)))
  {
    hide BE, Item, ListItem, SlotsBytes, Pow256, EIP2930, NumbersFit;
    NumbersAreShort(t);
    TypedSlots();
    SlotsInFront(t, EIP2930, 0);
    SlotsInFront(t, EIP2930, 1);
    SlotsInFront(t, EIP2930, 2);
    SlotsInFront(t, EIP2930, 3);
    SlotsInFront(t, EIP2930, 4);
    SlotsInFront(t, EIP2930, 5);
    SlotsInFront(t, EIP2930, 6);
    SlotsInFront(t, EIP2930, 7);
    NoSlots(t, EIP2930);
  }

  /** EIP-1559: the type 2, then nine items, the last one a list. */
  lemma DynamicFeeItems(t: Tx)
    requires t.DynamicFeeTx? && Encodable(t)
    ensures NumbersFit(t) && |BE(t.nonce)| < U64 && |BE(t.gasPrice)| < U64 && |BE(t.gasLimit)| < U64
    ensures |BE(t.value)| < U64 && |BE(t.chainId)| < U64 && |BE(t.maxPriorityFee)| < U64
    ensures SlotsBytes(t, SlotsOf(t))
      == N(t.chainId) + (N(t.nonce) + (N(t.maxPriorityFee) + (N(t.gasPrice) + (N(t.gasLimit) + (Item(t.to)
         + (N(t.value) + (Item(t.data) + (ListItem(t.accessList) + []))))))))
    ensures Encode(t) == [2] + ListItem(SlotsBytes(t, SlotsOf(t)))
  {
    hide BE, Item, ListItem, SlotsBytes, Pow256, EIP1559, NumbersFit;
    NumbersAreShort(t);
    TypedSlots();
    SlotsInFront(t, EIP1559, 0);
    SlotsInFront(t, EIP1559, 1);
    SlotsInFront(t, EIP1559, 2);
    SlotsInFront(t, EIP1559, 3);
    SlotsInFront(t, EIP1559, 4);
    SlotsInFront(t, EIP1559, 5);
    SlotsInFront(t, EIP1559, 6);
    SlotsInFront(t, EIP1559, 7);
    SlotsInFront(t, EIP1559, 8);
    NoSlots(t, EIP1559);
  }

  lemma TypedSlots()
    ensures |EIP2930| == 8 && EIP2930[0] == Num(ChainId) && EIP2930[1] == Num(Nonce) && EIP2930[2] == Num(GasPrice)
    ensures EIP2930[3] == Num(GasLimit) && EIP2930[4] == To && EIP2930[5] == Num(Amount)
    ensures EIP2930[6] == Data && EIP2930[7] == Skip(LIST)
    ensures |EIP1559| == 9 && EIP1559[0] == Num(ChainId) && EIP1559[1] == Num(Nonce)
    ensures EIP1559[2] == Num(MaxPriorityFee) && EIP1559[3] == Num(GasPrice) && EIP1559[4] == Num(GasLimit)
    ensures EIP1559[5] == To && EIP1559[6] == Num(Amount) && EIP1559[7] == Data && EIP1559[8] == Skip(LIST)
  {
  }

  lemma EmptyItem()
    ensures Item([]) == [0x80]
  {
  }

  lemma SlotsInFront(t: Tx, slots: seq<Slot>, k: nat)
    requires InRange(t) && k < |slots|
    ensures SlotsBytes(t, slots[k..]) == SlotBytes(t, slots[k]) + SlotsBytes(t, slots[k + 1..])
    ensures slots[0..] == slots
  {
    hide SlotBytes, InRange;
    assert slots[k..][1..] == slots[k + 1..];
  }

  lemma NoSlots(t: Tx, slots: seq<Slot>)
    requires InRange(t)
    ensures SlotsBytes(t, slots[|slots|..]) == []
  {
  }

  // ---- Fields by name.

  /** The stored bytes, read big-endian, are the number. */
  predicate Says(x: Number, n: nat) {
    0 < x.size <= |x.bytes| && FromBE(x.bytes[..x.size]) == n
  }

  lemma SaysNumber(data: seq<byte>, t: Tx, name: Name, x: Txn)
    requires Stored(data, t, Num(name), x)
    ensures Says(Get(x, name), NumberOf(t, name)) && |Get(x, name).bytes| == Capacity(name)
  {
    hide Denotes;
    DenotesValue(Get(x, name), NumberOf(t, name), Capacity(name));
  }

  lemma NumbersSaid(data: seq<byte>, t: Tx, x: Txn)
    requires forall s <- SlotsOf(t) :: Stored(data, t, s, x)
    ensures Says(x.nonce, t.nonce) && Says(x.gasPrice, t.gasPrice) && Says(x.gasLimit, t.gasLimit)
    ensures Says(x.value, t.value) && Says(x.chainId, t.chainId)
    ensures t.DynamicFeeTx? ==> Says(x.maxPriorityFee, t.maxPriorityFee)
    ensures |x.nonce.bytes| == |x.gasPrice.bytes| == |x.gasLimit.bytes| == |x.value.bytes| == 32
    ensures |x.chainId.bytes| == 8
  {
    hide Stored, SlotsOf, Says;
    SlotsAreThere(t);
    SaysNumber(data, t, Nonce, x);
    SaysNumber(data, t, GasPrice, x);
    SaysNumber(data, t, GasLimit, x);
    SaysNumber(data, t, Amount, x);
    SaysNumber(data, t, ChainId, x);
    if t.DynamicFeeTx? { SaysNumber(data, t, MaxPriorityFee, x); }
  }

  lemma OthersSaid(data: seq<byte>, t: Tx, x: Txn)
    requires InRange(t) && forall s <- SlotsOf(t) :: Stored(data, t, s, x)
    ensures |x.to| == 20 && (t.to != [] ==> x.to == t.to) && (t.to == [] ==> forall i | 0 <= i < 20 :: x.to[i] == 0)
    ensures 0 <= x.dataAt && x.dataAt + x.dataSize <= |data| && data[x.dataAt..x.dataAt + x.dataSize] == t.data
  {
    hide SlotsOf, NumbersFit, Denotes;
    SlotsAreThere(t);
    assert Stored(data, t, To, x) && Stored(data, t, Data, x);
  }

  lemma EncodableFits(t: Tx)
    requires Encodable(t)
    ensures InRange(t) && |SlotsBytes(t, SlotsOf(t))| < U64 && Encode(t) != []
  {
    hide InRange, SlotsBytes, SlotsOf, ListItem;
    ListShape(SlotsBytes(t, SlotsOf(t)));
  }

  /** Every field of the decoded transaction is the one that was encoded under its name. */
  lemma FieldsComeBack(t: Tx)
    requires Encodable(t)
    ensures Decode(Encode(t)).Ok?
    ensures var x := Decode(Encode(t)).value;
      && Says(x.nonce, t.nonce) && Says(x.gasPrice, t.gasPrice) && Says(x.gasLimit, t.gasLimit)
      && Says(x.value, t.value) && Says(x.chainId, t.chainId)
      && (t.DynamicFeeTx? ==> Says(x.maxPriorityFee, t.maxPriorityFee))
      && |x.nonce.bytes| == |x.gasPrice.bytes| == |x.gasLimit.bytes| == |x.value.bytes| == 32
      && |x.chainId.bytes| == 8
    ensures var x, body := Decode(Encode(t)).value, if t.LegacyTx? then Encode(t) else Encode(t)[1..];
      && |x.to| == 20 && (t.to != [] ==> x.to == t.to) && (t.to == [] ==> forall i | 0 <= i < 20 :: x.to[i] == 0)
      && 0 <= x.dataAt && x.dataAt + x.dataSize <= |body| && body[x.dataAt..x.dataAt + x.dataSize] == t.data
  {
    hide Decode, Encode, Stored, Says, SlotsOf, InRange, Encodable;
    EncodableFits(t);
    TransactionRoundTrip(t);
    var x := Decode(Encode(t)).value;
    var body := if t.LegacyTx? then Encode(t) else Encode(t)[1..];
    NumbersSaid(body, t, x);
    OthersSaid(body, t, x);
  }

  lemma SlotsAreThere(t: Tx)
    ensures var s := SlotsOf(t);
      && Num(Nonce) in s && Num(GasPrice) in s && Num(GasLimit) in s && Num(Amount) in s && Num(ChainId) in s
      && To in s && Data in s && (t.DynamicFeeTx? ==> Num(MaxPriorityFee) in s)
  {
    assert LEGACY[0] == Num(Nonce) && LEGACY[1] == Num(GasPrice) && LEGACY[2] == Num(GasLimit) && LEGACY[3] == To;
    assert LEGACY[4] == Num(Amount) && LEGACY[5] == Data && LEGACY[6] == Num(ChainId);
    assert EIP2930[0] == Num(ChainId) && EIP2930[1] == Num(Nonce) && EIP2930[2] == Num(GasPrice);
    assert EIP2930[3] == Num(GasLimit) && EIP2930[4] == To && EIP2930[5] == Num(Amount) && EIP2930[6] == Data;
    assert EIP1559[0] == Num(ChainId) && EIP1559[1] == Num(Nonce) && EIP1559[2] == Num(MaxPriorityFee);
    assert EIP1559[3] == Num(GasPrice) && EIP1559[4] == Num(GasLimit) && EIP1559[5] == To;
    assert EIP1559[6] == Num(Amount) && EIP1559[7] == Data;
  }

  // ---- What is not in an envelope stays zero.

  lemma {:induction false} OtherFeeStays(slots: seq<Slot>, b: Buffer, c: Cursor, t: Txn)
    requires SlotsAt(slots, b, c, t).Ok? && Num(MaxPriorityFee) !in slots
    ensures SlotsAt(slots, b, c, t).value.1.maxPriorityFee == t.maxPriorityFee
    decreases |slots|
  {
    hide SlotAt;
    if slots != [] {
      OneSlotKeeps(slots[0], b, c, t);
      var (c1, t1) := SlotAt(slots[0], b, c, t).value;
      OtherFeeStays(slots[1..], b, c1, t1);
    }
  }

  lemma OneSlotKeeps(slot: Slot, b: Buffer, c: Cursor, t: Txn)
    requires SlotAt(slot, b, c, t).Ok? && slot != Num(MaxPriorityFee)
    ensures SlotAt(slot, b, c, t).value.1.maxPriorityFee == t.maxPriorityFee
  {
    hide HeaderAt, CopyAt, SizeByte, Capacity;
  }

  /** Only EIP-1559 has a priority fee; elsewhere the field is still empty. */
  lemma NoPriorityFee(data: seq<byte>)
    requires data != [] && data[0] != 2 && Decode(data).Ok?
    ensures Decode(data).value.maxPriorityFee.size == 0
    ensures Decode(data).value.maxPriorityFee.bytes == Zeros(32)
  {
    hide SlotsAt, HeaderAt;
    var slots := if data[0] == 1 then EIP2930 else LEGACY;
    var b := if data[0] == 1 then Buffer(Some(1), data[1..]) else Buffer(None, data);
    OtherFeeStays(slots, b, HeaderAt(b, START).value.1, ZERO_TXN);
  }

  /** The size that is stored is one byte, at least 1. */
  lemma SizeInFull(len: nat)
    ensures SizeByte(len) < 0x100 && (len == 0 ==> SizeByte(len) == 1) && (len > 0 ==> SizeByte(len) == len % 0x100)
  {
  }
}
