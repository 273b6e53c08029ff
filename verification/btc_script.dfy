/** Classification of Bitcoin scripts (apps/btc_family/btc_script.c and btc_script.h). */
module BtcScript {
  import opened Bytes

  const OP_1: byte := 0x51
  const OP_16: byte := 0x60
  const OP_RETURN: byte := 0x6a
  const OP_DUP: byte := 0x76
  const OP_EQUAL: byte := 0x87
  const OP_EQUALVERIFY: byte := 0x88
  const OP_HASH160: byte := 0xa9
  const OP_CHECKSIG: byte := 0xac
  const OP_CHECKMULTISIG: byte := 0xae

  datatype ScriptType = NonStandard | P2PK | P2PKH | P2MS | P2SH | NullData | P2WPKH | P2WSH | P2TR | UnknownSegwit

  predicate IsP2pk(s: seq<byte>) {
    || (|s| == 67 && s[0] == 65 && s[66] == OP_CHECKSIG)
    || (|s| == 35 && s[0] == 33 && s[34] == OP_CHECKSIG)
  }

  predicate IsP2pkh(s: seq<byte>) {
    |s| == 25 && s[0] == OP_DUP && s[1] == OP_HASH160 && s[2] == 0x14 && s[23] == OP_EQUALVERIFY && s[24] == OP_CHECKSIG
  }

  predicate IsP2sh(s: seq<byte>) { |s| == 23 && s[0] == OP_HASH160 && s[1] == 0x14 && s[22] == OP_EQUAL }
  predicate IsP2wpkh(s: seq<byte>) { |s| == 22 && s[0] == 0 && s[1] == 0x14 }
  // The length tested is 43, not the 34 of a witness script hash.
  predicate IsP2wsh(s: seq<byte>) { |s| == 43 && s[0] == 0 && s[1] == 0x20 }
  predicate IsP2tr(s: seq<byte>) { |s| == 34 && s[0] == OP_1 && s[1] == 0x20 }
  predicate IsP2ms(s: seq<byte>) { 1 <= |s| && s[|s| - 1] == OP_CHECKMULTISIG }
  predicate IsOpReturn(s: seq<byte>) { 0 < |s| <= 83 && s[0] == OP_RETURN }

  predicate IsFutureSegwit(s: seq<byte>) {
    4 <= |s| <= 42 && (s[0] == 0 || OP_1 <= s[0] <= OP_16) && |s| - 2 == s[1]
  }

  /** btc_get_script_type: the first test that succeeds. */
  function TypeOf(s: seq<byte>): ScriptType {
    if IsP2pk(s) then P2PK
    else if IsP2pkh(s) then P2PKH
    else if IsP2sh(s) then P2SH
    else if IsP2wpkh(s) then P2WPKH
    else if IsP2wsh(s) then P2WSH
    else if IsP2tr(s) then P2TR
    else if IsFutureSegwit(s) then UnknownSegwit
    else if IsP2ms(s) then P2MS
    else if IsOpReturn(s) then NullData
    else NonStandard
  }

  function P2pkhScript(hash: seq<byte>): seq<byte> { [OP_DUP, OP_HASH160, 0x14] + hash + [OP_EQUALVERIFY, OP_CHECKSIG] }
  function P2shScript(hash: seq<byte>): seq<byte> { [OP_HASH160, 0x14] + hash + [OP_EQUAL] }
  function P2wpkhScript(hash: seq<byte>): seq<byte> { [0, 0x14] + hash }

  /** The order of the tests does not matter for the three types the device spends and takes for
      change: they are exactly the scripts built from a 20-byte hash. */
  lemma SpendableTypes(s: seq<byte>)
    ensures TypeOf(s) == P2PKH <==> exists k: seq<byte> :: |k| == 20 && s == P2pkhScript(k)
    ensures TypeOf(s) == P2SH <==> exists k: seq<byte> :: |k| == 20 && s == P2shScript(k)
    ensures TypeOf(s) == P2WPKH <==> exists k: seq<byte> :: |k| == 20 && s == P2wpkhScript(k)
  {
    if IsP2pkh(s) { assert s == P2pkhScript(s[3..23]); }
    if IsP2sh(s) { assert s == P2shScript(s[2..22]); }
    if IsP2wpkh(s) { assert s == P2wpkhScript(s[2..]); }
  }

  /** The types byte by byte. */
  lemma TypesOnBytes(s: seq<byte>)
    ensures TypeOf(s) == P2PKH <==> |s| == 25 && s[..3] == [0x76, 0xa9, 0x14] && s[23..] == [0x88, 0xac]
    ensures TypeOf(s) == P2SH <==> |s| == 23 && s[..2] == [0xa9, 0x14] && s[22] == 0x87
    ensures TypeOf(s) == P2WPKH <==> |s| == 22 && s[..2] == [0, 0x14]
    ensures TypeOf(s) == P2WSH <==> |s| == 43 && s[..2] == [0, 0x20]
    ensures TypeOf(s) == P2TR <==> |s| == 34 && s[..2] == [0x51, 0x20]
    ensures TypeOf(s) == P2PK <==>
      (|s| == 67 && s[0] == 65 && s[66] == 0xac) || (|s| == 35 && s[0] == 33 && s[34] == 0xac)
    ensures TypeOf(s) == UnknownSegwit <==>
      && 4 <= |s| <= 42 && (s[0] == 0 || 0x51 <= s[0] <= 0x60) && s[1] == |s| - 2
      && s[..2] != [0, 0x14] && s[..2] != [0x51, 0x20]
    ensures TypeOf(s) == P2MS <==>
      && s != [] && s[|s| - 1] == 0xae && TypeOf(s) !in {P2WPKH, P2WSH, P2TR, UnknownSegwit}
    ensures TypeOf(s) == NullData <==> 0 < |s| <= 83 && s[0] == 0x6a && s[|s| - 1] != 0xae
  {
  }

  /** The scripts that are built. */
  lemma ScriptsOnBytes(hash: seq<byte>)
    ensures P2pkhScript(hash) == [0x76, 0xa9, 0x14] + hash + [0x88, 0xac]
    ensures P2shScript(hash) == [0xa9, 0x14] + hash + [0x87]
    ensures P2wpkhScript(hash) == [0, 0x14] + hash
  {
  }

  function WitnessScript(program: seq<byte>): seq<byte> { [0, 0x20] + program }

  /** Exactly the programs of 41 bytes are called P2WSH. The programs of 32 bytes that BIP-141 calls
      so are taken for a future version, whose output is shown and paid all the same. */
  lemma WitnessScriptHashes(s: seq<byte>, k: seq<byte>)
    ensures TypeOf(s) == P2WSH <==> exists k: seq<byte> :: |k| == 41 && s == WitnessScript(k)
    ensures |k| == 32 ==> TypeOf(WitnessScript(k)) == UnknownSegwit
    ensures TypeOf(WitnessScript(k)) == P2WSH <==> |k| == 41
  {
    if IsP2wsh(s) { assert s == WitnessScript(s[2..]); }
  }

  /** RIPEMD-160 of SHA-256 stays uninterpreted. */
  type Hash160 = seq<byte> -> Hash20
  type Hash20 = s: seq<byte> | |s| == 20 witness Zeros(20)

  /** The redeem script of nested segwit: P2WPKH of the key. */
  function Redeem(h160: Hash160, publicKey: seq<byte>): seq<byte> {
    P2wpkhScript(h160(publicKey))
  }

  /** The script can be spent with the key alone. */
  predicate PaysTo(h160: Hash160, s: seq<byte>, publicKey: seq<byte>) {
    || s == P2pkhScript(h160(publicKey))
    || s == P2wpkhScript(h160(publicKey))
    || s == P2shScript(h160(Redeem(h160, publicKey)))
  }

  /** btc_check_script_address. */
  method CheckScriptAddress(h160: Hash160, s: seq<byte>, publicKey: seq<byte>) returns (ok: bool)
    ensures ok <==> PaysTo(h160, s, publicKey)
    ensures ok <==>
      || s == [0x76, 0xa9, 0x14] + h160(publicKey) + [0x88, 0xac]
      || s == [0, 0x14] + h160(publicKey)
      || s == [0xa9, 0x14] + h160([0, 0x14] + h160(publicKey)) + [0x87]
  {
    SpendableTypes(s);
    var ty := TypeOf(s);
    if ty != P2PKH && ty != P2WPKH && ty != P2SH {
      assert P2pkhScript(h160(publicKey)) != s;
      return false;
    }
    var offset := if ty == P2PKH then 3 else 2;
    var digest := h160(publicKey);
    if ty == P2SH {
      var buf := [0, 20] + digest;
      digest := h160(buf);
    }
    ok := digest == s[offset..offset + 20];
    if ty == P2PKH {
      assert P2pkhScript(digest)[3..23] == digest && s == P2pkhScript(s[3..23]);
    } else if ty == P2SH {
      assert P2shScript(digest)[2..22] == digest && s == P2shScript(s[2..22]);
    } else {
      assert P2wpkhScript(digest)[2..22] == digest && s == P2wpkhScript(s[2..22]);
    }
  }
}
