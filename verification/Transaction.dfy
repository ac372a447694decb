/** Transactions, their bytes, and what SignatureHash hashes. The hash itself is not
    modelled: its input is. */
module Transaction {
  import opened Numerals
  import opened Bytes
  import opened Serialize
  import S = Script

  type uint32 = n: nat | n < 0x1_0000_0000
  type int32 = n: int | -0x8000_0000 <= n < 0x8000_0000
  type int64 = n: int | -0x8000_0000_0000_0000 <= n < 0x8000_0000_0000_0000
  type uint256 = b: bytes | |b| == 32 witness seq(32, k => 0)
  type Vector<T> = v: seq<T> | |v| < 0x1_0000_0000_0000_0000

  datatype COutPoint = COutPoint(hash: uint256, n: uint32)
  datatype CTxIn = CTxIn(prevout: COutPoint, scriptSig: Vector<byte>, nSequence: uint32)
  datatype CTxOut = CTxOut(nValue: int64, scriptPubKey: Vector<byte>, coinType: string)
  datatype CTransaction = CTransaction(
    coinType: string, nVersion: int32, nTime: uint32, vin: Vector<CTxIn>, vout: Vector<CTxOut>, nLockTime: uint32)

  const NULL_OUT: CTxOut := CTxOut(-1, [], "")

  // ----- bytes -----

  /** Two's complement, little-endian. */
  function SignedLE(n: int, len: nat): bytes
    requires n + Pow(256, len) >= 0
  {
    LE(if n < 0 then n + Pow(256, len) else n, len)
  }

  function ScriptBytes(code: Vector<byte>): bytes { EncRaw(code, |code|) }

  function TxInBytes(i: CTxIn): bytes {
    i.prevout.hash + (LE(i.prevout.n, 4) + (ScriptBytes(i.scriptSig) + LE(i.nSequence, 4)))
  }

  function TxOutBytes(o: CTxOut): bytes {
    Pow256(8);
    SignedLE(o.nValue, 8) + (ScriptBytes(o.scriptPubKey) + (if o.coinType == "cfos" then LE(0, 4) else []))
  }

  function TimeBytes(tx: CTransaction): bytes {
    if tx.coinType == "blackcoin" then LE(tx.nTime, 4) else []
  }

  function TxBytes(tx: CTransaction): bytes {
    Pow256(4);
    SignedLE(tx.nVersion, 4) + (TimeBytes(tx) + (EncVector(TxInBytes, tx.vin) + (EncVector(TxOutBytes, tx.vout)
      + LE(tx.nLockTime, 4))))
  }

  // ----- what is signed -----

  const SIGHASH_ALL: int := 1
  const SIGHASH_NONE: int := 2
  const SIGHASH_SINGLE: int := 3

  /** The low five bits of a hash type, and its bit for SIGHASH_ANYONECANPAY. */
  function BaseType(t: int32): int { t % 32 }

  predicate AnyoneCanPay(t: int32) { t / 128 % 2 == 1 }

  predicate LetsOthersUpdate(t: int32) { BaseType(t) == SIGHASH_NONE || BaseType(t) == SIGHASH_SINGLE }

  /** An input as it is signed for input `n`. */
  function SignedIn(i: CTxIn, isOwn: bool, code: Vector<byte>, t: int32): CTxIn {
    if isOwn then i.(scriptSig := code)
    else CTxIn(i.prevout, [], if LetsOthersUpdate(t) then 0 else i.nSequence)
  }

  function SignedIns(vin: Vector<CTxIn>, code: Vector<byte>, n: nat, t: int32): (r: Vector<CTxIn>)
    requires n < |vin|
  {
    if AnyoneCanPay(t) then [SignedIn(vin[n], true, code, t)]
    else seq(|vin|, k requires 0 <= k < |vin| => SignedIn(vin[k], k == n, code, t))
  }

  function SignedOuts(vout: Vector<CTxOut>, n: nat, t: int32): Vector<CTxOut>
    requires BaseType(t) == SIGHASH_SINGLE ==> n < |vout|
  {
    if BaseType(t) == SIGHASH_NONE then []
    else if BaseType(t) == SIGHASH_SINGLE then seq(n, k => NULL_OUT) + [vout[n]]
    else vout
  }

  /** What is hashed: nothing but the number 1 when the input, or with SIGHASH_SINGLE
      its output, does not exist. */
  datatype Hashed = One | Preimage(data: bytes)

  /** The transaction that is serialized for signing. */
  function SignedTx(code: Vector<byte>, tx: CTransaction, n: nat, t: int32): CTransaction
    requires n < |tx.vin| && (BaseType(t) == SIGHASH_SINGLE ==> n < |tx.vout|)
  {
    tx.(vin := SignedIns(tx.vin, code, n, t), vout := SignedOuts(tx.vout, n, t))
  }

  function Stripped(code: Vector<byte>): (r: Vector<byte>) {
    PurgeShortens(code, S.SEPARATOR);
    S.Purge(code, S.SEPARATOR).0
  }

  lemma {:induction false} PurgeShortens(s: bytes, pattern: bytes)
    requires pattern != []
    ensures |S.Purge(s, pattern).0| <= |s|
    decreases |s|
  {
    if pattern <= s {
      PurgeShortens(s[|pattern|..], pattern);
    } else if S.Fetch(s).Good? {
      PurgeShortens(s[S.Fetch(s).length..], pattern);
    }
  }

  function HashInput(code: Vector<byte>, tx: CTransaction, n: nat, t: int32): Hashed {
    if n >= |tx.vin| || (BaseType(t) == SIGHASH_SINGLE && n >= |tx.vout|) then One
    else
      Pow256(4);
      Preimage(TxBytes(SignedTx(Stripped(code), tx, n, t)) + SignedLE(t, 4))
  }

  /** The script and the transaction come by value. */
  method SignatureHash(script: bytes, txTo: CTransaction, nIn: uint32, nHashType: int32) returns (r: Hashed)
    requires |script| < 0x1_0000_0000 && |txTo.vin| <= 0x1_0000_0000 && |txTo.vout| <= 0x1_0000_0000
    ensures r == HashInput(script, txTo, nIn, nHashType)
  {
    hide TxBytes, S.Purge, SignedLE;
    Pow256(4);
    PurgeShortens(script, S.SEPARATOR);
    if nIn >= |txTo.vin| { return One; }
    var scriptCode := new S.CScript.Of(script);
    var found := scriptCode.FindAndDelete([S.OP_CODESEPARATOR]);
    var code: Vector<byte> := scriptCode.code;
    assert code == Stripped(script);
    var vin := BlankSignatures(txTo.vin);
    vin := vin[nIn := vin[nIn].(scriptSig := code)];
    var vout := txTo.vout;
    if nHashType % 32 == SIGHASH_NONE {
      vout := [];
      vin := BlankSequences(vin, nIn);
    } else if nHashType % 32 == SIGHASH_SINGLE {
      if nIn >= |vout| { return One; }
      vout := vout[..nIn + 1];
      vout := BlankOutputs(vout, nIn);
      vin := BlankSequences(vin, nIn);
    }
    if nHashType / 128 % 2 == 1 {
      vin := vin[0 := vin[nIn]];
      vin := vin[..1];
    }
    assert vin == SignedIns(txTo.vin, code, nIn, nHashType);
    assert vout == SignedOuts(txTo.vout, nIn, nHashType);
    var txTmp := txTo.(vin := vin, vout := vout);
    r := Preimage(TxBytes(txTmp) + SignedLE(nHashType, 4));
  }

  method BlankSignatures(ins: Vector<CTxIn>) returns (vin: Vector<CTxIn>)
    ensures |vin| == |ins| && forall k :: 0 <= k < |vin| ==> vin[k] == ins[k].(scriptSig := [])
  {
    vin := ins;
    for i := 0 to |vin|
      invariant |vin| == |ins|
      invariant forall k :: 0 <= k < |vin| ==> vin[k] == if k < i then ins[k].(scriptSig := []) else ins[k]
    {
      vin := vin[i := vin[i].(scriptSig := [])];
    }
  }

  method BlankSequences(ins: Vector<CTxIn>, nIn: nat) returns (vin: Vector<CTxIn>)
    ensures |vin| == |ins|
    ensures forall k :: 0 <= k < |vin| ==> vin[k] == if k != nIn then ins[k].(nSequence := 0) else ins[k]
  {
    vin := ins;
    for i := 0 to |vin|
      invariant |vin| == |ins|
      invariant forall k :: 0 <= k < |vin| ==> vin[k] == if k < i && k != nIn then ins[k].(nSequence := 0) else ins[k]
    {
      if i != nIn { vin := vin[i := vin[i].(nSequence := 0)]; }
    }
  }

  method BlankOutputs(outs: Vector<CTxOut>, nOut: nat) returns (vout: Vector<CTxOut>)
    requires nOut < |outs|
    ensures |vout| == |outs|
    ensures forall k :: 0 <= k < |vout| ==> vout[k] == if k < nOut then NULL_OUT else outs[k]
  {
    vout := outs;
    for i := 0 to nOut
      invariant |vout| == |outs|
      invariant forall k :: 0 <= k < |vout| ==> vout[k] == if k < i then NULL_OUT else outs[k]
    {
      vout := vout[i := NULL_OUT];
    }
  }

  // ----- no encoding begins another -----

  lemma FixedUnique(a: bytes, b: bytes, r: bytes, q: bytes)
    requires |a| == |b| && a + r == b + q
    ensures a == b && r == q
  {
    assert (a + r)[..|a|] == a && (b + q)[..|a|] == b;
    assert (a + r)[|a|..] == r && (b + q)[|a|..] == q;
  }

  lemma UnsignedUnique(n: nat, m: nat, len: nat, r: bytes, q: bytes)
    requires n < Pow(256, len) && m < Pow(256, len) && LE(n, len) + r == LE(m, len) + q
    ensures n == m && r == q
  {
    hide LE, FromLE;
    FixedUnique(LE(n, len), LE(m, len), r, q);
    FromLELE(n, len);
    FromLELE(m, len);
  }

  lemma SignedUnique(n: int, m: int, len: nat, r: bytes, q: bytes)
    requires 0 <= 2 * n + Pow(256, len) < 2 * Pow(256, len) && 0 <= 2 * m + Pow(256, len) < 2 * Pow(256, len)
    requires SignedLE(n, len) + r == SignedLE(m, len) + q
    ensures n == m && r == q
  {
    hide LE, FromLE;
    var p := Pow(256, len);
    UnsignedUnique(if n < 0 then n + p else n, if m < 0 then m + p else m, len, r, q);
  }

  lemma ScriptUnique(a: Vector<byte>, b: Vector<byte>, r: bytes, q: bytes)
    requires ScriptBytes(a) + r == ScriptBytes(b) + q
    ensures a == b && r == q
  {
    hide CompactSize;
    assert ScriptBytes(a) + r == CompactSize(|a|) + (a + r);
    assert ScriptBytes(b) + q == CompactSize(|b|) + (b + q);
    CompactSizeUnique(|a|, |b|, a + r, b + q);
    FixedUnique(a, b, r, q);
  }

  lemma TxInUnique()
    ensures IsUnique(i => true, TxInBytes)
  {
    hide LE, ScriptBytes;
    Pow256(0);
    forall x: CTxIn, y: CTxIn, r, q | TxInBytes(x) + r == TxInBytes(y) + q ensures x == y && r == q {
      var x2, y2 := LE(x.nSequence, 4) + r, LE(y.nSequence, 4) + q;
      var x1, y1 := ScriptBytes(x.scriptSig) + x2, ScriptBytes(y.scriptSig) + y2;
      var x0, y0 := LE(x.prevout.n, 4) + x1, LE(y.prevout.n, 4) + y1;
      assert TxInBytes(x) + r == x.prevout.hash + x0;
      assert TxInBytes(y) + q == y.prevout.hash + y0;
      FixedUnique(x.prevout.hash, y.prevout.hash, x0, y0);
      UnsignedUnique(x.prevout.n, y.prevout.n, 4, x1, y1);
      ScriptUnique(x.scriptSig, y.scriptSig, x2, y2);
      UnsignedUnique(x.nSequence, y.nSequence, 4, r, q);
    }
  }

  lemma TxOutUnique(coinType: string)
    ensures IsUnique((o: CTxOut) => o.coinType == coinType, TxOutBytes)
  {
    hide LE, ScriptBytes, SignedLE;
    Pow256(0);
    var end := if coinType == "cfos" then LE(0, 4) else [];
    forall x: CTxOut, y: CTxOut, r, q | x.coinType == y.coinType == coinType && TxOutBytes(x) + r == TxOutBytes(y) + q
      ensures x == y && r == q
    {
      var x1, y1 := ScriptBytes(x.scriptPubKey) + (end + r), ScriptBytes(y.scriptPubKey) + (end + q);
      assert TxOutBytes(x) + r == SignedLE(x.nValue, 8) + x1;
      assert TxOutBytes(y) + q == SignedLE(y.nValue, 8) + y1;
      SignedUnique(x.nValue, y.nValue, 8, x1, y1);
      ScriptUnique(x.scriptPubKey, y.scriptPubKey, end + r, end + q);
      FixedUnique(end, end, r, q);
    }
  }

  /** A transaction whose outputs carry its type. */
  predicate IsTyped(tx: CTransaction) {
    forall o :: o in tx.vout ==> o.coinType == tx.coinType
  }

  /** The time is written for one coin only. */
  function Timeless(tx: CTransaction): CTransaction {
    if tx.coinType == "blackcoin" then tx else tx.(nTime := 0)
  }

  lemma TimeUnique(x: CTransaction, y: CTransaction, r: bytes, q: bytes)
    requires x.coinType == y.coinType && TimeBytes(x) + r == TimeBytes(y) + q
    ensures r == q && Timeless(x).nTime == Timeless(y).nTime
  {
    hide LE;
    Pow256(0);
    if x.coinType == "blackcoin" {
      UnsignedUnique(x.nTime, y.nTime, 4, r, q);
    } else {
      assert TimeBytes(x) + r == r && TimeBytes(y) + q == q;
    }
  }

  /** The bytes of a typed transaction determine it, but for a time that is not written. */
  lemma TxUnique(x: CTransaction, y: CTransaction, r: bytes, q: bytes)
    requires x.coinType == y.coinType && IsTyped(x) && IsTyped(y)
    requires TxBytes(x) + r == TxBytes(y) + q
    ensures Timeless(x) == Timeless(y) && r == q
  {
    hide LE, SignedLE, TimeBytes, EncVector, TxInBytes, TxOutBytes, IsUnique;
    Pow256(0);
    var x3, y3 := LE(x.nLockTime, 4) + r, LE(y.nLockTime, 4) + q;
    var x2, y2 := EncVector(TxOutBytes, x.vout) + x3, EncVector(TxOutBytes, y.vout) + y3;
    var x1, y1 := EncVector(TxInBytes, x.vin) + x2, EncVector(TxInBytes, y.vin) + y2;
    assert TxBytes(x) + r == SignedLE(x.nVersion, 4) + (TimeBytes(x) + x1);
    assert TxBytes(y) + q == SignedLE(y.nVersion, 4) + (TimeBytes(y) + y1);
    SignedUnique(x.nVersion, y.nVersion, 4, TimeBytes(x) + x1, TimeBytes(y) + y1);
    TimeUnique(x, y, x1, y1);
    TxInUnique();
    VectorUnique(i => true, TxInBytes, x.vin, y.vin, x2, y2);
    TxOutUnique(x.coinType);
    VectorUnique((o: CTxOut) => o.coinType == x.coinType, TxOutBytes, x.vout, y.vout, x3, y3);
    UnsignedUnique(x.nLockTime, y.nLockTime, 4, r, q);
  }

  // ----- what a signature commits to -----

  /** A transaction without its scriptSigs, and without a time that is not written. */
  function Committed(tx: CTransaction): CTransaction {
    Timeless(tx.(vin := seq(|tx.vin|, k requires 0 <= k < |tx.vin| => tx.vin[k].(scriptSig := []))))
  }

  /** Under SIGHASH_ALL two typed transactions of one type have the same preimage
      exactly when they sign the same input with the same script code, code separators
      aside, and agree on everything but the scriptSigs. */
  lemma AllCommits(code: Vector<byte>, tx: CTransaction, n: nat, code': Vector<byte>, tx': CTransaction, n': nat)
    requires tx.coinType == tx'.coinType && IsTyped(tx) && IsTyped(tx')
    requires n < |tx.vin| && n' < |tx'.vin| && Stripped(code) != [] && Stripped(code') != []
    ensures HashInput(code, tx, n, SIGHASH_ALL) == HashInput(code', tx', n', SIGHASH_ALL)
      <==> n == n' && Stripped(code) == Stripped(code') && Committed(tx) == Committed(tx')
  {
    hide TxBytes, SignedLE, Stripped;
    var own, own' := Stripped(code), Stripped(code');
    var x, y := SignedTx(own, tx, n, SIGHASH_ALL), SignedTx(own', tx', n', SIGHASH_ALL);
    Pow256(4);
    var end := SignedLE(SIGHASH_ALL, 4);
    if TxBytes(x) + end == TxBytes(y) + end {
      TxUnique(x, y, end, end);
      assert x.vin == y.vin;
      assert x.vin[n].scriptSig == own && y.vin[n'].scriptSig == own';
      assert forall k :: 0 <= k < |x.vin| && k != n ==> x.vin[k].scriptSig == [];
      assert n == n' && own == own';
      SameInputs(tx.vin, tx'.vin, own, n);
    }
    if n == n' && own == own' && Committed(tx) == Committed(tx') {
      SameSigned(tx, tx', own, n);
      TimelessBytes(x, y);
    }
  }

  lemma SameInputs(vin: Vector<CTxIn>, vin': Vector<CTxIn>, code: Vector<byte>, n: nat)
    requires n < |vin| == |vin'| && SignedIns(vin, code, n, SIGHASH_ALL) == SignedIns(vin', code, n, SIGHASH_ALL)
    ensures forall k :: 0 <= k < |vin| ==> vin[k].(scriptSig := []) == vin'[k].(scriptSig := [])
  {
    forall k | 0 <= k < |vin| ensures vin[k].(scriptSig := []) == vin'[k].(scriptSig := []) {
      assert SignedIns(vin, code, n, SIGHASH_ALL)[k] == SignedIns(vin', code, n, SIGHASH_ALL)[k];
    }
  }

  lemma SameSigned(tx: CTransaction, tx': CTransaction, code: Vector<byte>, n: nat)
    requires n < |tx.vin| && n < |tx'.vin| && tx.coinType == tx'.coinType && Committed(tx) == Committed(tx')
    ensures Timeless(SignedTx(code, tx, n, SIGHASH_ALL)) == Timeless(SignedTx(code, tx', n, SIGHASH_ALL))
  {
    var c, c' := Committed(tx), Committed(tx');
    assert |c.vin| == |tx.vin| && |c'.vin| == |tx'.vin|;
    forall k | 0 <= k < |tx.vin|
      ensures SignedIns(tx.vin, code, n, SIGHASH_ALL)[k] == SignedIns(tx'.vin, code, n, SIGHASH_ALL)[k]
    {
      assert c.vin[k] == c'.vin[k];
    }
    assert SignedIns(tx.vin, code, n, SIGHASH_ALL) == SignedIns(tx'.vin, code, n, SIGHASH_ALL);
  }

  lemma TimelessBytes(x: CTransaction, y: CTransaction)
    requires x.coinType == y.coinType && Timeless(x) == Timeless(y)
    ensures TxBytes(x) == TxBytes(y)
  {
  }

  /** Whatever the hash type, the scriptSigs do not matter. */
  lemma ScriptSigsIgnored(code: Vector<byte>, tx: CTransaction, tx': CTransaction, n: nat, t: int32)
    requires tx.coinType == tx'.coinType && Committed(tx) == Committed(tx')
    ensures HashInput(code, tx, n, t) == HashInput(code, tx', n, t)
  {
    hide TxBytes, SignedLE, Stripped;
    var c, c' := Committed(tx), Committed(tx');
    assert |c.vin| == |tx.vin| && |c'.vin| == |tx'.vin|;
    if HashInput(code, tx, n, t).Preimage? {
      var own := Stripped(code);
      forall k | 0 <= k < |tx.vin|
        ensures tx.vin[k].(scriptSig := []) == tx'.vin[k].(scriptSig := [])
      {
        assert c.vin[k] == c'.vin[k];
      }
      assert SignedIns(tx.vin, own, n, t) == SignedIns(tx'.vin, own, n, t);
      TimelessBytes(SignedTx(own, tx, n, t), SignedTx(own, tx', n, t));
    }
  }

  /** Whether the preimage says which input is signed. */
  ghost predicate SaysIndex(code: Vector<byte>, tx: CTransaction) {
    forall n, n' :: 0 <= n < |tx.vin| && 0 <= n' < |tx.vin| && HashInput(code, tx, n, SIGHASH_ALL) == HashInput(code, tx, n', SIGHASH_ALL)
      ==> n == n'
  }

  /** Under SIGHASH_ALL it does if and only if the script code is more than code
      separators, or the transaction has at most one input. */
  lemma IndexIsSaid(code: Vector<byte>, tx: CTransaction)
    ensures SaysIndex(code, tx) <==> Stripped(code) != [] || |tx.vin| <= 1
  {
    hide HashInput, Stripped;
    if Stripped(code) != [] {
      forall n, n' | 0 <= n < |tx.vin| && 0 <= n' < |tx.vin|
        && HashInput(code, tx, n, SIGHASH_ALL) == HashInput(code, tx, n', SIGHASH_ALL)
        ensures n == n'
      {
        CodeSaysIndex(code, tx, n, n');
      }
    } else if |tx.vin| > 1 {
      EmptyCodeLosesIndex(code, tx, 0, 1);
    }
  }

  lemma CodeSaysIndex(code: Vector<byte>, tx: CTransaction, n: nat, n': nat)
    requires n < |tx.vin| && n' < |tx.vin| && Stripped(code) != []
    requires HashInput(code, tx, n, SIGHASH_ALL) == HashInput(code, tx, n', SIGHASH_ALL)
    ensures n == n'
  {
    hide SignedLE, Stripped, EncVector, TxInBytes, TxOutBytes, LE, TimeBytes, IsUnique;
    Pow256(4);
    var own, end := Stripped(code), SignedLE(SIGHASH_ALL, 4);
    var x, y := SignedTx(own, tx, n, SIGHASH_ALL), SignedTx(own, tx, n', SIGHASH_ALL);
    var first := SignedLE(tx.nVersion, 4);
    var last := EncVector(TxOutBytes, tx.vout) + LE(tx.nLockTime, 4);
    var x1, y1 := EncVector(TxInBytes, x.vin) + (last + end), EncVector(TxInBytes, y.vin) + (last + end);
    assert x.vin[n].scriptSig == own && y.vin[n].scriptSig == (if n == n' then own else []);
    SameTime(x, tx);
    SameTime(y, tx);
    assert TxBytes(x) + end == first + (TimeBytes(tx) + x1) && TxBytes(y) + end == first + (TimeBytes(tx) + y1);
    FixedUnique(first, first, TimeBytes(tx) + x1, TimeBytes(tx) + y1);
    FixedUnique(TimeBytes(tx), TimeBytes(tx), x1, y1);
    TxInUnique();
    VectorUnique(i => true, TxInBytes, x.vin, y.vin, last + end, last + end);
  }

  lemma SameTime(x: CTransaction, y: CTransaction)
    requires x.coinType == y.coinType && x.nTime == y.nTime
    ensures TimeBytes(x) == TimeBytes(y)
  {
  }

  lemma EmptyCodeLosesIndex(code: Vector<byte>, tx: CTransaction, n: nat, n': nat)
    requires n < |tx.vin| && n' < |tx.vin| && Stripped(code) == []
    ensures HashInput(code, tx, n, SIGHASH_ALL) == HashInput(code, tx, n', SIGHASH_ALL)
  {
    assert SignedIns(tx.vin, [], n, SIGHASH_ALL) == SignedIns(tx.vin, [], n', SIGHASH_ALL);
  }

  predicate AgreeOnInputs(vin: Vector<CTxIn>, vin': Vector<CTxIn>, sequences: bool) {
    |vin| == |vin'| &&
    (forall k :: 0 <= k < |vin| ==> vin[k].prevout == vin'[k].prevout) &&
    (sequences ==> forall k :: 0 <= k < |vin| ==> vin[k].nSequence == vin'[k].nSequence)
  }

  /** What the other hash types leave open: with SIGHASH_NONE the outputs and the other
      inputs' sequence numbers, with SIGHASH_SINGLE those and every output but the one
      of the same index, and with SIGHASH_ANYONECANPAY every other input. */
  predicate AgreeFor(tx: CTransaction, tx': CTransaction, n: nat, t: int32)
    requires n < |tx.vin| && n < |tx'.vin|
  {
    tx.coinType == tx'.coinType && tx.nVersion == tx'.nVersion && tx.nLockTime == tx'.nLockTime &&
    Timeless(tx).nTime == Timeless(tx').nTime &&
    tx.vin[n].(scriptSig := []) == tx'.vin[n].(scriptSig := []) &&
    (AnyoneCanPay(t) || AgreeOnInputs(tx.vin, tx'.vin, !LetsOthersUpdate(t))) &&
    (if BaseType(t) == SIGHASH_NONE then true
     else if BaseType(t) == SIGHASH_SINGLE then (n < |tx.vout| <==> n < |tx'.vout|) && (n < |tx.vout| ==> tx.vout[n] == tx'.vout[n])
     else tx.vout == tx'.vout)
  }

  lemma OthersMayUpdate(code: Vector<byte>, tx: CTransaction, tx': CTransaction, n: nat, t: int32)
    requires n < |tx.vin| && n < |tx'.vin| && AgreeFor(tx, tx', n, t)
    ensures HashInput(code, tx, n, t) == HashInput(code, tx', n, t)
  {
    hide TxBytes, SignedLE, Stripped;
    if HashInput(code, tx, n, t).Preimage? {
      var own := Stripped(code);
      assert SignedIn(tx.vin[n], true, own, t) == SignedIn(tx'.vin[n], true, own, t);
      assert SignedIns(tx.vin, own, n, t) == SignedIns(tx'.vin, own, n, t);
      assert SignedOuts(tx.vout, n, t) == SignedOuts(tx'.vout, n, t);
      TimelessBytes(SignedTx(own, tx, n, t), SignedTx(own, tx', n, t));
    }
  }

  /** For every hash type: for one input and script code, the preimage of two typed
      transactions is the same if and only if they agree on what the type does not
      leave open. */
  lemma TypeCommits(code: Vector<byte>, tx: CTransaction, tx': CTransaction, n: nat, t: int32)
    requires tx.coinType == tx'.coinType && IsTyped(tx) && IsTyped(tx') && n < |tx.vin| && n < |tx'.vin|
    requires BaseType(t) == SIGHASH_SINGLE ==> n < |tx.vout| && n < |tx'.vout|
    ensures HashInput(code, tx, n, t) == HashInput(code, tx', n, t) <==> AgreeFor(tx, tx', n, t)
  {
    hide TxBytes, SignedLE, Stripped;
    if AgreeFor(tx, tx', n, t) {
      OthersMayUpdate(code, tx, tx', n, t);
    } else if HashInput(code, tx, n, t) == HashInput(code, tx', n, t) {
      hide AgreeFor, SignedTx;
      Pow256(4);
      var own, end := Stripped(code), SignedLE(t, 4);
      SignedTxUnique(tx, tx', own, n, t, end);
      SignedTxAgree(tx, tx', own, n, t);
      assert false;
    }
  }

  /** The bytes of what is signed determine it, also where SIGHASH_SINGLE has put null
      outputs, which carry no type. */
  lemma SignedTxUnique(tx: CTransaction, tx': CTransaction, code: Vector<byte>, n: nat, t: int32, end: bytes)
    requires tx.coinType == tx'.coinType && IsTyped(tx) && IsTyped(tx') && n < |tx.vin| && n < |tx'.vin|
    requires BaseType(t) == SIGHASH_SINGLE ==> n < |tx.vout| && n < |tx'.vout|
    requires TxBytes(SignedTx(code, tx, n, t)) + end == TxBytes(SignedTx(code, tx', n, t)) + end
    ensures Timeless(SignedTx(code, tx, n, t)) == Timeless(SignedTx(code, tx', n, t))
  {
    hide LE, SignedLE, TimeBytes, EncVector, TxInBytes, TxOutBytes, IsUnique, SignedIns, SignedOuts;
    Pow256(0);
    var x, y := SignedTx(code, tx, n, t), SignedTx(code, tx', n, t);
    var x3, y3 := LE(x.nLockTime, 4) + end, LE(y.nLockTime, 4) + end;
    var x2, y2 := EncVector(TxOutBytes, x.vout) + x3, EncVector(TxOutBytes, y.vout) + y3;
    var x1, y1 := EncVector(TxInBytes, x.vin) + x2, EncVector(TxInBytes, y.vin) + y2;
    assert TxBytes(x) + end == SignedLE(x.nVersion, 4) + (TimeBytes(x) + x1);
    assert TxBytes(y) + end == SignedLE(y.nVersion, 4) + (TimeBytes(y) + y1);
    SignedUnique(x.nVersion, y.nVersion, 4, TimeBytes(x) + x1, TimeBytes(y) + y1);
    TimeUnique(x, y, x1, y1);
    TxInUnique();
    VectorUnique(i => true, TxInBytes, x.vin, y.vin, x2, y2);
    SignedOutsUnique(tx.coinType, tx.vout, tx'.vout, n, t, x3, y3);
    UnsignedUnique(x.nLockTime, y.nLockTime, 4, end, end);
  }

  lemma SignedOutsUnique(coinType: string, v: Vector<CTxOut>, w: Vector<CTxOut>, n: nat, t: int32, r: bytes, q: bytes)
    requires forall o :: o in v || o in w ==> o.coinType == coinType
    requires BaseType(t) == SIGHASH_SINGLE ==> n < |v| && n < |w|
    requires EncVector(TxOutBytes, SignedOuts(v, n, t)) + r == EncVector(TxOutBytes, SignedOuts(w, n, t)) + q
    ensures SignedOuts(v, n, t) == SignedOuts(w, n, t) && r == q
  {
    hide TxOutBytes, IsUnique, EncAll, CompactSize;
    TxOutUnique(coinType);
    if BaseType(t) == SIGHASH_SINGLE {
      var nulls := seq(n, k => NULL_OUT);
      EncLast(nulls, v[n]);
      EncLast(nulls, w[n]);
      var first := CompactSize(n + 1) + EncAll(TxOutBytes, nulls);
      assert EncVector(TxOutBytes, SignedOuts(v, n, t)) + r == first + (TxOutBytes(v[n]) + r);
      assert EncVector(TxOutBytes, SignedOuts(w, n, t)) + q == first + (TxOutBytes(w[n]) + q);
      FixedUnique(first, first, TxOutBytes(v[n]) + r, TxOutBytes(w[n]) + q);
      OneOutUnique(coinType, v[n], w[n], r, q);
    } else {
      hide EncVector;
      VectorUnique((o: CTxOut) => o.coinType == coinType, TxOutBytes, SignedOuts(v, n, t), SignedOuts(w, n, t), r, q);
    }
  }

  lemma OneOutUnique(coinType: string, x: CTxOut, y: CTxOut, r: bytes, q: bytes)
    requires x.coinType == y.coinType == coinType && TxOutBytes(x) + r == TxOutBytes(y) + q
    ensures x == y && r == q
  {
    hide TxOutBytes;
    TxOutUnique(coinType);
  }

  lemma {:induction false} EncLast(v: seq<CTxOut>, o: CTxOut)
    ensures EncAll(TxOutBytes, v + [o]) == EncAll(TxOutBytes, v) + TxOutBytes(o)
  {
    hide TxOutBytes;
    if v == [] {
      assert v + [o] == [o] && [o][1..] == [];
    } else {
      EncLast(v[1..], o);
      assert (v + [o])[1..] == v[1..] + [o];
    }
  }

  /** What is signed says all that the type does not leave open. */
  lemma SignedTxAgree(tx: CTransaction, tx': CTransaction, code: Vector<byte>, n: nat, t: int32)
    requires tx.coinType == tx'.coinType && n < |tx.vin| && n < |tx'.vin|
    requires BaseType(t) == SIGHASH_SINGLE ==> n < |tx.vout| && n < |tx'.vout|
    requires Timeless(SignedTx(code, tx, n, t)) == Timeless(SignedTx(code, tx', n, t))
    ensures AgreeFor(tx, tx', n, t)
  {
    var x, y := SignedIns(tx.vin, code, n, t), SignedIns(tx'.vin, code, n, t);
    assert x == y && SignedOuts(tx.vout, n, t) == SignedOuts(tx'.vout, n, t);
    if BaseType(t) == SIGHASH_SINGLE {
      assert SignedOuts(tx.vout, n, t)[n] == tx.vout[n] && SignedOuts(tx'.vout, n, t)[n] == tx'.vout[n];
    }
    hide SignedOuts, BaseType;
    if AnyoneCanPay(t) {
      assert x[0] == y[0];
    } else {
      assert x[n] == y[n];
      forall k | 0 <= k < |tx.vin|
        ensures tx.vin[k].prevout == tx'.vin[k].prevout
        ensures !LetsOthersUpdate(t) ==> tx.vin[k].nSequence == tx'.vin[k].nSequence
      {
        assert x[k] == y[k];
      }
    }
  }
}
