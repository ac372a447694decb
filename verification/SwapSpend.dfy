/** The input scripts of Redeem and Refund, what the chain says to them, the output
    they spend, and the secret that ExtractSecret reads from a redeeming input. */
module SwapSpend {
  import opened Bytes
  import opened BigNumber
  import Hex
  import S = Script
  import E = ScriptEval
  import A = AtomicSwap
  import D = SwapData
  import W = ScriptText

  const SPEND_SEQUENCE: nat := 0xffff_fffe

  function RedeemSig(sig: bytes, key: bytes, secret: bytes, contract: bytes): bytes {
    S.Push(sig) + (S.Push(key) + (S.Push(secret) + ([S.OP_1] + (S.Push(contract) + []))))
  }

  function RefundSig(sig: bytes, key: bytes, contract: bytes): bytes {
    S.Push(sig) + (S.Push(key) + (S.Push([]) + (S.Push(contract) + [])))
  }

  method FullRedeemSig(sig: bytes, key: bytes, secret: bytes, contract: bytes) returns (fullSig: S.CScript)
    requires |sig| < 0x1_0000_0000 && |secret| < 0x1_0000_0000 && |contract| < 0x1_0000_0000
    requires |key| < S.OP_PUSHDATA1
    ensures fresh(fullSig) && fullSig.code == RedeemSig(sig, key, secret, contract)
  {
    hide S.Push;
    fullSig := new S.CScript();
    fullSig.AppendVector(sig);
    fullSig.AppendPubKey(key);
    fullSig.AppendVector(secret);
    fullSig.AppendOp(S.OP_1);
    fullSig.AppendVector(contract);
    Five(S.Push(sig), S.Push(key), S.Push(secret), [S.OP_1], S.Push(contract));
  }

  method FullRefundSig(sig: bytes, key: bytes, contract: bytes) returns (fullSig: S.CScript)
    requires |sig| < 0x1_0000_0000 && |contract| < 0x1_0000_0000
    requires |key| < S.OP_PUSHDATA1
    ensures fresh(fullSig) && fullSig.code == RefundSig(sig, key, contract)
  {
    hide S.Push;
    fullSig := new S.CScript();
    fullSig.AppendVector(sig);
    fullSig.AppendPubKey(key);
    fullSig.AppendOp(S.OP_0);
    fullSig.AppendVector(contract);
    S.PushNothing();
    Five([], S.Push(sig), S.Push(key), S.Push([]), S.Push(contract));
  }

  lemma Five(a: bytes, b: bytes, c: bytes, d: bytes, e: bytes)
    ensures [] + a + b + c + d + e == a + (b + (c + (d + (e + []))))
  {
    assert [] + a == a && e + [] == e;
    A.Regroup(a + b + c, d, e);
    A.Regroup(a + b, c, d + e);
    A.Regroup(a, b, c + (d + e));
  }

  // ----- what the chain says -----

  lemma SpendRuns(env: E.Env, sig: bytes, key: bytes, secret: bytes, contract: bytes)
    requires |sig| < 0x1_0000_0000 && |key| < 0x1_0000_0000 && |secret| < 0x1_0000_0000 && |contract| < 0x1_0000_0000
    ensures E.Run(env, RedeemSig(sig, key, secret, contract), E.Machine([], []))
      == E.Machine([sig, key, secret, E.TRUE, contract], [])
    ensures E.Run(env, RefundSig(sig, key, contract), E.Machine([], [])) == E.Machine([sig, key, E.FALSE, contract], [])
    ensures E.IsPushOnly(RedeemSig(sig, key, secret, contract)) && E.IsPushOnly(RefundSig(sig, key, contract))
  {
    hide E.Run, E.IsPushOnly, RedeemSig, RefundSig;
    SpendRunsAbove(env, [], sig, key, secret, contract);
    assert [] + [sig, key, secret, E.TRUE, contract] == [sig, key, secret, E.TRUE, contract];
    assert [] + [sig, key, E.FALSE, contract] == [sig, key, E.FALSE, contract];
  }

  /** The same above what a stack already holds. */
  lemma SpendRunsAbove(env: E.Env, s: E.Stack, sig: bytes, key: bytes, secret: bytes, contract: bytes)
    requires |sig| < 0x1_0000_0000 && |key| < 0x1_0000_0000 && |secret| < 0x1_0000_0000 && |contract| < 0x1_0000_0000
    ensures E.Run(env, RedeemSig(sig, key, secret, contract), E.Machine(s, []))
      == E.Machine(s + [sig, key, secret, E.TRUE, contract], [])
    ensures E.Run(env, RefundSig(sig, key, contract), E.Machine(s, [])) == E.Machine(s + [sig, key, E.FALSE, contract], [])
    ensures E.IsPushOnly(RedeemSig(sig, key, secret, contract)) && E.IsPushOnly(RefundSig(sig, key, contract))
  {
    hide E.Run, E.IsPushOnly, S.Push, ToVch;
    var end := S.Push(contract) + [];
    var s1 := s + [sig];
    var s2 := s1 + [key];
    var s3 := s2 + [secret];
    var s4 := s3 + [E.TRUE];
    PushEnd(env, contract, s4);
    PushEnd(env, contract, s2 + [E.FALSE]);
    E.RunPush(env, sig, S.Push(key) + (S.Push(secret) + ([S.OP_1] + end)), E.Machine(s, []));
    E.RunPush(env, key, S.Push(secret) + ([S.OP_1] + end), E.Machine(s1, []));
    E.RunPush(env, secret, [S.OP_1] + end, E.Machine(s2, []));
    OneAsScriptNumber();
    E.RunOp(env, S.OP_1, end, E.Machine(s3, []));
    E.RunPush(env, sig, S.Push(key) + (S.Push([]) + end), E.Machine(s, []));
    E.RunPush(env, key, S.Push([]) + end, E.Machine(s1, []));
    E.RunPush(env, [], end, E.Machine(s2, []));
    assert s4 + [contract] == s + [sig, key, secret, E.TRUE, contract];
    assert s2 + [E.FALSE] + [contract] == s + [sig, key, E.FALSE, contract];
  }

  lemma PushEnd(env: E.Env, data: bytes, s: E.Stack)
    requires |data| < 0x1_0000_0000
    ensures E.Run(env, S.Push(data) + [], E.Machine(s, [])) == E.Machine(s + [data], [])
    ensures E.IsPushOnly(S.Push(data) + [])
  {
    hide S.Push;
    E.RunPush(env, data, [], E.Machine(s, []));
    A.RunEnd(env);
  }

  lemma OneAsScriptNumber()
    ensures ToVch(1) == E.TRUE
    ensures E.IsTrue(E.TRUE) && !E.IsTrue(E.FALSE)
  {
    assert E.TRUE[0] != 0;
  }

  /** The output script of a pay-to-script-hash output accepts what hashes to it. */
  lemma HashMatches(env: E.Env, scriptId: bytes, s: E.Stack)
    requires s != [] && |scriptId| == 20 && env.hash160(E.Top(s)) == scriptId
    ensures E.Accepts(env, E.P2SH(scriptId), s)
  {
    hide E.Run, S.Push, E.IsTrue;
    var m := E.Machine(s, []);
    var rest := E.Pop(s);
    E.RunOp(env, S.OP_HASH160, S.Push(scriptId) + [S.OP_EQUAL], m);
    E.RunPush(env, scriptId, [S.OP_EQUAL], E.Machine(rest + [scriptId], []));
    var t := rest + [scriptId] + [scriptId];
    E.RunOp(env, S.OP_EQUAL, [], E.Machine(t, []));
    assert [S.OP_EQUAL] + [] == [S.OP_EQUAL];
    assert E.Pop(E.Pop(t)) == rest;
    A.RunEnd(env);
    A.OneElementTrue(rest, true);
  }

  /** The input script of Redeem spends the contract's output exactly when the secret,
      the key and the signature are right, whatever the lock time. */
  lemma RedeemSpends(env: E.Env, me: bytes, them: bytes, lockTime: int, secHash: bytes,
                     sig: bytes, key: bytes, secret: bytes)
    requires |sig| < 0x1_0000_0000 && |key| < 0x1_0000_0000 && |secret| < 0x1_0000_0000
    requires |me| == |them| == |secHash| == 20
    requires |env.hash160(A.ContractOf(me, them, lockTime, secHash))| == 20
    ensures var contract := A.ContractOf(me, them, lockTime, secHash);
      E.VerifyP2SH(env, RedeemSig(sig, key, secret, contract), E.P2SH(env.hash160(contract)))
      <==> env.ripemd160(secret) == secHash && env.hash160(key) == them && env.checkSig(sig, key)
  {
    hide E.Run, E.IsPushOnly, E.IsTrue, A.ContractOf, E.P2SH, RedeemSig, E.Accepts;
    var contract := A.ContractOf(me, them, lockTime, secHash);
    ContractIsShort(me, them, lockTime, secHash);
    SpendRuns(env, sig, key, secret, contract);
    var s: E.Stack := [sig, key, secret, E.TRUE, contract];
    HashMatches(env, env.hash160(contract), s);
    assert E.Pop(s) == [sig, key, secret, E.TRUE];
    OneAsScriptNumber();
    A.ContractMeaning(env, me, them, lockTime, secHash, E.Pop(s));
  }

  /** The input script of Refund, in the transaction that Refund makes for a contract
      that it recognises, spends the contract's output exactly when the key and the
      signature are right and the contract's lock time is not negative as a script
      number. */
  lemma RefundSpends(env: E.Env, me: bytes, them: bytes, lockTime: int, secHash: bytes, sig: bytes, key: bytes)
    requires |sig| < 0x1_0000_0000 && |key| < 0x1_0000_0000
    requires |me| == |them| == |secHash| == 20
    requires D.ISAtomicSwap(A.ContractOf(me, them, lockTime, secHash)) == D.Answer(true)
    requires |A.ContractOf(me, them, lockTime, secHash)| >= 78
    requires env.lockTime == D.RefundLockTime(D.Parts(A.ContractOf(me, them, lockTime, secHash)))
    requires env.sequence == SPEND_SEQUENCE
    requires |env.hash160(A.ContractOf(me, them, lockTime, secHash))| == 20
    ensures var contract := A.ContractOf(me, them, lockTime, secHash);
      E.VerifyP2SH(env, RefundSig(sig, key, contract), E.P2SH(env.hash160(contract)))
      <==> S.Int32(lockTime) >= 0 && env.hash160(key) == me && env.checkSig(sig, key)
  {
    hide E.Run, E.IsPushOnly, E.IsTrue, A.ContractOf, E.P2SH, RefundSig, E.Accepts, D.ISAtomicSwap, D.RefundLockTime, S.Int32;
    hide E.LockSatisfied, D.Parts;
    var contract := A.ContractOf(me, them, lockTime, secHash);
    ContractIsShort(me, them, lockTime, secHash);
    SpendRuns(env, sig, key, [], contract);
    var s: E.Stack := [sig, key, E.FALSE, contract];
    HashMatches(env, env.hash160(contract), s);
    assert E.Pop(s) == [sig, key, E.FALSE];
    OneAsScriptNumber();
    A.ContractMeaning(env, me, them, lockTime, secHash, E.Pop(s));
    RefundLock(env, me, them, lockTime, secHash);
  }

  /** The lock time that Refund gives its transaction satisfies the contract's lock
      exactly when that is not negative. */
  lemma RefundLock(env: E.Env, me: bytes, them: bytes, lockTime: int, secHash: bytes)
    requires |me| == |them| == |secHash| == 20
    requires D.ISAtomicSwap(A.ContractOf(me, them, lockTime, secHash)) == D.Answer(true)
    requires |A.ContractOf(me, them, lockTime, secHash)| >= 78
    requires env.lockTime == D.RefundLockTime(D.Parts(A.ContractOf(me, them, lockTime, secHash)))
    requires env.sequence == SPEND_SEQUENCE
    ensures E.LockSatisfied(env, S.Int32(lockTime)) <==> S.Int32(lockTime) >= 0
  {
    hide A.ContractOf, D.ISAtomicSwap, D.RefundLockTime, S.Int32;
    D.BuiltThenExtracted(me, them, lockTime, secHash);
  }

  lemma ContractIsShort(me: bytes, them: bytes, lockTime: int, secHash: bytes)
    requires |me| == |them| == |secHash| == 20
    ensures 33 <= |A.ContractOf(me, them, lockTime, secHash)| <= 83
  {
    S.Int32IsShort(lockTime);
    hide ToVch;
    var push := S.PushInt64(lockTime);
    assert |push| <= 6;
    hide S.PushInt64;
    assert |S.Push(me)| == |S.Push(them)| == |S.Push(secHash)| == 21;
  }

  /** When the lock time is negative as a script number, no transaction at all and no
      input script take the refund path: what the chain takes is a redemption. */
  lemma NegativeLockNeverRefunds(env: E.Env, me: bytes, them: bytes, lockTime: int, secHash: bytes,
                                 scriptSig: bytes, s: E.Stack)
    requires |me| == |them| == |secHash| == 20 && S.Int32(lockTime) < 0
    requires E.VerifyP2SH(env, scriptSig, E.P2SH(env.hash160(A.ContractOf(me, them, lockTime, secHash))))
    requires E.Run(env, scriptSig, E.Machine([], [])) == E.Machine(s + [A.ContractOf(me, them, lockTime, secHash)], [])
    ensures A.Redeems(env, them, secHash, s) && !A.Refunds(env, me, lockTime, s)
  {
    hide E.Run, A.ContractOf, E.P2SH, E.IsTrue, E.IsPushOnly, E.Accepts, S.Int32;
    var contract := A.ContractOf(me, them, lockTime, secHash);
    assert E.Top(s + [contract]) == contract && E.Pop(s + [contract]) == s;
    A.ContractMeaning(env, me, them, lockTime, secHash, s);
  }

  // ----- the output that is spent -----

  datatype Vout = Vout(addresses: seq<string>, script: bytes)

  predicate IsPayToScriptHash(s: bytes) {
    |s| == 23 && s[0] == S.OP_HASH160 && s[1] == 0x14 && s[22] == S.OP_EQUAL
  }

  lemma PayToScriptHashShape(s: bytes)
    ensures IsPayToScriptHash(s) <==> exists id: bytes :: |id| == 20 && s == E.P2SH(id)
  {
    if IsPayToScriptHash(s) {
      var id := s[2..22];
      assert s == [s[0], s[1]] + id + [s[22]];
      assert S.Push(id) == [20] + id;
      assert s == E.P2SH(id);
    }
    forall id: bytes | |id| == 20 && s == E.P2SH(id) ensures IsPayToScriptHash(s) {
      assert S.Push(id) == [20] + id;
      assert s == [S.OP_HASH160, 20] + id + [S.OP_EQUAL];
    }
  }

  predicate Pays(out: Vout, contractAddress: string) {
    |out.addresses| == 1 && IsPayToScriptHash(out.script) && out.addresses[0] == contractAddress
  }

  /** The first output that pays to the contract's address, or -1. */
  method FindContractOutput(vouts: seq<Vout>, contractAddress: string) returns (outIndex: int)
    ensures -1 <= outIndex < |vouts|
    ensures outIndex == -1 ==> forall k :: 0 <= k < |vouts| ==> !Pays(vouts[k], contractAddress)
    ensures outIndex >= 0 ==> Pays(vouts[outIndex], contractAddress)
    ensures forall k :: 0 <= k < outIndex ==> !Pays(vouts[k], contractAddress)
  {
    outIndex := -1;
    var i := 0;
    while i < |vouts|
      invariant 0 <= i <= |vouts|
      invariant forall k :: 0 <= k < i ==> !Pays(vouts[k], contractAddress)
    {
      if |vouts[i].addresses| == 1 {
        var address := vouts[i].addresses[0];
        if IsPayToScriptHash(vouts[i].script) && address == contractAddress {
          return i;
        }
      }
      i := i + 1;
    }
  }

  // ----- the secret -----

  /** What ExtractSecret does with a transaction. `Overrun`: there is no third word, or
      it has fewer bytes than are hashed, and the code reads past them. */
  datatype Extracted = Refused | Overrun | NotEqual | Secret(text: string)

  /** Its answer, from the scriptSigs of the transaction's inputs. */
  function Extraction(ripemd160: bytes -> bytes, vins: seq<bytes>, secHashStr: string): Extracted {
    if |vins| != 1 then Refused
    else
      var words := W.Words(vins[0]);
      if |words| < 3 || |Hex.Parsed(words[2])| < 32 then Overrun
      else if Hex.Text(ripemd160(Hex.Parsed(words[2])[..32])) == secHashStr then Secret(words[2])
      else NotEqual
  }

  method ExtractSecret(ripemd160: bytes -> bytes, vins: seq<bytes>, secHashStr: string) returns (r: Extracted)
    ensures r == Extraction(ripemd160, vins, secHashStr)
  {
    if |vins| != 1 { return Refused; }
    var sigs := W.Words(vins[0]);
    if |sigs| < 3 { return Overrun; }
    var secStrTmp := sigs[2];
    var secretVecTmp := Hex.ParseHex(secStrTmp);
    if |secretVecTmp| < 32 { return Overrun; }
    var hash := Hex.HexStr(ripemd160(secretVecTmp[..32]));
    if hash == secHashStr {
      r := Secret(secStrTmp);
    } else {
      r := NotEqual;
    }
  }

  /** The bytes that an answer stands for, if it is one. */
  function SecretOf(r: Extracted): bytes {
    if r.Secret? then Hex.Parsed(r.text) else []
  }

  /** Of any transaction whose first input the chain took, whatever that input pushes:
      extraction succeeds if and only if there is no other input and the third element
      pushed has at least 32 bytes, of which the first 32 hash to the wanted hash; and
      then the answer is that whole element. */
  lemma ExtractionExact(env: E.Env, vins: seq<bytes>, scriptPubKey: bytes, secHash: bytes)
    requires vins != [] && E.VerifyP2SH(env, vins[0], scriptPubKey)
    ensures var e := W.Elements(vins[0]);
      var r := Extraction(env.ripemd160, vins, Hex.Text(secHash));
      E.Run(env, vins[0], E.Machine([], [])) == E.Machine(e, []) &&
      (r.Secret? <==> |vins| == 1 && |e| >= 3 && |e[2]| >= 32 && env.ripemd160(e[2][..32]) == secHash) &&
      (r.Secret? ==> SecretOf(r) == e[2])
  {
    hide W.Words, W.Elements, W.ValueString, Hex.Text, Hex.Parsed, E.Accepts, E.Run, E.IsPushOnly;
    var e := W.Elements(vins[0]);
    W.PushedElements(env, vins[0], []);
    assert [] + e == e;
    if |e| >= 3 {
      W.ValueStringParsed(e[2]);
      if |e[2]| >= 32 { SameText(env.ripemd160(e[2][..32]), secHash); }
    }
  }

  lemma SameText(a: bytes, b: bytes)
    ensures Hex.Text(a) == Hex.Text(b) <==> a == b
  {
    hide Hex.Text, Hex.Parsed;
    Hex.ParsedText(a, "");
    Hex.ParsedText(b, "");
    assert Hex.Text(a) + "" == Hex.Text(a) && Hex.Text(b) + "" == Hex.Text(b);
  }
}
