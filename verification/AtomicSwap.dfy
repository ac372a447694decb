/** The swap contract: how it is built, and what it accepts. */
module AtomicSwap {
  import opened Bytes
  import opened BigNumber
  import S = Script
  import E = ScriptEval

  // ----- building -----

  /** The contract of `me`, who can take the coins back, with `them`, who can take
      them with a preimage of `secHash`. */
  function ContractOf(me: bytes, them: bytes, lockTime: int, secHash: bytes): bytes {
    HashPart(them, secHash, TimePart(me, lockTime, LastPart()))
  }

  /** The redeem path, before the rest of the contract. */
  function HashPart(them: bytes, secHash: bytes, rest: bytes): bytes {
    [S.OP_IF] + ([S.OP_RIPEMD160] + (S.Push(secHash) + ([S.OP_EQUALVERIFY] + ([S.OP_DUP] + ([S.OP_HASH160]
      + (S.Push(them) + rest))))))
  }

  /** The refund path, before the rest of the contract. */
  function TimePart(me: bytes, lockTime: int, rest: bytes): bytes {
    [S.OP_ELSE] + (S.PushInt64(lockTime) + ([S.OP_CHECKLOCKTIMEVERIFY] + ([S.OP_DROP] + ([S.OP_DUP] + ([S.OP_HASH160]
      + (S.Push(me) + rest))))))
  }

  function LastPart(): bytes {
    [S.OP_ENDIF, S.OP_EQUALVERIFY, S.OP_CHECKSIG]
  }

  method AtomicSwapContract(meKeyID: bytes, themKeyID: bytes, lockTime: int, secHash: bytes, contract: S.CScript)
    requires |meKeyID| == |themKeyID| == 20 && |secHash| < 0x1_0000_0000
    requires -0x8000_0000_0000_0000 <= lockTime < 0x8000_0000_0000_0000
    modifies contract
    ensures contract.code == old(contract.code) + ContractOf(meKeyID, themKeyID, lockTime, secHash)
  {
    hide HashPart, TimePart;
    ghost var start := contract.code;
    AppendHashPart(themKeyID, secHash, contract);
    ghost var hash := HashPart(themKeyID, secHash, []);
    AppendTimePart(meKeyID, lockTime, contract);
    ghost var time := TimePart(meKeyID, lockTime, []);
    contract.AppendOp(S.OP_ENDIF);
    contract.AppendOp(S.OP_EQUALVERIFY);
    contract.AppendOp(S.OP_CHECKSIG);
    assert contract.code == start + (hash + (time + LastPart()));
    PartThenRest(meKeyID, themKeyID, lockTime, secHash, LastPart());
    PartThenRest(meKeyID, themKeyID, lockTime, secHash, time + LastPart());
  }

  lemma PartThenRest(me: bytes, them: bytes, lockTime: int, secHash: bytes, rest: bytes)
    ensures HashPart(them, secHash, []) + rest == HashPart(them, secHash, rest)
    ensures TimePart(me, lockTime, []) + rest == TimePart(me, lockTime, rest)
  {
    hide S.Push, S.PushInt64;
    Seven([S.OP_IF], [S.OP_RIPEMD160], S.Push(secHash), [S.OP_EQUALVERIFY], [S.OP_DUP], [S.OP_HASH160], S.Push(them), rest);
    Seven([S.OP_ELSE], S.PushInt64(lockTime), [S.OP_CHECKLOCKTIMEVERIFY], [S.OP_DROP], [S.OP_DUP], [S.OP_HASH160],
          S.Push(me), rest);
  }

  lemma Seven(a: bytes, b: bytes, c: bytes, d: bytes, e: bytes, f: bytes, g: bytes, rest: bytes)
    ensures (a + (b + (c + (d + (e + (f + (g + []))))))) + rest == a + (b + (c + (d + (e + (f + (g + rest))))))
    ensures rest + a + b + c + d + e + f + g == rest + (a + (b + (c + (d + (e + (f + (g + [])))))))
  {
    assert g + [] == g;
    Regroup(f, g, rest);
    Regroup(e, f + g, rest);
    Regroup(d, e + (f + g), rest);
    Regroup(c, d + (e + (f + g)), rest);
    Regroup(b, c + (d + (e + (f + g))), rest);
    Regroup(a, b + (c + (d + (e + (f + g)))), rest);
    Regroup(rest + a + b + c + d + e, f, g);
    Regroup(rest + a + b + c + d, e, f + g);
    Regroup(rest + a + b + c, d, e + (f + g));
    Regroup(rest + a + b, c, d + (e + (f + g)));
    Regroup(rest + a, b, c + (d + (e + (f + g))));
    Regroup(rest, a, b + (c + (d + (e + (f + g)))));
  }

  lemma Regroup(a: bytes, b: bytes, c: bytes)
    ensures (a + b) + c == a + (b + c)
  {
  }

  method AppendHashPart(themKeyID: bytes, secHash: bytes, contract: S.CScript)
    requires |themKeyID| == 20 && |secHash| < 0x1_0000_0000
    modifies contract
    ensures contract.code == old(contract.code) + HashPart(themKeyID, secHash, [])
  {
    hide S.Push;
    contract.AppendOp(S.OP_IF);
    contract.AppendOp(S.OP_RIPEMD160);
    contract.AppendVector(secHash);
    contract.AppendOp(S.OP_EQUALVERIFY);
    contract.AppendOp(S.OP_DUP);
    contract.AppendOp(S.OP_HASH160);
    contract.AppendUint160(themKeyID);
    Seven([S.OP_IF], [S.OP_RIPEMD160], S.Push(secHash), [S.OP_EQUALVERIFY], [S.OP_DUP], [S.OP_HASH160],
          S.Push(themKeyID), old(contract.code));
  }

  method AppendTimePart(meKeyID: bytes, lockTime: int, contract: S.CScript)
    requires |meKeyID| == 20
    requires -0x8000_0000_0000_0000 <= lockTime < 0x8000_0000_0000_0000
    modifies contract
    ensures contract.code == old(contract.code) + TimePart(meKeyID, lockTime, [])
  {
    hide S.Push, S.PushInt64;
    contract.AppendOp(S.OP_ELSE);
    contract.AppendInt64(lockTime);
    contract.AppendOp(S.OP_CHECKLOCKTIMEVERIFY);
    contract.AppendOp(S.OP_DROP);
    contract.AppendOp(S.OP_DUP);
    contract.AppendOp(S.OP_HASH160);
    contract.AppendUint160(meKeyID);
    Seven([S.OP_ELSE], S.PushInt64(lockTime), [S.OP_CHECKLOCKTIMEVERIFY], [S.OP_DROP], [S.OP_DUP], [S.OP_HASH160],
          S.Push(meKeyID), old(contract.code));
  }

  // ----- meaning -----

  /** The number that the lock time push leaves on the stack: the time's low 32 bits
      as a signed number. */
  lemma RunLock(env: E.Env, lockTime: int, rest: bytes, m: E.Machine)
    requires m.Machine?
    ensures E.Run(env, S.PushInt64(lockTime) + rest, m)
      == E.Run(env, rest, if E.Executing(m) then m.(stack := m.stack + [ToVch(S.Int32(lockTime))]) else m)
  {
    if S.HasOpcode(lockTime) {
      RunSmallLock(env, lockTime, rest, m);
    } else {
      hide E.Run, ToVch, S.Int32, S.Push;
      S.Int32IsShort(lockTime);
      E.RunPush(env, ToVch(S.Int32(lockTime)), rest, m);
    }
  }

  lemma RunSmallLock(env: E.Env, lockTime: int, rest: bytes, m: E.Machine)
    requires m.Machine? && S.HasOpcode(lockTime)
    ensures E.Run(env, S.PushInt64(lockTime) + rest, m)
      == E.Run(env, rest, if E.Executing(m) then m.(stack := m.stack + [ToVch(S.Int32(lockTime))]) else m)
  {
    hide E.Run, ToVch, S.Push, E.LockSatisfied;
    E.RunOp(env, lockTime + 0x50, rest, m);
    assert S.Int32(lockTime) == lockTime;
  }

  /** The stack selects the hash branch and has what that branch demands. */
  predicate Redeems(env: E.Env, them: bytes, secHash: bytes, s: E.Stack) {
    |s| >= 4 && E.IsTrue(E.Top(s)) &&
    var secret, key, sig := s[|s| - 2], s[|s| - 3], s[|s| - 4];
    env.ripemd160(secret) == secHash && env.hash160(key) == them && env.checkSig(sig, key)
  }

  /** The stack selects the lock time branch and has what that branch demands. */
  predicate Refunds(env: E.Env, me: bytes, lockTime: int, s: E.Stack) {
    |s| >= 3 && !E.IsTrue(E.Top(s)) &&
    var key, sig := s[|s| - 2], s[|s| - 3];
    E.LockSatisfied(env, S.Int32(lockTime)) && env.hash160(key) == me && env.checkSig(sig, key)
  }

  /** The end: above a stack are the hash of its top element and the wanted hash. */
  lemma RunLast(env: E.Env, s: E.Stack, got: bytes, want: bytes, branch: bool)
    ensures E.Run(env, LastPart(), E.Machine(s + [got, want], [branch]))
      == if got == want && |s| >= 2
         then E.Machine(s[..|s| - 2] + [E.OfBool(env.checkSig(s[|s| - 2], s[|s| - 1]))], [])
         else E.Failed
  {
    hide E.Run;
    var t := s + [got, want];
    var m := E.Machine(t, [branch]);
    assert LastPart() == [S.OP_ENDIF] + ([S.OP_EQUALVERIFY] + ([S.OP_CHECKSIG] + []));
    E.RunOp(env, S.OP_ENDIF, [S.OP_EQUALVERIFY] + ([S.OP_CHECKSIG] + []), m);
    E.RunOp(env, S.OP_EQUALVERIFY, [S.OP_CHECKSIG] + [], E.Machine(t, []));
    RunEnd(env);
    if got == want {
      assert E.Pop(E.Pop(t)) == s;
      E.RunOp(env, S.OP_CHECKSIG, [], E.Machine(s, []));
      if |s| >= 2 { assert E.Pop(E.Pop(s)) == s[..|s| - 2]; }
    }
  }

  lemma RunEnd(env: E.Env)
    ensures forall code :: E.Run(env, code, E.Failed) == E.Failed
    ensures forall s :: E.Run(env, [], E.Machine(s, [])) == E.Machine(s, [])
  {
  }

  /** What the redeem path leaves, from the stack below the selector. */
  function AfterHash(env: E.Env, them: bytes, secHash: bytes, s: E.Stack): E.Machine {
    if |s| >= 2 && env.ripemd160(E.Top(s)) == secHash
    then E.Machine(E.Pop(s) + [env.hash160(E.Top(E.Pop(s))), them], [true])
    else E.Failed
  }

  lemma RunHash(env: E.Env, them: bytes, secHash: bytes, rest: bytes, s: E.Stack)
    requires |them| < 0x1_0000_0000 && |secHash| < 0x1_0000_0000
    requires s != [] && E.IsTrue(E.Top(s))
    ensures E.Run(env, HashPart(them, secHash, rest), E.Machine(s, []))
      == E.Run(env, rest, AfterHash(env, them, secHash, E.Pop(s)))
  {
    hide E.Run, E.IsTrue, S.Push, E.IsPushOnly;
    RunEnd(env);
    var t := E.Pop(s);
    var r6 := S.Push(them) + rest;
    var r5 := [S.OP_HASH160] + r6;
    var r4 := [S.OP_DUP] + r5;
    var r3 := [S.OP_EQUALVERIFY] + r4;
    var r2 := S.Push(secHash) + r3;
    E.RunOp(env, S.OP_IF, [S.OP_RIPEMD160] + r2, E.Machine(s, []));
    assert [] + [true] == [true];
    E.RunOp(env, S.OP_RIPEMD160, r2, E.Machine(t, [true]));
    if t != [] {
      var u, h := E.Pop(t), env.ripemd160(E.Top(t));
      E.RunPush(env, secHash, r3, E.Machine(u + [h], [true]));
      assert u + [h] + [secHash] == u + [h, secHash];
      E.RunOp(env, S.OP_EQUALVERIFY, r4, E.Machine(u + [h, secHash], [true]));
      if h == secHash {
        assert E.Pop(E.Pop(u + [h, secHash])) == u;
        CheckKey(env, them, rest, u);
      }
    }
  }

  lemma SkipHash(env: E.Env, them: bytes, secHash: bytes, rest: bytes, s: E.Stack)
    requires |them| < 0x1_0000_0000 && |secHash| < 0x1_0000_0000
    requires s != [] && !E.IsTrue(E.Top(s))
    ensures E.Run(env, HashPart(them, secHash, rest), E.Machine(s, [])) == E.Run(env, rest, E.Machine(E.Pop(s), [false]))
  {
    hide E.Run, E.IsTrue, S.Push, E.IsPushOnly, E.Execute;
    var m := E.Machine(E.Pop(s), [false]);
    var r6 := S.Push(them) + rest;
    var r5 := [S.OP_HASH160] + r6;
    var r4 := [S.OP_DUP] + r5;
    var r3 := [S.OP_EQUALVERIFY] + r4;
    var r2 := S.Push(secHash) + r3;
    E.RunOp(env, S.OP_IF, [S.OP_RIPEMD160] + r2, E.Machine(s, []));
    assert [] + [false] == [false];
    E.RunOp(env, S.OP_RIPEMD160, r2, m);
    E.RunPush(env, secHash, r3, m);
    E.RunOp(env, S.OP_EQUALVERIFY, r4, m);
    E.RunOp(env, S.OP_DUP, r5, m);
    E.RunOp(env, S.OP_HASH160, r6, m);
    E.RunPush(env, them, rest, m);
  }

  /** What the refund path leaves. */
  function AfterTime(env: E.Env, me: bytes, lockTime: int, s: E.Stack): E.Machine {
    if s != [] && E.LockSatisfied(env, S.Int32(lockTime))
    then E.Machine(s + [env.hash160(E.Top(s)), me], [true])
    else E.Failed
  }

  lemma RunTime(env: E.Env, me: bytes, lockTime: int, rest: bytes, s: E.Stack)
    requires |me| < 0x1_0000_0000
    ensures E.Run(env, TimePart(me, lockTime, rest), E.Machine(s, [false])) == E.Run(env, rest, AfterTime(env, me, lockTime, s))
  {
    hide E.Run, S.Push, S.PushInt64, E.IsPushOnly, E.LockSatisfied, S.Int32, E.Execute, ToVch;
    RunEnd(env);
    var r4 := [S.OP_DUP] + ([S.OP_HASH160] + (S.Push(me) + rest));
    var r2 := [S.OP_CHECKLOCKTIMEVERIFY] + ([S.OP_DROP] + r4);
    E.RunOp(env, S.OP_ELSE, S.PushInt64(lockTime) + r2, E.Machine(s, [false]));
    assert [false][..0] + [true] == [true];
    RunLock(env, lockTime, r2, E.Machine(s, [true]));
    CheckLock(env, lockTime, r4, s);
    if E.LockSatisfied(env, S.Int32(lockTime)) { CheckKey(env, me, rest, s); }
  }

  /** The lock is checked and dropped. */
  lemma CheckLock(env: E.Env, lockTime: int, rest: bytes, s: E.Stack)
    ensures E.Run(env, [S.OP_CHECKLOCKTIMEVERIFY] + ([S.OP_DROP] + rest), E.Machine(s + [ToVch(S.Int32(lockTime))], [true]))
      == E.Run(env, rest, if E.LockSatisfied(env, S.Int32(lockTime)) then E.Machine(s, [true]) else E.Failed)
  {
    hide E.Run, E.IsPushOnly, E.LockSatisfied, S.Int32, ToVch;
    RunEnd(env);
    var lock := ToVch(S.Int32(lockTime));
    FromToVch(S.Int32(lockTime));
    S.Int32IsShort(lockTime);
    E.RunOp(env, S.OP_CHECKLOCKTIMEVERIFY, [S.OP_DROP] + rest, E.Machine(s + [lock], [true]));
    if E.LockSatisfied(env, S.Int32(lockTime)) {
      E.RunOp(env, S.OP_DROP, rest, E.Machine(s + [lock], [true]));
      assert E.Pop(s + [lock]) == s;
    }
  }

  /** The key is copied and hashed, and the wanted hash pushed. */
  lemma CheckKey(env: E.Env, id: bytes, rest: bytes, s: E.Stack)
    requires |id| < 0x1_0000_0000
    ensures E.Run(env, [S.OP_DUP] + ([S.OP_HASH160] + (S.Push(id) + rest)), E.Machine(s, [true]))
      == E.Run(env, rest, if s != [] then E.Machine(s + [env.hash160(E.Top(s)), id], [true]) else E.Failed)
  {
    hide E.Run, E.IsPushOnly, E.LockSatisfied, S.Push;
    RunEnd(env);
    var r6 := S.Push(id) + rest;
    E.RunOp(env, S.OP_DUP, [S.OP_HASH160] + r6, E.Machine(s, [true]));
    if s != [] {
      E.RunOp(env, S.OP_HASH160, r6, E.Machine(s + [E.Top(s)], [true]));
      assert E.Pop(s + [E.Top(s)]) == s;
      var k := env.hash160(E.Top(s));
      E.RunPush(env, id, rest, E.Machine(s + [k], [true]));
      assert s + [k] + [id] == s + [k, id];
    }
  }

  lemma SkipTime(env: E.Env, me: bytes, lockTime: int, rest: bytes, s: E.Stack)
    requires |me| < 0x1_0000_0000
    ensures E.Run(env, TimePart(me, lockTime, rest), E.Machine(s, [true])) == E.Run(env, rest, E.Machine(s, [false]))
  {
    hide E.Run, S.Push, S.PushInt64, E.IsPushOnly, E.Execute;
    var m := E.Machine(s, [false]);
    var r6 := S.Push(me) + rest;
    var r5 := [S.OP_HASH160] + r6;
    var r4 := [S.OP_DUP] + r5;
    var r3 := [S.OP_DROP] + r4;
    var r2 := [S.OP_CHECKLOCKTIMEVERIFY] + r3;
    E.RunOp(env, S.OP_ELSE, S.PushInt64(lockTime) + r2, E.Machine(s, [true]));
    assert [true][..0] + [false] == [false];
    RunLock(env, lockTime, r2, m);
    E.RunOp(env, S.OP_CHECKLOCKTIMEVERIFY, r3, m);
    E.RunOp(env, S.OP_DROP, r4, m);
    E.RunOp(env, S.OP_DUP, r5, m);
    E.RunOp(env, S.OP_HASH160, r6, m);
    E.RunPush(env, me, rest, m);
  }

  lemma TruthOfBool(b: bool)
    ensures E.IsTrue(E.OfBool(b)) == b
  {
    if b { assert E.TRUE[0] != 0; }
  }

  lemma OneElementTrue(s: E.Stack, b: bool)
    ensures var t := s + [E.OfBool(b)]; t != [] && E.Top(t) == E.OfBool(b) && E.IsTrue(E.Top(t)) == b
  {
    TruthOfBool(b);
  }

  /** The contract accepts exactly the stacks that redeem and those that refund. */
  lemma ContractMeaning(env: E.Env, me: bytes, them: bytes, lockTime: int, secHash: bytes, s: E.Stack)
    requires |me| < 0x1_0000_0000 && |them| < 0x1_0000_0000 && |secHash| < 0x1_0000_0000
    ensures E.Accepts(env, ContractOf(me, them, lockTime, secHash), s)
      <==> Redeems(env, them, secHash, s) || Refunds(env, me, lockTime, s)
  {
    hide HashPart, TimePart, E.Run, E.IsTrue, E.LockSatisfied;
    RunEnd(env);
    var time := TimePart(me, lockTime, LastPart());
    if s == [] {
      EmptyStackFails(env, them, secHash, time);
    } else {
      var t := E.Pop(s);
      if E.IsTrue(E.Top(s)) {
        RunHash(env, them, secHash, time, s);
        if AfterHash(env, them, secHash, t).Machine? {
          var u := E.Pop(t);
          var got := env.hash160(E.Top(u));
          SkipTime(env, me, lockTime, LastPart(), u + [got, them]);
          RunLast(env, u, got, them, false);
          if |u| >= 2 { OneElementTrue(u[..|u| - 2], env.checkSig(u[|u| - 2], u[|u| - 1])); }
        }
      } else {
        SkipHash(env, them, secHash, time, s);
        RunTime(env, me, lockTime, LastPart(), t);
        if AfterTime(env, me, lockTime, t).Machine? {
          var got := env.hash160(E.Top(t));
          RunLast(env, t, got, me, true);
          if |t| >= 2 { OneElementTrue(t[..|t| - 2], env.checkSig(t[|t| - 2], t[|t| - 1])); }
        }
      }
    }
  }

  lemma EmptyStackFails(env: E.Env, them: bytes, secHash: bytes, rest: bytes)
    ensures E.Run(env, HashPart(them, secHash, rest), E.Machine([], [])) == E.Failed
  {
    hide E.Run, S.Push;
    RunEnd(env);
    E.RunOp(env, S.OP_IF, [S.OP_RIPEMD160] + (S.Push(secHash) + ([S.OP_EQUALVERIFY] + ([S.OP_DUP] + ([S.OP_HASH160]
      + (S.Push(them) + rest))))), E.Machine([], []));
  }
}
