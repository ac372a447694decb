/** Recognising a swap contract and taking it apart, and what the parts say of the
    contract built from them. */
module SwapData {
  import opened Numerals
  import opened Bytes
  import opened BigNumber
  import Hex
  import S = Script
  import A = AtomicSwap

  datatype AtomicSwapData = AtomicSwapData(
    secHash: bytes, recipientPubKeyHash: bytes, refundPubKeyHash: bytes, lockTime: bytes)

  /** What ISAtomicSwap does: it answers, or `at` throws out_of_range. */
  datatype Recognised = OutOfRange | Answer(yes: bool)

  /** One conjunct: the byte at position `i`, then the conjuncts after it. */
  function Expect(s: bytes, i: nat, op: byte, others: Recognised): Recognised {
    if i >= |s| then OutOfRange else if s[i] != op then Answer(false) else others
  }

  function ISAtomicSwap(s: bytes): Recognised {
    Expect(s, 0, S.OP_IF, Expect(s, 1, S.OP_RIPEMD160, Expect(s, 2, 0x14,
    Expect(s, 23, S.OP_EQUALVERIFY, Expect(s, 24, S.OP_DUP, Expect(s, 25, S.OP_HASH160, Expect(s, 26, 0x14,
    Expect(s, 47, S.OP_ELSE, Expect(s, 48, 0x04,
    Expect(s, 53, S.OP_CHECKLOCKTIMEVERIFY, Expect(s, 54, S.OP_DROP, Expect(s, 55, S.OP_DUP,
    Expect(s, 56, S.OP_HASH160, Expect(s, 57, 0x14,
    Expect(s, 78, S.OP_ENDIF, Expect(s, 79, S.OP_EQUALVERIFY, Expect(s, 80, S.OP_CHECKSIG,
    Answer(true))))))))))))))))))
  }

  method ExtractAtomicSwapData(contract: bytes) returns (data: AtomicSwapData)
    requires |contract| >= 78
    ensures data == Parts(contract)
  {
    data := AtomicSwapData([], [], [], []);
    data := data.(secHash := contract[3..23]);
    data := data.(recipientPubKeyHash := contract[27..47]);
    data := data.(refundPubKeyHash := contract[58..78]);
    data := data.(lockTime := contract[49..53]);
  }

  function Parts(s: bytes): AtomicSwapData
    requires |s| >= 78
  {
    AtomicSwapData(s[3..23], s[27..47], s[58..78], s[49..53])
  }

  /** The lock time that Refund computes: hexadecimal text, strtol, htonl. */
  function RefundLockTime(data: AtomicSwapData): nat
    requires |data.lockTime| == 4
  {
    Hex.TextToNumber(data.lockTime);
    Hex.HtoNL(Hex.StrTol(Hex.Text(data.lockTime), 0))
  }

  // ----- the shape that is recognised -----

  predicate IsSized(d: AtomicSwapData) {
    |d.secHash| == |d.recipientPubKeyHash| == |d.refundPubKeyHash| == 20 && |d.lockTime| == 4
  }

  /** The parts put together, with the lock time as it is. */
  function Assembled(d: AtomicSwapData): (s: bytes)
    requires IsSized(d)
    ensures |s| == 81
  {
    FirstHalf(d) + SecondHalf(d)
  }

  function FirstHalf(d: AtomicSwapData): (s: bytes)
    requires IsSized(d)
    ensures |s| == 47
  {
    [S.OP_IF, S.OP_RIPEMD160, 0x14] + d.secHash + [S.OP_EQUALVERIFY, S.OP_DUP, S.OP_HASH160, 0x14]
      + d.recipientPubKeyHash
  }

  function SecondHalf(d: AtomicSwapData): (s: bytes)
    requires IsSized(d)
    ensures |s| == 34
  {
    [S.OP_ELSE, 0x04] + d.lockTime + [S.OP_CHECKLOCKTIMEVERIFY, S.OP_DROP, S.OP_DUP, S.OP_HASH160, 0x14]
      + d.refundPubKeyHash + [S.OP_ENDIF, S.OP_EQUALVERIFY, S.OP_CHECKSIG]
  }

  predicate FirstFits(s: bytes)
    requires |s| == 47
  {
    s[0] == S.OP_IF && s[1] == S.OP_RIPEMD160 && s[2] == 0x14 &&
    s[23] == S.OP_EQUALVERIFY && s[24] == S.OP_DUP && s[25] == S.OP_HASH160 && s[26] == 0x14
  }

  predicate SecondFits(s: bytes)
    requires |s| == 34
  {
    s[0] == S.OP_ELSE && s[1] == 0x04 &&
    s[6] == S.OP_CHECKLOCKTIMEVERIFY && s[7] == S.OP_DROP && s[8] == S.OP_DUP && s[9] == S.OP_HASH160 && s[10] == 0x14 &&
    s[31] == S.OP_ENDIF && s[32] == S.OP_EQUALVERIFY && s[33] == S.OP_CHECKSIG
  }

  lemma FirstShape(s: bytes, d: AtomicSwapData)
    requires |s| == 47 && IsSized(d) && d.secHash == s[3..23] && d.recipientPubKeyHash == s[27..]
    ensures FirstFits(s) <==> s == FirstHalf(d)
  {
    var t := FirstHalf(d);
    assert t[3..23] == s[3..23] && t[27..] == s[27..];
    assert s == [s[0], s[1], s[2]] + s[3..23] + [s[23], s[24], s[25], s[26]] + s[27..];
  }

  lemma SecondShape(s: bytes, d: AtomicSwapData)
    requires |s| == 34 && IsSized(d) && d.lockTime == s[2..6] && d.refundPubKeyHash == s[11..31]
    ensures SecondFits(s) <==> s == SecondHalf(d)
  {
    var t := SecondHalf(d);
    assert t[2..6] == s[2..6] && t[11..31] == s[11..31];
    assert s == [s[0], s[1]] + s[2..6] + [s[6], s[7], s[8], s[9], s[10]] + s[11..31] + [s[31], s[32], s[33]];
  }

  /** A script is recognised exactly when its first 81 bytes are its parts put
      together. What follows them is not looked at. */
  lemma RecognisedShape(s: bytes)
    ensures ISAtomicSwap(s) == Answer(true) <==> |s| >= 81 && s[..81] == Assembled(Parts(s))
  {
    if |s| >= 81 {
      var d, a, b := Parts(s), s[..47], s[47..81];
      assert a[3..23] == s[3..23] && a[27..] == s[27..47] && b[2..6] == s[49..53] && b[11..31] == s[58..78];
      FirstShape(a, d);
      SecondShape(b, d);
      assert s[..81] == a + b;
      assert Assembled(d)[..47] == FirstHalf(d) && Assembled(d)[47..] == SecondHalf(d);
      assert (a + b)[..47] == a && (a + b)[47..] == b;
      RecognisedFits(s, a, b);
    }
  }

  lemma RecognisedFits(s: bytes, a: bytes, b: bytes)
    requires |s| >= 81 && a == s[..47] && b == s[47..81]
    ensures ISAtomicSwap(s) == Answer(FirstFits(a) && SecondFits(b))
  {
  }

  /** It throws exactly on the proper beginnings of scripts that it recognises. */
  lemma ThrowsOnBeginnings(s: bytes)
    ensures ISAtomicSwap(s).OutOfRange?
      <==> |s| < 81 && exists w: bytes :: |w| == 81 && s <= w && ISAtomicSwap(w) == Answer(true)
  {
    if |s| < 81 {
      if ISAtomicSwap(s).OutOfRange? {
        var zeros: bytes := seq(20, k => 0);
        var model := Assembled(AtomicSwapData(zeros, zeros, zeros, [0, 0, 0, 0]));
        var w := s + model[|s|..];
        Completed(s, model);
        assert |w| == 81 && s <= w && ISAtomicSwap(w) == Answer(true);
      }
    }
  }

  lemma Completed(s: bytes, model: bytes)
    requires |s| < 81 && |model| == 81 && ISAtomicSwap(s).OutOfRange?
    requires exists d :: IsSized(d) && model == Assembled(d)
    ensures ISAtomicSwap(s + model[|s|..]) == Answer(true)
  {
    var d :| IsSized(d) && model == Assembled(d);
    assert Parts(model) == d;
    RecognisedShape(model);
    hide Assembled;
    var w := s + model[|s|..];
    assert forall k :: 0 <= k < 81 ==> w[k] == if k < |s| then s[k] else model[k];
  }

  // ----- recognition and the contracts that are built -----

  /** The lock times whose script number takes four bytes. */
  predicate TakesFourBytes(lockTime: int) {
    0x80_0000 <= Magnitude(S.Int32(lockTime)) < 0x8000_0000
  }

  lemma FourByteNumber(lockTime: int)
    ensures var v := ToVch(S.Int32(lockTime));
      if TakesFourBytes(lockTime) then |v| == 4 && !S.HasOpcode(lockTime) && S.PushInt64(lockTime) == [0x04] + v
      else S.PushInt64(lockTime) != [] && S.PushInt64(lockTime)[0] != 0x04
  {
    hide S.Int32;
    S.VchLength(S.Int32(lockTime));
    if S.HasOpcode(lockTime) {
      assert S.Int32(lockTime) == lockTime by { SmallInt32(lockTime); }
    }
  }

  lemma SmallInt32(n: int)
    requires -0x8000_0000 <= n < 0x8000_0000
    ensures S.Int32(n) == n
  {
  }

  lemma BuiltHalves(me: bytes, them: bytes, lockTime: int, secHash: bytes)
    requires |me| == |them| == |secHash| == 20
    ensures var v := ToVch(S.Int32(lockTime));
      TakesFourBytes(lockTime) ==>
        |v| == 4 && A.ContractOf(me, them, lockTime, secHash) == Assembled(AtomicSwapData(secHash, them, me, v))
    ensures !TakesFourBytes(lockTime) ==>
      exists tail: bytes :: tail != [] && tail[0] != 0x04 &&
        A.ContractOf(me, them, lockTime, secHash)
          == FirstHalf(AtomicSwapData(secHash, them, me, [0, 0, 0, 0])) + ([S.OP_ELSE] + tail)
  {
    FourByteNumber(lockTime);
    var push := S.PushInt64(lockTime);
    hide TakesFourBytes, S.PushInt64;
    var rest := S.Push(me) + A.LastPart();
    var tail := push + ([S.OP_CHECKLOCKTIMEVERIFY] + ([S.OP_DROP] + ([S.OP_DUP] + ([S.OP_HASH160] + rest))));
    assert tail[0] == push[0];
    var first := FirstHalf(AtomicSwapData(secHash, them, me, [0, 0, 0, 0]));
    assert A.TimePart(me, lockTime, A.LastPart()) == [S.OP_ELSE] + tail;
    assert A.HashPart(them, secHash, [S.OP_ELSE] + tail) == first + ([S.OP_ELSE] + tail);
    if TakesFourBytes(lockTime) {
      var d := AtomicSwapData(secHash, them, me, ToVch(S.Int32(lockTime)));
      assert FirstHalf(d) == first;
      assert [S.OP_ELSE] + tail == SecondHalf(d);
    }
  }

  /** Which built contracts are recognised, and that recognising one never throws. */
  lemma BuiltIsRecognised(me: bytes, them: bytes, lockTime: int, secHash: bytes)
    requires |me| == |them| == |secHash| == 20
    ensures ISAtomicSwap(A.ContractOf(me, them, lockTime, secHash)) == Answer(TakesFourBytes(lockTime))
  {
    hide TakesFourBytes, A.ContractOf;
    BuiltHalves(me, them, lockTime, secHash);
    var s := A.ContractOf(me, them, lockTime, secHash);
    if TakesFourBytes(lockTime) {
      var d := AtomicSwapData(secHash, them, me, ToVch(S.Int32(lockTime)));
      AssembledParts(d);
      RecognisedShape(s);
      assert s[..81] == s;
    } else {
      var first := FirstHalf(AtomicSwapData(secHash, them, me, [0, 0, 0, 0]));
      var tail: bytes :| tail != [] && tail[0] != 0x04 && s == first + ([S.OP_ELSE] + tail);
      assert forall k :: 0 <= k < 47 ==> s[k] == first[k];
      assert s[47] == S.OP_ELSE && s[48] == tail[0];
    }
  }

  lemma AssembledParts(d: AtomicSwapData)
    requires IsSized(d)
    ensures Parts(Assembled(d)) == d
  {
  }

  /** The little-endian form of a four-byte script number: the number itself when it
      is positive. */
  lemma FourByteValue(n: int)
    requires 0x80_0000 <= Magnitude(n) < 0x8000_0000
    ensures |ToVch(n)| == 4
    ensures FromLE(ToVch(n)) == if n < 0 then 0x8000_0000 + Magnitude(n) else n
  {
    S.VchLength(n);
    FromToVch(n);
    var v := ToVch(n);
    hide ToVch, Val;
    var w: seq<nat> := v[..3] + [v[3] % 128];
    Four(v);
    Four(w);
    assert FromVch(v) == if v[3] >= 128 then 0 - Val(256, w) as int else Val(256, w);
  }

  /** A recognised contract gives back what it was built from, and Refund computes the
      lock time it was built with. */
  lemma BuiltThenExtracted(me: bytes, them: bytes, lockTime: int, secHash: bytes)
    requires |me| == |them| == |secHash| == 20
    requires ISAtomicSwap(A.ContractOf(me, them, lockTime, secHash)) == Answer(true)
    ensures var s := A.ContractOf(me, them, lockTime, secHash);
      |s| == 81 &&
      var d := Parts(s);
      d.secHash == secHash && d.recipientPubKeyHash == them && d.refundPubKeyHash == me &&
      d.lockTime == ToVch(S.Int32(lockTime)) &&
      (RefundLockTime(d) == S.Int32(lockTime) <==> S.Int32(lockTime) >= 0)
  {
    hide A.ContractOf, FirstHalf, SecondHalf, S.Int32;
    BuiltIsRecognised(me, them, lockTime, secHash);
    BuiltHalves(me, them, lockTime, secHash);
    var d := AtomicSwapData(secHash, them, me, ToVch(S.Int32(lockTime)));
    AssembledParts(d);
    FourByteValue(S.Int32(lockTime));
    Hex.TextToNumber(d.lockTime);
  }

  /** The contract built from the parts of a recognised one is that contract exactly
      when nothing follows its 81 bytes and the lock time, read as Refund reads it, is
      at least 2^23 and below 2^31, or is the one number above that whose wrapped form
      is its own sign-magnitude form. */
  lemma ExtractedThenRebuilt(s: bytes)
    requires ISAtomicSwap(s) == Answer(true)
    ensures |s| >= 81
    ensures var d := Parts(s); var lock := RefundLockTime(d);
      A.ContractOf(d.refundPubKeyHash, d.recipientPubKeyHash, lock, d.secHash) == s
      <==> |s| == 81 && (0x80_0000 <= lock < 0x8000_0000 || lock == 0xc000_0000)
  {
    hide ISAtomicSwap, A.ContractOf, FirstHalf, SecondHalf, FromLE, ToVch, S.Int32, Hex.StrTol, Hex.Text, Hex.HtoNL;
    RecognisedShape(s);
    var d := Parts(s);
    Hex.TextToNumber(d.lockTime);
    LEFromLE(d.lockTime);
    Pow256(4);
    var lock := RefundLockTime(d);
    hide RefundLockTime;
    var t := A.ContractOf(d.refundPubKeyHash, d.recipientPubKeyHash, lock, d.secHash);
    BuiltHalves(d.refundPubKeyHash, d.recipientPubKeyHash, lock, d.secHash);
    BuiltIsRecognised(d.refundPubKeyHash, d.recipientPubKeyHash, lock, d.secHash);
    if TakesFourBytes(lock) {
      var d' := d.(lockTime := ToVch(S.Int32(lock)));
      AssembledParts(d);
      AssembledParts(d');
      assert |s| == 81 ==> s[..81] == s;
      assert t == s <==> |s| == 81 && d'.lockTime == d.lockTime;
      SameFourBytes(d.lockTime, lock);
    } else {
      FourByteLocks(lock);
    }
  }

  lemma FourByteLocks(lock: nat)
    ensures 0x80_0000 <= lock < 0x8000_0000 || lock == 0xc000_0000 ==> TakesFourBytes(lock)
  {
  }

  lemma SameFourBytes(v: bytes, lock: nat)
    requires |v| == 4 && FromLE(v) == lock < 0x1_0000_0000 && TakesFourBytes(lock)
    ensures ToVch(S.Int32(lock)) == v <==> 0x80_0000 <= lock < 0x8000_0000 || lock == 0xc000_0000
  {
    var n := S.Int32(lock);
    assert n == if lock < 0x8000_0000 then lock else lock - 0x1_0000_0000;
    hide ToVch, FromLE, LE;
    FourByteValue(n);
    LEFromLE(v);
    LEFromLE(ToVch(n));
    assert ToVch(n) == v <==> FromLE(ToVch(n)) == lock;
  }
}
