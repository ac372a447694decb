/** What a script does: the stack machine that the two chains run, for the opcodes
    of the swap contract and of its pay-to-script-hash output. Hashes and signature
    checks are uninterpreted. CHECKLOCKTIMEVERIFY is that of BIP 65 and the P2SH
    rule that of BIP 16. */
module ScriptEval {
  import opened Bytes
  import opened BigNumber
  import S = Script

  type Stack = seq<bytes>

  /** What a script can see: the hash functions, the signature check (of a signature
      and a key, for the transaction at hand), and two fields of the transaction. */
  datatype Env = Env(
    ripemd160: bytes -> bytes,
    hash160: bytes -> bytes,
    checkSig: (bytes, bytes) -> bool,
    lockTime: nat,
    sequence: nat)

  datatype Machine = Failed | Machine(stack: Stack, conds: seq<bool>)

  /** Whether a stack element counts as true: any non-zero byte, but not minus zero. */
  predicate IsTrue(v: bytes) {
    exists k :: 0 <= k < |v| && v[k] != 0 && !(k == |v| - 1 && v[k] == 0x80)
  }

  const TRUE: bytes := [1]
  const FALSE: bytes := []

  function OfBool(b: bool): bytes { if b then TRUE else FALSE }

  predicate Executing(m: Machine)
    requires m.Machine?
  {
    false !in m.conds
  }

  const LOCKTIME_THRESHOLD: int := 500_000_000
  const FINAL_SEQUENCE: int := 0xffff_ffff

  /** BIP 65, for a lock time operand and a transaction. */
  predicate LockSatisfied(env: Env, lock: int) {
    lock >= 0 &&
    (lock < LOCKTIME_THRESHOLD <==> env.lockTime < LOCKTIME_THRESHOLD) &&
    lock <= env.lockTime &&
    env.sequence != FINAL_SEQUENCE
  }

  function Top(s: Stack): bytes
    requires s != []
  {
    s[|s| - 1]
  }

  function Pop(s: Stack): Stack
    requires s != []
  {
    s[..|s| - 1]
  }

  /** One opcode that is executed. */
  function Execute(env: Env, op: byte, s: Stack): Machine {
    if op == S.OP_1NEGATE || S.OP_1 <= op <= S.OP_16 then Machine(s + [ToVch(op as int - 0x50)], [])
    else if op == S.OP_NOP then Machine(s, [])
    else if op == S.OP_VERIFY then
      if s != [] && IsTrue(Top(s)) then Machine(Pop(s), []) else Failed
    else if op == S.OP_DROP then
      if s != [] then Machine(Pop(s), []) else Failed
    else if op == S.OP_DUP then
      if s != [] then Machine(s + [Top(s)], []) else Failed
    else if op == S.OP_EQUAL then
      if |s| >= 2 then Machine(Pop(Pop(s)) + [OfBool(Top(s) == Top(Pop(s)))], []) else Failed
    else if op == S.OP_EQUALVERIFY then
      if |s| >= 2 && Top(s) == Top(Pop(s)) then Machine(Pop(Pop(s)), []) else Failed
    else if op == S.OP_RIPEMD160 then
      if s != [] then Machine(Pop(s) + [env.ripemd160(Top(s))], []) else Failed
    else if op == S.OP_HASH160 then
      if s != [] then Machine(Pop(s) + [env.hash160(Top(s))], []) else Failed
    else if op == S.OP_CHECKSIG then
      if |s| >= 2 then Machine(Pop(Pop(s)) + [OfBool(env.checkSig(Top(Pop(s)), Top(s)))], []) else Failed
    else if op == S.OP_CHECKLOCKTIMEVERIFY then
      if s != [] && |Top(s)| <= 5 && LockSatisfied(env, FromVch(Top(s))) then Machine(s, []) else Failed
    else Failed
  }

  /** One instruction. */
  function Step(env: Env, op: byte, data: bytes, m: Machine): (r: Machine)
    requires m.Machine?
  {
    var s, c := m.stack, m.conds;
    if op <= S.OP_PUSHDATA4 then
      if Executing(m) then m.(stack := s + [data]) else m
    else if op == S.OP_IF || op == S.OP_NOTIF then
      if !Executing(m) then m.(conds := c + [false])
      else if s == [] then Failed
      else Machine(Pop(s), c + [IsTrue(Top(s)) == (op == S.OP_IF)])
    else if op == S.OP_ELSE then
      if c == [] then Failed else m.(conds := c[..|c| - 1] + [!c[|c| - 1]])
    else if op == S.OP_ENDIF then
      if c == [] then Failed else m.(conds := c[..|c| - 1])
    else if !Executing(m) then m
    else
      match Execute(env, op, s)
      case Failed => Failed
      case Machine(s', _) => Machine(s', c)
  }

  function Run(env: Env, code: bytes, m: Machine): (r: Machine)
    decreases |code|
  {
    if m.Failed? then Failed
    else if code == [] then if m.conds == [] then m else Failed
    else
      match S.Fetch(code)
      case Bad => Failed
      case Good(op, data, n) => Run(env, code[n..], Step(env, op, data, m))
  }

  /** A script accepts a stack when it runs to the end with a true top element. */
  predicate Accepts(env: Env, code: bytes, s: Stack) {
    var m := Run(env, code, Machine(s, []));
    m.Machine? && m.stack != [] && IsTrue(Top(m.stack))
  }

  // ----- spending a pay-to-script-hash output -----

  function P2SH(scriptId: bytes): bytes {
    [S.OP_HASH160] + (S.Push(scriptId) + [S.OP_EQUAL])
  }

  predicate IsPushOnly(code: bytes)
    decreases |code|
  {
    code == [] ||
    var f := S.Fetch(code);
    f.Good? && f.opcode <= S.OP_16 && IsPushOnly(code[f.length..])
  }

  /** BIP 16: the output script accepts the stack that the input script leaves, the
      input script only pushes, and the script on top of that stack accepts the rest. */
  predicate VerifyP2SH(env: Env, scriptSig: bytes, scriptPubKey: bytes) {
    var m := Run(env, scriptSig, Machine([], []));
    m.Machine? && IsPushOnly(scriptSig) && m.stack != [] &&
    Accepts(env, scriptPubKey, m.stack) && Accepts(env, Top(m.stack), Pop(m.stack))
  }

  // ----- running a script piece by piece -----

  lemma RunPush(env: Env, data: bytes, rest: bytes, m: Machine)
    requires m.Machine? && |data| < 0x1_0000_0000
    ensures Run(env, S.Push(data) + rest, m)
      == Run(env, rest, if Executing(m) then m.(stack := m.stack + [data]) else m)
    ensures IsPushOnly(S.Push(data) + rest) == IsPushOnly(rest)
  {
    S.FetchPush(data, rest);
    assert (S.Push(data) + rest)[|S.Push(data)|..] == rest;
  }

  lemma RunOp(env: Env, op: byte, rest: bytes, m: Machine)
    requires m.Machine? && op > S.OP_PUSHDATA4
    ensures Run(env, [op] + rest, m) == Run(env, rest, Step(env, op, [], m))
    ensures IsPushOnly([op] + rest) == (op <= S.OP_16 && IsPushOnly(rest))
  {
    assert ([op] + rest)[1..] == rest;
  }
}
