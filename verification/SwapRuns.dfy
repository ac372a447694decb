/** Runs of the swap that exist: what an honest party can always still do, what of it the
    program does, and the runs in which a participant that funds too late, or that has
    only the program to find the secret with, loses its output. */
module SwapRuns {
  import opened Bytes
  import opened SwapProtocol
  import S = Script
  import E = ScriptEval
  import A = AtomicSwap
  import D = SwapData
  import P = SwapSpend
  import W = ScriptText

  /** A party's transaction: it has that party's signatures and no others. */
  function Signed(w: World, who: Party, lockTime: nat): E.Env {
    E.Env(w.ripemd160, w.hash160, (sig, key) => w.owns(who, key), lockTime, P.SPEND_SEQUENCE)
  }

  function RedeemAction(w: World, s: State, coin: Coin): Action
    requires Out(s, coin).Output?
  {
    var who := Redeemer(coin);
    Spend(coin, who, Signed(w, who, 0), P.RedeemSig([], w.key(who, coin), w.secret, Contract(w, coin, Out(s, coin).lock)), [])
  }

  function RefundAction(w: World, s: State, coin: Coin): Action
    requires Out(s, coin).Output?
  {
    var who, lock := Funder(coin), Out(s, coin).lock;
    Spend(coin, who, Signed(w, who, lock), P.RefundSig([], w.key(who, coin), Contract(w, coin, lock)), [])
  }

  lemma PushedStacks(w: World, env: E.Env, who: Party, coin: Coin, lock: nat)
    requires Sound(w)
    ensures var c, key := Contract(w, coin, lock), w.key(who, coin);
      Pushed(env, P.RedeemSig([], key, w.secret, c)) == [[], key, w.secret, E.TRUE, c] &&
      Pushed(env, P.RefundSig([], key, c)) == [[], key, E.FALSE, c] &&
      w.secret !in Pushed(env, P.RefundSig([], key, c))
  {
    hide P.RedeemSig, P.RefundSig, E.Run, A.ContractOf;
    var c := Contract(w, coin, lock);
    P.ContractIsShort(KeyId(w, Funder(coin), coin), KeyId(w, Redeemer(coin), coin), lock, SecHash(w));
    P.SpendRuns(env, [], w.key(who, coin), w.secret, c);
  }

  /** Whoever knows the secret can take the output meant for it, at any time. */
  lemma RedeemIsEnabled(w: World, s: State, coin: Coin)
    requires Sound(w) && IsUnspent(Out(s, coin)) && (Redeemer(coin) == Initiator || s.known)
    ensures Enabled(w, s, RedeemAction(w, s, coin))
    ensures w.secret in Pushed(RedeemAction(w, s, coin).env, RedeemAction(w, s, coin).scriptSig)
  {
    hide P.RedeemSig, E.Run, A.ContractOf, Pushed, E.VerifyP2SH, E.P2SH;
    var act, lock := RedeemAction(w, s, coin), Out(s, coin).lock;
    var key := w.key(Redeemer(coin), coin);
    var me, them := KeyId(w, Funder(coin), coin), KeyId(w, Redeemer(coin), coin);
    PushedStacks(w, act.env, Redeemer(coin), coin, lock);
    assert [[], key, w.secret, E.TRUE, Contract(w, coin, lock)][2] == w.secret;
    P.RedeemSpends(act.env, me, them, lock, SecHash(w), [], key, w.secret);
  }

  /** Once the lock has expired, the funder can take its output back. */
  lemma RefundIsEnabled(w: World, s: State, coin: Coin)
    requires Sound(w) && IsUnspent(Out(s, coin)) && IsTimeLock(Out(s, coin).lock) && Out(s, coin).lock < s.clock
    ensures Enabled(w, s, RefundAction(w, s, coin))
    ensures w.secret !in Pushed(RefundAction(w, s, coin).env, RefundAction(w, s, coin).scriptSig)
  {
    hide P.RefundSig, E.Run, A.ContractOf, Pushed, E.VerifyP2SH, E.P2SH, D.ISAtomicSwap, D.RefundLockTime;
    var act, lock := RefundAction(w, s, coin), Out(s, coin).lock;
    var key := w.key(Funder(coin), coin);
    var me, them := KeyId(w, Funder(coin), coin), KeyId(w, Redeemer(coin), coin);
    PushedStacks(w, act.env, Funder(coin), coin, lock);
    assert S.Int32(lock) == lock;
    D.BuiltIsRecognised(me, them, lock, SecHash(w));
    D.BuiltThenExtracted(me, them, lock, SecHash(w));
    P.RefundSpends(act.env, me, them, lock, SecHash(w), [], key);
  }

  lemma ContractIsLong(w: World, coin: Coin, lock: nat)
    requires forall v :: |w.ripemd160(v)| == |w.hash160(v)| == 20
    ensures |Contract(w, coin, lock)| >= 33
  {
    hide A.ContractOf;
    P.ContractIsShort(KeyId(w, Funder(coin), coin), KeyId(w, Redeemer(coin), coin), lock, SecHash(w));
  }

  function ToyHash(v: bytes): bytes { if v == [] then seq(20, k => 0) else [v[0]] + seq(19, k => 0) }

  function ToyKey(p: Party, c: Coin): bytes { [if p == Initiator then 1 else 2] + seq(32, k => 0) }

  /** A secret of 32 zeros, a hash that tells it from everything else, and keys and key
      hashes that start with a byte for their owner. */
  function ToyWorld(): World {
    World(v => if v == seq(32, k => 0) then seq(20, k => 0) else [1] + seq(19, k => 0),
          ToyHash, ToyKey, (p, k) => k == ToyKey(p, InitiatorCoin), seq(32, k => 0))
  }

  /** The assumptions about hashes and keys can be met. */
  lemma SoundWorldsExist()
    ensures exists w :: Sound(w)
  {
    var w := ToyWorld();
    hide A.ContractOf, Contract;
    assert seq(20, k => 0)[0] == 0;
    forall p, k, q, c | w.owns(p, k) && w.hash160(k) == w.hash160(w.key(q, c)) ensures p == q {
      assert w.hash160(k)[0] == k[0] && w.hash160(w.key(q, c))[0] == w.key(q, c)[0];
    }
    forall coin, lock: nat ensures w.secret != Contract(w, coin, lock) { ContractIsLong(w, coin, lock); }
    assert Sound(w);
  }

  // ----- what an honest party can do -----

  /** A step of the participant's own after both outputs are there: of the program, or
      of reading the chain by other means. */
  predicate IsOwnStep(act: Action) {
    act.ExtractSecret? || act.ReadChain? || (act.Spend? && act.who == Participant)
  }

  predicate AreOwnSteps(run: seq<Action>) {
    forall k :: 0 <= k < |run| ==> IsOwnStep(run[k])
  }

  /** When the initiator's output is the participant's to take, the initiator cannot
      take it, and the participant takes it by reading the secret off the chain and
      redeeming. */
  lemma ParticipantTakes(w: World, s: State)
    requires Sound(w) && ParticipantCanTake(s) && IsTimeLock(s.a.lock)
    ensures !exists env, scriptSig :: CanSpend(w, s, InitiatorCoin, Initiator, env, scriptSig)
    ensures var run := [ReadChain, RedeemAction(w, s, InitiatorCoin)];
      AreOwnSteps(run) && IsRun(w, s, run) && IsTakenBy(After(w, s, run).a, Participant)
  {
    forall env, scriptSig | CanSpend(w, s, InitiatorCoin, Initiator, env, scriptSig) ensures false {
      SpendMeaning(w, s, InitiatorCoin, Initiator, env, scriptSig);
    }
    TakeByRedeeming(w, s, ReadChain);
  }

  /** A step that tells the secret, and then redeeming. */
  lemma TakeByRedeeming(w: World, s: State, learn: Action)
    requires Sound(w) && IsUnspent(s.a) && Enabled(w, s, learn)
    requires learn == ReadChain || (learn.ExtractSecret? && GivesSecret(w, s.spends[learn.spend]))
    ensures var run := [learn, RedeemAction(w, s, InitiatorCoin)];
      AreOwnSteps(run) && IsRun(w, s, run) && IsTakenBy(After(w, s, run).a, Participant) && After(w, s, run).b == s.b
  {
    hide Sound, CanSpend, Pushed, IsRun, After, GivesSecret, Answer, RedeemAction;
    var s1, act := Apply(w, s, learn), RedeemAction(w, s, InitiatorCoin);
    RedeemIsEnabled(w, s1, InitiatorCoin);
    SameRedeem(w, s, s1);
    TwoSteps(w, s, learn, act);
  }

  lemma SameRedeem(w: World, s: State, s': State)
    requires s.a == s'.a && s.a.Output?
    ensures RedeemAction(w, s, InitiatorCoin) == RedeemAction(w, s', InitiatorCoin)
    ensures RedeemAction(w, s, InitiatorCoin).Spend?
    ensures RedeemAction(w, s, InitiatorCoin).coin == InitiatorCoin && RedeemAction(w, s, InitiatorCoin).who == Participant
  {
  }

  lemma TwoSteps(w: World, s: State, a0: Action, a1: Action)
    ensures IsRun(w, s, [a0, a1]) <==> Enabled(w, s, a0) && Enabled(w, Apply(w, s, a0), a1)
    ensures After(w, s, [a0, a1]) == Apply(w, Apply(w, s, a0), a1)
  {
    hide Enabled, Apply;
    assert [a0, a1][1..] == [a1];
    OneStep(w, Apply(w, s, a0), a1);
  }

  lemma OneStep(w: World, s: State, act: Action)
    ensures IsRun(w, s, [act]) <==> Enabled(w, s, act)
    ensures After(w, s, [act]) == Apply(w, s, act)
  {
    hide Enabled, Apply;
    assert [act][1..] == [];
  }

  /** The participant's rules never leave it without a step: whenever they forbid time
      to pass, it can refund, or find the secret on the chain and redeem, and then time
      may pass. */
  lemma RulesCanBeKept(w: World, s: State, delay: nat)
    requires Sound(w) && ParticipantInvariant(w, s)
    ensures exists run ::
      AreOwnSteps(run) && IsRun(w, s, run) && KeepsThroughout(w, s, run, delay) &&
      ParticipantKeeps(delay, After(w, s, run), Tick)
  {
    hide Sound, CanSpend, Pushed, RedeemAction, RefundAction, AnswersAreRevealed;
    if IsUnspent(s.b) && s.b.lock < s.clock {
      RefundIsEnabled(w, s, ParticipantCoin);
      var act := RefundAction(w, s, ParticipantCoin);
      ActionShapes(w, s, ParticipantCoin);
      OneStep(w, s, act);
      KeepsSpends(w, s, [act], delay);
      hide IsRun, After;
      assert AreOwnSteps([act]) && ParticipantKeeps(delay, After(w, s, [act]), Tick);
    } else if IsUnspent(s.a) && s.revealed {
      TakeByRedeeming(w, s, ReadChain);
      var run := [ReadChain, RedeemAction(w, s, InitiatorCoin)];
      ActionShapes(w, s, InitiatorCoin);
      KeepsSpends(w, s, run, delay);
      hide IsRun, After;
      assert ParticipantKeeps(delay, After(w, s, run), Tick);
    } else {
      assert AreOwnSteps([]) && IsRun(w, s, []) && KeepsThroughout(w, s, [], delay);
      assert ParticipantKeeps(delay, After(w, s, []), Tick);
    }
  }

  lemma {:induction false} KeepsSpends(w: World, s: State, run: seq<Action>, delay: nat)
    requires forall k :: 0 <= k < |run| ==> !run[k].Tick? && !run[k].Participate?
    ensures KeepsThroughout(w, s, run, delay)
    decreases |run|
  {
    if run != [] { KeepsSpends(w, Apply(w, s, run[0]), run[1..], delay); }
  }

  // ----- with the program alone -----

  predicate ProgramOnly(run: seq<Action>) {
    forall k :: 0 <= k < |run| ==> !run[k].ReadChain?
  }

  /** The participant has the secret or can have it from the program. */
  ghost predicate ProgramFinds(w: World, s: State) {
    s.known || exists sp :: sp in s.spends && GivesSecret(w, sp)
  }

  /** Without the secret, the participant has no transaction for the initiator's output. */
  lemma NoRedeemUnknown(w: World, s: State, env: E.Env, scriptSig: bytes)
    requires Sound(w) && !s.known && s.a.Output? && IsTimeLock(s.a.lock)
    ensures !CanSpend(w, s, InitiatorCoin, Participant, env, scriptSig)
  {
    if CanSpend(w, s, InitiatorCoin, Participant, env, scriptSig) {
      SpendMeaning(w, s, InitiatorCoin, Participant, env, scriptSig);
      SpendGuard(w, s, InitiatorCoin, Participant, env, scriptSig);
      hide CanSpend, Sound;
      assert false;
    }
  }

  /** With the program alone the participant takes an unspent output of the initiator by
      steps of its own if and only if the program finds the secret: it has found it, or
      one of the transactions on the chains gives it. */
  lemma ProgramTakes(w: World, s: State)
    requires Sound(w) && IsUnspent(s.a) && IsTimeLock(s.a.lock)
    ensures ProgramFinds(w, s) <==>
      exists run :: AreOwnSteps(run) && ProgramOnly(run) && IsRun(w, s, run) && IsTakenBy(After(w, s, run).a, Participant)
  {
    if ProgramFinds(w, s) {
      var run := TakingRun(w, s);
      hide ProgramFinds, IsRun, After;
    } else {
      forall run | AreOwnSteps(run) && ProgramOnly(run) && IsRun(w, s, run)
        ensures !IsTakenBy(After(w, s, run).a, Participant)
      {
        OwnStepsFindNothing(w, s, run);
      }
    }
  }

  lemma TakingRun(w: World, s: State) returns (run: seq<Action>)
    requires Sound(w) && IsUnspent(s.a) && IsTimeLock(s.a.lock) && ProgramFinds(w, s)
    ensures AreOwnSteps(run) && ProgramOnly(run) && IsRun(w, s, run) && IsTakenBy(After(w, s, run).a, Participant)
  {
    hide Sound, GivesSecret, Answer, RedeemAction, IsRun, After;
    ActionShapes(w, s, InitiatorCoin);
    if s.known {
      TakeKnown(w, s);
      run := [RedeemAction(w, s, InitiatorCoin)];
    } else {
      var k := GivingSpend(w, s);
      TakeByRedeeming(w, s, ExtractSecret(k));
      run := [ExtractSecret(k), RedeemAction(w, s, InitiatorCoin)];
    }
  }

  lemma GivingSpend(w: World, s: State) returns (k: nat)
    requires exists sp :: sp in s.spends && GivesSecret(w, sp)
    ensures k < |s.spends| && GivesSecret(w, s.spends[k]) && Enabled(w, s, ExtractSecret(k))
  {
    hide Answer;
    var sp :| sp in s.spends && GivesSecret(w, sp);
    k :| 0 <= k < |s.spends| && s.spends[k] == sp;
  }

  lemma TakeKnown(w: World, s: State)
    requires Sound(w) && IsUnspent(s.a) && s.known
    ensures var run := [RedeemAction(w, s, InitiatorCoin)];
      IsRun(w, s, run) && IsTakenBy(After(w, s, run).a, Participant)
  {
    hide Sound, CanSpend, Pushed, RedeemAction;
    RedeemIsEnabled(w, s, InitiatorCoin);
    ActionShapes(w, s, InitiatorCoin);
    OneStep(w, s, RedeemAction(w, s, InitiatorCoin));
  }

  lemma {:induction false} OwnStepsFindNothing(w: World, s: State, run: seq<Action>)
    requires Sound(w) && IsUnspent(s.a) && IsTimeLock(s.a.lock) && !ProgramFinds(w, s)
    requires AreOwnSteps(run) && ProgramOnly(run) && IsRun(w, s, run)
    ensures !IsTakenBy(After(w, s, run).a, Participant)
    decreases |run|
  {
    if run != [] {
      OwnStepFindsNothing(w, s, run[0]);
      hide Sound, Enabled, Apply, ProgramFinds;
      OwnStepsFindNothing(w, Apply(w, s, run[0]), run[1..]);
    }
  }

  lemma OwnStepFindsNothing(w: World, s: State, act: Action)
    requires Sound(w) && IsUnspent(s.a) && IsTimeLock(s.a.lock) && !ProgramFinds(w, s)
    requires IsOwnStep(act) && !act.ReadChain? && Enabled(w, s, act)
    ensures Apply(w, s, act).a == s.a && !ProgramFinds(w, Apply(w, s, act))
  {
    if act.Spend? {
      if act.coin == InitiatorCoin { NoRedeemUnknown(w, s, act.env, act.scriptSig); }
      hide Sound, GivesSecret;
      AnswerShows(w, s, act.coin, act.who, act.env, act.scriptSig, act.others);
      SpendGuard(w, s, act.coin, act.who, act.env, act.scriptSig);
      hide CanSpend, Pushed;
      assert !s.known;
    } else {
      hide Sound, GivesSecret, Answer;
      assert s.spends[act.spend] in s.spends;
    }
  }

  /** Of any transaction that takes an output the program finds the secret if and only if
      that input is the only one, the third element it pushes is the secret, and the
      secret has the 32 bytes of one that Initiate draws. */
  lemma GivesSecretExactly(w: World, s: State, coin: Coin, who: Party, env: E.Env, scriptSig: bytes, others: seq<bytes>)
    requires Sound(w) && CanSpend(w, s, coin, who, env, scriptSig)
    ensures var e := Pushed(env, scriptSig);
      GivesSecret(w, Spent(coin, who, [scriptSig] + others))
      <==> others == [] && |e| >= 3 && e[2] == w.secret && |w.secret| == 32
  {
    hide W.Elements, P.Extraction, E.Run, E.VerifyP2SH, P.SecretOf, Contract;
    P.ExtractionExact(env, [scriptSig] + others, E.P2SH(w.hash160(Contract(w, coin, Out(s, coin).lock))), SecHash(w));
    if |w.secret| == 32 { assert w.secret[..32] == w.secret; }
    if |w.secret| >= 32 && w.ripemd160(w.secret[..32]) == SecHash(w) { assert w.secret[..32] == w.secret; }
  }

  /** So of the transaction that Redeem makes it finds the secret if and only if that has
      32 bytes. */
  lemma RedeemGivesSecret(w: World, s: State, coin: Coin)
    requires Sound(w) && Out(s, coin).Output? && Enabled(w, s, RedeemAction(w, s, coin))
    ensures var act := RedeemAction(w, s, coin);
      GivesSecret(w, Spent(coin, act.who, [act.scriptSig] + act.others)) <==> |w.secret| == 32
  {
    hide Pushed, GivesSecret, P.RedeemSig, Contract;
    var act := RedeemAction(w, s, coin);
    PushedStacks(w, act.env, act.who, coin, Out(s, coin).lock);
    GivesSecretExactly(w, s, coin, act.who, act.env, act.scriptSig, act.others);
  }

  // ----- a secret that the program does not find -----

  /** A redemption of the participant's output with one more push in front. */
  function JunkAction(w: World, s: State, junk: bytes): Action
    requires s.b.Output?
  {
    Spend(ParticipantCoin, Initiator, Signed(w, Initiator, 0),
      S.Push(junk) + P.RedeemSig([], w.key(Initiator, ParticipantCoin), w.secret, Contract(w, ParticipantCoin, s.b.lock)), [])
  }

  lemma JunkRuns(w: World, s: State, junk: bytes)
    requires Sound(w) && s.b.Output? && |junk| < 0x1_0000_0000
    ensures var act := JunkAction(w, s, junk); var c := Contract(w, ParticipantCoin, s.b.lock);
      E.IsPushOnly(act.scriptSig) &&
      E.Run(act.env, act.scriptSig, E.Machine([], []))
        == E.Machine([junk, [], w.key(Initiator, ParticipantCoin), w.secret, E.TRUE, c], [])
  {
    hide P.RedeemSig, E.Run, E.IsPushOnly, A.ContractOf, S.Push;
    var act, c := JunkAction(w, s, junk), Contract(w, ParticipantCoin, s.b.lock);
    var key := w.key(Initiator, ParticipantCoin);
    P.ContractIsShort(KeyId(w, Participant, ParticipantCoin), KeyId(w, Initiator, ParticipantCoin), s.b.lock, SecHash(w));
    E.RunPush(act.env, junk, P.RedeemSig([], key, w.secret, c), E.Machine([], []));
    assert [] + [junk] == [junk];
    P.SpendRunsAbove(act.env, [junk], [], key, w.secret, c);
    assert [junk] + [[], key, w.secret, E.TRUE, c] == [junk, [], key, w.secret, E.TRUE, c];
  }

  /** The chain takes it, it shows the secret, and the program does not find that. */
  lemma JunkHidesSecret(w: World, s: State, junk: bytes)
    requires Sound(w) && IsUnspent(s.b) && |junk| < 0x1_0000_0000
    ensures var act := JunkAction(w, s, junk);
      Enabled(w, s, act) && w.secret in Pushed(act.env, act.scriptSig) &&
      !GivesSecret(w, Spent(act.coin, act.who, [act.scriptSig] + act.others))
  {
    hide E.Run, E.IsPushOnly, E.IsTrue, A.ContractOf, E.P2SH, E.Accepts, GivesSecret, P.RedeemSig;
    var act, c := JunkAction(w, s, junk), Contract(w, ParticipantCoin, s.b.lock);
    var key := w.key(Initiator, ParticipantCoin);
    JunkRuns(w, s, junk);
    var stack: E.Stack := [junk, [], key, w.secret, E.TRUE, c];
    P.HashMatches(act.env, w.hash160(c), stack);
    assert E.Top(stack) == c && E.Pop(stack) == [junk, [], key, w.secret, E.TRUE];
    P.OneAsScriptNumber();
    A.ContractMeaning(act.env, KeyId(w, Participant, ParticipantCoin), KeyId(w, Initiator, ParticipantCoin), s.b.lock,
                      SecHash(w), E.Pop(stack));
    assert stack[3] == w.secret && w.secret in Pushed(act.env, act.scriptSig);
    GivesSecretExactly(w, s, ParticipantCoin, Initiator, act.env, act.scriptSig, act.others);
  }

  /** Both outputs are funded at once, within the participant's rules, and the initiator
      takes the participant's in that way. The initiator's is then the participant's to
      take; but the program never finds the secret, and however the run goes on, as long
      as the participant has nothing but the program, it does not get the output. */
  lemma ProgramLoses(w: World, clock: nat, delay: nat, junk: bytes) returns (run: seq<Action>)
    requires Sound(w) && IsTimeLock(clock + INITIATE_LOCKTIME) && IsTimeLock(clock + PARTICIPATE_LOCKTIME)
    requires delay > 0 && |junk| < 0x1_0000_0000
    ensures IsRun(w, Start(clock), run) && KeepsThroughout(w, Start(clock), run, delay) && ProgramOnly(run)
    ensures var s := After(w, Start(clock), run);
      IsTakenBy(s.b, Initiator) && ParticipantCanTake(s) &&
      forall more :: IsRun(w, s, more) && ProgramOnly(more) ==> !IsTakenBy(After(w, s, more).a, Participant)
  {
    hide Sound, CanSpend, Pushed, JunkAction, GivesSecret, IsRun, KeepsThroughout, After;
    var s0 := Start(clock);
    EmptyRun(w, s0, delay);
    RunAndStep(w, s0, [], Initiate, delay);
    RunAndStep(w, s0, [] + [Initiate], Participate, delay);
    var s2 := After(w, s0, [] + [Initiate] + [Participate]);
    JunkHidesSecret(w, s2, junk);
    JunkShape(w, s2, junk);
    var act := JunkAction(w, s2, junk);
    RunAndStep(w, s0, [] + [Initiate] + [Participate], act, delay);
    run := [] + [Initiate] + [Participate] + [act];
    var s := After(w, s0, run);
    assert s.spends == [Spent(act.coin, act.who, [act.scriptSig] + act.others)];
    forall more | IsRun(w, s, more) && ProgramOnly(more) ensures !IsTakenBy(After(w, s, more).a, Participant) {
      StaysHidden(w, s, more);
    }
  }

  lemma EmptyRun(w: World, s: State, delay: nat)
    ensures IsRun(w, s, []) && KeepsThroughout(w, s, [], delay) && After(w, s, []) == s
  {
  }

  lemma JunkShape(w: World, s: State, junk: bytes)
    requires s.b.Output?
    ensures var act := JunkAction(w, s, junk); act.Spend? && act.coin == ParticipantCoin && act.who == Initiator
  {
  }

  /** The initiator has the participant's output, and either its own back or not shown
      the secret to the program. */
  ghost predicate IsHidden(w: World, s: State) {
    s.a.Output? && IsTimeLock(s.a.lock) && IsTakenBy(s.b, Initiator) &&
    (IsTakenBy(s.a, Initiator) || (IsUnspent(s.a) && !ProgramFinds(w, s)))
  }

  lemma HiddenStep(w: World, s: State, act: Action)
    requires Sound(w) && IsHidden(w, s) && Enabled(w, s, act) && !act.ReadChain?
    ensures IsHidden(w, Apply(w, s, act))
  {
    if act.Spend? {
      if !IsTakenBy(s.a, Initiator) { NoRedeemUnknown(w, s, act.env, act.scriptSig); }
      SpendGuard(w, s, act.coin, act.who, act.env, act.scriptSig);
      hide Sound, GivesSecret, CanSpend, Pushed;
      assert act.coin == InitiatorCoin;
      assert act.who == Initiator || act.who == Participant;
    } else {
      hide Sound, GivesSecret, Answer;
      if act.ExtractSecret? { assert s.spends[act.spend] in s.spends; }
    }
  }

  lemma {:induction false} StaysHidden(w: World, s: State, run: seq<Action>)
    requires Sound(w) && IsHidden(w, s) && IsRun(w, s, run) && ProgramOnly(run)
    ensures !IsTakenBy(After(w, s, run).a, Participant)
    decreases |run|
  {
    if run != [] {
      HiddenStep(w, s, run[0]);
      hide Sound, Enabled, Apply, IsHidden;
      StaysHidden(w, Apply(w, s, run[0]), run[1..]);
    }
  }

  // ----- funding too late -----

  function Ticks(n: nat): seq<Action> {
    if n == 0 then [] else [Tick] + Ticks(n - 1)
  }

  lemma {:induction false} TicksRun(w: World, s: State, n: nat, delay: nat)
    requires !s.revealed && (IsUnspent(s.b) ==> s.clock + n <= s.b.lock + 1)
    ensures IsRun(w, s, Ticks(n)) && KeepsThroughout(w, s, Ticks(n), delay)
    ensures After(w, s, Ticks(n)) == s.(clock := s.clock + n)
    decreases n
  {
    if n > 0 {
      TicksRun(w, Apply(w, s, Tick), n - 1, delay);
      assert Ticks(n)[1..] == Ticks(n - 1);
    }
  }

  lemma {:induction false} RunOfRuns(w: World, s: State, r1: seq<Action>, r2: seq<Action>, delay: nat)
    requires IsRun(w, s, r1) && KeepsThroughout(w, s, r1, delay)
    requires IsRun(w, After(w, s, r1), r2) && KeepsThroughout(w, After(w, s, r1), r2, delay)
    ensures IsRun(w, s, r1 + r2) && KeepsThroughout(w, s, r1 + r2, delay)
    ensures After(w, s, r1 + r2) == After(w, After(w, s, r1), r2)
    decreases |r1|
  {
    hide Enabled, Apply, ParticipantKeeps;
    if r1 == [] {
      assert r1 + r2 == r2;
    } else {
      assert (r1 + r2)[1..] == r1[1..] + r2;
      RunOfRuns(w, Apply(w, s, r1[0]), r1[1..], r2, delay);
    }
  }

  /** A step that is possible and within the rules adds to a run. */
  lemma RunAndStep(w: World, s: State, run: seq<Action>, act: Action, delay: nat)
    requires IsRun(w, s, run) && KeepsThroughout(w, s, run, delay)
    requires Enabled(w, After(w, s, run), act) && ParticipantKeeps(delay, After(w, s, run), act)
    ensures IsRun(w, s, run + [act]) && KeepsThroughout(w, s, run + [act], delay)
    ensures After(w, s, run + [act]) == Apply(w, After(w, s, run), act)
  {
    hide Enabled, Apply, ParticipantKeeps;
    assert [act][1..] == [];
    RunOfRuns(w, s, run, [act], delay);
  }

  /** If the participant may fund a full lock time after the initiator, both locks
      expire at once, and the initiator takes both outputs. */
  lemma LosingRun(w: World, clock: nat, delay: nat) returns (run: seq<Action>)
    requires Sound(w) && IsTimeLock(clock + INITIATE_LOCKTIME) && delay > PARTICIPATE_LOCKTIME
    ensures IsRun(w, Start(clock), run) && KeepsThroughout(w, Start(clock), run, delay)
    ensures !ParticipantIsSafe(After(w, Start(clock), run))
  {
    hide Sound, IsRun, KeepsThroughout, After, CanSpend, RedeemAction, RefundAction, Pushed;
    var s0 := Start(clock);
    run := FundedRun(w, clock, delay);
    var s4 := After(w, s0, run);
    assert Redeemer(ParticipantCoin) == Initiator;
    RedeemIsEnabled(w, s4, ParticipantCoin);
    ActionShapes(w, s4, ParticipantCoin);
    RunAndStep(w, s0, run, RedeemAction(w, s4, ParticipantCoin), delay);
    run := run + [RedeemAction(w, s4, ParticipantCoin)];
    var s5 := After(w, s0, run);
    RefundIsEnabled(w, s5, InitiatorCoin);
    ActionShapes(w, s5, InitiatorCoin);
    RunAndStep(w, s0, run, RefundAction(w, s5, InitiatorCoin), delay);
    run := run + [RefundAction(w, s5, InitiatorCoin)];
  }

  lemma ActionShapes(w: World, s: State, coin: Coin)
    requires Out(s, coin).Output?
    ensures var act := RedeemAction(w, s, coin); act.Spend? && act.coin == coin && act.who == Redeemer(coin)
    ensures var act := RefundAction(w, s, coin); act.Spend? && act.coin == coin && act.who == Funder(coin)
  {
  }

  /** Both outputs are funded, and both locks have just expired. */
  lemma FundedRun(w: World, clock: nat, delay: nat) returns (run: seq<Action>)
    requires IsTimeLock(clock + INITIATE_LOCKTIME) && delay > PARTICIPATE_LOCKTIME
    ensures IsRun(w, Start(clock), run) && KeepsThroughout(w, Start(clock), run, delay)
    ensures After(w, Start(clock), run)
      == State(clock + INITIATE_LOCKTIME + 1, Output(clock, clock + INITIATE_LOCKTIME, Nobody),
               Output(clock + PARTICIPATE_LOCKTIME, clock + INITIATE_LOCKTIME, Nobody), false, 0, false, [])
  {
    var s0 := Start(clock);
    run := [];
    RunAndStep(w, s0, run, Initiate, delay);
    run := run + [Initiate];
    hide IsRun, KeepsThroughout, After;
    var s1 := After(w, s0, run);
    TicksRun(w, s1, PARTICIPATE_LOCKTIME, delay);
    RunOfRuns(w, s0, run, Ticks(PARTICIPATE_LOCKTIME), delay);
    run := run + Ticks(PARTICIPATE_LOCKTIME);
    var s2 := After(w, s0, run);
    RunAndStep(w, s0, run, Participate, delay);
    run := run + [Participate];
    var s3 := After(w, s0, run);
    TicksRun(w, s3, PARTICIPATE_LOCKTIME + 1, delay);
    RunOfRuns(w, s0, run, Ticks(PARTICIPATE_LOCKTIME + 1), delay);
    run := run + Ticks(PARTICIPATE_LOCKTIME + 1);
  }

  ghost predicate RulesKeepParticipantSafe(w: World, clock: nat, delay: nat) {
    forall run ::
      IsRun(w, Start(clock), run) && KeepsThroughout(w, Start(clock), run, delay)
      ==> ParticipantIsSafe(After(w, Start(clock), run))
  }

  /** The participant's rules keep it safe in every run exactly when they have it fund
      less than its own lock time after the initiator. */
  lemma FundingDelayIsExact(w: World, clock: nat, delay: nat)
    requires Sound(w) && IsTimeLock(clock + INITIATE_LOCKTIME)
    ensures RulesKeepParticipantSafe(w, clock, delay) <==> delay <= PARTICIPATE_LOCKTIME
  {
    hide Sound, IsRun, KeepsThroughout, After, ParticipantIsSafe;
    if delay <= PARTICIPATE_LOCKTIME {
      forall run | IsRun(w, Start(clock), run) && KeepsThroughout(w, Start(clock), run, delay)
        ensures ParticipantIsSafe(After(w, Start(clock), run))
      {
        ParticipantSafety(w, clock, run, delay);
      }
    } else {
      var run := LosingRun(w, clock, delay);
    }
  }
}
