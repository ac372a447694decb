/** The swap between two parties on two chains, as a state machine with a clock. What
    the chains let a party do is what the scripts accept; who can sign and who knows
    the secret is stated here. A party's rules are stated apart: the other party may do
    whatever the chains allow. */
module SwapProtocol {
  import opened Bytes
  import Hex
  import S = Script
  import E = ScriptEval
  import A = AtomicSwap
  import P = SwapSpend
  import W = ScriptText

  const INITIATE_LOCKTIME: nat := 172800
  const PARTICIPATE_LOCKTIME: nat := 86400

  datatype Party = Initiator | Participant

  /** A coin's output is funded by the party it is named after and meant for the other. */
  datatype Coin = InitiatorCoin | ParticipantCoin

  function Funder(coin: Coin): Party { if coin.InitiatorCoin? then Initiator else Participant }

  function Redeemer(coin: Coin): Party { if coin.InitiatorCoin? then Participant else Initiator }

  /** The hash functions, each party's key for each coin, whom a key belongs to, and
      the initiator's secret. Initiate draws one of 32 bytes; here it may have any length. */
  datatype World = World(
    ripemd160: bytes -> bytes,
    hash160: bytes -> bytes,
    key: (Party, Coin) -> bytes,
    owns: (Party, bytes) -> bool,
    secret: bytes)

  function KeyId(w: World, party: Party, coin: Coin): bytes { w.hash160(w.key(party, coin)) }

  function SecHash(w: World): bytes { w.ripemd160(w.secret) }

  /** Hashes have 20 bytes; no other preimage of the secret's hash is found, and no key
      with the hash of another party's; and the secret is none of the values that a
      refund shows. */
  ghost predicate Sound(w: World) {
    (forall v :: |w.ripemd160(v)| == |w.hash160(v)| == 20) &&
    (forall v :: w.ripemd160(v) == w.ripemd160(w.secret) ==> v == w.secret) &&
    (forall p, c :: w.owns(p, w.key(p, c)) && 33 <= |w.key(p, c)| <= 65) &&
    (forall p, k, q, c :: w.owns(p, k) && w.hash160(k) == w.hash160(w.key(q, c)) ==> p == q) &&
    0 < |w.secret| < 0x1_0000_0000 && (forall p, c :: w.secret != w.key(p, c)) &&
    (forall coin, lock :: w.secret != Contract(w, coin, lock))
  }

  function Contract(w: World, coin: Coin, lock: nat): bytes {
    A.ContractOf(KeyId(w, Funder(coin), coin), KeyId(w, Redeemer(coin), coin), lock, SecHash(w))
  }

  datatype Taker = Nobody | By(party: Party)

  datatype Output = Absent | Output(fundedAt: nat, lock: nat, taker: Taker)

  predicate IsUnspent(o: Output) { o.Output? && o.taker == Nobody }

  predicate IsTakenBy(o: Output, party: Party) { o.Output? && o.taker == By(party) }

  /** A transaction that took a coin: the scriptSigs of all its inputs, first that of
      the swap's output. */
  datatype Spent = Spent(coin: Coin, who: Party, vins: seq<bytes>)

  /** `revealed`: the secret is on a chain, since `revealedAt`. `known`: the
      participant has it. `spends`: all spends so far. */
  datatype State = State(
    clock: nat, a: Output, b: Output, revealed: bool, revealedAt: nat, known: bool, spends: seq<Spent>)

  function Start(clock: nat): State { State(clock, Absent, Absent, false, 0, false, []) }

  function Out(s: State, coin: Coin): Output { if coin.InitiatorCoin? then s.a else s.b }

  datatype Action =
    | Tick
    | Initiate
    | Participate
    | Spend(coin: Coin, who: Party, env: E.Env, scriptSig: bytes, others: seq<bytes>)
    | ExtractSecret(spend: nat)
    | ReadChain

  /** The program's answer for a transaction on a chain. */
  function Answer(w: World, sp: Spent): P.Extracted {
    P.Extraction(w.ripemd160, sp.vins, Hex.Text(SecHash(w)))
  }

  predicate GivesSecret(w: World, sp: Spent) {
    Answer(w, sp).Secret? && P.SecretOf(Answer(w, sp)) == w.secret
  }

  /** A lock time that is a time, and positive as a script number. */
  predicate IsTimeLock(lock: nat) { E.LOCKTIME_THRESHOLD <= lock < 0x8000_0000 }

  /** Whether a chain takes a transaction at this time. Block heights are not modelled:
      a lock time that is one is no obstacle. */
  predicate IsFinal(env: E.Env, clock: nat) {
    env.sequence == E.FINAL_SEQUENCE || env.lockTime < E.LOCKTIME_THRESHOLD || env.lockTime < clock
  }

  function Pushed(env: E.Env, scriptSig: bytes): E.Stack {
    match E.Run(env, scriptSig, E.Machine([], []))
    case Failed => []
    case Machine(stack, _) => stack
  }

  /** A party can spend an output with a final transaction that its own signatures, and
      the secret if it knows it, make the output script accept. */
  ghost predicate CanSpend(w: World, s: State, coin: Coin, who: Party, env: E.Env, scriptSig: bytes) {
    var o := Out(s, coin);
    IsUnspent(o) && IsFinal(env, s.clock) &&
    env.ripemd160 == w.ripemd160 && env.hash160 == w.hash160 &&
    (forall sig, key :: env.checkSig(sig, key) ==> w.owns(who, key)) &&
    (w.secret in Pushed(env, scriptSig) ==> who == Initiator || s.known) &&
    var contract := Contract(w, coin, o.lock);
    E.VerifyP2SH(env, scriptSig, E.P2SH(w.hash160(contract))) && E.Top(Pushed(env, scriptSig)) == contract
  }

  ghost predicate Enabled(w: World, s: State, act: Action) {
    match act
    case Tick => true
    case Initiate => s.a.Absent? && IsTimeLock(s.clock + INITIATE_LOCKTIME)
    case Participate => s.a.Output? && s.b.Absent? && IsTimeLock(s.clock + PARTICIPATE_LOCKTIME)
    case Spend(coin, who, env, scriptSig, _) => CanSpend(w, s, coin, who, env, scriptSig)
    case ExtractSecret(k) => k < |s.spends| && Answer(w, s.spends[k]).Secret?
    case ReadChain => s.revealed
  }

  /** ExtractSecret is the program's. ReadChain is not: it stands for whatever else finds
      the secret in a transaction that shows it. */
  function Apply(w: World, s: State, act: Action): State {
    match act
    case Tick => s.(clock := s.clock + 1)
    case Initiate => s.(a := Output(s.clock, s.clock + INITIATE_LOCKTIME, Nobody))
    case Participate => s.(b := Output(s.clock, s.clock + PARTICIPATE_LOCKTIME, Nobody))
    case Spend(coin, who, env, scriptSig, others) =>
      var shown := w.secret in Pushed(env, scriptSig);
      var s' := s.(
        revealed := s.revealed || shown,
        revealedAt := if !s.revealed && shown then s.clock else s.revealedAt,
        spends := s.spends + [Spent(coin, who, [scriptSig] + others)]);
      if coin.InitiatorCoin?
      then if s.a.Output? then s'.(a := s.a.(taker := By(who))) else s'
      else if s.b.Output? then s'.(b := s.b.(taker := By(who))) else s'
    case ExtractSecret(k) => s.(known := s.known || (k < |s.spends| && GivesSecret(w, s.spends[k])))
    case ReadChain => s.(known := true)
  }

  function After(w: World, s: State, run: seq<Action>): State
    decreases |run|
  {
    if run == [] then s else After(w, Apply(w, s, run[0]), run[1..])
  }

  // ----- runs, and the participant's rules -----

  /** The participant funds less than `delay` seconds after the initiator, and only
      while the initiator's output is there. It does not let time pass when its own
      lock has expired and its output is still there, nor when the gap between the two
      locks would have passed since the secret was revealed and the initiator's output
      is still there. */
  predicate ParticipantKeeps(delay: nat, s: State, act: Action) {
    (act.Participate? ==> IsUnspent(s.a) && s.clock < s.a.fundedAt + delay) &&
    (act.Tick? && IsUnspent(s.b) ==> s.clock <= s.b.lock) &&
    (act.Tick? && IsUnspent(s.a) && s.b.Output? && s.revealed ==> s.clock + 1 < s.revealedAt + s.a.lock - s.b.lock)
  }

  /** A run of steps that the chains and the parties' knowledge allow. */
  ghost predicate IsRun(w: World, s: State, run: seq<Action>)
    decreases |run|
  {
    run == [] || (Enabled(w, s, run[0]) && IsRun(w, Apply(w, s, run[0]), run[1..]))
  }

  predicate KeepsThroughout(w: World, s: State, run: seq<Action>, delay: nat)
    decreases |run|
  {
    run == [] || (ParticipantKeeps(delay, s, run[0]) && KeepsThroughout(w, Apply(w, s, run[0]), run[1..], delay))
  }

  // ----- what a spend means -----

  /** Whoever spends an output is the redeemer, showing the secret, or the funder,
      after the lock. */
  lemma SpendMeaning(w: World, s: State, coin: Coin, who: Party, env: E.Env, scriptSig: bytes)
    requires Sound(w) && CanSpend(w, s, coin, who, env, scriptSig) && IsTimeLock(Out(s, coin).lock)
    ensures (who == Redeemer(coin) && w.secret in Pushed(env, scriptSig))
      || (who == Funder(coin) && Out(s, coin).lock < s.clock)
  {
    hide A.ContractOf, E.Run, E.IsTrue, E.P2SH;
    var o, stack := Out(s, coin), Pushed(env, scriptSig);
    var me, them := KeyId(w, Funder(coin), coin), KeyId(w, Redeemer(coin), coin);
    var rest := E.Pop(stack);
    assert E.Accepts(env, A.ContractOf(me, them, o.lock, SecHash(w)), rest);
    A.ContractMeaning(env, me, them, o.lock, SecHash(w), rest);
    assert S.Int32(o.lock) == o.lock;
    if A.Redeems(env, them, SecHash(w), rest) {
      var secret, key, sig := rest[|rest| - 2], rest[|rest| - 3], rest[|rest| - 4];
      assert secret == w.secret && secret == stack[|rest| - 2];
      assert w.owns(who, key);
    } else {
      var key, sig := rest[|rest| - 2], rest[|rest| - 3];
      assert w.owns(who, key);
      assert E.LockSatisfied(env, o.lock);
    }
  }

  // ----- the participant -----

  /** The other output is the participant's to take: the secret is out, and the
      initiator's lock has not expired. */
  predicate ParticipantCanTake(s: State) {
    IsUnspent(s.a) && s.revealed && s.clock <= s.a.lock
  }

  /** The participant does not lose its output without taking the other, or the other
      being its to take. */
  predicate ParticipantIsSafe(s: State) {
    IsTakenBy(s.b, Initiator) ==> IsTakenBy(s.a, Participant) || ParticipantCanTake(s)
  }

  /** A spend that the program gets the secret from has put it on a chain. */
  predicate AnswersAreRevealed(w: World, s: State) {
    forall sp :: sp in s.spends && GivesSecret(w, sp) ==> s.revealed
  }

  lemma AnswersStayRevealed(w: World, s: State, act: Action)
    requires Enabled(w, s, act) && AnswersAreRevealed(w, s) && (s.known ==> s.revealed)
    ensures AnswersAreRevealed(w, Apply(w, s, act)) && (Apply(w, s, act).known ==> Apply(w, s, act).revealed)
  {
    hide GivesSecret, Pushed;
    if act.Spend? {
      AnswerShows(w, s, act.coin, act.who, act.env, act.scriptSig, act.others);
      hide CanSpend;
    } else if act.ExtractSecret? {
      assert s.spends[act.spend] in s.spends;
    }
  }

  lemma AnswerShows(w: World, s: State, coin: Coin, who: Party, env: E.Env, scriptSig: bytes, others: seq<bytes>)
    requires CanSpend(w, s, coin, who, env, scriptSig)
    ensures GivesSecret(w, Spent(coin, who, [scriptSig] + others)) ==> w.secret in Pushed(env, scriptSig)
  {
    hide W.Elements, P.Extraction, E.Run, E.VerifyP2SH, P.SecretOf;
    P.ExtractionExact(env, [scriptSig] + others, E.P2SH(w.hash160(Contract(w, coin, Out(s, coin).lock))), SecHash(w));
  }

  predicate Locks(s: State) {
    (s.a.Output? ==> s.a.lock == s.a.fundedAt + INITIATE_LOCKTIME && IsTimeLock(s.a.lock)) &&
    (s.b.Output? ==> s.b.lock == s.b.fundedAt + PARTICIPATE_LOCKTIME && IsTimeLock(s.b.lock))
  }

  lemma TakerCases(o: Output)
    ensures o.Output? ==> IsUnspent(o) || IsTakenBy(o, Initiator) || IsTakenBy(o, Participant)
  {
    match o
    case Absent =>
    case Output(_, _, Nobody) =>
    case Output(_, _, By(party)) => assert party == Initiator || party == Participant;
  }

  /** What holds throughout when the participant is honest. */
  predicate ParticipantInvariant(w: World, s: State) {
    Locks(s) && AnswersAreRevealed(w, s) &&
    (s.revealed ==> s.a.Output?) &&
    (s.b.Output? ==> s.a.Output? && s.b.lock < s.a.lock) &&
    (IsUnspent(s.b) ==> s.clock <= s.b.lock + 1) &&
    (IsTakenBy(s.a, Initiator) ==> s.a.lock < s.clock) &&
    (IsTakenBy(s.a, Participant) || s.known ==> s.revealed) &&
    (IsTakenBy(s.a, Participant) || (IsUnspent(s.a) && s.revealed) ==> IsTakenBy(s.b, Initiator)) &&
    (IsUnspent(s.a) && s.revealed ==>
      s.revealedAt <= s.b.lock + 1 && s.clock < s.revealedAt + s.a.lock - s.b.lock) &&
    (IsTakenBy(s.b, Initiator) ==> s.revealed && !IsTakenBy(s.a, Initiator))
  }

  lemma ParticipantStep(w: World, s: State, act: Action, delay: nat)
    requires Sound(w) && delay <= PARTICIPATE_LOCKTIME
    requires Enabled(w, s, act) && ParticipantKeeps(delay, s, act) && ParticipantInvariant(w, s)
    ensures ParticipantInvariant(w, Apply(w, s, act))
  {
    hide Sound, Pushed, GivesSecret, CanSpend, AnswersAreRevealed;
    TakerCases(s.a);
    TakerCases(s.b);
    if act.Spend? {
      ParticipantSpendStep(w, s, act);
    } else {
      AnswersStayRevealed(w, s, act);
    }
  }

  lemma ParticipantSpendStep(w: World, s: State, act: Action)
    requires Sound(w) && act.Spend? && Enabled(w, s, act) && ParticipantInvariant(w, s)
    ensures ParticipantInvariant(w, Apply(w, s, act))
  {
    AnswersStayRevealed(w, s, act);
    SpendMeaning(w, s, act.coin, act.who, act.env, act.scriptSig);
    SpendGuard(w, s, act.coin, act.who, act.env, act.scriptSig);
    hide Sound, Pushed, GivesSecret, CanSpend, AnswersAreRevealed;
    TakerCases(s.a);
    TakerCases(s.b);
  }

  lemma SpendGuard(w: World, s: State, coin: Coin, who: Party, env: E.Env, scriptSig: bytes)
    requires CanSpend(w, s, coin, who, env, scriptSig)
    ensures IsUnspent(Out(s, coin))
    ensures w.secret in Pushed(env, scriptSig) ==> who == Initiator || s.known
  {
  }

  lemma {:induction false} ParticipantInvariantHolds(w: World, s: State, run: seq<Action>, delay: nat)
    requires Sound(w) && delay <= PARTICIPATE_LOCKTIME && ParticipantInvariant(w, s)
    requires IsRun(w, s, run) && KeepsThroughout(w, s, run, delay)
    ensures ParticipantInvariant(w, After(w, s, run))
    decreases |run|
  {
    hide Sound, Enabled, ParticipantKeeps, ParticipantInvariant, Apply;
    if run != [] {
      ParticipantStep(w, s, run[0], delay);
      ParticipantInvariantHolds(w, Apply(w, s, run[0]), run[1..], delay);
    }
  }

  /** In every run in which the participant keeps its rules and funds within its own
      lock time, whatever the initiator does, the participant is safe at every moment. */
  lemma ParticipantSafety(w: World, clock: nat, run: seq<Action>, delay: nat)
    requires Sound(w) && delay <= PARTICIPATE_LOCKTIME
    requires IsRun(w, Start(clock), run) && KeepsThroughout(w, Start(clock), run, delay)
    ensures ParticipantIsSafe(After(w, Start(clock), run))
  {
    ParticipantInvariantHolds(w, Start(clock), run, delay);
    TakerCases(After(w, Start(clock), run).a);
  }

  // ----- the initiator -----

  /** The participant has the initiator's output only if the initiator has the
      participant's. */
  predicate InitiatorIsSafe(s: State) {
    IsTakenBy(s.a, Participant) ==> IsTakenBy(s.b, Initiator)
  }

  predicate InitiatorInvariant(w: World, s: State) {
    Locks(s) && AnswersAreRevealed(w, s) && (s.known ==> s.revealed) && (s.revealed || s.b.Output? ==> s.a.Output?) &&
    (IsTakenBy(s.a, Participant) || (IsUnspent(s.a) && s.revealed) ==> IsTakenBy(s.b, Initiator))
  }

  lemma InitiatorStep(w: World, s: State, act: Action)
    requires Sound(w) && Enabled(w, s, act) && InitiatorInvariant(w, s)
    ensures InitiatorInvariant(w, Apply(w, s, act))
  {
    hide Sound, Pushed, GivesSecret;
    AnswersStayRevealed(w, s, act);
    hide AnswersAreRevealed;
    if act.Spend? {
      TakerCases(s.a);
      SpendMeaning(w, s, act.coin, act.who, act.env, act.scriptSig);
      SpendGuard(w, s, act.coin, act.who, act.env, act.scriptSig);
      hide CanSpend;
    }
  }

  lemma {:induction false} InitiatorInvariantHolds(w: World, s: State, run: seq<Action>)
    requires Sound(w) && InitiatorInvariant(w, s) && IsRun(w, s, run)
    ensures InitiatorInvariant(w, After(w, s, run))
    decreases |run|
  {
    hide Sound, Enabled, InitiatorInvariant, Apply;
    if run != [] {
      InitiatorStep(w, s, run[0]);
      InitiatorInvariantHolds(w, Apply(w, s, run[0]), run[1..]);
    }
  }

  /** In every run at all, with the secret shown in no other way than by a spend that a
      chain takes, the initiator is safe at every moment. */
  lemma InitiatorSafety(w: World, clock: nat, run: seq<Action>)
    requires Sound(w) && IsRun(w, Start(clock), run)
    ensures InitiatorIsSafe(After(w, Start(clock), run))
  {
    InitiatorInvariantHolds(w, Start(clock), run);
  }

  // ----- each output is spent at most once -----

  function SpendsOf(spends: seq<Spent>, coin: Coin): seq<Party> {
    if spends == [] then []
    else (if spends[0].coin == coin then [spends[0].who] else []) + SpendsOf(spends[1..], coin)
  }

  lemma {:induction false} SpendsOfMore(spends: seq<Spent>, coin: Coin, last: Spent)
    ensures SpendsOf(spends + [last], coin) == SpendsOf(spends, coin) + (if last.coin == coin then [last.who] else [])
  {
    var more := spends + [last];
    SpendsOfStep(more, coin);
    SpendsOfStep(spends, coin);
    hide SpendsOf;
    if spends == [] {
      assert more[0] == last && more[1..] == [];
      assert SpendsOf([], coin) == [];
    } else {
      assert more[0] == spends[0] && more[1..] == spends[1..] + [last];
      SpendsOfMore(spends[1..], coin, last);
    }
  }

  lemma SpendsOfStep(spends: seq<Spent>, coin: Coin)
    ensures SpendsOf([], coin) == []
    ensures spends != [] ==>
      SpendsOf(spends, coin) == (if spends[0].coin == coin then [spends[0].who] else []) + SpendsOf(spends[1..], coin)
  {
  }

  function RecordedSpend(o: Output): seq<Party> {
    if o.Output? && o.taker.By? then [o.taker.party] else []
  }

  /** The spends of a coin are the one that its output records. */
  predicate SpendsRecorded(s: State) {
    SpendsOf(s.spends, InitiatorCoin) == RecordedSpend(s.a) && SpendsOf(s.spends, ParticipantCoin) == RecordedSpend(s.b)
  }

  /** In every run each output is spent at most once, and the output records by whom. */
  lemma SpentAtMostOnce(w: World, clock: nat, run: seq<Action>)
    requires IsRun(w, Start(clock), run)
    ensures var s := After(w, Start(clock), run);
      SpendsRecorded(s) && forall coin :: |SpendsOf(s.spends, coin)| <= 1
  {
    RecordedThroughout(w, Start(clock), run);
  }

  lemma {:induction false} RecordedThroughout(w: World, s: State, run: seq<Action>)
    requires SpendsRecorded(s) && IsRun(w, s, run)
    ensures SpendsRecorded(After(w, s, run))
    decreases |run|
  {
    if run != [] {
      RecordedStep(w, s, run[0]);
      hide Enabled, Apply, SpendsRecorded;
      RecordedThroughout(w, Apply(w, s, run[0]), run[1..]);
    }
  }

  lemma RecordedStep(w: World, s: State, act: Action)
    requires Enabled(w, s, act) && SpendsRecorded(s)
    ensures SpendsRecorded(Apply(w, s, act))
  {
    hide SpendsOf, Pushed, CanSpend;
    if act.Spend? {
      SpendGuard(w, s, act.coin, act.who, act.env, act.scriptSig);
      var sp := Spent(act.coin, act.who, [act.scriptSig] + act.others);
      SpendsOfMore(s.spends, InitiatorCoin, sp);
      SpendsOfMore(s.spends, ParticipantCoin, sp);
    }
  }
}
