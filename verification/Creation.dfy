/**
 * When a dispute can be opened, and what its opening decides: whether it can ever be ended, and that
 * the cooldown raises the price of the next dispute without forbidding it.
 */
module Creation {
  import opened Wrappers
  import opened Ledger
  import opened Ilrm
  import opened Protocol
  import opened Guarantees
  import opened Fairness
  import opened Calls
  import R = AssetRegistry

  // ----- opening a dispute -----

  predicate InCooldown(w: World, now: nat, initiator: Address, counterparty: Address) {
    var last := LastDispute(w, initiator, counterparty);
    0 < last && now < last + 30 * 24 * 60 * 60
  }

  /** What the initiator has to pay in. */
  function StakeDue(w: World, now: nat, initiator: Address, counterparty: Address, stake: nat): nat {
    if InCooldown(w, now, initiator, counterparty) then stake + stake / 2 else stake
  }

  /** What an initiator can check before the call. */
  predicate MayInitiate(w: World, c: Call)
    requires c.Initiate?
  {
    && !w.paused && c.counterparty != 0 && c.counterparty != c.sender && c.stake > 0
    && c.fallbackLicense.nonExclusive && c.approved
    && (InCooldown(w, c.now, c.sender, c.counterparty) ==> c.stake * 150 <= MAX_UINT256)
    && StakeDue(w, c.now, c.sender, c.counterparty, c.stake) <= BalanceOf(w.ledger, c.sender)
  }

  lemma InitiateParts(cfg: Config, w: World, c: Call)
    requires c.Initiate?
    ensures var r := InitiateBreachDispute(
        cfg, w, c.now, c.sender, c.counterparty, c.stake, c.evidence, c.fallbackLicense, c.approved);
      var due := StakeDue(w, c.now, c.sender, c.counterparty, c.stake);
      && r.Some? ==
           (&& !w.paused && c.counterparty != 0 && c.counterparty != c.sender && c.stake > 0
            && c.fallbackLicense.nonExclusive && c.approved
            && (InCooldown(w, c.now, c.sender, c.counterparty) ==> c.stake * ESCALATION_MULTIPLIER <= MAX_UINT256)
            && Transfer(w.ledger, c.sender, cfg.self, due).Some?
            && R.FreezeAssets(w.registry, cfg.self, c.now, w.disputeCounter, c.sender).Some?)
      && (r.Some? ==>
            && r.value.ledger == Transfer(w.ledger, c.sender, cfg.self, due).value
            && r.value.registry == R.FreezeAssets(w.registry, cfg.self, c.now, w.disputeCounter, c.sender).value
            && r.value.disputes == w.disputes[w.disputeCounter := NewDispute(c, due)]
            && r.value.disputeCounter == w.disputeCounter + 1 && !r.value.paused
            && r.value.lastDisputeTime == w.lastDisputeTime[(c.sender, c.counterparty) := c.now]
            && r.value.tokenReserves == w.tokenReserves)
  {
    hide Transfer, R.FreezeAssets;
    OneAndAHalf(c.stake);
  }

  function NewDispute(c: Call, stake: nat): Dispute
    requires c.Initiate?
  {
    Dispute(c.sender, c.counterparty, stake, 0, c.now, c.evidence, "", false, false, false, Pending,
            c.fallbackLicense, 0)
  }

  lemma InitiateIsStep(cfg: Config, s: System, c: Call)
    requires Inv(cfg, s) && c.Initiate? && c.sender != 0 && c.sender != cfg.self
    ensures Step(cfg, s.w, c)
         == InitiateBreachDispute(
              cfg, s.w, c.now, c.sender, c.counterparty, c.stake, c.evidence, c.fallbackLicense, c.approved)
    ensures Step(cfg, s.w, c).Some? ==> After(cfg, s, c).w == Step(cfg, s.w, c).value
  {
    hide HistoryInv, R.IndexInv, R.FreezeInv, MoneyInv, FrozenForDispute, InitiateBreachDispute;
  }

  /** `initiateBreachDispute` succeeds if and only if its caller could have seen so beforehand. */
  lemma InitiateExactly(cfg: Config, s: System, c: Call)
    requires Inv(cfg, s) && c.Initiate? && c.sender != 0 && c.sender != cfg.self
    ensures Step(cfg, s.w, c).Some? <==> MayInitiate(s.w, c)
  {
    assert cfg.self in s.w.registry.authorized && cfg.self != 0;
    hide Inv, InitiateBreachDispute, Step, InCooldown, StakeDue;
    InitiateParts(cfg, s.w, c);
    InitiateIsStep(cfg, s, c);
  }

  /** The state after a dispute was opened. */
  lemma InitiateEffect(cfg: Config, s: System, c: Call)
    requires Inv(cfg, s) && c.Initiate? && c.sender != 0 && c.sender != cfg.self && Step(cfg, s.w, c).Some?
    ensures var w, w', id := s.w, After(cfg, s, c).w, s.w.disputeCounter;
      var due := StakeDue(w, c.now, c.sender, c.counterparty, c.stake);
      && id !in w.disputes && w'.disputes == w.disputes[id := NewDispute(c, due)] && w'.disputeCounter == id + 1
      && Transfer(w.ledger, c.sender, cfg.self, due) == Some(w'.ledger)
      && R.FreezeAssets(w.registry, cfg.self, c.now, id, c.sender) == Some(w'.registry)
      && w'.lastDisputeTime == w.lastDisputeTime[(c.sender, c.counterparty) := c.now]
      && !w'.paused && w'.tokenReserves == w.tokenReserves
  {
    assert s.w.disputeCounter !in s.w.disputes;
    hide Inv, InitiateBreachDispute, Step, After, InCooldown, StakeDue, Transfer, R.FreezeAssets;
    InitiateParts(cfg, s.w, c);
    InitiateIsStep(cfg, s, c);
  }

  // ----- an exit or none, decided at creation -----

  ghost predicate OwnsActive(r: R.Registry, who: Address) {
    exists a :: a in r.assets && r.assets[a].owner == who && r.assets[a].status == R.Active
  }

  /** A new dispute has frozen something exactly when its initiator owned an active asset. */
  lemma FrozenAtCreation(cfg: Config, s: System, c: Call)
    requires Inv(cfg, s) && c.Initiate? && c.sender != 0 && c.sender != cfg.self && Step(cfg, s.w, c).Some?
    ensures var w', id := After(cfg, s, c).w, s.w.disputeCounter;
      && id in w'.disputes && !w'.disputes[id].resolved
      && (R.FrozenList(w'.registry, id) != [] <==> OwnsActive(s.w.registry, c.sender))
  {
    var w, id := s.w, s.w.disputeCounter;
    assert R.IndexInv(w.registry) && R.FreezeInv(w.registry);
    assert FrozenForDispute(w, id);
    InitiateEffect(cfg, s, c);
    hide Inv, After, Step, R.FreezeAssets, R.IndexInv, R.FreezeInv, InCooldown, Transfer;
    R.FreezeKeeps(w.registry, cfg.self, c.now, id, c.sender);
    var list := R.FrozenList(After(cfg, s, c).w.registry, id);
    if list != [] {
      assert list[0] in list;
    }
  }

  /** The start time without what counter-proposals added to it. */
  function Opened(d: Dispute): int {
    d.startTime - d.counterCount * ONE_DAY
  }

  lemma EnforceKeepsAge(cfg: Config, w: World, now: nat, k: DisputeId, id: DisputeId)
    requires id in w.disputes
    ensures var r := EnforceTimeout(cfg, w, now, k);
      r.Some? ==> Opened(DisputeAt(r.value.disputes, id)) == Opened(w.disputes[id])
  {
    hide Transfer, TimeoutTransfers, R.UnfreezeAssets, R.ApplyFallbackLicense;
  }

  lemma AcceptKeepsAge(cfg: Config, w: World, now: nat, sender: Address, k: DisputeId, id: DisputeId)
    requires id in w.disputes
    ensures var r := AcceptProposal(cfg, w, now, sender, k);
      r.Some? ==> Opened(DisputeAt(r.value.disputes, id)) == Opened(w.disputes[id])
  {
    hide Transfer, R.UnfreezeAssets;
  }

  lemma CounterKeepsAge(w: World, now: nat, sender: Address, k: DisputeId, evidence: nat, value: nat, id: DisputeId)
    requires id in w.disputes
    ensures var r := CounterPropose(w, now, sender, k, evidence, value);
      r.Some? ==> Opened(DisputeAt(r.value.disputes, id)) == Opened(w.disputes[id])
  {
    hide Ilrm.Pow2;
  }

  lemma StepKeepsAge(cfg: Config, w: World, c: Call, id: DisputeId)
    requires HistoryInv(cfg, w) && R.IndexInv(w.registry) && Step(cfg, w, c).Some? && id in w.disputes
    ensures Opened(DisputeAt(Step(cfg, w, c).value.disputes, id)) == Opened(w.disputes[id])
  {
    hide R.IndexInv, Transfer, TransferFrom, R.FreezeAssets, R.RegisterAsset, R.TransferAsset, EscalatedStake;
    hide DisputeOk, EnforceTimeout, AcceptProposal, CounterPropose;
    match c
    case Accept(sender, now, k) => AcceptKeepsAge(cfg, w, now, sender, k, id);
    case Enforce(_, now, k) => EnforceKeepsAge(cfg, w, now, k, id);
    case Counter(sender, now, k, evidence, value) => CounterKeepsAge(w, now, sender, k, evidence, value, id);
    case _ =>
  }

  lemma AfterKeepsCreation(cfg: Config, s: System, c: Call, id: DisputeId)
    requires Inv(cfg, s) && id in s.w.disputes
    ensures id in After(cfg, s, c).w.disputes
    ensures CreatedAt(After(cfg, s, c).w.events, id) == CreatedAt(s.w.events, id)
  {
    hide R.IndexInv, R.FreezeInv, MoneyInv, FrozenForDispute, HistoryInv, CreatedAt;
    AfterKeepsIds(cfg, s, c, id);
    BoundedLife(cfg, s, id);
    BoundedLife(cfg, After(cfg, s, c), id);
    if Step(cfg, s.w, c).Some? {
      StepKeepsAge(cfg, s.w, c, id);
    }
    hide Step;
  }

  lemma {:induction false} CreationStays(cfg: Config, s: System, calls: seq<Call>, id: DisputeId)
    requires Inv(cfg, s) && id in s.w.disputes
    ensures CreatedAt(Run(cfg, s, calls).w.events, id) == CreatedAt(s.w.events, id)
    decreases |calls|
  {
    hide Inv, After, CreatedAt;
    if calls != [] {
      AfterKeepsCreation(cfg, s, calls[0], id);
      CreationStays(cfg, After(cfg, s, calls[0]), calls[1..], id);
    }
  }

  /**
   * Whatever happens after its creation: more than ten days on, a dispute is resolved or `enforceTimeout`
   * ends it, the latter exactly when its initiator owned an active asset as it was opened and the
   * multiplication of its stakes fits.
   */
  lemma ExitFromCreation(cfg: Config, s: System, c: Call, calls: seq<Call>, now: nat)
    requires Inv(cfg, s) && c.Initiate? && c.sender != 0 && c.sender != cfg.self && Step(cfg, s.w, c).Some?
    requires now > c.now + 10 * ONE_DAY
    ensures var end, id := Run(cfg, After(cfg, s, c), calls), s.w.disputeCounter;
      && id in end.w.disputes
      && (!end.w.disputes[id].resolved ==>
            (EnforceTimeout(cfg, end.w, now, id).Some?
             <==> OwnsActive(s.w.registry, c.sender) && Payable(end.w.disputes[id])))
  {
    hide Inv, Run, Step, OwnsActive, EnforceTimeout, CreatedAt, InCooldown;
    var s1, id := After(cfg, s, c), s.w.disputeCounter;
    InitiateEffect(cfg, s, c);
    FrozenAtCreation(cfg, s, c);
    BoundedLife(cfg, s1, id);
    RunKeepsIds(cfg, s1, calls, id);
    CreationStays(cfg, s1, calls, id);
    var end := Run(cfg, s1, calls);
    hide After;
    if !end.w.disputes[id].resolved {
      FreezesLast(cfg, s1, calls, id);
      GuaranteedExit(cfg, end, now, id);
    }
  }

  /** A dispute opened by someone who owned no active asset is never resolved. */
  lemma StuckFromCreation(cfg: Config, s: System, c: Call, calls: seq<Call>)
    requires Inv(cfg, s) && c.Initiate? && c.sender != 0 && c.sender != cfg.self && Step(cfg, s.w, c).Some?
    requires !OwnsActive(s.w.registry, c.sender)
    ensures var end, id := Run(cfg, After(cfg, s, c), calls), s.w.disputeCounter;
      id in end.w.disputes && !end.w.disputes[id].resolved
  {
    hide Inv, Run, Step, OwnsActive;
    FrozenAtCreation(cfg, s, c);
    hide After;
    StuckWithoutAssets(cfg, After(cfg, s, c), calls, s.w.disputeCounter);
  }

  // ----- runs from deployment -----

  lemma {:induction false} RunAppend(cfg: Config, s: System, a: seq<Call>, b: seq<Call>)
    requires Inv(cfg, s)
    ensures Run(cfg, s, a + b) == Run(cfg, Run(cfg, s, a), b)
    decreases |a|
  {
    hide Inv, After;
    if a == [] {
      assert a + b == b;
    } else {
      assert (a + b)[0] == a[0] && (a + b)[1..] == a[1..] + b;
      RunAppend(cfg, After(cfg, s, a[0]), a[1..], b);
    }
  }

  lemma RunOne(cfg: Config, s: System, c: Call)
    requires Inv(cfg, s)
    ensures Run(cfg, s, [c]) == After(cfg, s, c)
  {
    hide Inv, After;
    assert [c][1..] == [];
    assert Run(cfg, After(cfg, s, c), []) == After(cfg, s, c);
  }

  lemma RunSnoc(cfg: Config, s: System, calls: seq<Call>, c: Call)
    requires Inv(cfg, s)
    ensures Run(cfg, s, calls + [c]) == After(cfg, Run(cfg, s, calls), c)
  {
    hide Inv, After;
    RunAppend(cfg, s, calls, [c]);
    RunOne(cfg, Run(cfg, s, calls), c);
  }

  /** A breach alleged with a plain fallback licence. */
  function Allege(initiator: Address, now: nat, counterparty: Address, stake: nat): Call {
    Initiate(initiator, now, counterparty, stake, 0, FallbackLicense(0, true), true)
  }

  /** Accounts that can take part in a dispute. */
  predicate Parties(cfg: Config, a: Address, b: Address) {
    a != 0 && b != 0 && a != b && a != cfg.self && b != cfg.self
  }

  /**
   * A dispute that nothing can end does come about: straight from deployment, by an initiator who has
   * registered nothing.
   */
  lemma StuckFromGenesis(
      cfg: Config, initiator: Address, counterparty: Address, stake: nat, now: nat, calls: seq<Call>)
    requires ValidConfig(cfg) && Parties(cfg, initiator, counterparty) && stake > 0
    ensures var s, c := Genesis(cfg, map[initiator := stake]), Allege(initiator, now, counterparty, stake);
      && Step(cfg, s.w, c).Some?
      && var end := Run(cfg, After(cfg, s, c), calls);
         0 in end.w.disputes && !end.w.disputes[0].resolved
  {
    var s, c := Genesis(cfg, map[initiator := stake]), Allege(initiator, now, counterparty, stake);
    assert s.w.lastDisputeTime == map[] && !s.w.paused && s.w.disputeCounter == 0;
    assert !OwnsActive(s.w.registry, initiator);
    assert MayInitiate(s.w, c);
    hide Genesis, Inv, Step, After, Run;
    InitiateExactly(cfg, s, c);
    StuckFromCreation(cfg, s, c, calls);
  }

  // ----- the cooldown raises the price and forbids nothing -----

  /** From deployment, two disputes of the same pair within 30 days are both opened. */
  lemma RepeatInsideCooldown(cfg: Config, a: Address, b: Address, stake: nat, first: nat, second: nat)
    requires ValidConfig(cfg) && Parties(cfg, a, b) && 0 < stake && stake * ESCALATION_MULTIPLIER <= MAX_UINT256
    requires 0 < first <= second < first + COOLDOWN_PERIOD
    ensures var s := Genesis(cfg, map[a := 3 * stake]);
      var s1 := After(cfg, s, Allege(a, first, b, stake));
      && Step(cfg, s.w, Allege(a, first, b, stake)).Some?
      && Step(cfg, s1.w, Allege(a, second, b, stake)).Some?
      && LastDispute(s1.w, a, b) == first
  {
    var s := Genesis(cfg, map[a := 3 * stake]);
    var c, c' := Allege(a, first, b, stake), Allege(a, second, b, stake);
    assert s.w.lastDisputeTime == map[] && !s.w.paused && BalanceOf(s.w.ledger, a) == 3 * stake;
    assert MayInitiate(s.w, c);
    hide Genesis, Inv, Step, After;
    InitiateExactly(cfg, s, c);
    InitiateEffect(cfg, s, c);
    var s1 := After(cfg, s, c);
    TransferDelta(s.w.ledger, a, cfg.self, stake, a);
    hide Transfer, R.FreezeAssets, BalanceOf;
    assert MayInitiate(s1.w, c');
    InitiateExactly(cfg, s1, c');
  }

  /** The first registration after deployment. */
  lemma RegisterFirst(cfg: Config, ledger: Balances, a: Address, now: nat)
    requires ValidConfig(cfg) && a != 0 && a != cfg.self
    ensures var s := Genesis(cfg, ledger);
      var s1 := After(cfg, s, RegisterAsset(a, now, 0, a, 0));
      s1.w == s.w.(registry := s1.w.registry) && OwnsActive(s1.w.registry, a)
  {
    var s := Genesis(cfg, ledger);
    var s1 := After(cfg, s, RegisterAsset(a, now, 0, a, 0));
    assert s.w.registry == R.Registry({cfg.self}, map[], map[], map[], map[], 0);
    assert Step(cfg, s.w, RegisterAsset(a, now, 0, a, 0)).Some?;
    assert 0 in s1.w.registry.assets && s1.w.registry.assets[0] == R.Asset(a, 0, R.Active, 0, now);
  }

  /** Deployment, one asset registered, one breach alleged by its owner. */
  ghost function Opening(cfg: Config, ledger: Balances, a: Address, b: Address, stake: nat, now: nat): System
    requires ValidConfig(cfg)
  {
    After(cfg, After(cfg, Genesis(cfg, ledger), RegisterAsset(a, now, 0, a, 0)), Allege(a, now, b, stake))
  }

  lemma OpeningState(cfg: Config, ledger: Balances, a: Address, b: Address, stake: nat, now: nat)
    requires ValidConfig(cfg) && Parties(cfg, a, b) && 0 < stake <= BalanceOf(ledger, a)
    ensures var s := Opening(cfg, ledger, a, b, stake, now);
      && Inv(cfg, s) && s.w.disputes == map[0 := NewDispute(Allege(a, now, b, stake), stake)]
      && R.FrozenList(s.w.registry, 0) != [] && Transfer(ledger, a, cfg.self, stake) == Some(s.w.ledger)
      && LastDispute(s.w, a, b) == now && !s.w.paused && s.w.tokenReserves == 0
    ensures Opening(cfg, ledger, a, b, stake, now)
         == Run(cfg, Genesis(cfg, ledger), [RegisterAsset(a, now, 0, a, 0), Allege(a, now, b, stake)])
  {
    var s0, r, c := Genesis(cfg, ledger), RegisterAsset(a, now, 0, a, 0), Allege(a, now, b, stake);
    RegisterFirst(cfg, ledger, a, now);
    assert s0.w.ledger == ledger && s0.w.lastDisputeTime == map[] && !s0.w.paused && s0.w.disputes == map[]
      && s0.w.disputeCounter == 0 && s0.w.tokenReserves == 0;
    hide Genesis, Inv, Step, After, OwnsActive, Transfer, BalanceOf, R.FreezeAssets;
    var s1 := After(cfg, s0, r);
    assert MayInitiate(s1.w, c);
    InitiateExactly(cfg, s1, c);
    InitiateEffect(cfg, s1, c);
    FrozenAtCreation(cfg, s1, c);
    RunOne(cfg, s0, r);
    RunSnoc(cfg, s0, [r], c);
  }

  /** Nor can a timeout end a dispute whose stake is too large, frozen asset or not. */
  lemma TooLargeToEnd(cfg: Config, a: Address, b: Address, first: nat, now: nat)
    requires ValidConfig(cfg) && Parties(cfg, a, b)
    ensures var s := Opening(cfg, map[a := MAX_UINT256], a, b, MAX_UINT256, first);
      && Inv(cfg, s) && 0 in s.w.disputes && R.FrozenList(s.w.registry, 0) != []
      && EnforceTimeout(cfg, s.w, now, 0).None?
  {
    var ledger: Balances := map[a := MAX_UINT256];
    assert BalanceOf(ledger, a) == MAX_UINT256;
    hide Opening, Inv, Transfer, EnforceTimeout, BalanceOf;
    OpeningState(cfg, ledger, a, b, MAX_UINT256, first);
    EnforceExactly(cfg, Opening(cfg, ledger, a, b, MAX_UINT256, first), now, 0);
  }

  lemma DeclineParts(cfg: Config, w: World, now: nat, id: DisputeId)
    requires id in w.disputes && w.disputes[id].counterpartyStake == 0 && EnforceTimeout(cfg, w, now, id).Some?
    ensures var w' := EnforceTimeout(cfg, w, now, id).value;
      && w'.paused == w.paused && w'.lastDisputeTime == w.lastDisputeTime
      && id in w'.disputes && w'.disputes[id].outcome == DefaultLicenseApplied
      && w'.disputes[id].counterpartyStake == 0
  {
    hide Transfer, R.UnfreezeAssets, R.ApplyFallbackLicense, ResolveTimeout;
  }

  lemma EnforceIsStep(cfg: Config, s: System, sender: Address, now: nat, id: DisputeId)
    requires Inv(cfg, s) && sender != 0 && sender != cfg.self && EnforceTimeout(cfg, s.w, now, id).Some?
    ensures After(cfg, s, Enforce(sender, now, id)).w == EnforceTimeout(cfg, s.w, now, id).value
  {
    hide HistoryInv, R.IndexInv, R.FreezeInv, MoneyInv, FrozenForDispute, EnforceTimeout;
  }

  /** The end of a dispute whose counterparty declined to stake. */
  lemma DeclineEffect(cfg: Config, s: System, sender: Address, now: nat, id: DisputeId)
    requires Inv(cfg, s) && id in s.w.disputes && !s.w.disputes[id].resolved && s.w.disputes[id].counterpartyStake == 0
    requires sender != 0 && sender != cfg.self && s.w.disputes[id].initiator != cfg.self
    requires now > Deadline(s.w.disputes[id]) && R.FrozenList(s.w.registry, id) != [] && Payable(s.w.disputes[id])
    ensures var d, w' := s.w.disputes[id], After(cfg, s, Enforce(sender, now, id)).w;
      && id in w'.disputes && w'.disputes[id].outcome == DefaultLicenseApplied
      && w'.disputes[id].counterpartyStake == 0
      && w'.paused == s.w.paused && w'.lastDisputeTime == s.w.lastDisputeTime
      && BalanceOf(w'.ledger, d.initiator) >= BalanceOf(s.w.ledger, d.initiator) + d.initiatorStake
  {
    hide Inv, After, EnforceTimeout, BalanceOf;
    EnforceExactly(cfg, s, now, id);
    NonParticipationSettlement(cfg, s, now, id, s.w.disputes[id].initiator);
    DeclineParts(cfg, s.w, now, id);
    EnforceIsStep(cfg, s, sender, now, id);
  }

  /**
   * A counterparty that declines to stake does not stop the next dispute: the first ends under the
   * fallback licence once the stake window is over, and the same initiator opens another against the
   * same party before the 30 days are.
   */
  lemma DeclinedThenRepeated(cfg: Config, a: Address, b: Address, stake: nat, first: nat, ended: nat, second: nat)
    requires ValidConfig(cfg) && Parties(cfg, a, b) && 0 < first && 0 < stake
    requires stake * INITIATOR_INCENTIVE_BPS <= MAX_UINT256
    requires first + STAKE_WINDOW < ended <= second < first + COOLDOWN_PERIOD
    ensures var s2 := Opening(cfg, map[a := 3 * stake], a, b, stake, first);
      && Inv(cfg, s2)
      && var s3 := After(cfg, s2, Enforce(a, ended, 0));
         && 0 in s3.w.disputes && s3.w.disputes[0].outcome == DefaultLicenseApplied
         && s3.w.disputes[0].counterpartyStake == 0
         && InCooldown(s3.w, second, a, b)
         && Step(cfg, s3.w, Allege(a, second, b, stake)).Some?
  {
    hide Opening, Inv, Step, After, BalanceOf, LastDispute;
    var ledger: Balances := map[a := 3 * stake];
    DeclinedState(cfg, a, b, stake, first, ended);
    InitiateExactly(cfg, After(cfg, Opening(cfg, ledger, a, b, stake, first), Enforce(a, ended, 0)),
      Allege(a, second, b, stake));
  }

  /** The state after the first of these disputes. */
  lemma DeclinedState(cfg: Config, a: Address, b: Address, stake: nat, first: nat, ended: nat)
    requires ValidConfig(cfg) && Parties(cfg, a, b) && 0 < stake
    requires stake * INITIATOR_INCENTIVE_BPS <= MAX_UINT256 && first + STAKE_WINDOW < ended
    ensures var s2 := Opening(cfg, map[a := 3 * stake], a, b, stake, first);
      && Inv(cfg, s2)
      && var s3 := After(cfg, s2, Enforce(a, ended, 0));
         && 0 in s3.w.disputes && s3.w.disputes[0].outcome == DefaultLicenseApplied
         && s3.w.disputes[0].counterpartyStake == 0
         && LastDispute(s3.w, a, b) == first && !s3.w.paused && BalanceOf(s3.w.ledger, a) >= 3 * stake
  {
    var ledger: Balances := map[a := 3 * stake];
    assert BalanceOf(ledger, a) == 3 * stake;
    hide Opening, Inv, Step, After, Transfer, BalanceOf, LastDispute;
    OpeningState(cfg, ledger, a, b, stake, first);
    var s2 := Opening(cfg, ledger, a, b, stake, first);
    TransferDelta(ledger, a, cfg.self, stake, a);
    DeclineEffect(cfg, s2, a, ended, 0);
    SameLastDispute(s2.w, After(cfg, s2, Enforce(a, ended, 0)).w, a, b);
  }

  lemma SameLastDispute(w: World, w': World, a: Address, b: Address)
    requires w'.lastDisputeTime == w.lastDisputeTime
    ensures LastDispute(w', a, b) == LastDispute(w, a, b)
  {
  }

  /** The counterparty's stake in a dispute within its window. */
  lemma StakeEffect(cfg: Config, s: System, now: nat, id: DisputeId)
    requires Inv(cfg, s) && id in s.w.disputes && !s.w.disputes[id].resolved && s.w.disputes[id].counterpartyStake == 0
    requires !s.w.paused && now <= s.w.disputes[id].startTime + STAKE_WINDOW
    requires s.w.disputes[id].counterparty != cfg.self
    requires s.w.disputes[id].initiatorStake <= BalanceOf(s.w.ledger, s.w.disputes[id].counterparty)
    ensures var d := s.w.disputes[id];
      var w' := After(cfg, s, Stake(d.counterparty, now, id, true)).w;
      w'.disputes == s.w.disputes[id := d.(counterpartyStake := d.initiatorStake)] && w'.registry == s.w.registry
  {
    StakesAreHeld(cfg, s, id);
    hide Inv, After, Step, BalanceOf, Moved;
    StakeExactly(cfg, s, Stake(s.w.disputes[id].counterparty, now, id, true));
  }

  /** The calls that bring both stakes in, from deployment. */
  function StakedCalls(a: Address, b: Address, stake: nat, now: nat): seq<Call> {
    [RegisterAsset(a, now, 0, a, 0), Allege(a, now, b, stake)] + [Stake(b, now, 0, true)]
  }

  /** A dispute with both stakes in, at the time it was opened. */
  lemma StakedState(cfg: Config, a: Address, b: Address, stake: nat, now: nat)
    requires ValidConfig(cfg) && Parties(cfg, a, b) && 0 < stake
    ensures var s := Run(cfg, Genesis(cfg, map[a := stake, b := stake]), StakedCalls(a, b, stake, now));
      && Inv(cfg, s) && 0 in s.w.disputes
      && s.w.disputes[0] == NewDispute(Allege(a, now, b, stake), stake).(counterpartyStake := stake)
      && R.FrozenList(s.w.registry, 0) != []
  {
    var ledger: Balances := map[a := stake, b := stake];
    assert BalanceOf(ledger, a) == stake && BalanceOf(ledger, b) == stake;
    hide Opening, Genesis, Inv, Step, After, Run, Transfer, BalanceOf;
    OpeningState(cfg, ledger, a, b, stake, now);
    TransferDelta(ledger, a, cfg.self, stake, b);
    StakeEffect(cfg, Opening(cfg, ledger, a, b, stake, now), now, 0);
    RunSnoc(cfg, Genesis(cfg, ledger), [RegisterAsset(a, now, 0, a, 0), Allege(a, now, b, stake)],
      Stake(b, now, 0, true));
  }
}
