/**
 * What repeated disputes cost their initiator: against a party that stays silent nothing, with a gain
 * as long as the reserves last; a dispute costs tokens exactly when it is answered and times out.
 */
module Repeats {
  import opened Wrappers
  import opened Ledger
  import opened Ilrm
  import opened Protocol
  import opened Guarantees
  import opened Fairness
  import opened Creation
  import R = AssetRegistry

  // ----- what one dispute costs -----

  /** A resolved dispute gave its initiator back less than the stake exactly when it timed out answered. */
  lemma OnlyTimeoutsCost(cfg: Config, s: System, id: DisputeId, i: nat)
    requires Inv(cfg, s) && id in s.w.disputes
    requires i < |s.w.events| && s.w.events[i].Resolved? && s.w.events[i].id == id
    ensures var d, e := s.w.disputes[id], s.w.events[i];
      && (e.toInitiator < d.initiatorStake <==> d.outcome == TimeoutWithBurn)
      && (d.outcome == TimeoutWithBurn ==>
            d.counterpartyStake > 0 && d.initiatorStake - e.toInitiator == BurnedCost(d.initiatorStake))
      && (d.outcome == DefaultLicenseApplied ==>
            e.toInitiator - d.initiatorStake == IncentiveFrom(e.reserves, d.initiatorStake))
  {
    var d := s.w.disputes[id];
    PaidOnce(cfg, s, id);
    OutcomeNeedsStake(cfg, s, id);
    hide Inv, Payouts;
    assert RightPayout(s.w.events[i], d);
  }

  lemma OutcomeNeedsStake(cfg: Config, s: System, id: DisputeId)
    requires Inv(cfg, s) && id in s.w.disputes
    ensures s.w.disputes[id].initiatorStake > 0
    ensures s.w.disputes[id].outcome == TimeoutWithBurn ==> s.w.disputes[id].counterpartyStake > 0
  {
    assert DisputeOk(cfg, s.w.events, id, s.w.disputes[id]);
  }

  /** What a timeout costs each party that staked `n`. */
  function BurnedCost(n: nat): nat {
    n - n / 2
  }

  // ----- when the escalation bites -----

  /** A repeat takes more stake exactly inside the cooldown and for a stake of at least 2. */
  lemma EscalationStrict(w: World, now: nat, a: Address, b: Address, stake: nat)
    ensures StakeDue(w, now, a, b, stake) > stake <==> InCooldown(w, now, a, b) && stake >= 2
  {
    hide InCooldown;
  }

  /**
   * At the same nominal stake, a repeat that times out costs more than the first exactly for a stake of
   * 2 or of at least 4; a third costs what the second did, since the escalation does not build up.
   */
  lemma RepeatCosts(w: World, w': World, now: nat, now': nat, a: Address, b: Address, stake: nat)
    requires InCooldown(w, now, a, b) && InCooldown(w', now', a, b)
    ensures BurnedCost(StakeDue(w, now, a, b, stake)) > BurnedCost(stake) <==> stake == 2 || stake >= 4
    ensures StakeDue(w', now', a, b, stake) == StakeDue(w, now, a, b, stake)
  {
    hide InCooldown;
  }

  // ----- repeating against a silent party -----

  /** One dispute that the counterparty leaves unanswered, opened and ended by its initiator. */
  datatype Round = Round(open: nat, close: nat, stake: nat)

  /** The stake of a round, by the time of the pair's last dispute. */
  function DueAfter(last: nat, r: Round): nat {
    if 0 < last && r.open < last + COOLDOWN_PERIOD then r.stake + r.stake / 2 else r.stake
  }

  /** What the rounds bring in: of each stake a tenth, as long as the reserves cover it. */
  function Earned(last: nat, reserves: nat, rounds: seq<Round>): nat
    decreases |rounds|
  {
    if rounds == [] then 0
    else
      var incentive := IncentiveFrom(reserves, DueAfter(last, rounds[0]));
      incentive + Earned(rounds[0].open, reserves - incentive, rounds[1..])
  }

  function RoundCalls(a: Address, b: Address, rounds: seq<Round>, id: DisputeId): seq<Call>
    decreases |rounds|
  {
    if rounds == [] then []
    else
      [Allege(a, rounds[0].open, b, rounds[0].stake)] + [Enforce(a, rounds[0].close, id)]
        + RoundCalls(a, b, rounds[1..], id + 1)
  }

  predicate Playable(r: Round, balance: nat) {
    && 0 < r.stake && r.stake + r.stake / 2 <= balance
    && (r.stake + r.stake / 2) * INITIATOR_INCENTIVE_BPS <= MAX_UINT256
    && r.close > r.open + STAKE_WINDOW
  }

  /** An account that can start: not paused, an active asset. */
  ghost predicate Ready(cfg: Config, s: System, a: Address) {
    Inv(cfg, s) && !s.w.paused && OwnsActive(s.w.registry, a)
  }

  lemma DueIsStakeDue(w: World, a: Address, b: Address, r: Round)
    ensures StakeDue(w, r.open, a, b, r.stake) == DueAfter(LastDispute(w, a, b), r)
  {
  }

  lemma TimeoutKeepsOwners(cfg: Config, w: World, now: nat, id: DisputeId, x: R.AssetId)
    requires EnforceTimeout(cfg, w, now, id).Some? && x in w.registry.assets
    ensures var r' := EnforceTimeout(cfg, w, now, id).value.registry;
      x in r'.assets && r'.assets[x].owner == w.registry.assets[x].owner
  {
    hide EnforceTimeout;
    TimeoutRegistry(cfg, w, now, id);
  }

  /** A timeout gives the initiator an active asset back. */
  lemma OwnsActiveAgain(cfg: Config, s: System, a: Address, now: nat, id: DisputeId)
    requires Inv(cfg, s) && a != 0 && a != cfg.self && id in s.w.disputes && !s.w.disputes[id].resolved
    requires s.w.disputes[id].initiator == a && EnforceTimeout(cfg, s.w, now, id).Some?
    ensures OwnsActive(After(cfg, s, Enforce(a, now, id)).w.registry, a)
  {
    hide HistoryInv, MoneyInv, R.IndexInv, R.FreezeInv, After, EnforceTimeout;
    assert FrozenForDispute(s.w, id);
    EnforceIsStep(cfg, s, a, now, id);
    EnforceResolves(cfg, s.w, now, id);
    ResolutionReleases(cfg, s, Enforce(a, now, id), id);
    var x := R.FrozenList(s.w.registry, id)[0];
    assert x in R.FrozenList(s.w.registry, id);
    TimeoutKeepsOwners(cfg, s.w, now, id, x);
  }

  lemma EnforceResolves(cfg: Config, w: World, now: nat, id: DisputeId)
    requires EnforceTimeout(cfg, w, now, id).Some?
    ensures DisputeAt(EnforceTimeout(cfg, w, now, id).value.disputes, id).resolved
  {
    hide EnforceTimeout;
    TimeoutDisputes(cfg, w, now, id);
  }

  /** The first half of a round. */
  lemma OpenRound(cfg: Config, s: System, a: Address, b: Address, r: Round)
    requires Ready(cfg, s, a) && Parties(cfg, a, b) && Playable(r, BalanceOf(s.w.ledger, a))
    ensures var s1, id := After(cfg, s, Allege(a, r.open, b, r.stake)), s.w.disputeCounter;
      var due := DueAfter(LastDispute(s.w, a, b), r);
      && id in s1.w.disputes && s1.w.disputes[id] == NewDispute(Allege(a, r.open, b, r.stake), due)
      && R.FrozenList(s1.w.registry, id) != [] && s1.w.disputeCounter == id + 1
      && LastDispute(s1.w, a, b) == r.open && !s1.w.paused && s1.w.tokenReserves == s.w.tokenReserves
      && BalanceOf(s1.w.ledger, a) == BalanceOf(s.w.ledger, a) - due
  {
    hide Inv, Step, After, Transfer, R.FreezeAssets, OwnsActive, BalanceOf;
    var c := Allege(a, r.open, b, r.stake);
    DueIsStakeDue(s.w, a, b, r);
    FitsEscalation(r.stake);
    InitiateExactly(cfg, s, c);
    InitiateEffect(cfg, s, c);
    FrozenAtCreation(cfg, s, c);
    TransferDelta(s.w.ledger, a, cfg.self, DueAfter(LastDispute(s.w, a, b), r), a);
  }

  lemma FitsEscalation(stake: nat)
    requires (stake + stake / 2) * INITIATOR_INCENTIVE_BPS <= MAX_UINT256
    ensures stake * ESCALATION_MULTIPLIER <= MAX_UINT256 && stake * INITIATOR_INCENTIVE_BPS <= MAX_UINT256
  {
  }

  /** One round: the stake comes back, with a tenth of it if the reserves cover that. */
  lemma PlayRound(cfg: Config, s: System, a: Address, b: Address, r: Round)
    requires Ready(cfg, s, a) && Parties(cfg, a, b) && Playable(r, BalanceOf(s.w.ledger, a))
    ensures var s1, id := After(cfg, s, Allege(a, r.open, b, r.stake)), s.w.disputeCounter;
      var s2 := After(cfg, s1, Enforce(a, r.close, id));
      var incentive := IncentiveFrom(s.w.tokenReserves, DueAfter(LastDispute(s.w, a, b), r));
      && Ready(cfg, s2, a) && s2.w.disputeCounter == id + 1 && LastDispute(s2.w, a, b) == r.open
      && BalanceOf(s2.w.ledger, a) == BalanceOf(s.w.ledger, a) + incentive
      && s2.w.tokenReserves == s.w.tokenReserves - incentive
  {
    hide Inv, After, BalanceOf, OwnsActive, EnforceTimeout, LastDispute;
    OpenRound(cfg, s, a, b, r);
    FitsEscalation(r.stake);
    var s1, id := After(cfg, s, Allege(a, r.open, b, r.stake)), s.w.disputeCounter;
    EnforceExactly(cfg, s1, r.close, id);
    NonParticipationSettlement(cfg, s1, r.close, id, a);
    DeclineParts(cfg, s1.w, r.close, id);
    EnforceKeepsCounter(cfg, s1.w, r.close, id);
    EnforceIsStep(cfg, s1, a, r.close, id);
    OwnsActiveAgain(cfg, s1, a, r.close, id);
    SameLastDispute(s1.w, After(cfg, s1, Enforce(a, r.close, id)).w, a, b);
  }

  lemma EnforceKeepsCounter(cfg: Config, w: World, now: nat, id: DisputeId)
    requires EnforceTimeout(cfg, w, now, id).Some?
    ensures EnforceTimeout(cfg, w, now, id).value.disputeCounter == w.disputeCounter
  {
    hide Transfer, TimeoutTransfers, R.UnfreezeAssets, R.ApplyFallbackLicense;
  }

  lemma RunRound(cfg: Config, s: System, a: Address, b: Address, rounds: seq<Round>, id: DisputeId)
    requires Inv(cfg, s) && rounds != []
    ensures var s1 := After(cfg, s, Allege(a, rounds[0].open, b, rounds[0].stake));
      Run(cfg, s, RoundCalls(a, b, rounds, id))
        == Run(cfg, After(cfg, s1, Enforce(a, rounds[0].close, id)), RoundCalls(a, b, rounds[1..], id + 1))
  {
    hide Inv, After, Run;
    var open, close := Allege(a, rounds[0].open, b, rounds[0].stake), Enforce(a, rounds[0].close, id);
    RunOne(cfg, s, open);
    RunSnoc(cfg, s, [open], close);
    RunAppend(cfg, s, [open] + [close], RoundCalls(a, b, rounds[1..], id + 1));
  }

  /**
   * However often an account opens disputes against a party that stays silent, it loses nothing: after
   * all the rounds it has what it had, and a tenth of each stake that the reserves could cover.
   */
  lemma {:induction false} RepeatedInitiation(cfg: Config, s: System, a: Address, b: Address, rounds: seq<Round>)
    requires Ready(cfg, s, a) && Parties(cfg, a, b)
    requires forall i :: 0 <= i < |rounds| ==> Playable(rounds[i], BalanceOf(s.w.ledger, a))
    ensures var end := Run(cfg, s, RoundCalls(a, b, rounds, s.w.disputeCounter));
      var earned := Earned(LastDispute(s.w, a, b), s.w.tokenReserves, rounds);
      && BalanceOf(end.w.ledger, a) == BalanceOf(s.w.ledger, a) + earned
      && end.w.tokenReserves == s.w.tokenReserves - earned
      && earned <= s.w.tokenReserves
    decreases |rounds|
  {
    hide Ready, Inv, After, Run, RoundCalls, Earned, Playable, BalanceOf, LastDispute, IncentiveFrom, DueAfter;
    ReadyIsInv(cfg, s, a);
    if rounds == [] {
      NoRounds(cfg, s, a, b, s.w.disputeCounter, LastDispute(s.w, a, b), s.w.tokenReserves);
    } else {
      var id, r := s.w.disputeCounter, rounds[0];
      PlayRound(cfg, s, a, b, r);
      RunRound(cfg, s, a, b, rounds, id);
      EarnedStep(LastDispute(s.w, a, b), s.w.tokenReserves, rounds);
      var s2 := After(cfg, After(cfg, s, Allege(a, r.open, b, r.stake)), Enforce(a, r.close, id));
      RicherStillPlays(rounds[1..], BalanceOf(s.w.ledger, a), BalanceOf(s2.w.ledger, a));
      RepeatedInitiation(cfg, s2, a, b, rounds[1..]);
    }
  }

  lemma NoRounds(cfg: Config, s: System, a: Address, b: Address, id: DisputeId, last: nat, reserves: nat)
    requires Inv(cfg, s)
    ensures Run(cfg, s, RoundCalls(a, b, [], id)) == s && Earned(last, reserves, []) == 0
  {
    hide Inv;
  }

  lemma EarnedStep(last: nat, reserves: nat, rounds: seq<Round>)
    requires rounds != []
    ensures var incentive := IncentiveFrom(reserves, DueAfter(last, rounds[0]));
      && incentive <= reserves
      && Earned(last, reserves, rounds) == incentive + Earned(rounds[0].open, reserves - incentive, rounds[1..])
  {
  }

  lemma RicherStillPlays(rounds: seq<Round>, balance: nat, more: nat)
    requires balance <= more && forall i :: 0 <= i < |rounds| ==> Playable(rounds[i], balance)
    ensures forall i :: 0 <= i < |rounds| ==> Playable(rounds[i], more)
  {
  }

  lemma ReadyIsInv(cfg: Config, s: System, a: Address)
    requires Ready(cfg, s, a)
    ensures Inv(cfg, s)
  {
  }

  // ----- it does pay -----

  lemma DepositParts(cfg: Config, w: World, sender: Address, amount: nat)
    requires amount > 0 && Transfer(w.ledger, sender, cfg.self, amount).Some?
    requires w.tokenReserves + amount <= MAX_UINT256
    ensures DepositTokenReserves(cfg, w, sender, amount, true)
         == Some(w.(ledger := Transfer(w.ledger, sender, cfg.self, amount).value,
                    tokenReserves := w.tokenReserves + amount))
  {
    hide Transfer;
  }

  lemma DepositIsStep(cfg: Config, s: System, sender: Address, amount: nat)
    requires Inv(cfg, s) && sender != 0 && sender != cfg.self
    requires DepositTokenReserves(cfg, s.w, sender, amount, true).Some?
    ensures After(cfg, s, DepositReserves(sender, amount, true)).w
         == DepositTokenReserves(cfg, s.w, sender, amount, true).value
  {
    hide HistoryInv, R.IndexInv, R.FreezeInv, MoneyInv, FrozenForDispute, DepositTokenReserves;
  }

  /** Deployment, one asset registered by `a`, and reserves paid in by someone else. */
  ghost function Funded(cfg: Config, a: Address, donor: Address, tokens: nat, reserves: nat): System
    requires ValidConfig(cfg)
  {
    var s0 := Genesis(cfg, map[a := tokens, donor := reserves]);
    After(cfg, After(cfg, s0, RegisterAsset(a, 0, 0, a, 0)), DepositReserves(donor, reserves, true))
  }

  lemma FundedState(cfg: Config, a: Address, donor: Address, tokens: nat, reserves: nat)
    requires ValidConfig(cfg) && Parties(cfg, a, donor) && 0 < reserves <= MAX_UINT256
    ensures var s := Funded(cfg, a, donor, tokens, reserves);
      && Ready(cfg, s, a) && BalanceOf(s.w.ledger, a) == tokens && s.w.tokenReserves == reserves
      && s.w.lastDisputeTime == map[]
  {
    var ledger: Balances := map[a := tokens, donor := reserves];
    assert BalanceOf(ledger, a) == tokens && BalanceOf(ledger, donor) == reserves;
    var s0 := Genesis(cfg, ledger);
    assert s0.w.ledger == ledger && s0.w.lastDisputeTime == map[] && !s0.w.paused && s0.w.tokenReserves == 0;
    hide Genesis, Inv, After, OwnsActive, Transfer, BalanceOf, DepositTokenReserves;
    RegisterFirst(cfg, ledger, a, 0);
    var s1 := After(cfg, s0, RegisterAsset(a, 0, 0, a, 0));
    TransferSucceeds(ledger, donor, cfg.self, reserves);
    DepositParts(cfg, s1.w, donor, reserves);
    DepositIsStep(cfg, s1, donor, reserves);
    TransferDelta(ledger, donor, cfg.self, reserves, a);
  }

  /** Two rounds inside the cooldown against a silent party, with a gain on each. */
  lemma GainFromDeployment(cfg: Config, a: Address, b: Address, donor: Address, stake: nat, first: Round, second: Round)
    requires ValidConfig(cfg) && Parties(cfg, a, b) && Parties(cfg, a, donor) && stake <= MAX_UINT256
    requires first.stake == second.stake == stake && 0 < first.open
    requires Playable(first, 3 * stake) && Playable(second, 3 * stake)
    requires second.open < first.open + COOLDOWN_PERIOD
    ensures var s := Funded(cfg, a, donor, 3 * stake, stake);
      && Inv(cfg, s)
      && var end := Run(cfg, s, RoundCalls(a, b, [first, second], s.w.disputeCounter));
         BalanceOf(end.w.ledger, a) == BalanceOf(s.w.ledger, a) + stake / 10 + (stake + stake / 2) / 10
  {
    hide Funded, Inv, Run, RoundCalls, BalanceOf, OwnsActive;
    FundedState(cfg, a, donor, 3 * stake, stake);
    var s := Funded(cfg, a, donor, 3 * stake, stake);
    var rounds := [first, second];
    assert LastDispute(s.w, a, b) == 0;
    TwoRoundsEarn(stake, first, second);
    hide Earned, LastDispute, Ready;
    RepeatedInitiation(cfg, s, a, b, rounds);
    ReadyIsInv(cfg, s, a);
  }

  lemma TwoRoundsEarn(stake: nat, first: Round, second: Round)
    requires first.stake == second.stake == stake && 0 < first.open && second.open < first.open + COOLDOWN_PERIOD
    ensures Earned(0, stake, [first, second]) == stake / 10 + (stake + stake / 2) / 10
  {
    assert [first, second][1..] == [second] && [second][1..] == [];
    EarnedStep(0, stake, [first, second]);
    EarnedStep(first.open, stake - stake / 10, [second]);
    assert Earned(second.open, stake - stake / 10 - (stake + stake / 2) / 10, []) == 0;
    hide Earned;
  }
}
