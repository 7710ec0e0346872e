/**
 * What the dispute protocol promises each party: staying silent costs nothing, repeated disputes
 * cost more, and a dispute that times out leaves its assets under the agreed fallback terms.
 */
module Fairness {
  import opened Wrappers
  import opened Ledger
  import opened Ilrm
  import opened Protocol
  import opened Guarantees
  import R = AssetRegistry

  // ----- silence is free -----

  /** No one pays tokens in a call sent by someone else. */
  lemma OthersPay(cfg: Config, s: System, c: Call, a: Address)
    requires Inv(cfg, s) && c.sender != a && a != cfg.self
    ensures BalanceOf(After(cfg, s, c).w.ledger, a) >= BalanceOf(s.w.ledger, a)
  {
    var w := s.w;
    hide HistoryInv, R.IndexInv, R.FreezeInv, MoneyInv, FrozenForDispute;
    if Step(cfg, w, c).Some? {
      if c.Enforce? {
        EnforcePays(cfg, s, c.now, c.id, a);
      } else if c.Accept? {
        AcceptPays(cfg, s, c.now, c.sender, c.id, a);
      } else {
        CallerPays(cfg, w, c, a);
      }
    }
    hide Step;
  }

  lemma CallerPays(cfg: Config, w: World, c: Call, a: Address)
    requires R.IndexInv(w.registry) && Step(cfg, w, c).Some?
    requires !c.Enforce? && !c.Accept? && c.sender != a && a != cfg.self
    ensures BalanceOf(Step(cfg, w, c).value.ledger, a) >= BalanceOf(w.ledger, a)
  {
    hide R.IndexInv, R.RegisterAsset, R.TransferAsset, R.FreezeAssets, Ilrm.Pow2, BalanceOf, Transfer;
    match c
    case TokenTransfer(sender, to, amount) => TransferDelta(w.ledger, sender, to, amount, a);
    case Initiate(sender, now, counterparty, stake, _, _, _) =>
      var escalated := EscalatedStake(w.lastDisputeTime, now, sender, counterparty, stake);
      TransferDelta(w.ledger, sender, cfg.self, escalated.value, a);
      hide EscalatedStake;
    case Stake(sender, _, id, _) =>
      TransferDelta(w.ledger, sender, cfg.self, DisputeAt(w.disputes, id).initiatorStake, a);
    case DepositReserves(sender, amount, _) => TransferDelta(w.ledger, sender, cfg.self, amount, a);
    case _ =>
  }

  lemma AcceptPays(cfg: Config, s: System, now: nat, sender: Address, id: DisputeId, a: Address)
    requires Inv(cfg, s) && AcceptProposal(cfg, s.w, now, sender, id).Some? && a != cfg.self
    ensures BalanceOf(AcceptProposal(cfg, s.w, now, sender, id).value.ledger, a) >= BalanceOf(s.w.ledger, a)
  {
    hide BalanceOf, Inv, Transfer, R.UnfreezeAssets;
    assert id in s.w.disputes;
    if DisputeAt(AcceptProposal(cfg, s.w, now, sender, id).value.disputes, id).resolved {
      hide AcceptProposal;
      AcceptanceSettlement(cfg, s, now, sender, id, a);
    }
  }

  lemma EnforcePays(cfg: Config, s: System, now: nat, id: DisputeId, a: Address)
    requires Inv(cfg, s) && EnforceTimeout(cfg, s.w, now, id).Some? && a != cfg.self
    ensures BalanceOf(EnforceTimeout(cfg, s.w, now, id).value.ledger, a) >= BalanceOf(s.w.ledger, a)
  {
    OnlyCreatedDisputesTimeOut(cfg, s.w, now, id);
    hide BalanceOf, Inv, EnforceTimeout;
    if s.w.disputes[id].counterpartyStake > 0 {
      TimeoutSettlement(cfg, s, now, id, a);
    } else {
      NonParticipationSettlement(cfg, s, now, id, a);
    }
  }

  /**
   * Whatever others do, and for however long: an account that sends no call never has fewer tokens
   * than before. It cannot be made to pay for a dispute it does not join.
   */
  lemma {:induction false} SilenceIsFree(cfg: Config, s: System, calls: seq<Call>, a: Address)
    requires Inv(cfg, s) && a != cfg.self
    requires forall i :: 0 <= i < |calls| ==> calls[i].sender != a
    ensures BalanceOf(Run(cfg, s, calls).w.ledger, a) >= BalanceOf(s.w.ledger, a)
    decreases |calls|
  {
    hide Inv, After, BalanceOf;
    if calls != [] {
      OthersPay(cfg, s, calls[0], a);
      SilenceIsFree(cfg, After(cfg, s, calls[0]), calls[1..], a);
    }
  }

  // ----- repeated disputes cost more -----

  function LastDispute(w: World, initiator: Address, counterparty: Address): nat {
    if (initiator, counterparty) in w.lastDisputeTime then w.lastDisputeTime[(initiator, counterparty)] else 0
  }

  lemma InitiateSteps(cfg: Config, s: System, c: Call)
    requires Inv(cfg, s) && c.Initiate? && Step(cfg, s.w, c).Some?
    ensures var w, w' := s.w, After(cfg, s, c).w;
      var last := LastDispute(w, c.sender, c.counterparty);
      && w.disputeCounter in w'.disputes
      && w'.disputes[w.disputeCounter].initiatorStake
           == (if 0 < last && c.now < last + COOLDOWN_PERIOD then c.stake + c.stake / 2 else c.stake)
      && w'.lastDisputeTime == w.lastDisputeTime[(c.sender, c.counterparty) := c.now]
  {
    hide HistoryInv, R.IndexInv, MoneyInv, TransferFrom, R.FreezeAssets;
    OneAndAHalf(c.stake);
  }

  lemma OneAndAHalf(n: nat)
    ensures n * ESCALATION_MULTIPLIER / 100 == n + n / 2
  {
  }

  lemma ResolutionKeepsLast(cfg: Config, w: World, now: nat, sender: Address, id: DisputeId)
    ensures var r := EnforceTimeout(cfg, w, now, id);
      r.Some? ==> r.value.lastDisputeTime == w.lastDisputeTime
    ensures var r := AcceptProposal(cfg, w, now, sender, id);
      r.Some? ==> r.value.lastDisputeTime == w.lastDisputeTime
  {
    hide Transfer, TimeoutTransfers, R.UnfreezeAssets, R.ApplyFallbackLicense;
  }

  lemma OnlyInitiateMovesLast(cfg: Config, s: System, c: Call)
    requires Inv(cfg, s) && !(c.Initiate? && Step(cfg, s.w, c).Some?)
    ensures After(cfg, s, c).w.lastDisputeTime == s.w.lastDisputeTime
  {
    hide HistoryInv, R.IndexInv, R.FreezeInv, MoneyInv, FrozenForDispute;
    hide Transfer, TransferFrom, EnforceTimeout, AcceptProposal;
    if c.Enforce? || c.Accept? {
      ResolutionKeepsLast(cfg, s.w, c.now, c.sender, c.id);
    }
    hide R.RegisterAsset, R.TransferAsset, R.FreezeAssets, EscalatedStake, Ilrm.Pow2;
  }

  lemma LastDisputeStep(cfg: Config, s: System, c: Call, initiator: Address, counterparty: Address, t: nat)
    requires Inv(cfg, s) && LastDispute(s.w, initiator, counterparty) >= t && (c.Initiate? ==> c.now >= t)
    ensures LastDispute(After(cfg, s, c).w, initiator, counterparty) >= t
  {
    hide HistoryInv, R.IndexInv, R.FreezeInv, MoneyInv, FrozenForDispute, After;
    if c.Initiate? && Step(cfg, s.w, c).Some? {
      InitiateSteps(cfg, s, c);
    } else {
      OnlyInitiateMovesLast(cfg, s, c);
    }
    hide Step;
  }

  lemma {:induction false} LastDisputeLasts(
      cfg: Config, s: System, calls: seq<Call>, initiator: Address, counterparty: Address, t: nat)
    requires Inv(cfg, s) && LastDispute(s.w, initiator, counterparty) >= t
    requires forall i :: 0 <= i < |calls| && calls[i].Initiate? ==> calls[i].now >= t
    ensures LastDispute(Run(cfg, s, calls).w, initiator, counterparty) >= t
    decreases |calls|
  {
    hide Inv, After, LastDispute;
    if calls != [] {
      LastDisputeStep(cfg, s, calls[0], initiator, counterparty, t);
      LastDisputeLasts(cfg, After(cfg, s, calls[0]), calls[1..], initiator, counterparty, t);
    }
  }

  /** A second dispute against the same party within 30 days of the first takes half as much stake again. */
  lemma RepeatsEscalate(cfg: Config, s: System, first: Call, between: seq<Call>, second: Call)
    requires Inv(cfg, s) && first.Initiate? && second.Initiate?
    requires first.sender == second.sender && first.counterparty == second.counterparty
    requires 0 < first.now && second.now < first.now + COOLDOWN_PERIOD
    requires forall i :: 0 <= i < |between| && between[i].Initiate? ==> between[i].now >= first.now
    requires Step(cfg, s.w, first).Some?
    requires var s' := Run(cfg, After(cfg, s, first), between); Step(cfg, s'.w, second).Some?
    ensures var s' := Run(cfg, After(cfg, s, first), between);
      var w' := After(cfg, s', second).w;
      && s'.w.disputeCounter in w'.disputes
      && w'.disputes[s'.w.disputeCounter].initiatorStake == second.stake + second.stake / 2
  {
    var s1 := After(cfg, s, first);
    InitiateSteps(cfg, s, first);
    LastDisputeLasts(cfg, s1, between, first.sender, first.counterparty, first.now);
    InitiateSteps(cfg, Run(cfg, s1, between), second);
    hide Inv, After, Step, Run;
  }

  // ----- counter-proposals cost more each time -----

  /** The n-th counter-proposal burns 0.01 ether times 2^(n-1), and keeps what was sent beyond that. */
  lemma CounterFee(cfg: Config, s: System, now: nat, sender: Address, id: DisputeId, evidence: nat, value: nat)
    requires Inv(cfg, s) && CounterPropose(s.w, now, sender, id, evidence, value).Some?
    ensures id in s.w.disputes
    ensures var w, w' := s.w, CounterPropose(s.w, now, sender, id, evidence, value).value;
      var fee := COUNTER_FEE_BASE * Ilrm.Pow2(w.disputes[id].counterCount);
      && w'.treasury + fee == w.treasury + value && w'.treasury >= w.treasury
      && w'.ethBalance + fee == w.ethBalance + value
      && FeesBurned(w'.events, id) == FeesBurned(w.events, id) + fee
  {
    hide Inv, Ilrm.Pow2, FeesBurned;
    var w' := CounterPropose(s.w, now, sender, id, evidence, value).value;
    LogSnoc(s.w.events, w'.events[|s.w.events|], id);
  }

  // ----- the fallback licence -----

  /** A timeout puts exactly the dispute's frozen assets under the initiator's fallback terms. */
  lemma TimeoutRelicenses(cfg: Config, s: System, now: nat, id: DisputeId, a: R.AssetId)
    requires Inv(cfg, s) && EnforceTimeout(cfg, s.w, now, id).Some? && a in s.w.registry.assets
    ensures id in s.w.disputes && a in EnforceTimeout(cfg, s.w, now, id).value.registry.assets
    ensures EnforceTimeout(cfg, s.w, now, id).value.registry.assets[a].licenseTermsHash
         == if a in R.FrozenList(s.w.registry, id) then s.w.disputes[id].fallbackLicense.termsHash
            else s.w.registry.assets[a].licenseTermsHash
  {
    TimeoutRegistry(cfg, s.w, now, id);
    hide EnforceTimeout, Inv;
  }
}
