/**
 * The dispute contract as an object with storage, calling the token and the asset registry it was
 * deployed with. Each external function takes the steps of contracts/ILRM.sol in order; a revert
 * puts back the storage of all three contracts. The contracts here tie every call to the step
 * functions of module Ilrm, and every transaction to the composed system of module Protocol.
 */
module IlrmContract {
  import opened Wrappers
  import opened Ledger
  import opened Ilrm
  import opened Protocol
  import opened Guarantees
  import R = AssetRegistry

  class ILRM {
    const cfg: Config
    const token: Token
    const assetRegistry: R.AssetRegistryContract

    var disputes: map<DisputeId, Dispute>
    var disputeCounter: nat
    var lastDisputeTime: map<(Address, Address), nat>
    var treasury: nat
    var tokenReserves: nat
    var ethBalance: nat
    var paused: bool
    var events: seq<Event>

    constructor (cfg: Config, token: Token, assetRegistry: R.AssetRegistryContract)
      ensures this.cfg == cfg && this.token == token && this.assetRegistry == assetRegistry
      ensures State() == World(token.balances, assetRegistry.State(), map[], 0, map[], 0, 0, 0, false, [])
    {
      this.cfg, this.token, this.assetRegistry := cfg, token, assetRegistry;
      disputes, disputeCounter, lastDisputeTime := map[], 0, map[];
      treasury, tokenReserves, ethBalance, paused, events := 0, 0, 0, false, [];
    }

    function State(): World
      reads this, token, assetRegistry
    {
      World(token.balances, assetRegistry.State(), disputes, disputeCounter, lastDisputeTime,
            treasury, tokenReserves, ethBalance, paused, events)
    }

    /** What a revert does. */
    method Restore(w: World)
      modifies this, token, assetRegistry
      ensures State() == w
    {
      token.balances := w.ledger;
      assetRegistry.Restore(w.registry);
      disputes, disputeCounter, lastDisputeTime := w.disputes, w.disputeCounter, w.lastDisputeTime;
      treasury, tokenReserves, ethBalance := w.treasury, w.tokenReserves, w.ethBalance;
      paused, events := w.paused, w.events;
    }

    method GetEscalatedStake(now: nat, initiator: Address, counterparty: Address, baseStake: nat)
      returns (stake: Option<nat>)
      ensures stake == EscalatedStake(lastDisputeTime, now, initiator, counterparty, baseStake)
    {
      var lastDispute := 0;
      if (initiator, counterparty) in lastDisputeTime {
        lastDispute := lastDisputeTime[(initiator, counterparty)];
      }
      if lastDispute > 0 && now < lastDispute + COOLDOWN_PERIOD {
        if baseStake * ESCALATION_MULTIPLIER > MAX_UINT256 {
          return None;
        }
        return Some(baseStake * ESCALATION_MULTIPLIER / 100);
      }
      return Some(baseStake);
    }

    method InitiateBreachDispute(
        now: nat, sender: Address, counterparty: Address, stakeAmount: nat, evidenceHash: nat,
        fallbackLicense: FallbackLicense, approved: bool)
      returns (ok: bool)
      requires R.IndexInv(assetRegistry.State())
      modifies this, token, assetRegistry
      ensures var r := Ilrm.InitiateBreachDispute(
          cfg, old(State()), now, sender, counterparty, stakeAmount, evidenceHash, fallbackLicense, approved);
        && ok == r.Some?
        && State() == if ok then r.value else old(State())
    {
      hide R.IndexInv, TransferFrom, R.FreezeAssets, EscalatedStake;
      var before := State();
      if paused || counterparty == 0 || counterparty == sender || stakeAmount == 0 || !fallbackLicense.nonExclusive {
        return false;
      }
      var escalated := GetEscalatedStake(now, sender, counterparty, stakeAmount);
      if escalated.None? {
        return false;
      }
      var stake := escalated.value;
      ok := token.SafeTransferFrom(sender, cfg.self, stake, approved);
      if !ok {
        return;
      }
      var id := disputeCounter;
      disputeCounter := disputeCounter + 1;
      disputes := disputes[id := Dispute(sender, counterparty, stake, 0, now, evidenceHash, "", false, false, false,
                                         Pending, fallbackLicense, 0)];
      ok := assetRegistry.DoFreezeAssets(cfg.self, now, id, sender);
      if !ok {
        Restore(before);
        return;
      }
      lastDisputeTime := lastDisputeTime[(sender, counterparty) := now];
      events := events + [Initiated(id, now)];
    }

    method DepositStake(now: nat, sender: Address, id: DisputeId, approved: bool) returns (ok: bool)
      modifies this, token
      ensures var r := Ilrm.DepositStake(cfg, old(State()), now, sender, id, approved);
        && ok == r.Some?
        && State() == if ok then r.value else old(State())
    {
      hide TransferFrom;
      var d := DisputeAt(disputes, id);
      if paused || sender != d.counterparty || d.counterpartyStake != 0 || d.resolved
        || now > d.startTime + STAKE_WINDOW {
        return false;
      }
      ok := token.SafeTransferFrom(sender, cfg.self, d.initiatorStake, approved);
      if ok {
        disputes := disputes[id := d.(counterpartyStake := d.initiatorStake)];
        events := events + [Staked(id, now)];
      }
    }

    method SubmitLLMProposal(now: nat, sender: Address, id: DisputeId, proposal: string, signatureValid: bool)
      returns (ok: bool)
      modifies this
      ensures var r := Ilrm.SubmitLLMProposal(cfg, old(State()), now, sender, id, proposal, signatureValid);
        && ok == r.Some?
        && State() == if ok then r.value else old(State())
    {
      var d := DisputeAt(disputes, id);
      if sender != cfg.oracle || d.counterpartyStake == 0 || d.resolved || |proposal| == 0 || !signatureValid {
        return false;
      }
      disputes := disputes[id := d.(llmProposal := proposal)];
      events := events + [Proposed(id, proposal, now)];
      return true;
    }

    method AcceptProposal(now: nat, sender: Address, id: DisputeId) returns (ok: bool)
      requires R.FreezeInv(assetRegistry.State())
      modifies this, token, assetRegistry
      ensures var r := Ilrm.AcceptProposal(cfg, old(State()), now, sender, id);
        && ok == r.Some?
        && State() == if ok then r.value else old(State())
    {
      hide R.FreezeInv, Ilrm.ResolveAccepted;
      var before := State();
      var d := DisputeAt(disputes, id);
      if d.resolved || |d.llmProposal| == 0 || now > d.startTime + RESOLUTION_TIMEOUT {
        return false;
      }
      if sender == d.initiator {
        if d.initiatorAccepted {
          return false;
        }
        d := d.(initiatorAccepted := true);
      } else if sender == d.counterparty {
        if d.counterpartyAccepted {
          return false;
        }
        d := d.(counterpartyAccepted := true);
      } else {
        return false;
      }
      disputes := disputes[id := d];
      events := events + [Accepted(id, sender, now)];
      ok := true;
      if d.initiatorAccepted && d.counterpartyAccepted {
        ok := ResolveAccepted(now, id);
        if !ok {
          Restore(before);
        }
      }
    }

    method CounterPropose(now: nat, sender: Address, id: DisputeId, newEvidenceHash: nat, value: nat)
      returns (ok: bool)
      modifies this
      ensures var r := Ilrm.CounterPropose(old(State()), now, sender, id, newEvidenceHash, value);
        && ok == r.Some?
        && State() == if ok then r.value else old(State())
    {
      hide Pow2;
      var d := DisputeAt(disputes, id);
      if paused || (sender != d.initiator && sender != d.counterparty) || d.resolved || d.counterpartyStake == 0
        || d.counterCount >= MAX_COUNTERS {
        return false;
      }
      var fee := COUNTER_FEE_BASE * Pow2(d.counterCount);
      if value < fee {
        return false;
      }
      ethBalance := ethBalance + value - fee;
      if value > fee {
        treasury := treasury + (value - fee);
      }
      d := d.(counterCount := d.counterCount + 1, evidenceHash := newEvidenceHash);
      d := d.(initiatorAccepted := false, counterpartyAccepted := false, llmProposal := "");
      if d.counterCount * ONE_DAY <= MAX_TIME_EXTENSION {
        d := d.(startTime := d.startTime + ONE_DAY);
      }
      disputes := disputes[id := d];
      events := events + [Countered(id, fee, now)];
      return true;
    }

    method EnforceTimeout(now: nat, id: DisputeId) returns (ok: bool)
      requires R.FreezeInv(assetRegistry.State())
      modifies this, token, assetRegistry
      ensures var r := Ilrm.EnforceTimeout(cfg, old(State()), now, id);
        && ok == r.Some?
        && State() == if ok then r.value else old(State())
    {
      hide R.FreezeInv, Ilrm.ResolveNonParticipation, Ilrm.ResolveTimeout;
      var before := State();
      var d := DisputeAt(disputes, id);
      if d.resolved {
        return false;
      }
      if d.counterpartyStake == 0 {
        if now <= d.startTime + STAKE_WINDOW {
          return false;
        }
        ok := ResolveNonParticipation(now, id);
      } else {
        if now <= d.startTime + RESOLUTION_TIMEOUT {
          return false;
        }
        ok := ResolveTimeout(now, id);
      }
      if !ok {
        Restore(before);
      }
    }

    // ----- resolution; a failure here reverts the external function that called it -----

    method ResolveAccepted(now: nat, id: DisputeId) returns (ok: bool)
      requires R.FreezeInv(assetRegistry.State())
      modifies this, token, assetRegistry
      ensures var r := Ilrm.ResolveAccepted(cfg, old(State()), now, id);
        && ok == r.Some?
        && (ok ==> State() == r.value)
    {
      hide R.FreezeInv, Transfer, R.UnfreezeAssets;
      var d := DisputeAt(disputes, id);
      disputes := disputes[id := d.(resolved := true, outcome := AcceptedProposal)];
      ok := token.SafeTransfer(cfg.self, d.initiator, d.initiatorStake);
      if !ok {
        return;
      }
      ok := token.SafeTransfer(cfg.self, d.counterparty, d.counterpartyStake);
      if !ok {
        return;
      }
      ok := assetRegistry.DoUnfreezeAssets(cfg.self, now, id);
      events := events + [Resolved(id, AcceptedProposal, d.initiatorStake, d.counterpartyStake, 0, tokenReserves,
                                 now)];
    }

    method ResolveNonParticipation(now: nat, id: DisputeId) returns (ok: bool)
      requires R.FreezeInv(assetRegistry.State())
      modifies this, token, assetRegistry
      ensures var r := Ilrm.ResolveNonParticipation(cfg, old(State()), now, id);
        && ok == r.Some?
        && (ok ==> State() == r.value)
    {
      hide R.FreezeInv, Transfer, R.UnfreezeAssets, R.ApplyFallbackLicense;
      var d := DisputeAt(disputes, id);
      disputes := disputes[id := d.(resolved := true, outcome := DefaultLicenseApplied)];
      if d.initiatorStake * INITIATOR_INCENTIVE_BPS > MAX_UINT256 {
        return false;
      }
      var incentive := d.initiatorStake * INITIATOR_INCENTIVE_BPS / 10000;
      var paid, reserves := d.initiatorStake, tokenReserves;
      if tokenReserves >= incentive {
        tokenReserves := tokenReserves - incentive;
        paid := d.initiatorStake + incentive;
      }
      ok := token.SafeTransfer(cfg.self, d.initiator, paid);
      if !ok {
        return;
      }
      ok := ReleaseUnderFallback(now, id, d.fallbackLicense.termsHash);
      events := events + [Resolved(id, DefaultLicenseApplied, paid, 0, 0, reserves, now)];
    }

    method ResolveTimeout(now: nat, id: DisputeId) returns (ok: bool)
      requires R.FreezeInv(assetRegistry.State())
      modifies this, token, assetRegistry
      ensures var r := Ilrm.ResolveTimeout(cfg, old(State()), now, id);
        && ok == r.Some?
        && (ok ==> State() == r.value)
    {
      hide R.FreezeInv, TimeoutTransfers, R.UnfreezeAssets, R.ApplyFallbackLicense;
      var d := DisputeAt(disputes, id);
      disputes := disputes[id := d.(resolved := true, outcome := TimeoutWithBurn)];
      var totalStake := d.initiatorStake + d.counterpartyStake;
      if totalStake * BURN_PERCENTAGE > MAX_UINT256 {
        return false;
      }
      var burnAmount := totalStake * BURN_PERCENTAGE / 100;
      var remainder := totalStake - burnAmount;
      var returnPerParty := remainder / 2;
      var dust := remainder - returnPerParty * 2;
      ok := BurnAndReturn(d, burnAmount, returnPerParty, dust);
      if !ok {
        return;
      }
      ok := ReleaseUnderFallback(now, id, d.fallbackLicense.termsHash);
      events := events + [Resolved(id, TimeoutWithBurn, returnPerParty, returnPerParty, burnAmount + dust,
                                 tokenReserves, now)];
    }

    method BurnAndReturn(d: Dispute, burned: nat, each: nat, dust: nat) returns (ok: bool)
      modifies token
      ensures var r := TimeoutTransfers(old(token.balances), cfg.self, d, burned, each, dust);
        && ok == r.Some?
        && (ok ==> token.balances == r.value)
    {
      hide Transfer;
      ok := token.SafeTransfer(cfg.self, BURN_ADDRESS, burned);
      if !ok {
        return;
      }
      ok := token.SafeTransfer(cfg.self, d.initiator, each);
      if !ok {
        return;
      }
      ok := token.SafeTransfer(cfg.self, d.counterparty, each);
      if !ok {
        return;
      }
      if dust > 0 {
        ok := token.SafeTransfer(cfg.self, BURN_ADDRESS, dust);
      }
    }

    /** The last two calls of both timeouts: the fallback licence, then the release. */
    method ReleaseUnderFallback(now: nat, id: DisputeId, termsHash: nat) returns (ok: bool)
      requires R.FreezeInv(assetRegistry.State())
      modifies assetRegistry
      ensures var relicensed := R.ApplyFallbackLicense(old(assetRegistry.State()), cfg.self, now, id, termsHash);
        && ok == (relicensed.Some? && R.UnfreezeAssets(relicensed.value, cfg.self, now, id).Some?)
        && (ok ==> assetRegistry.State() == R.UnfreezeAssets(relicensed.value, cfg.self, now, id).value)
    {
      ghost var r := assetRegistry.State();
      ok := assetRegistry.DoApplyFallbackLicense(cfg.self, now, id, termsHash);
      if ok {
        R.SameFreezesKeepsFreeze(r, assetRegistry.State());
        hide R.FreezeInv, R.UnfreezeAssets, R.ApplyFallbackLicense;
        ok := assetRegistry.DoUnfreezeAssets(cfg.self, now, id);
      }
    }

    // ----- reserves, treasury and administration -----

    method DepositTokenReserves(sender: Address, amount: nat, approved: bool) returns (ok: bool)
      modifies this, token
      ensures var r := Ilrm.DepositTokenReserves(cfg, old(State()), sender, amount, approved);
        && ok == r.Some?
        && State() == if ok then r.value else old(State())
    {
      hide TransferFrom;
      if amount == 0 {
        return false;
      }
      var balances := token.balances;
      ok := token.SafeTransferFrom(sender, cfg.self, amount, approved);
      if !ok {
        return;
      }
      if tokenReserves + amount > MAX_UINT256 {
        token.balances := balances;
        return false;
      }
      tokenReserves := tokenReserves + amount;
    }

    method WithdrawTreasury(sender: Address, to: Address, amount: nat, callSucceeds: bool) returns (ok: bool)
      modifies this
      ensures var r := Ilrm.WithdrawTreasury(cfg, old(State()), sender, to, amount, callSucceeds);
        && ok == r.Some?
        && State() == if ok then r.value else old(State())
    {
      if sender != cfg.owner || amount > treasury || to == 0 {
        return false;
      }
      treasury := treasury - amount;
      if amount > ethBalance || !callSucceeds {
        treasury := treasury + amount;
        return false;
      }
      ethBalance := ethBalance - amount;
      if to == cfg.self {
        Receive(amount);
      }
      return true;
    }

    method Receive(value: nat)
      modifies this
      ensures Ilrm.Receive(old(State()), value) == Some(State())
    {
      ethBalance := ethBalance + value;
      treasury := treasury + value;
    }

    method SetPaused(sender: Address, value: bool) returns (ok: bool)
      modifies this
      ensures var r := Ilrm.SetPaused(cfg, old(State()), sender, value);
        && ok == r.Some?
        && State() == if ok then r.value else old(State())
    {
      ok := sender == cfg.owner && paused != value;
      if ok {
        paused := value;
      }
    }

    // ----- transactions -----

    /** One transaction takes the three contracts to the next state of the composed system. */
    method Execute(c: Call, ghost donated: nat)
      requires Inv(cfg, System(State(), donated))
      modifies this, token, assetRegistry
      ensures State() == After(cfg, System(old(State()), donated), c).w
    {
      hide HistoryInv, MoneyInv, R.IndexInv, R.FreezeInv;
      hide Ilrm.InitiateBreachDispute, Ilrm.DepositStake, Ilrm.SubmitLLMProposal, Ilrm.AcceptProposal;
      hide Ilrm.CounterPropose, Ilrm.EnforceTimeout, Ilrm.DepositTokenReserves, Ilrm.WithdrawTreasury;
      hide R.RegisterAsset, R.TransferAsset, Transfer;
      assert R.IndexInv(assetRegistry.State()) && R.FreezeInv(assetRegistry.State());
      hide FreezesInv;
      if c.sender == 0 || c.sender == cfg.self {
        return;
      }
      var ok: bool;
      match c
      case TokenTransfer(sender, to, amount) => ok := token.SafeTransfer(sender, to, amount);
      case RegisterAsset(sender, now, asset, owner, terms) =>
        ok := assetRegistry.DoRegisterAsset(sender, now, asset, owner, terms);
      case TransferAsset(sender, now, asset, newOwner) =>
        ok := assetRegistry.DoTransferAsset(sender, now, asset, newOwner);
      case Initiate(sender, now, counterparty, stake, evidence, fallbackLicense, approved) =>
        ok := InitiateBreachDispute(now, sender, counterparty, stake, evidence, fallbackLicense, approved);
      case Request(_, _, _) =>
      case Stake(sender, now, id, approved) => ok := DepositStake(now, sender, id, approved);
      case Propose(sender, now, id, proposal, valid) => ok := SubmitLLMProposal(now, sender, id, proposal, valid);
      case Accept(sender, now, id) => ok := AcceptProposal(now, sender, id);
      case Counter(sender, now, id, evidence, value) => ok := CounterPropose(now, sender, id, evidence, value);
      case Enforce(_, now, id) => ok := EnforceTimeout(now, id);
      case DepositReserves(sender, amount, approved) => ok := DepositTokenReserves(sender, amount, approved);
      case Withdraw(sender, to, amount, succeeds) => ok := WithdrawTreasury(sender, to, amount, succeeds);
      case SendEther(_, value) => Receive(value);
      case Pause(sender, value) => ok := SetPaused(sender, value);
    }

    /** Any sequence of transactions takes them to the end of the run. */
    method ExecuteAll(calls: seq<Call>, ghost donated: nat)
      requires Inv(cfg, System(State(), donated))
      modifies this, token, assetRegistry
      ensures State() == Run(cfg, System(old(State()), donated), calls).w
    {
      hide Inv, After;
      ghost var start := System(State(), donated);
      ghost var s := start;
      for i := 0 to |calls|
        invariant Inv(cfg, s) && State() == s.w
        invariant Run(cfg, start, calls) == Run(cfg, s, calls[i..])
      {
        Execute(calls[i], s.donated);
        assert s == System(s.w, s.donated);
        s := After(cfg, s, calls[i]);
        assert calls[i..][1..] == calls[i + 1..];
      }
    }

    /**
     * A registry that authorises the dispute contract, and the dispute contract, as a run begins; an
     * oracle at the zero address is refused.
     */
    static method Deploy(cfg: Config, token: Token) returns (r: Option<ILRM>)
      requires ValidConfig(cfg)
      ensures r.Some? <==> cfg.oracle != 0
      ensures r.Some? ==>
                && r.value.cfg == cfg && r.value.token == token
                && r.value.State() == Genesis(cfg, token.balances).w
                && Inv(cfg, System(r.value.State(), BalanceOf(token.balances, cfg.self)))
    {
      if cfg.oracle == 0 {
        return None;
      }
      var assetRegistry := new R.AssetRegistryContract(cfg.owner);
      var _ := assetRegistry.DoAuthorizeILRM(cfg.owner, cfg.self);
      var contract := new ILRM(cfg, token, assetRegistry);
      assert contract.State() == Genesis(cfg, token.balances).w;
      hide Inv;
      assert System(contract.State(), BalanceOf(token.balances, cfg.self)) == Genesis(cfg, token.balances);
      return Some(contract);
    }
  }
}
