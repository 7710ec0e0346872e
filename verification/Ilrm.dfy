/**
 * The dispute contract (contracts/ILRM.sol): stakes, deadlines, counter-proposals and the three ways
 * a dispute ends. Every external function is a step from one world to the next; `None` is a revert,
 * which leaves the world as it was.
 */
module Ilrm {
  import opened Wrappers
  import opened Ledger
  import R = AssetRegistry

  const BURN_ADDRESS: Address := 0xdead
  const MAX_COUNTERS: nat := 3
  const BURN_PERCENTAGE: nat := 50
  const ONE_DAY: nat := 86400
  const STAKE_WINDOW: nat := 3 * ONE_DAY
  const RESOLUTION_TIMEOUT: nat := 7 * ONE_DAY
  const COUNTER_FEE_BASE: nat := 10_000_000_000_000_000
  const INITIATOR_INCENTIVE_BPS: nat := 1000
  const ESCALATION_MULTIPLIER: nat := 150
  const COOLDOWN_PERIOD: nat := 30 * ONE_DAY
  const MAX_TIME_EXTENSION: nat := 3 * ONE_DAY

  type DisputeId = nat

  datatype Outcome = Pending | AcceptedProposal | TimeoutWithBurn | DefaultLicenseApplied

  datatype FallbackLicense = FallbackLicense(termsHash: nat, nonExclusive: bool)

  datatype Dispute = Dispute(
    initiator: Address, counterparty: Address,
    initiatorStake: nat, counterpartyStake: nat,
    startTime: nat, evidenceHash: nat, llmProposal: string,
    initiatorAccepted: bool, counterpartyAccepted: bool,
    resolved: bool, outcome: Outcome, fallbackLicense: FallbackLicense, counterCount: nat)

  /** What storage holds for a dispute that was never created. */
  const NO_DISPUTE: Dispute :=
    Dispute(0, 0, 0, 0, 0, 0, "", false, false, false, Pending, FallbackLicense(0, false), 0)

  /** The event log, with the amounts moved, the reserves before a payout and the time of each event. */
  datatype Event =
    | Initiated(id: DisputeId, at: nat)
    | Staked(id: DisputeId, at: nat)
    | Proposed(id: DisputeId, text: string, at: nat)
    | Accepted(id: DisputeId, who: Address, at: nat)
    | Countered(id: DisputeId, fee: nat, at: nat)
    | Resolved(id: DisputeId, outcome: Outcome, toInitiator: nat, toCounterparty: nat, burned: nat,
               reserves: nat, at: nat)

  /** The addresses fixed at deployment. */
  datatype Config = Config(self: Address, oracle: Address, owner: Address)

  datatype World = World(
    ledger: Balances, registry: R.Registry,
    disputes: map<DisputeId, Dispute>, disputeCounter: nat,
    lastDisputeTime: map<(Address, Address), nat>,
    treasury: nat, tokenReserves: nat, ethBalance: nat, paused: bool,
    events: seq<Event>)

  function DisputeAt(disputes: map<DisputeId, Dispute>, id: DisputeId): Dispute {
    if id in disputes then disputes[id] else NO_DISPUTE
  }

  function EscalatedStake(
      lastDisputeTime: map<(Address, Address), nat>, now: nat,
      initiator: Address, counterparty: Address, baseStake: nat): Option<nat>
  {
    var last := if (initiator, counterparty) in lastDisputeTime then lastDisputeTime[(initiator, counterparty)] else 0;
    if last > 0 && now < last + COOLDOWN_PERIOD then
      :- Require(baseStake * ESCALATION_MULTIPLIER <= MAX_UINT256);
      Some(baseStake * ESCALATION_MULTIPLIER / 100)
    else
      Some(baseStake)
  }

  function InitiateBreachDispute(
      cfg: Config, w: World, now: nat, sender: Address, counterparty: Address, stakeAmount: nat,
      evidenceHash: nat, fallbackLicense: FallbackLicense, approved: bool): Option<World>
  {
    if w.paused then
      None
    else
      :- Require(counterparty != 0 && counterparty != sender && stakeAmount > 0 && fallbackLicense.nonExclusive);
      var escalated :- EscalatedStake(w.lastDisputeTime, now, sender, counterparty, stakeAmount);
      var ledger :- TransferFrom(w.ledger, sender, cfg.self, escalated, approved);
      var id := w.disputeCounter;
      var registry :- R.FreezeAssets(w.registry, cfg.self, now, id, sender);
      var d := Dispute(sender, counterparty, escalated, 0, now, evidenceHash, "", false, false, false, Pending,
                       fallbackLicense, 0);
      Some(w.(ledger := ledger, registry := registry,
              disputes := w.disputes[id := d], disputeCounter := id + 1,
              lastDisputeTime := w.lastDisputeTime[(sender, counterparty) := now],
              events := w.events + [Initiated(id, now)]))
  }

  /** A voluntary request burns the ether sent with it and changes nothing else. */
  function InitiateVoluntaryRequest(w: World, counterparty: Address, value: nat): Option<World> {
    if counterparty != 0 && value >= COUNTER_FEE_BASE then
      Some(w)
    else
      None
  }

  function DepositStake(
      cfg: Config, w: World, now: nat, sender: Address, id: DisputeId, approved: bool): Option<World>
  {
    if w.paused then
      None
    else
      var d := DisputeAt(w.disputes, id);
      :- Require(sender == d.counterparty && d.counterpartyStake == 0 && !d.resolved);
      :- Require(now <= d.startTime + STAKE_WINDOW);
      var ledger :- TransferFrom(w.ledger, sender, cfg.self, d.initiatorStake, approved);
      Some(w.(ledger := ledger,
              disputes := w.disputes[id := d.(counterpartyStake := d.initiatorStake)],
              events := w.events + [Staked(id, now)]))
  }

  /** `signatureValid` is the oracle contract's verdict on the signature. */
  function SubmitLLMProposal(
      cfg: Config, w: World, now: nat, sender: Address, id: DisputeId, proposal: string,
      signatureValid: bool): Option<World>
  {
    var d := DisputeAt(w.disputes, id);
    :- Require(sender == cfg.oracle && d.counterpartyStake > 0 && !d.resolved && |proposal| > 0 && signatureValid);
    Some(w.(disputes := w.disputes[id := d.(llmProposal := proposal)],
            events := w.events + [Proposed(id, proposal, now)]))
  }

  function AcceptProposal(cfg: Config, w: World, now: nat, sender: Address, id: DisputeId): Option<World> {
    var d := DisputeAt(w.disputes, id);
    :- Require(!d.resolved && |d.llmProposal| > 0 && now <= d.startTime + RESOLUTION_TIMEOUT);
    :- Require(sender == d.initiator || sender == d.counterparty);
    :- Require(if sender == d.initiator then !d.initiatorAccepted else !d.counterpartyAccepted);
    var accepted :=
      if sender == d.initiator then d.(initiatorAccepted := true) else d.(counterpartyAccepted := true);
    var w' := w.(disputes := w.disputes[id := accepted], events := w.events + [Accepted(id, sender, now)]);
    if accepted.initiatorAccepted && accepted.counterpartyAccepted then ResolveAccepted(cfg, w', now, id)
    else Some(w')
  }

  /** 2^n */
  function Pow2(n: nat): (r: nat)
    ensures r >= 1
  {
    if n == 0 then 1 else 2 * Pow2(n - 1)
  }

  function CounterPropose(
      w: World, now: nat, sender: Address, id: DisputeId, evidenceHash: nat, value: nat): Option<World>
  {
    if w.paused then
      None
    else
      var d := DisputeAt(w.disputes, id);
      :- Require(sender == d.initiator || sender == d.counterparty);
      :- Require(!d.resolved && d.counterpartyStake > 0 && d.counterCount < MAX_COUNTERS);
      var fee := COUNTER_FEE_BASE * Pow2(d.counterCount);
      :- Require(value >= fee);
      var count := d.counterCount + 1;
      var extension := if count * ONE_DAY <= MAX_TIME_EXTENSION then ONE_DAY else 0;
      Some(w.(ethBalance := w.ethBalance + value - fee, treasury := w.treasury + value - fee,
              disputes := w.disputes[id := d.(
                counterCount := count, evidenceHash := evidenceHash, llmProposal := "",
                initiatorAccepted := false, counterpartyAccepted := false,
                startTime := d.startTime + extension)],
              events := w.events + [Countered(id, fee, now)]))
  }

  function EnforceTimeout(cfg: Config, w: World, now: nat, id: DisputeId): Option<World> {
    var d := DisputeAt(w.disputes, id);
    :- Require(!d.resolved);
    if d.counterpartyStake == 0 then
      :- Require(now > d.startTime + STAKE_WINDOW);
      ResolveNonParticipation(cfg, w, now, id)
    else
      :- Require(now > d.startTime + RESOLUTION_TIMEOUT);
      ResolveTimeout(cfg, w, now, id)
  }

  // ----- resolution -----

  function WithResolved(
      w: World, now: nat, id: DisputeId, outcome: Outcome, toInitiator: nat, toCounterparty: nat, burned: nat): World
  {
    var d := DisputeAt(w.disputes, id);
    w.(disputes := w.disputes[id := d.(resolved := true, outcome := outcome)],
       events := w.events + [Resolved(id, outcome, toInitiator, toCounterparty, burned, w.tokenReserves, now)])
  }

  function ResolveAccepted(cfg: Config, w: World, now: nat, id: DisputeId): Option<World> {
    var d := DisputeAt(w.disputes, id);
    var ledger1 :- Transfer(w.ledger, cfg.self, d.initiator, d.initiatorStake);
    var ledger2 :- Transfer(ledger1, cfg.self, d.counterparty, d.counterpartyStake);
    var registry :- R.UnfreezeAssets(w.registry, cfg.self, now, id);
    Some(WithResolved(w, now, id, AcceptedProposal, d.initiatorStake, d.counterpartyStake, 0)
         .(ledger := ledger2, registry := registry))
  }

  function ResolveNonParticipation(cfg: Config, w: World, now: nat, id: DisputeId): Option<World> {
    var d := DisputeAt(w.disputes, id);
    :- Require(d.initiatorStake * INITIATOR_INCENTIVE_BPS <= MAX_UINT256);
    var incentive := d.initiatorStake * INITIATOR_INCENTIVE_BPS / 10000;
    var paid := if w.tokenReserves >= incentive then incentive else 0;
    var ledger :- Transfer(w.ledger, cfg.self, d.initiator, d.initiatorStake + paid);
    var relicensed :- R.ApplyFallbackLicense(w.registry, cfg.self, now, id, d.fallbackLicense.termsHash);
    var registry :- R.UnfreezeAssets(relicensed, cfg.self, now, id);
    Some(WithResolved(w, now, id, DefaultLicenseApplied, d.initiatorStake + paid, 0, 0)
         .(ledger := ledger, registry := registry, tokenReserves := w.tokenReserves - paid))
  }

  /** The transfers of a timeout, in the order the contract makes them. */
  function TimeoutTransfers(
      b: Balances, self: Address, d: Dispute, burned: nat, each: nat, dust: nat): Option<Balances>
  {
    var ledger1 :- Transfer(b, self, BURN_ADDRESS, burned);
    var ledger2 :- Transfer(ledger1, self, d.initiator, each);
    var ledger3 :- Transfer(ledger2, self, d.counterparty, each);
    if dust > 0 then Transfer(ledger3, self, BURN_ADDRESS, dust) else Some(ledger3)
  }

  function ResolveTimeout(cfg: Config, w: World, now: nat, id: DisputeId): Option<World> {
    var d := DisputeAt(w.disputes, id);
    var totalStake := d.initiatorStake + d.counterpartyStake;
    :- Require(totalStake * BURN_PERCENTAGE <= MAX_UINT256);
    var burnAmount := totalStake * BURN_PERCENTAGE / 100;
    var remainder: nat := totalStake - burnAmount;
    var returnPerParty := remainder / 2;
    var dust: nat := remainder - returnPerParty * 2;
    var ledger :- TimeoutTransfers(w.ledger, cfg.self, d, burnAmount, returnPerParty, dust);
    var relicensed :- R.ApplyFallbackLicense(w.registry, cfg.self, now, id, d.fallbackLicense.termsHash);
    var registry :- R.UnfreezeAssets(relicensed, cfg.self, now, id);
    Some(WithResolved(w, now, id, TimeoutWithBurn, returnPerParty, returnPerParty, burnAmount + dust)
         .(ledger := ledger, registry := registry))
  }

  // ----- reserves, treasury and administration -----

  function DepositTokenReserves(cfg: Config, w: World, sender: Address, amount: nat, approved: bool): Option<World> {
    if amount == 0 then
      None
    else
      var ledger :- TransferFrom(w.ledger, sender, cfg.self, amount, approved);
      :- Require(w.tokenReserves + amount <= MAX_UINT256);
      Some(w.(ledger := ledger, tokenReserves := w.tokenReserves + amount))
  }

  /** `callSucceeds` is the recipient's answer; ether sent to the contract itself comes back through `receive`. */
  function WithdrawTreasury(
      cfg: Config, w: World, sender: Address, to: Address, amount: nat, callSucceeds: bool): Option<World>
  {
    if sender != cfg.owner || amount > w.treasury || to == 0 then
      None
    else
      :- Require(amount <= w.ethBalance && callSucceeds);
      if to == cfg.self then Some(w)
      else Some(w.(treasury := w.treasury - amount, ethBalance := w.ethBalance - amount))
  }

  function Receive(w: World, value: nat): Option<World> {
    Some(w.(treasury := w.treasury + value, ethBalance := w.ethBalance + value))
  }

  function SetPaused(cfg: Config, w: World, sender: Address, paused: bool): Option<World> {
    if sender == cfg.owner && w.paused != paused then
      Some(w.(paused := paused))
    else
      None
  }
}
