/**
 * The composed system: the dispute contract with the asset registry and the token, driven by any
 * sequence of calls. The invariants here hold in every reachable state.
 */
module Protocol {
  import opened Wrappers
  import opened Ledger
  import opened Ilrm
  import R = AssetRegistry

  /** A transaction. Its sender is an account other than the dispute contract itself. */
  datatype Call =
    | TokenTransfer(sender: Address, to: Address, amount: nat)
    | RegisterAsset(sender: Address, now: nat, asset: R.AssetId, owner: Address, terms: nat)
    | TransferAsset(sender: Address, now: nat, asset: R.AssetId, newOwner: Address)
    | Initiate(sender: Address, now: nat, counterparty: Address, stake: nat, evidence: nat,
               fallbackLicense: FallbackLicense, approved: bool)
    | Request(sender: Address, counterparty: Address, value: nat)
    | Stake(sender: Address, now: nat, id: DisputeId, approved: bool)
    | Propose(sender: Address, now: nat, id: DisputeId, proposal: string, signatureValid: bool)
    | Accept(sender: Address, now: nat, id: DisputeId)
    | Counter(sender: Address, now: nat, id: DisputeId, evidence: nat, value: nat)
    | Enforce(sender: Address, now: nat, id: DisputeId)
    | DepositReserves(sender: Address, amount: nat, approved: bool)
    | Withdraw(sender: Address, to: Address, amount: nat, callSucceeds: bool)
    | SendEther(sender: Address, value: nat)
    | Pause(sender: Address, paused: bool)

  ghost function Step(cfg: Config, w: World, call: Call): Option<World>
    requires R.IndexInv(w.registry)
  {
    if call.sender == 0 || call.sender == cfg.self then
      None
    else
      match call
      case TokenTransfer(sender, to, amount) =>
        var ledger :- Transfer(w.ledger, sender, to, amount);
        Some(w.(ledger := ledger))
      case RegisterAsset(sender, now, asset, owner, terms) =>
        var registry :- R.RegisterAsset(w.registry, sender, now, asset, owner, terms);
        Some(w.(registry := registry))
      case TransferAsset(sender, now, asset, newOwner) =>
        var registry :- R.TransferAsset(w.registry, sender, now, asset, newOwner);
        Some(w.(registry := registry))
      case Initiate(sender, now, counterparty, stake, evidence, fallbackLicense, approved) =>
        InitiateBreachDispute(cfg, w, now, sender, counterparty, stake, evidence, fallbackLicense, approved)
      case Request(_, counterparty, value) => InitiateVoluntaryRequest(w, counterparty, value)
      case Stake(sender, now, id, approved) => DepositStake(cfg, w, now, sender, id, approved)
      case Propose(sender, now, id, proposal, valid) => SubmitLLMProposal(cfg, w, now, sender, id, proposal, valid)
      case Accept(sender, now, id) => AcceptProposal(cfg, w, now, sender, id)
      case Counter(sender, now, id, evidence, value) => CounterPropose(w, now, sender, id, evidence, value)
      case Enforce(_, now, id) => EnforceTimeout(cfg, w, now, id)
      case DepositReserves(sender, amount, approved) => DepositTokenReserves(cfg, w, sender, amount, approved)
      case Withdraw(sender, to, amount, succeeds) => WithdrawTreasury(cfg, w, sender, to, amount, succeeds)
      case SendEther(_, value) => Receive(w, value)
      case Pause(sender, paused) => SetPaused(cfg, w, sender, paused)
  }

  /** Tokens sent straight to the dispute contract by this call. */
  function Donation(cfg: Config, call: Call): nat {
    if call.TokenTransfer? && call.to == cfg.self then call.amount else 0
  }

  // ----- what the event log says about a dispute -----

  /** The time of the dispute's creation. */
  function CreatedAt(events: seq<Event>, id: DisputeId): nat {
    if events == [] then 0
    else
      var n := |events| - 1;
      if events[n].Initiated? && events[n].id == id then events[n].at else CreatedAt(events[..n], id)
  }

  function FeesBurned(events: seq<Event>, id: DisputeId): nat {
    if events == [] then 0
    else
      var n := |events| - 1;
      FeesBurned(events[..n], id) + (if events[n].Countered? && events[n].id == id then events[n].fee else 0)
  }

  /** How often the dispute was paid out. */
  function Payouts(events: seq<Event>, id: DisputeId): nat {
    if events == [] then 0
    else
      var n := |events| - 1;
      Payouts(events[..n], id) + (if events[n].Resolved? && events[n].id == id then 1 else 0)
  }

  /** `who` accepted after the dispute's latest counter-proposal, no later than `deadline`. */
  predicate AcceptedSince(events: seq<Event>, id: DisputeId, who: Address, deadline: nat) {
    if events == [] then false
    else
      var n := |events| - 1;
      var e := events[n];
      if e.Countered? && e.id == id then false
      else if e.Accepted? && e.id == id && e.who == who then e.at <= deadline
      else AcceptedSince(events[..n], id, who, deadline)
  }

  /** The proposal on the table: the latest text, unless a counter-proposal has cleared it since. */
  function TextIn(events: seq<Event>, id: DisputeId): string {
    if events == [] then ""
    else
      var n := |events| - 1;
      var e := events[n];
      if e.Proposed? && e.id == id then e.text
      else if e.Countered? && e.id == id then ""
      else TextIn(events[..n], id)
  }

  /** Entry `i` is the dispute's last acceptance by `who`, with no counter-proposal after it. */
  ghost predicate StandingAcceptance(events: seq<Event>, i: nat, id: DisputeId, who: Address) {
    && i < |events|
    && events[i].Accepted? && events[i].id == id && events[i].who == who
    && forall j :: i < j < |events| && events[j].id == id ==>
         !events[j].Countered? && !(events[j].Accepted? && events[j].who == who)
  }

  /** What `AcceptedSince` says: a standing acceptance is in the log, and it came in time. */
  lemma {:induction false} AcceptedSinceMeans(events: seq<Event>, id: DisputeId, who: Address, deadline: nat)
    ensures AcceptedSince(events, id, who, deadline)
       <==> exists i: nat :: StandingAcceptance(events, i, id, who) && events[i].at <= deadline
  {
    if events != [] {
      var n := |events| - 1;
      var init, e := events[..n], events[n];
      AcceptedSinceMeans(init, id, who, deadline);
      forall i | 0 <= i < n
        ensures events[i] == init[i]
      {
      }
      if e.Accepted? && e.id == id && e.who == who {
        assert StandingAcceptance(events, n, id, who);
        forall i: nat | StandingAcceptance(events, i, id, who)
          ensures i == n
        {
        }
      } else if e.Countered? && e.id == id {
        forall i: nat
          ensures !StandingAcceptance(events, i, id, who)
        {
        }
      } else {
        forall i: nat
          ensures StandingAcceptance(events, i, id, who) <==> StandingAcceptance(init, i, id, who)
        {
        }
      }
    }
  }

  // ----- per-dispute invariant -----

  /** The record of a dispute agrees with its history. */
  ghost predicate DisputeOk(cfg: Config, events: seq<Event>, id: DisputeId, d: Dispute) {
    && d.initiator != 0 && d.counterparty != 0 && d.initiator != d.counterparty && d.initiator != cfg.self
    && d.initiatorStake > 0
    && (d.counterpartyStake == 0 || (d.counterpartyStake == d.initiatorStake && d.counterparty != cfg.self))
    && d.counterCount <= MAX_COUNTERS
    && d.startTime == CreatedAt(events, id) + d.counterCount * ONE_DAY
    && FeesBurned(events, id) == COUNTER_FEE_BASE * (Pow2(d.counterCount) - 1)
    && d.initiatorAccepted == AcceptedSince(events, id, d.initiator, d.startTime + RESOLUTION_TIMEOUT)
    && d.counterpartyAccepted == AcceptedSince(events, id, d.counterparty, d.startTime + RESOLUTION_TIMEOUT)
    && (d.counterpartyStake == 0 ==>
          d.llmProposal == "" && !d.initiatorAccepted && !d.counterpartyAccepted && d.counterCount == 0)
    && (d.initiatorAccepted && d.counterpartyAccepted <==> d.outcome == AcceptedProposal)
    && (d.resolved <==> d.outcome != Pending)
    && Payouts(events, id) == (if d.resolved then 1 else 0)
    && (d.outcome == TimeoutWithBurn ==> d.counterpartyStake > 0)
    && (d.outcome == DefaultLicenseApplied ==> d.counterpartyStake == 0)
    && PaidRight(events, id, d)
    && TextOk(events, id, d)
    && StakedInTime(events, id)
  }

  /** Every stake that answered the dispute came within the stake window after its creation. */
  ghost predicate StakedInTime(events: seq<Event>, id: DisputeId) {
    forall i :: 0 <= i < |events| && events[i].Staked? && events[i].id == id ==>
      events[i].at <= CreatedAt(events, id) + STAKE_WINDOW
  }

  lemma StakedSnoc(events: seq<Event>, e: Event, id: DisputeId)
    requires StakedInTime(events, id) && !(e.Initiated? && e.id == id)
    requires e.Staked? && e.id == id ==> e.at <= CreatedAt(events, id) + STAKE_WINDOW
    ensures StakedInTime(events + [e], id)
  {
    LogSnoc(events, e, id);
    hide CreatedAt, FeesBurned, Payouts, AcceptedSince;
  }

  /**
   * The stored text is the one on the table, every acceptance found a text there, and a dispute that
   * ended in acceptance ended with it.
   */
  ghost predicate TextOk(events: seq<Event>, id: DisputeId, d: Dispute) {
    && d.llmProposal == TextIn(events, id)
    && (forall m :: 0 <= m < |events| && events[m].Accepted? && events[m].id == id ==> TextIn(events[..m], id) != "")
    && (d.outcome == AcceptedProposal ==> exists k: nat :: ClosedAt(events, id, d, k))
  }

  /** Entry `k` is one party's acceptance, followed at once by the payout and by nothing else of the dispute. */
  ghost predicate ClosedAt(events: seq<Event>, id: DisputeId, d: Dispute, k: nat) {
    && k + 1 < |events|
    && events[k].Accepted? && events[k].id == id && (events[k].who == d.initiator || events[k].who == d.counterparty)
    && events[k + 1].Resolved? && events[k + 1].id == id
    && forall m :: k + 1 < m < |events| ==> events[m].id != id
  }

  /** Every payout in the log is the one due for the outcome. */
  ghost predicate PaidRight(events: seq<Event>, id: DisputeId, d: Dispute) {
    forall i :: 0 <= i < |events| && events[i].Resolved? && events[i].id == id ==> RightPayout(events[i], d)
  }

  /** A tenth of the stake, if the reserves cover it. */
  function IncentiveFrom(reserves: nat, stake: nat): nat {
    if reserves >= stake / 10 then stake / 10 else 0
  }

  ghost predicate RightPayout(e: Event, d: Dispute)
    requires e.Resolved?
  {
    && e.outcome == d.outcome
    && match e.outcome
       case Pending => false
       case AcceptedProposal =>
         e.toInitiator == e.toCounterparty == d.initiatorStake && e.burned == 0
       case TimeoutWithBurn =>
         && e.toInitiator == e.toCounterparty == d.initiatorStake / 2
         && e.burned == 2 * d.initiatorStake - 2 * (d.initiatorStake / 2)
       case DefaultLicenseApplied =>
         && e.toCounterparty == 0 && e.burned == 0
         && e.toInitiator == d.initiatorStake + IncentiveFrom(e.reserves, d.initiatorStake)
  }

  /** Events of other disputes do not change what the log says about this one. */
  lemma OtherEvent(cfg: Config, events: seq<Event>, e: Event, id: DisputeId, d: Dispute)
    requires e.id != id && DisputeOk(cfg, events, id, d)
    ensures DisputeOk(cfg, events + [e], id, d)
  {
    TextStays(events, e, id, d, d);
    LogSnoc(events, e, id);
    PaidRightSnoc(events, e, id, d, d);
    StakedSnoc(events, e, id);
    hide CreatedAt, FeesBurned, Payouts, AcceptedSince, PaidRight, TextOk, StakedInTime, Pow2;
  }

  lemma TextSnoc(events: seq<Event>, e: Event, id: DisputeId)
    ensures TextIn(events + [e], id)
         == if e.Proposed? && e.id == id then e.text else if e.Countered? && e.id == id then "" else TextIn(events, id)
  {
    assert (events + [e])[..|events|] == events;
  }

  /** An acceptance in the longer log is the new one, on a text, or one of before. */
  lemma AcceptancesSnoc(events: seq<Event>, e: Event, id: DisputeId, d: Dispute, m: nat)
    requires TextOk(events, id, d) && (e.Accepted? && e.id == id ==> d.llmProposal != "")
    requires m <= |events| && (events + [e])[m].Accepted? && (events + [e])[m].id == id
    ensures TextIn((events + [e])[..m], id) != ""
  {
    assert (events + [e])[..m] == events[..m];
    assert events[..|events|] == events;
  }

  /** One more event, of another dispute or before any settlement by acceptance. */
  lemma TextStays(events: seq<Event>, e: Event, id: DisputeId, d: Dispute, d': Dispute)
    requires TextOk(events, id, d) && (e.Accepted? && e.id == id ==> d.llmProposal != "")
    requires d'.outcome == AcceptedProposal ==>
      d.outcome == AcceptedProposal && e.id != id && d'.initiator == d.initiator && d'.counterparty == d.counterparty
    requires d'.llmProposal
      == if e.Proposed? && e.id == id then e.text else if e.Countered? && e.id == id then "" else d.llmProposal
    ensures TextOk(events + [e], id, d')
  {
    var es := events + [e];
    TextSnoc(events, e, id);
    forall m | 0 <= m < |es| && es[m].Accepted? && es[m].id == id
      ensures TextIn(es[..m], id) != ""
    {
      AcceptancesSnoc(events, e, id, d, m);
    }
    hide TextIn;
    if d'.outcome == AcceptedProposal {
      var k: nat :| ClosedAt(events, id, d, k);
      assert es[k] == events[k] && es[k + 1] == events[k + 1];
      assert ClosedAt(es, id, d', k);
    }
  }

  /** The second acceptance and the payout after it. */
  lemma TextSettles(events: seq<Event>, e: Event, f: Event, id: DisputeId, d: Dispute, d': Dispute)
    requires TextOk(events, id, d) && d.llmProposal != "" && d'.llmProposal == d.llmProposal
    requires d.outcome != AcceptedProposal
    requires e.Accepted? && e.id == id && (e.who == d'.initiator || e.who == d'.counterparty)
    requires f.Resolved? && f.id == id
    ensures TextOk(events + [e, f], id, d')
  {
    TextStays(events, e, id, d, d);
    TextStays(events + [e], f, id, d, d);
    assert events + [e, f] == events + [e] + [f];
    hide TextIn;
    assert ClosedAt(events + [e, f], id, d', |events|);
  }

  lemma {:induction false} NoEvents(events: seq<Event>, id: DisputeId)
    requires forall i :: 0 <= i < |events| ==> events[i].id != id
    ensures CreatedAt(events, id) == 0 && FeesBurned(events, id) == 0 && Payouts(events, id) == 0
    ensures forall who, deadline :: !AcceptedSince(events, id, who, deadline)
    ensures TextIn(events, id) == ""
  {
    if events != [] {
      NoEvents(events[..|events| - 1], id);
    }
  }

  /** The log extended by one event. */
  lemma LogSnoc(events: seq<Event>, e: Event, id: DisputeId)
    ensures var es := events + [e];
      && CreatedAt(es, id) == (if e.Initiated? && e.id == id then e.at else CreatedAt(events, id))
      && FeesBurned(es, id) == FeesBurned(events, id) + (if e.Countered? && e.id == id then e.fee else 0)
      && Payouts(es, id) == Payouts(events, id) + (if e.Resolved? && e.id == id then 1 else 0)
      && forall who, deadline ::
           AcceptedSince(es, id, who, deadline) ==
             if e.Countered? && e.id == id then false
             else if e.Accepted? && e.id == id && e.who == who then e.at <= deadline
             else AcceptedSince(events, id, who, deadline)
  {
    assert (events + [e])[..|events|] == events;
  }

  lemma PaidRightSnoc(events: seq<Event>, e: Event, id: DisputeId, d: Dispute, d': Dispute)
    requires PaidRight(events, id, d) && (Payouts(events, id) == 0 || d'.outcome == d.outcome)
    requires d'.initiatorStake == d.initiatorStake
    requires e.Resolved? && e.id == id ==> RightPayout(e, d')
    ensures PaidRight(events + [e], id, d')
  {
    var es := events + [e];
    forall i | 0 <= i < |es| && es[i].Resolved? && es[i].id == id
      ensures RightPayout(es[i], d')
    {
      if i < |events| {
        assert es[i] == events[i];
        if Payouts(events, id) == 0 {
          NoPayout(events, id, i);
        }
      }
    }
  }

  lemma {:induction false} NoPayout(events: seq<Event>, id: DisputeId, i: nat)
    requires Payouts(events, id) == 0 && i < |events|
    ensures !(events[i].Resolved? && events[i].id == id)
  {
    var n := |events| - 1;
    if i < n {
      NoPayout(events[..n], id, i);
    }
  }

  // ----- invariants of the composed system -----

  ghost predicate HistoryInv(cfg: Config, w: World) {
    && (forall id :: id in w.disputes <==> 0 <= id < w.disputeCounter)
    && (forall id :: id in w.disputes ==> DisputeOk(cfg, w.events, id, w.disputes[id]))
    && (forall i :: 0 <= i < |w.events| ==> w.events[i].id < w.disputeCounter)
  }

  /** A non-empty frozen list belongs to an unresolved dispute, and holds assets of its initiator. */
  ghost predicate FrozenForDispute(w: World, id: DisputeId) {
    R.FrozenList(w.registry, id) != [] ==>
      && id in w.disputes && !w.disputes[id].resolved
      && forall a :: a in R.FrozenList(w.registry, id) ==>
           a in w.registry.assets && w.registry.assets[a].owner == w.disputes[id].initiator
  }

  ghost predicate FreezesInv(cfg: Config, w: World) {
    && R.IndexInv(w.registry) && R.FreezeInv(w.registry)
    && w.registry.authorized == {cfg.self}
    && (forall id :: FrozenForDispute(w, id))
  }

  /** The tokens a dispute holds in the contract. */
  function Locked(d: Dispute): nat {
    if d.resolved then 0 else d.initiatorStake + d.counterpartyStake
  }

  function Escrow(disputes: map<DisputeId, Dispute>, n: nat): nat {
    if n == 0 then 0 else Escrow(disputes, n - 1) + Locked(DisputeAt(disputes, n - 1))
  }

  ghost predicate MoneyInv(cfg: Config, w: World, donated: nat) {
    && BalanceOf(w.ledger, cfg.self) == w.tokenReserves + Escrow(w.disputes, w.disputeCounter) + donated
    && w.ethBalance == w.treasury
  }

  ghost predicate WorldInv(cfg: Config, w: World, donated: nat) {
    && HistoryInv(cfg, w)
    && FreezesInv(cfg, w)
    && MoneyInv(cfg, w, donated)
  }

  ghost predicate ValidConfig(cfg: Config) {
    cfg.self != 0 && cfg.self != BURN_ADDRESS
  }

  // ----- sums -----

  lemma {:induction false} EscrowUpdate(disputes: map<DisputeId, Dispute>, n: nat, id: DisputeId, d: Dispute)
    ensures Escrow(disputes[id := d], n)
         == Escrow(disputes, n) + (if id < n then Locked(d) - Locked(DisputeAt(disputes, id)) else 0)
    decreases n
  {
    if n > 0 {
      EscrowUpdate(disputes, n - 1, id, d);
    }
  }

  lemma {:induction false} EscrowIncludes(disputes: map<DisputeId, Dispute>, n: nat, id: DisputeId)
    requires id < n
    ensures Locked(DisputeAt(disputes, id)) <= Escrow(disputes, n)
  {
    if id < n - 1 {
      EscrowIncludes(disputes, n - 1, id);
    }
  }

  // ----- history -----

  lemma {:induction false} OtherEvents(cfg: Config, events: seq<Event>, es: seq<Event>, id: DisputeId, d: Dispute)
    requires forall i :: 0 <= i < |es| ==> es[i].id != id
    requires DisputeOk(cfg, events, id, d)
    ensures DisputeOk(cfg, events + es, id, d)
    decreases |es|
  {
    if es == [] {
      assert events + es == events;
    } else {
      var n := |es| - 1;
      OtherEvents(cfg, events, es[..n], id, d);
      OtherEvent(cfg, events + es[..n], es[n], id, d);
      assert events + es == (events + es[..n]) + [es[n]];
    }
  }

  /** Only dispute `id` changed, and the new events are its own. */
  ghost predicate Updates(w: World, w': World, id: DisputeId, es: seq<Event>) {
    && id in w.disputes && id in w'.disputes
    && w'.disputes == w.disputes[id := w'.disputes[id]]
    && w'.disputeCounter == w.disputeCounter
    && w'.events == w.events + es
    && forall i :: 0 <= i < |es| ==> es[i].id == id
  }

  lemma UpdateKeepsHistory(cfg: Config, w: World, w': World, id: DisputeId, es: seq<Event>)
    requires HistoryInv(cfg, w) && Updates(w, w', id, es)
    requires DisputeOk(cfg, w'.events, id, w'.disputes[id])
    ensures HistoryInv(cfg, w')
  {
    forall k | k in w'.disputes
      ensures DisputeOk(cfg, w'.events, k, w'.disputes[k])
    {
      if k != id {
        OtherEvents(cfg, w.events, es, k, w.disputes[k]);
      }
    }
  }

  lemma SameHistory(cfg: Config, w: World, w': World)
    requires HistoryInv(cfg, w)
    requires w'.disputes == w.disputes && w'.disputeCounter == w.disputeCounter && w'.events == w.events
    ensures HistoryInv(cfg, w')
  {
  }

  // ----- one dispute, one event -----

  lemma CreationOk(cfg: Config, events: seq<Event>, id: DisputeId, d: Dispute)
    requires forall i :: 0 <= i < |events| ==> events[i].id < id
    requires d.initiator != 0 && d.counterparty != 0 && d.initiator != d.counterparty && d.initiator != cfg.self
    requires d.initiatorStake > 0 && d.counterpartyStake == 0 && d.counterCount == 0 && d.llmProposal == ""
    requires !d.initiatorAccepted && !d.counterpartyAccepted && !d.resolved && d.outcome == Pending
    ensures DisputeOk(cfg, events + [Initiated(id, d.startTime)], id, d)
  {
    var e := Initiated(id, d.startTime);
    NoEvents(events, id);
    LogSnoc(events, e, id);
    var es := events + [e];
    forall i | 0 <= i < |es|
      ensures es[i].id == id ==> es[i].Initiated?
    {
      if i < |events| {
        assert es[i] == events[i];
      }
    }
    TextSnoc(events, e, id);
    hide TextIn, CreatedAt, FeesBurned, Payouts, AcceptedSince;
  }

  /** An event that is no acceptance, counter-proposal or payout leaves the accounts alone. */
  lemma QuietEventOk(cfg: Config, events: seq<Event>, e: Event, id: DisputeId, d: Dispute, d': Dispute)
    requires DisputeOk(cfg, events, id, d) && !d.resolved
    requires e.id == id && (e.Staked? || e.Proposed?)
    requires d' == d.(counterpartyStake := d'.counterpartyStake, llmProposal := d'.llmProposal)
    requires d'.llmProposal == if e.Proposed? then e.text else d.llmProposal
    requires d'.counterpartyStake == d.initiatorStake && d.counterparty != cfg.self
    requires e.Staked? ==> d.counterpartyStake == 0 && e.at <= d.startTime + STAKE_WINDOW
    ensures DisputeOk(cfg, events + [e], id, d')
  {
    LogSnoc(events, e, id);
    PaidRightSnoc(events, e, id, d, d');
    StakedSnoc(events, e, id);
    TextStays(events, e, id, d, d');
    hide CreatedAt, FeesBurned, Payouts, AcceptedSince, PaidRight, TextOk, StakedInTime, Pow2;
  }

  /** The fee of the next counter-proposal continues the sum 2^n - 1. */
  lemma FeeSum(n: nat)
    ensures COUNTER_FEE_BASE * (Pow2(n) - 1) + COUNTER_FEE_BASE * Pow2(n) == COUNTER_FEE_BASE * (Pow2(n + 1) - 1)
  {
  }

  lemma CounterOk(cfg: Config, events: seq<Event>, id: DisputeId, d: Dispute, d': Dispute, now: nat)
    requires DisputeOk(cfg, events, id, d) && !d.resolved && d.counterpartyStake > 0 && d.counterCount < MAX_COUNTERS
    requires d' == d.(counterCount := d.counterCount + 1, evidenceHash := d'.evidenceHash, llmProposal := "",
                      initiatorAccepted := false, counterpartyAccepted := false, startTime := d.startTime + ONE_DAY)
    ensures DisputeOk(cfg, events + [Countered(id, COUNTER_FEE_BASE * Pow2(d.counterCount), now)], id, d')
  {
    var e := Countered(id, COUNTER_FEE_BASE * Pow2(d.counterCount), now);
    LogSnoc(events, e, id);
    PaidRightSnoc(events, e, id, d, d');
    TextStays(events, e, id, d, d');
    StakedSnoc(events, e, id);
    FeeSum(d.counterCount);
    hide CreatedAt, FeesBurned, Payouts, AcceptedSince, PaidRight, TextOk, StakedInTime, Pow2;
  }

  /** The record after one party's acceptance, before any resolution. */
  function WithAcceptance(d: Dispute, who: Address): Dispute {
    if who == d.initiator then d.(initiatorAccepted := true) else d.(counterpartyAccepted := true)
  }

  lemma AcceptOk(cfg: Config, events: seq<Event>, id: DisputeId, d: Dispute, who: Address, now: nat)
    requires DisputeOk(cfg, events, id, d) && !d.resolved && d.counterpartyStake > 0 && d.llmProposal != ""
    requires (who == d.initiator || who == d.counterparty) && now <= d.startTime + RESOLUTION_TIMEOUT
    ensures var d' := WithAcceptance(d, who);
      !(d'.initiatorAccepted && d'.counterpartyAccepted) ==> DisputeOk(cfg, events + [Accepted(id, who, now)], id, d')
  {
    var e, d' := Accepted(id, who, now), WithAcceptance(d, who);
    LogSnoc(events, e, id);
    StakedSnoc(events, e, id);
    PaidRightSnoc(events, e, id, d, d');
    TextStays(events, e, id, d, d');
    hide CreatedAt, FeesBurned, Payouts, AcceptedSince, PaidRight, TextOk, StakedInTime, Pow2;
  }

  /** A second acceptance together with the payout it triggers. */
  lemma AcceptAndResolveOk(
      cfg: Config, events: seq<Event>, id: DisputeId, d: Dispute, who: Address, reserves: nat, now: nat)
    requires DisputeOk(cfg, events, id, d) && !d.resolved && d.counterpartyStake > 0 && d.llmProposal != ""
    requires (who == d.initiator || who == d.counterparty) && now <= d.startTime + RESOLUTION_TIMEOUT
    requires WithAcceptance(d, who).initiatorAccepted && WithAcceptance(d, who).counterpartyAccepted
    ensures DisputeOk(cfg,
      events + [Accepted(id, who, now),
                Resolved(id, AcceptedProposal, d.initiatorStake, d.counterpartyStake, 0, reserves, now)],
      id, WithAcceptance(d, who).(resolved := true, outcome := AcceptedProposal))
  {
    var e := Accepted(id, who, now);
    var f := Resolved(id, AcceptedProposal, d.initiatorStake, d.counterpartyStake, 0, reserves, now);
    var d' := WithAcceptance(d, who).(resolved := true, outcome := AcceptedProposal);
    LogSnoc(events, e, id);
    LogSnoc(events + [e], f, id);
    StakedSnoc(events, e, id);
    StakedSnoc(events + [e], f, id);
    PaidRightSnoc(events, e, id, d, d);
    PaidRightSnoc(events + [e], f, id, d, d');
    TextSettles(events, e, f, id, d, d');
    hide CreatedAt, FeesBurned, Payouts, AcceptedSince, PaidRight, TextOk, StakedInTime, Pow2;
    assert events + [e] + [f] == events + [e, f];
  }

  lemma TimeoutOk(cfg: Config, events: seq<Event>, id: DisputeId, d: Dispute, f: Event)
    requires DisputeOk(cfg, events, id, d) && !d.resolved
    requires f.Resolved? && f.id == id && RightPayout(f, d.(resolved := true, outcome := f.outcome))
    requires f.outcome == if d.counterpartyStake > 0 then TimeoutWithBurn else DefaultLicenseApplied
    ensures DisputeOk(cfg, events + [f], id, d.(resolved := true, outcome := f.outcome))
  {
    LogSnoc(events, f, id);
    StakedSnoc(events, f, id);
    PaidRightSnoc(events, f, id, d, d.(resolved := true, outcome := f.outcome));
    TextStays(events, f, id, d, d.(resolved := true, outcome := f.outcome));
    hide CreatedAt, FeesBurned, Payouts, AcceptedSince, PaidRight, TextOk, StakedInTime, Pow2;
  }

  /** Half of 2s is burned, and the odd unit of the other half as well. */
  lemma HalvesOf(s: nat)
    ensures 2 * s * BURN_PERCENTAGE / 100 == s
  {
  }

  lemma TenthOf(n: nat)
    ensures n * INITIATOR_INCENTIVE_BPS / 10000 == n / 10
  {
  }

  // ----- history, step by step -----

  lemma InitiateHistory(
      cfg: Config, w: World, now: nat, sender: Address, counterparty: Address, stake: nat, evidence: nat,
      fallbackLicense: FallbackLicense, approved: bool)
    requires HistoryInv(cfg, w) && sender != 0 && sender != cfg.self
    requires InitiateBreachDispute(cfg, w, now, sender, counterparty, stake, evidence, fallbackLicense, approved).Some?
    ensures HistoryInv(cfg,
      InitiateBreachDispute(cfg, w, now, sender, counterparty, stake, evidence, fallbackLicense, approved).value)
  {
    var w' :=
      InitiateBreachDispute(cfg, w, now, sender, counterparty, stake, evidence, fallbackLicense, approved).value;
    var id, e := w.disputeCounter, Initiated(w.disputeCounter, now);
    var d := w'.disputes[id];
    hide TransferFrom, R.FreezeAssets, DisputeOk;
    CreationOk(cfg, w.events, id, d);
    forall k | k in w'.disputes && k != id
      ensures DisputeOk(cfg, w'.events, k, w'.disputes[k])
    {
      OtherEvent(cfg, w.events, e, k, w.disputes[k]);
    }
  }

  lemma StakeHistory(cfg: Config, w: World, now: nat, sender: Address, id: DisputeId, approved: bool)
    requires HistoryInv(cfg, w) && sender != 0 && sender != cfg.self
    requires DepositStake(cfg, w, now, sender, id, approved).Some?
    ensures HistoryInv(cfg, DepositStake(cfg, w, now, sender, id, approved).value)
  {
    hide TransferFrom, DisputeOk;
    var w' := DepositStake(cfg, w, now, sender, id, approved).value;
    QuietEventOk(cfg, w.events, Staked(id, now), id, w.disputes[id], w'.disputes[id]) by {
      StoredDisputeHasParties(cfg, w, id);
    }
    UpdateKeepsHistory(cfg, w, w', id, [Staked(id, now)]);
  }

  lemma StoredDisputeHasParties(cfg: Config, w: World, id: DisputeId)
    requires HistoryInv(cfg, w) && id in w.disputes
    ensures var d := w.disputes[id];
      && DisputeOk(cfg, w.events, id, d)
      && d.initiator != 0 && d.counterparty != 0 && d.initiator != cfg.self && d.initiatorStake > 0
      && (d.counterpartyStake > 0 ==> d.counterpartyStake == d.initiatorStake && d.counterparty != cfg.self)
      && (d.llmProposal != "" ==> d.counterpartyStake > 0)
      && d.counterCount <= MAX_COUNTERS
  {
    assert DisputeOk(cfg, w.events, id, w.disputes[id]);
    hide CreatedAt, FeesBurned, Payouts, AcceptedSince, PaidRight, TextOk, StakedInTime, Pow2;
  }

  lemma ProposeHistory(
      cfg: Config, w: World, now: nat, sender: Address, id: DisputeId, proposal: string, signatureValid: bool)
    requires HistoryInv(cfg, w)
    requires SubmitLLMProposal(cfg, w, now, sender, id, proposal, signatureValid).Some?
    ensures HistoryInv(cfg, SubmitLLMProposal(cfg, w, now, sender, id, proposal, signatureValid).value)
  {
    hide DisputeOk;
    var w' := SubmitLLMProposal(cfg, w, now, sender, id, proposal, signatureValid).value;
    StoredDisputeHasParties(cfg, w, id);
    QuietEventOk(cfg, w.events, Proposed(id, proposal, now), id, w.disputes[id], w'.disputes[id]);
    UpdateKeepsHistory(cfg, w, w', id, [Proposed(id, proposal, now)]);
  }

  lemma CounterHistory(
      cfg: Config, w: World, now: nat, sender: Address, id: DisputeId, evidence: nat, value: nat)
    requires HistoryInv(cfg, w)
    requires CounterPropose(w, now, sender, id, evidence, value).Some?
    ensures HistoryInv(cfg, CounterPropose(w, now, sender, id, evidence, value).value)
  {
    hide DisputeOk, Pow2;
    var w' := CounterPropose(w, now, sender, id, evidence, value).value;
    var d := w.disputes[id];
    StoredDisputeHasParties(cfg, w, id);
    CounterOk(cfg, w.events, id, d, w'.disputes[id], now);
    UpdateKeepsHistory(cfg, w, w', id, [Countered(id, COUNTER_FEE_BASE * Pow2(d.counterCount), now)]);
  }

  lemma AcceptHistory(cfg: Config, w: World, now: nat, sender: Address, id: DisputeId)
    requires HistoryInv(cfg, w) && AcceptProposal(cfg, w, now, sender, id).Some?
    ensures HistoryInv(cfg, AcceptProposal(cfg, w, now, sender, id).value)
  {
    hide DisputeOk, Transfer, R.UnfreezeAssets;
    var w' := AcceptProposal(cfg, w, now, sender, id).value;
    var d := w.disputes[id];
    StoredDisputeHasParties(cfg, w, id);
    var e := Accepted(id, sender, now);
    var f := Resolved(id, AcceptedProposal, d.initiatorStake, d.counterpartyStake, 0, w.tokenReserves, now);
    if w'.disputes[id].resolved {
      AcceptAndResolveOk(cfg, w.events, id, d, sender, w.tokenReserves, now);
      assert w.events + [e] + [f] == w.events + [e, f];
      UpdateKeepsHistory(cfg, w, w', id, [e, f]);
    } else {
      AcceptOk(cfg, w.events, id, d, sender, now);
      UpdateKeepsHistory(cfg, w, w', id, [e]);
    }
  }

  lemma NonParticipationHistory(cfg: Config, w: World, now: nat, id: DisputeId)
    requires HistoryInv(cfg, w) && id in w.disputes && !w.disputes[id].resolved && w.disputes[id].counterpartyStake == 0
    requires ResolveNonParticipation(cfg, w, now, id).Some?
    ensures HistoryInv(cfg, ResolveNonParticipation(cfg, w, now, id).value)
  {
    hide DisputeOk, Transfer, R.UnfreezeAssets, R.ApplyFallbackLicense;
    var w', d := ResolveNonParticipation(cfg, w, now, id).value, w.disputes[id];
    StoredDisputeHasParties(cfg, w, id);
    TenthOf(d.initiatorStake);
    var f := w'.events[|w.events|];
    TimeoutOk(cfg, w.events, id, d, f);
    UpdateKeepsHistory(cfg, w, w', id, [f]);
  }

  lemma TimeoutHistory(cfg: Config, w: World, now: nat, id: DisputeId)
    requires HistoryInv(cfg, w) && id in w.disputes && !w.disputes[id].resolved && w.disputes[id].counterpartyStake > 0
    requires ResolveTimeout(cfg, w, now, id).Some?
    ensures HistoryInv(cfg, ResolveTimeout(cfg, w, now, id).value)
  {
    hide DisputeOk, Transfer, R.UnfreezeAssets, R.ApplyFallbackLicense;
    var w', d := ResolveTimeout(cfg, w, now, id).value, w.disputes[id];
    StoredDisputeHasParties(cfg, w, id);
    HalvesOf(d.initiatorStake);
    var f := w'.events[|w.events|];
    TimeoutOk(cfg, w.events, id, d, f);
    UpdateKeepsHistory(cfg, w, w', id, [f]);
  }

  lemma EnforceHistory(cfg: Config, w: World, now: nat, id: DisputeId)
    requires HistoryInv(cfg, w) && EnforceTimeout(cfg, w, now, id).Some?
    ensures HistoryInv(cfg, EnforceTimeout(cfg, w, now, id).value)
  {
    OnlyCreatedDisputesTimeOut(cfg, w, now, id);
    hide HistoryInv, ResolveNonParticipation, ResolveTimeout;
    if w.disputes[id].counterpartyStake == 0 {
      NonParticipationHistory(cfg, w, now, id);
    } else {
      TimeoutHistory(cfg, w, now, id);
    }
  }

  /** An id that was never created is refused, because the token refuses the zero address. */
  lemma OnlyCreatedDisputesTimeOut(cfg: Config, w: World, now: nat, id: DisputeId)
    requires EnforceTimeout(cfg, w, now, id).Some?
    ensures id in w.disputes
  {
    hide R.UnfreezeAssets, R.ApplyFallbackLicense;
  }

  lemma StepKeepsHistory(cfg: Config, w: World, c: Call)
    requires HistoryInv(cfg, w) && R.IndexInv(w.registry) && Step(cfg, w, c).Some?
    ensures HistoryInv(cfg, Step(cfg, w, c).value)
  {
    hide HistoryInv, R.IndexInv, InitiateBreachDispute, DepositStake, SubmitLLMProposal, AcceptProposal;
    hide CounterPropose, EnforceTimeout, R.RegisterAsset, R.TransferAsset, Transfer, TransferFrom;
    match c
    case Initiate(sender, now, counterparty, stake, evidence, license, approved) =>
      InitiateHistory(cfg, w, now, sender, counterparty, stake, evidence, license, approved);
    case Stake(sender, now, id, approved) => StakeHistory(cfg, w, now, sender, id, approved);
    case Propose(sender, now, id, proposal, valid) => ProposeHistory(cfg, w, now, sender, id, proposal, valid);
    case Accept(sender, now, id) => AcceptHistory(cfg, w, now, sender, id);
    case Counter(sender, now, id, evidence, value) => CounterHistory(cfg, w, now, sender, id, evidence, value);
    case Enforce(_, now, id) => EnforceHistory(cfg, w, now, id);
    case _ => SameHistory(cfg, w, Step(cfg, w, c).value);
  }

  // ----- freezes, step by step -----

  /** Nothing about freezes changes when the registry stays and the disputes keep who and whether resolved. */
  lemma SameFreezes(cfg: Config, w: World, w': World)
    requires FreezesInv(cfg, w) && w'.registry == w.registry && w.disputes.Keys <= w'.disputes.Keys
    requires forall id :: id in w.disputes ==>
      w'.disputes[id].initiator == w.disputes[id].initiator && w'.disputes[id].resolved == w.disputes[id].resolved
    ensures FreezesInv(cfg, w')
  {
    hide R.IndexInv, R.FreezeInv;
    forall id
      ensures FrozenForDispute(w', id)
    {
      assert FrozenForDispute(w, id);
    }
  }

  /** A registry change that keeps lists, statuses and the owners of frozen assets. */
  lemma RegistryChange(cfg: Config, w: World, registry: R.Registry)
    requires FreezesInv(cfg, w)
    requires R.IndexInv(registry) && registry.authorized == w.registry.authorized
    requires registry.frozenAssets == w.registry.frozenAssets && w.registry.assets.Keys <= registry.assets.Keys
    requires forall a :: a in w.registry.assets ==>
      && registry.assets[a].status == w.registry.assets[a].status
      && registry.assets[a].disputeId == w.registry.assets[a].disputeId
      && (w.registry.assets[a].status == R.Frozen ==> registry.assets[a].owner == w.registry.assets[a].owner)
    requires forall a :: a in registry.assets && a !in w.registry.assets ==> registry.assets[a].status == R.Active
    ensures FreezesInv(cfg, w.(registry := registry))
  {
    R.SameFreezesKeepsFreeze(w.registry, registry);
    forall id
      ensures FrozenForDispute(w.(registry := registry), id)
    {
      assert FrozenForDispute(w, id);
      forall a | a in R.FrozenList(w.registry, id)
        ensures a in registry.assets && registry.assets[a].owner == w.registry.assets[a].owner
      {
        R.FrozenExactlyOnce(w.registry, a, id);
      }
    }
  }

  lemma RegisterFreezes(cfg: Config, w: World, sender: Address, now: nat, asset: R.AssetId, owner: Address, terms: nat)
    requires FreezesInv(cfg, w) && R.RegisterAsset(w.registry, sender, now, asset, owner, terms).Some?
    ensures FreezesInv(cfg, w.(registry := R.RegisterAsset(w.registry, sender, now, asset, owner, terms).value))
  {
    R.RegisterKeepsIndex(w.registry, sender, now, asset, owner, terms);
    RegistryChange(cfg, w, R.RegisterAsset(w.registry, sender, now, asset, owner, terms).value);
  }

  lemma TransferFreezes(cfg: Config, w: World, sender: Address, now: nat, asset: R.AssetId, newOwner: Address)
    requires FreezesInv(cfg, w) && R.TransferAsset(w.registry, sender, now, asset, newOwner).Some?
    ensures FreezesInv(cfg, w.(registry := R.TransferAsset(w.registry, sender, now, asset, newOwner).value))
  {
    R.TransferKeepsIndex(w.registry, sender, now, asset, newOwner);
    RegistryChange(cfg, w, R.TransferAsset(w.registry, sender, now, asset, newOwner).value);
  }

  /** Freezing the assets of the initiator of a new dispute keeps the freeze invariant. */
  lemma NewFreezeKeeps(cfg: Config, w: World, w': World, now: nat, d: DisputeId, party: Address)
    requires FreezesInv(cfg, w) && d !in w.disputes
    requires R.FreezeAssets(w.registry, cfg.self, now, d, party) == Some(w'.registry)
    requires w'.disputes.Keys == w.disputes.Keys + {d}
    requires w'.disputes[d].initiator == party && !w'.disputes[d].resolved
    requires forall k :: k in w.disputes ==> w'.disputes[k] == w.disputes[k]
    ensures FreezesInv(cfg, w')
  {
    assert FrozenForDispute(w, d);
    R.FreezeKeeps(w.registry, cfg.self, now, d, party);
    hide R.IndexInv, R.FreezeInv, R.FreezeAssets;
    forall id
      ensures FrozenForDispute(w', id)
    {
      assert FrozenForDispute(w, id);
    }
  }

  lemma InitiateFreezes(
      cfg: Config, w: World, now: nat, sender: Address, counterparty: Address, stake: nat, evidence: nat,
      fallbackLicense: FallbackLicense, approved: bool)
    requires FreezesInv(cfg, w) && HistoryInv(cfg, w)
    requires InitiateBreachDispute(cfg, w, now, sender, counterparty, stake, evidence, fallbackLicense, approved).Some?
    ensures FreezesInv(cfg,
      InitiateBreachDispute(cfg, w, now, sender, counterparty, stake, evidence, fallbackLicense, approved).value)
  {
    hide DisputeOk, TransferFrom, EscalatedStake, FreezesInv, R.FreezeAssets;
    var w' :=
      InitiateBreachDispute(cfg, w, now, sender, counterparty, stake, evidence, fallbackLicense, approved).value;
    NewFreezeKeeps(cfg, w, w', now, w.disputeCounter, sender);
  }

  lemma RelicenseKeeps(cfg: Config, w: World, now: nat, id: DisputeId, terms: nat)
    requires FreezesInv(cfg, w) && R.ApplyFallbackLicense(w.registry, cfg.self, now, id, terms).Some?
    ensures FreezesInv(cfg, w.(registry := R.ApplyFallbackLicense(w.registry, cfg.self, now, id, terms).value))
  {
    var registry := R.ApplyFallbackLicense(w.registry, cfg.self, now, id, terms).value;
    R.SameOwnershipKeepsIndex(w.registry, registry);
    RegistryChange(cfg, w, registry);
  }

  /** Resolving a dispute and releasing its assets keeps the freeze invariant. */
  lemma ReleaseKeeps(cfg: Config, w: World, w': World, now: nat, id: DisputeId)
    requires FreezesInv(cfg, w) && R.UnfreezeAssets(w.registry, cfg.self, now, id).Some?
    requires w'.registry == R.UnfreezeAssets(w.registry, cfg.self, now, id).value
    requires w.disputes.Keys <= w'.disputes.Keys
    requires forall k :: k in w.disputes && k != id ==> w'.disputes[k] == w.disputes[k]
    ensures FreezesInv(cfg, w')
    ensures forall a :: a in R.FrozenList(w.registry, id) ==>
      a in w'.registry.assets && w'.registry.assets[a].status == R.Active
  {
    R.UnfreezeKeeps(w.registry, cfg.self, now, id);
    hide R.IndexInv, R.FreezeInv, R.UnfreezeAssets;
    forall k
      ensures FrozenForDispute(w', k)
    {
      assert FrozenForDispute(w, k);
    }
  }

  lemma AcceptFreezes(cfg: Config, w: World, now: nat, sender: Address, id: DisputeId)
    requires FreezesInv(cfg, w) && HistoryInv(cfg, w) && AcceptProposal(cfg, w, now, sender, id).Some?
    ensures FreezesInv(cfg, AcceptProposal(cfg, w, now, sender, id).value)
  {
    hide DisputeOk, Transfer, R.UnfreezeAssets, R.IndexInv, R.FreezeInv, FrozenForDispute;
    var w' := AcceptProposal(cfg, w, now, sender, id).value;
    assert id in w.disputes;
    if w'.disputes[id].resolved {
      ReleaseKeeps(cfg, w, w', now, id);
    } else {
      SameFreezes(cfg, w, w');
    }
  }

  /** Both kinds of timeout re-license the frozen assets and then release them. */
  lemma TimeoutRegistry(cfg: Config, w: World, now: nat, id: DisputeId)
    requires EnforceTimeout(cfg, w, now, id).Some?
    ensures id in w.disputes
    ensures var relicensed :=
        R.ApplyFallbackLicense(w.registry, cfg.self, now, id, w.disputes[id].fallbackLicense.termsHash);
      && relicensed.Some?
      && R.UnfreezeAssets(relicensed.value, cfg.self, now, id)
           == Some(EnforceTimeout(cfg, w, now, id).value.registry)
  {
    OnlyCreatedDisputesTimeOut(cfg, w, now, id);
    hide Transfer, R.UnfreezeAssets, R.ApplyFallbackLicense;
  }

  lemma TimeoutDisputes(cfg: Config, w: World, now: nat, id: DisputeId)
    requires EnforceTimeout(cfg, w, now, id).Some?
    ensures var w' := EnforceTimeout(cfg, w, now, id).value;
      && id in w.disputes && w'.disputes.Keys == w.disputes.Keys && w'.disputes[id].resolved
      && (forall k :: k in w.disputes && k != id ==> w'.disputes[k] == w.disputes[k])
  {
    OnlyCreatedDisputesTimeOut(cfg, w, now, id);
    hide Transfer, R.UnfreezeAssets, R.ApplyFallbackLicense;
  }

  lemma EnforceFreezes(cfg: Config, w: World, now: nat, id: DisputeId)
    requires FreezesInv(cfg, w) && EnforceTimeout(cfg, w, now, id).Some?
    ensures FreezesInv(cfg, EnforceTimeout(cfg, w, now, id).value)
  {
    TimeoutRegistry(cfg, w, now, id);
    TimeoutDisputes(cfg, w, now, id);
    hide EnforceTimeout, R.UnfreezeAssets, R.ApplyFallbackLicense, FreezesInv;
    var w' := EnforceTimeout(cfg, w, now, id).value;
    var terms := w.disputes[id].fallbackLicense.termsHash;
    RelicenseKeeps(cfg, w, now, id, terms);
    ReleaseKeeps(cfg, w.(registry := R.ApplyFallbackLicense(w.registry, cfg.self, now, id, terms).value), w', now, id);
  }

  lemma StepKeepsFreezes(cfg: Config, w: World, c: Call)
    requires FreezesInv(cfg, w) && HistoryInv(cfg, w) && Step(cfg, w, c).Some?
    ensures FreezesInv(cfg, Step(cfg, w, c).value)
  {
    hide DisputeOk, R.IndexInv, R.FreezeInv, FrozenForDispute, InitiateBreachDispute, AcceptProposal;
    hide EnforceTimeout, R.RegisterAsset, R.TransferAsset, Transfer, TransferFrom;
    match c
    case RegisterAsset(sender, now, asset, owner, terms) =>
      RegisterFreezes(cfg, w, sender, now, asset, owner, terms);
    case TransferAsset(sender, now, asset, newOwner) => TransferFreezes(cfg, w, sender, now, asset, newOwner);
    case Initiate(sender, now, counterparty, stake, evidence, license, approved) =>
      InitiateFreezes(cfg, w, now, sender, counterparty, stake, evidence, license, approved);
    case Accept(sender, now, id) => AcceptFreezes(cfg, w, now, sender, id);
    case Enforce(_, now, id) => EnforceFreezes(cfg, w, now, id);
    case _ => SameFreezes(cfg, w, Step(cfg, w, c).value);
  }

  // ----- money, step by step -----

  /** What changes when one dispute's locked amount changes along with the contract's balance. */
  lemma MoneyUpdate(cfg: Config, w: World, w': World, id: DisputeId, donated: nat)
    requires MoneyInv(cfg, w, donated) && id < w.disputeCounter == w'.disputeCounter
    requires w'.disputes == w.disputes[id := DisputeAt(w'.disputes, id)]
    requires w'.ethBalance == w'.treasury
    requires BalanceOf(w'.ledger, cfg.self) - w'.tokenReserves - Locked(DisputeAt(w'.disputes, id))
          == BalanceOf(w.ledger, cfg.self) - w.tokenReserves - Locked(DisputeAt(w.disputes, id))
    ensures MoneyInv(cfg, w', donated)
  {
    EscrowUpdate(w.disputes, w.disputeCounter, id, DisputeAt(w'.disputes, id));
  }

  lemma InitiateMoney(
      cfg: Config, w: World, now: nat, sender: Address, counterparty: Address, stake: nat, evidence: nat,
      fallbackLicense: FallbackLicense, approved: bool, donated: nat)
    requires HistoryInv(cfg, w) && MoneyInv(cfg, w, donated) && sender != cfg.self
    requires InitiateBreachDispute(cfg, w, now, sender, counterparty, stake, evidence, fallbackLicense, approved).Some?
    ensures MoneyInv(cfg,
      InitiateBreachDispute(cfg, w, now, sender, counterparty, stake, evidence, fallbackLicense, approved).value,
      donated)
  {
    hide DisputeOk, R.FreezeAssets;
    var w' :=
      InitiateBreachDispute(cfg, w, now, sender, counterparty, stake, evidence, fallbackLicense, approved).value;
    var n := w.disputeCounter;
    EscrowUpdate(w.disputes, n, n, w'.disputes[n]);
    TransferDelta(w.ledger, sender, cfg.self, w'.disputes[n].initiatorStake, cfg.self);
    hide Transfer;
    assert Escrow(w'.disputes, n + 1) == Escrow(w'.disputes, n) + Locked(w'.disputes[n]);
  }

  lemma StakeMoney(cfg: Config, w: World, now: nat, sender: Address, id: DisputeId, approved: bool, donated: nat)
    requires HistoryInv(cfg, w) && MoneyInv(cfg, w, donated) && sender != 0 && sender != cfg.self
    requires DepositStake(cfg, w, now, sender, id, approved).Some?
    ensures MoneyInv(cfg, DepositStake(cfg, w, now, sender, id, approved).value, donated)
  {
    hide DisputeOk;
    var w' := DepositStake(cfg, w, now, sender, id, approved).value;
    TransferDelta(w.ledger, sender, cfg.self, w.disputes[id].initiatorStake, cfg.self);
    hide Transfer;
    MoneyUpdate(cfg, w, w', id, donated);
  }

  lemma AcceptMoney(cfg: Config, w: World, now: nat, sender: Address, id: DisputeId, donated: nat)
    requires HistoryInv(cfg, w) && MoneyInv(cfg, w, donated) && AcceptProposal(cfg, w, now, sender, id).Some?
    ensures MoneyInv(cfg, AcceptProposal(cfg, w, now, sender, id).value, donated)
  {
    hide DisputeOk, R.UnfreezeAssets;
    var w' := AcceptProposal(cfg, w, now, sender, id).value;
    var d := w.disputes[id];
    StoredDisputeHasParties(cfg, w, id);
    if w'.disputes[id].resolved {
      TransferDelta(w.ledger, cfg.self, d.initiator, d.initiatorStake, cfg.self);
      var ledger1 := Transfer(w.ledger, cfg.self, d.initiator, d.initiatorStake).value;
      TransferDelta(ledger1, cfg.self, d.counterparty, d.counterpartyStake, cfg.self);
    }
    hide Transfer;
    MoneyUpdate(cfg, w, w', id, donated);
  }

  lemma NonParticipationMoney(cfg: Config, w: World, now: nat, id: DisputeId, donated: nat)
    requires HistoryInv(cfg, w) && MoneyInv(cfg, w, donated)
    requires id in w.disputes && !w.disputes[id].resolved && w.disputes[id].counterpartyStake == 0
    requires ResolveNonParticipation(cfg, w, now, id).Some?
    ensures MoneyInv(cfg, ResolveNonParticipation(cfg, w, now, id).value, donated)
  {
    hide DisputeOk, R.UnfreezeAssets, R.ApplyFallbackLicense;
    var w', d := ResolveNonParticipation(cfg, w, now, id).value, w.disputes[id];
    StoredDisputeHasParties(cfg, w, id);
    var amount := w'.events[|w.events|].toInitiator;
    TransferDelta(w.ledger, cfg.self, d.initiator, amount, cfg.self);
    hide Transfer;
    MoneyUpdate(cfg, w, w', id, donated);
  }

  /** What the transfers of a timeout do to every balance. */
  lemma TimeoutTransfersDelta(b: Balances, self: Address, d: Dispute, burned: nat, each: nat, dust: nat, a: Address)
    requires TimeoutTransfers(b, self, d, burned, each, dust).Some?
    ensures BalanceOf(TimeoutTransfers(b, self, d, burned, each, dust).value, a)
         == BalanceOf(b, a)
            - (if a == self then burned + dust + 2 * each else 0)
            + (if a == BURN_ADDRESS then burned + dust else 0)
            + (if a == d.initiator then each else 0)
            + (if a == d.counterparty then each else 0)
  {
    var ledger1 := Transfer(b, self, BURN_ADDRESS, burned).value;
    var ledger2 := Transfer(ledger1, self, d.initiator, each).value;
    var ledger3 := Transfer(ledger2, self, d.counterparty, each).value;
    TransferDelta(b, self, BURN_ADDRESS, burned, a);
    TransferDelta(ledger1, self, d.initiator, each, a);
    TransferDelta(ledger2, self, d.counterparty, each, a);
    if dust > 0 {
      TransferDelta(ledger3, self, BURN_ADDRESS, dust, a);
    }
    hide Transfer, BalanceOf;
  }

  /** A timeout makes exactly these transfers, with s the stake of each party. */
  lemma TimeoutLedger(cfg: Config, w: World, now: nat, id: DisputeId)
    requires id in w.disputes && w.disputes[id].initiatorStake == w.disputes[id].counterpartyStake
    requires ResolveTimeout(cfg, w, now, id).Some?
    ensures var d, s := w.disputes[id], w.disputes[id].initiatorStake;
      TimeoutTransfers(w.ledger, cfg.self, d, s, s / 2, s % 2)
        == Some(ResolveTimeout(cfg, w, now, id).value.ledger)
  {
    hide Transfer, R.UnfreezeAssets, R.ApplyFallbackLicense;
    HalvesOf(w.disputes[id].initiatorStake);
  }

  lemma TimeoutMoney(cfg: Config, w: World, now: nat, id: DisputeId, donated: nat)
    requires HistoryInv(cfg, w) && MoneyInv(cfg, w, donated) && ValidConfig(cfg)
    requires id in w.disputes && !w.disputes[id].resolved && w.disputes[id].counterpartyStake > 0
    requires ResolveTimeout(cfg, w, now, id).Some?
    ensures MoneyInv(cfg, ResolveTimeout(cfg, w, now, id).value, donated)
  {
    hide DisputeOk, Transfer, R.UnfreezeAssets, R.ApplyFallbackLicense, TimeoutTransfers;
    var w', d := ResolveTimeout(cfg, w, now, id).value, w.disputes[id];
    var s := d.initiatorStake;
    StoredDisputeHasParties(cfg, w, id);
    TimeoutLedger(cfg, w, now, id);
    TimeoutTransfersDelta(w.ledger, cfg.self, d, s, s / 2, s % 2, cfg.self);
    MoneyUpdate(cfg, w, w', id, donated);
  }

  lemma EnforceMoney(cfg: Config, w: World, now: nat, id: DisputeId, donated: nat)
    requires HistoryInv(cfg, w) && MoneyInv(cfg, w, donated) && ValidConfig(cfg)
    requires EnforceTimeout(cfg, w, now, id).Some?
    ensures MoneyInv(cfg, EnforceTimeout(cfg, w, now, id).value, donated)
  {
    OnlyCreatedDisputesTimeOut(cfg, w, now, id);
    hide HistoryInv, MoneyInv, ResolveNonParticipation, ResolveTimeout;
    if w.disputes[id].counterpartyStake == 0 {
      NonParticipationMoney(cfg, w, now, id, donated);
    } else {
      TimeoutMoney(cfg, w, now, id, donated);
    }
  }

  lemma QuietMoney(cfg: Config, w: World, c: Call, donated: nat)
    requires HistoryInv(cfg, w) && MoneyInv(cfg, w, donated) && R.IndexInv(w.registry)
    requires c.Propose? || c.Counter?
    requires Step(cfg, w, c).Some?
    ensures MoneyInv(cfg, Step(cfg, w, c).value, donated)
  {
    hide DisputeOk, R.IndexInv, Pow2;
    MoneyUpdate(cfg, w, Step(cfg, w, c).value, c.id, donated);
  }

  lemma OtherMoney(cfg: Config, w: World, c: Call, donated: nat)
    requires MoneyInv(cfg, w, donated) && R.IndexInv(w.registry)
    requires c.TokenTransfer? || c.DepositReserves? || c.RegisterAsset? || c.TransferAsset? || c.Request?
      || c.Withdraw? || c.SendEther? || c.Pause?
    requires Step(cfg, w, c).Some?
    ensures MoneyInv(cfg, Step(cfg, w, c).value, donated + Donation(cfg, c))
  {
    hide R.IndexInv, R.RegisterAsset, R.TransferAsset;
    if c.TokenTransfer? {
      TransferDelta(w.ledger, c.sender, c.to, c.amount, cfg.self);
    } else if c.DepositReserves? {
      TransferDelta(w.ledger, c.sender, cfg.self, c.amount, cfg.self);
    }
  }

  lemma StepKeepsMoney(cfg: Config, w: World, c: Call, donated: nat)
    requires HistoryInv(cfg, w) && MoneyInv(cfg, w, donated) && ValidConfig(cfg) && R.IndexInv(w.registry)
    requires Step(cfg, w, c).Some?
    ensures MoneyInv(cfg, Step(cfg, w, c).value, donated + Donation(cfg, c))
  {
    match c
    case Initiate(sender, now, counterparty, stake, evidence, license, approved) =>
      hide HistoryInv, MoneyInv, R.IndexInv, InitiateBreachDispute;
      InitiateMoney(cfg, w, now, sender, counterparty, stake, evidence, license, approved, donated);
    case Stake(sender, now, id, approved) =>
      hide HistoryInv, MoneyInv, R.IndexInv, DepositStake;
      StakeMoney(cfg, w, now, sender, id, approved, donated);
    case Accept(sender, now, id) =>
      hide HistoryInv, MoneyInv, R.IndexInv, AcceptProposal;
      AcceptMoney(cfg, w, now, sender, id, donated);
    case Enforce(_, now, id) =>
      hide HistoryInv, MoneyInv, R.IndexInv, EnforceTimeout;
      EnforceMoney(cfg, w, now, id, donated);
    case Propose(_, _, _, _, _) => QuietMoney(cfg, w, c, donated);
    case Counter(_, _, _, _, _) => QuietMoney(cfg, w, c, donated);
    case _ => OtherMoney(cfg, w, c, donated);
  }
}
