/**
 * The treasury (contracts/Treasury.sol): defensive subsidies with per-dispute and rolling-window
 * caps, a reserve that is never touched, and harassment scores. `None` is a revert.
 */
module Treasury {
  import opened Wrappers
  import opened Ledger
  import opened Ilrm

  const HARASSMENT_THRESHOLD: nat := 50

  /** An entry of the log of subsidies paid. */
  datatype Payment = Payment(id: DisputeId, to: Address, amount: nat, at: nat)

  datatype Fund = Fund(
    ledger: Balances, ilrm: Address,
    maxPerDispute: nat, maxPerParticipant: nat, windowDuration: nat, minReserve: nat,
    subsidized: set<DisputeId>, recipient: map<DisputeId, Address>,
    used: map<Address, nat>, windowStart: map<Address, nat>, score: map<Address, nat>,
    totalDistributed: nat, totalInflows: nat, paused: bool,
    payments: seq<Payment>)

  /** The addresses fixed at deployment. */
  datatype Setup = Setup(self: Address, owner: Address)

  /** A mapping from addresses, which is 0 where nothing was written. */
  function At(m: map<Address, nat>, a: Address): nat {
    if a in m then m[a] else 0
  }

  function Cap(amount: nat, limit: nat): nat {
    if amount > limit then limit else amount
  }

  function Available(limit: nat, spent: nat): nat {
    if limit > spent then limit - spent else 0
  }

  /** `d` is what the dispute contract reports for the dispute. The second component is the subsidy. */
  function RequestSubsidy(
      cfg: Setup, f: Fund, now: nat, sender: Address, id: DisputeId, stakeNeeded: nat, participant: Address,
      d: Dispute): Option<(Fund, nat)>
  {
    if f.paused || sender != participant || id in f.subsidized || stakeNeeded == 0 || f.ilrm == 0 then
      None
    else
      :- Require(!d.resolved && d.counterpartyStake == 0);
      :- Require(participant == d.counterparty && participant != d.initiator);
      :- Require(At(f.score, participant) < HARASSMENT_THRESHOLD);
      :- Require(At(f.windowStart, participant) + f.windowDuration <= MAX_UINT256);
      var windowed := OpenWindow(f, now, participant);
      var byDispute := Cap(stakeNeeded, windowed.maxPerDispute);
      var byWindow := Cap(byDispute, Available(windowed.maxPerParticipant, At(windowed.used, participant)));
      var amount := Cap(byWindow, Available(BalanceOf(windowed.ledger, cfg.self), windowed.minReserve));
      var paid :- Pay(cfg, windowed, now, id, participant, amount);
      Some((paid, amount))
  }

  /** A participant's window that has run out is started again, with nothing used. */
  function OpenWindow(f: Fund, now: nat, participant: Address): Fund {
    if now > At(f.windowStart, participant) + f.windowDuration then
      f.(used := f.used[participant := 0], windowStart := f.windowStart[participant := now])
    else
      f
  }

  function Pay(cfg: Setup, f: Fund, now: nat, id: DisputeId, participant: Address, amount: nat): Option<Fund> {
    if amount == 0 then
      None
    else
      :- Require(f.totalDistributed + amount <= MAX_UINT256);
      var ledger :- Transfer(f.ledger, cfg.self, participant, amount);
      Some(f.(ledger := ledger,
              used := f.used[participant := At(f.used, participant) + amount],
              subsidized := f.subsidized + {id}, recipient := f.recipient[id := participant],
              totalDistributed := f.totalDistributed + amount,
              payments := f.payments + [Payment(id, participant, amount, now)]))
  }

  /** The preview: the amount, and whether the participant is eligible. */
  function CalculateSubsidy(
      cfg: Setup, f: Fund, now: nat, id: DisputeId, stakeNeeded: nat, participant: Address): Option<(nat, bool)>
  {
    if id in f.subsidized || stakeNeeded == 0 || At(f.score, participant) >= HARASSMENT_THRESHOLD then
      Some((0, false))
    else
      :- Require(At(f.windowStart, participant) + f.windowDuration <= MAX_UINT256);
      var usedInWindow :=
        if now > At(f.windowStart, participant) + f.windowDuration then 0 else At(f.used, participant);
      var amount := Cap(Cap(stakeNeeded, f.maxPerDispute), Available(f.maxPerParticipant, usedInWindow));
      var capped := Cap(amount, Available(BalanceOf(f.ledger, cfg.self), f.minReserve));
      Some((capped, capped > 0))
  }

  function Deposit(cfg: Setup, f: Fund, sender: Address, amount: nat, approved: bool): Option<Fund> {
    if amount == 0 then
      None
    else
      var ledger :- TransferFrom(f.ledger, sender, cfg.self, amount, approved);
      :- Require(f.totalInflows + amount <= MAX_UINT256);
      Some(f.(ledger := ledger, totalInflows := f.totalInflows + amount))
  }

  function DepositBurn(cfg: Setup, f: Fund, sender: Address, amount: nat, approved: bool): Option<Fund> {
    if sender == f.ilrm then
      Deposit(cfg, f, sender, amount, approved)
    else
      None
  }

  /** A score moved by a delta and kept between 0 and 100. */
  function Shifted(score: nat, delta: int): nat {
    if delta >= 0 then Cap(score + delta, 100) else Available(score, -delta)
  }

  function UpdateHarassmentScore(f: Fund, sender: Address, participant: Address, delta: int): Option<Fund> {
    if sender == f.ilrm && -100 <= delta <= 100 then
      Some(f.(score := f.score[participant := Shifted(At(f.score, participant), delta)]))
    else
      None
  }

  function SetHarassmentScore(cfg: Setup, f: Fund, sender: Address, participant: Address, score: nat): Option<Fund> {
    if sender == cfg.owner then
      Some(f.(score := f.score[participant := Cap(score, 100)]))
    else
      None
  }

  function SetILRM(cfg: Setup, f: Fund, sender: Address, ilrm: Address): Option<Fund> {
    if sender == cfg.owner && ilrm != 0 then
      Some(f.(ilrm := ilrm))
    else
      None
  }

  function UpdateCaps(
      cfg: Setup, f: Fund, sender: Address, maxPerDispute: nat, maxPerParticipant: nat, windowDuration: nat)
      : Option<Fund>
  {
    if sender == cfg.owner then
      Some(f.(maxPerDispute := maxPerDispute, maxPerParticipant := maxPerParticipant, windowDuration := windowDuration))
    else
      None
  }

  function SetMinReserve(cfg: Setup, f: Fund, sender: Address, minReserve: nat): Option<Fund> {
    if sender == cfg.owner then
      Some(f.(minReserve := minReserve))
    else
      None
  }

  function EmergencyWithdraw(cfg: Setup, f: Fund, sender: Address, to: Address, amount: nat): Option<Fund> {
    if sender != cfg.owner || to == 0 then
      None
    else
      var ledger :- Transfer(f.ledger, cfg.self, to, amount);
      Some(f.(ledger := ledger))
  }

  function SetPaused(cfg: Setup, f: Fund, sender: Address, paused: bool): Option<Fund> {
    if sender == cfg.owner && f.paused != paused then
      Some(f.(paused := paused))
    else
      None
  }

  // ----- the preview and the request -----

  /** What the request asks of its caller, the contract and the dispute, beyond what the preview looks at. */
  predicate MayRequest(f: Fund, sender: Address, participant: Address, d: Dispute) {
    && !f.paused && f.ilrm != 0 && sender == participant
    && !d.resolved && d.counterpartyStake == 0 && participant == d.counterparty && participant != d.initiator
  }

  /**
   * A request that its caller may make succeeds with x exactly when the preview says (x, true); the
   * one thing the preview cannot see is an overflow of the running total.
   */
  lemma PreviewRefinesExecution(
      cfg: Setup, f: Fund, now: nat, sender: Address, id: DisputeId, stakeNeeded: nat, participant: Address,
      d: Dispute, x: nat)
    requires cfg.self != 0 && sender != 0
    ensures var r := RequestSubsidy(cfg, f, now, sender, id, stakeNeeded, participant, d);
      (r.Some? && r.value.1 == x) ==
        (&& MayRequest(f, sender, participant, d)
         && CalculateSubsidy(cfg, f, now, id, stakeNeeded, participant) == Some((x, true))
         && f.totalDistributed + x <= MAX_UINT256)
  {
  }

  /** A paid subsidy respects every cap, and leaves the reserve in place. */
  lemma SubsidyWithinCaps(
      cfg: Setup, f: Fund, now: nat, sender: Address, id: DisputeId, stakeNeeded: nat, participant: Address, d: Dispute)
    requires RequestSubsidy(cfg, f, now, sender, id, stakeNeeded, participant, d).Some?
    ensures var (f', x) := RequestSubsidy(cfg, f, now, sender, id, stakeNeeded, participant, d).value;
      && 0 < x <= stakeNeeded && x <= f.maxPerDispute
      && At(f'.used, participant) <= f.maxPerParticipant
      && now <= At(f'.windowStart, participant) + f.windowDuration
      && BalanceOf(f'.ledger, cfg.self) >= f.minReserve
      && BalanceOf(f'.ledger, participant)
           == BalanceOf(f.ledger, participant) + (if participant == cfg.self then 0 else x)
      && CalculateSubsidy(cfg, f', now, id, stakeNeeded, participant) == Some((0, false))
    ensures forall p :: p != participant ==>
      var f' := RequestSubsidy(cfg, f, now, sender, id, stakeNeeded, participant, d).value.0;
      At(f'.used, p) == At(f.used, p) && At(f'.windowStart, p) == At(f.windowStart, p)
  {
  }

  // ----- how much is paid, and when -----

  /** What counts as used of a participant's window: nothing, once the window has run out. */
  function UsedNow(f: Fund, now: nat, participant: Address): nat {
    if now > At(f.windowStart, participant) + f.windowDuration then 0 else At(f.used, participant)
  }

  /**
   * A paid subsidy is as large as it can be: the whole need is paid, or the cap of the dispute, or the
   * participant's window is used up, or the balance is down to the reserve. Nothing else is changed.
   */
  lemma SubsidyMaximal(
      cfg: Setup, f: Fund, now: nat, sender: Address, id: DisputeId, stakeNeeded: nat, participant: Address, d: Dispute)
    requires RequestSubsidy(cfg, f, now, sender, id, stakeNeeded, participant, d).Some?
    ensures var (f', x) := RequestSubsidy(cfg, f, now, sender, id, stakeNeeded, participant, d).value;
      && (x == stakeNeeded || x == f.maxPerDispute || At(f'.used, participant) == f.maxPerParticipant
          || BalanceOf(f.ledger, cfg.self) == f.minReserve + x)
      && At(f'.used, participant) == UsedNow(f, now, participant) + x
      && At(f'.windowStart, participant)
           == (if now > At(f.windowStart, participant) + f.windowDuration then now else At(f.windowStart, participant))
      && f' == f.(ledger := f'.ledger, used := f'.used, windowStart := f'.windowStart,
                  subsidized := f.subsidized + {id}, recipient := f.recipient[id := participant],
                  totalDistributed := f.totalDistributed + x,
                  payments := f.payments + [Payment(id, participant, x, now)])
  {
  }

  /**
   * When a subsidy is paid, exactly: the request is permitted, none of the four rooms for it is empty
   * (the need, the cap of the dispute, the participant's window, the balance above the reserve), and
   * the smallest of them fits into the running total.
   */
  lemma RequestExactly(
      cfg: Setup, f: Fund, now: nat, sender: Address, id: DisputeId, stakeNeeded: nat, participant: Address, d: Dispute)
    requires cfg.self != 0 && sender != 0
    ensures var used, balance := UsedNow(f, now, participant), BalanceOf(f.ledger, cfg.self);
      RequestSubsidy(cfg, f, now, sender, id, stakeNeeded, participant, d).Some? ==
        (&& MayRequest(f, sender, participant, d) && id !in f.subsidized && At(f.score, participant) < 50
         && At(f.windowStart, participant) + f.windowDuration <= MAX_UINT256
         && stakeNeeded > 0 && f.maxPerDispute > 0 && used < f.maxPerParticipant && f.minReserve < balance
         && (|| f.totalDistributed + stakeNeeded <= MAX_UINT256
             || f.totalDistributed + f.maxPerDispute <= MAX_UINT256
             || f.totalDistributed + (f.maxPerParticipant - used) <= MAX_UINT256
             || f.totalDistributed + (balance - f.minReserve) <= MAX_UINT256))
  {
  }

  /** The preview's amount is positive exactly when no room is empty, fits every room and fills one. */
  lemma PreviewExactly(cfg: Setup, f: Fund, now: nat, id: DisputeId, stakeNeeded: nat, participant: Address)
    ensures var r := CalculateSubsidy(cfg, f, now, id, stakeNeeded, participant);
      var used, balance := UsedNow(f, now, participant), BalanceOf(f.ledger, cfg.self);
      var open := id !in f.subsidized && stakeNeeded > 0 && At(f.score, participant) < 50;
      && (r.None? <==> open && At(f.windowStart, participant) + f.windowDuration > MAX_UINT256)
      && (r.Some? ==>
            var (x, eligible) := r.value;
            && (eligible <==> x > 0)
            && (x > 0 <==> open && f.maxPerDispute > 0 && used < f.maxPerParticipant && f.minReserve < balance)
            && (x > 0 ==>
                  && x <= stakeNeeded && x <= f.maxPerDispute && used + x <= f.maxPerParticipant
                  && f.minReserve + x <= balance
                  && (x == stakeNeeded || x == f.maxPerDispute || used + x == f.maxPerParticipant
                      || f.minReserve + x == balance)))
  {
  }

  // ----- scores -----

  /** A score moves by the delta as far as it can: down to 0 and, on the way up, to 100. */
  lemma ScoreMoves(f: Fund, sender: Address, participant: Address, delta: int)
    ensures var r, was := UpdateHarassmentScore(f, sender, participant, delta), At(f.score, participant);
      && (r.Some? <==> sender == f.ilrm && -100 <= delta <= 100)
      && (r.Some? ==>
            var moved := At(r.value.score, participant);
            && (0 <= was + delta <= 100 ==> moved == was + delta)
            && (was + delta < 0 ==> moved == 0)
            && (was + delta > 100 && delta >= 0 ==> moved == 100)
            && (was + delta > 100 && delta < 0 ==> moved == was + delta)
            && r.value == f.(score := r.value.score)
            && forall p :: p != participant ==> At(r.value.score, p) == At(f.score, p))
  {
  }

  /** The owner sets any score up to 100, and 100 for anything above. */
  lemma ScoreSet(cfg: Setup, f: Fund, sender: Address, participant: Address, score: nat)
    ensures var r := SetHarassmentScore(cfg, f, sender, participant, score);
      && (r.Some? <==> sender == cfg.owner)
      && (r.Some? ==>
            && (score <= 100 ==> At(r.value.score, participant) == score)
            && (score > 100 ==> At(r.value.score, participant) == 100)
            && r.value == f.(score := r.value.score)
            && forall p :: p != participant ==> At(r.value.score, p) == At(f.score, p))
  {
  }

  // ----- deposits and withdrawals -----

  /** A deposit moves the tokens and counts them, exactly when the sender can pay and the count fits. */
  lemma DepositExactly(cfg: Setup, f: Fund, sender: Address, amount: nat, approved: bool)
    requires cfg.self != 0 && sender != 0
    ensures var r := Deposit(cfg, f, sender, amount, approved);
      && (r.Some? <==> amount > 0 && approved && amount <= BalanceOf(f.ledger, sender)
                       && f.totalInflows + amount <= MAX_UINT256)
      && (r.Some? ==>
            && r.value == f.(ledger := r.value.ledger, totalInflows := f.totalInflows + amount)
            && forall a ::
                 BalanceOf(r.value.ledger, a)
                   == BalanceOf(f.ledger, a) - (if a == sender then amount else 0)
                      + (if a == cfg.self then amount else 0))
    ensures DepositBurn(cfg, f, sender, amount, approved)
         == if sender == f.ilrm then Deposit(cfg, f, sender, amount, approved) else None
  {
    var r := Deposit(cfg, f, sender, amount, approved);
    if r.Some? {
      forall a
        ensures BalanceOf(r.value.ledger, a)
             == BalanceOf(f.ledger, a) - (if a == sender then amount else 0) + (if a == cfg.self then amount else 0)
      {
        TransferDelta(f.ledger, sender, cfg.self, amount, a);
      }
    }
  }

  /** The owner can take out any amount up to the balance, reserve or not; nobody else can. */
  lemma WithdrawExactly(cfg: Setup, f: Fund, sender: Address, to: Address, amount: nat)
    requires cfg.self != 0
    ensures var r := EmergencyWithdraw(cfg, f, sender, to, amount);
      && (r.Some? <==> sender == cfg.owner && to != 0 && amount <= BalanceOf(f.ledger, cfg.self))
      && (r.Some? ==>
            && r.value == f.(ledger := r.value.ledger)
            && forall a ::
                 BalanceOf(r.value.ledger, a)
                   == BalanceOf(f.ledger, a) - (if a == cfg.self then amount else 0)
                      + (if a == to then amount else 0))
  {
    var r := EmergencyWithdraw(cfg, f, sender, to, amount);
    if r.Some? {
      forall a
        ensures BalanceOf(r.value.ledger, a)
             == BalanceOf(f.ledger, a) - (if a == cfg.self then amount else 0) + (if a == to then amount else 0)
      {
        TransferDelta(f.ledger, cfg.self, to, amount, a);
      }
    }
  }
}
