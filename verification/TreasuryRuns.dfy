/**
 * The treasury over whole runs: what one participant can draw in any span of time, one subsidy per
 * dispute, bounded scores, and where every token went.
 */
module TreasuryRuns {
  import opened Wrappers
  import opened Ledger
  import opened Ilrm
  import opened Treasury
  import opened DivMod

  /** A transaction. Its sender is an account other than the treasury itself. */
  datatype Call =
    | Request(sender: Address, id: DisputeId, stakeNeeded: nat, participant: Address, dispute: Dispute)
    | GiveTokens(sender: Address, amount: nat, approved: bool)
    | GiveBurn(sender: Address, amount: nat, approved: bool)
    | TokenTransfer(sender: Address, to: Address, amount: nat)
    | MoveScore(sender: Address, participant: Address, delta: int)
    | SetScore(sender: Address, participant: Address, score: nat)
    | ChangeILRM(sender: Address, ilrm: Address)
    | ChangeCaps(sender: Address, maxPerDispute: nat, maxPerParticipant: nat, windowDuration: nat)
    | ChangeReserve(sender: Address, minReserve: nat)
    | TakeOut(sender: Address, to: Address, amount: nat)
    | Pause(sender: Address, paused: bool)

  /** The treasury at a moment; `sent` and `taken` are tokens that went around the deposits and subsidies. */
  datatype System = System(fund: Fund, clock: nat, sent: nat, taken: nat)

  function Step(cfg: Setup, f: Fund, now: nat, c: Call): Option<Fund> {
    if c.sender == 0 || c.sender == cfg.self then
      None
    else
      match c
      case Request(sender, id, stakeNeeded, participant, dispute) =>
        var r :- RequestSubsidy(cfg, f, now, sender, id, stakeNeeded, participant, dispute);
        Some(r.0)
      case GiveTokens(sender, amount, approved) => Deposit(cfg, f, sender, amount, approved)
      case GiveBurn(sender, amount, approved) => DepositBurn(cfg, f, sender, amount, approved)
      case TokenTransfer(sender, to, amount) =>
        var ledger :- Transfer(f.ledger, sender, to, amount);
        Some(f.(ledger := ledger))
      case MoveScore(sender, participant, delta) => UpdateHarassmentScore(f, sender, participant, delta)
      case SetScore(sender, participant, score) => SetHarassmentScore(cfg, f, sender, participant, score)
      case ChangeILRM(sender, ilrm) => Treasury.SetILRM(cfg, f, sender, ilrm)
      case ChangeCaps(sender, perDispute, perParticipant, window) =>
        UpdateCaps(cfg, f, sender, perDispute, perParticipant, window)
      case ChangeReserve(sender, minReserve) => SetMinReserve(cfg, f, sender, minReserve)
      case TakeOut(sender, to, amount) => EmergencyWithdraw(cfg, f, sender, to, amount)
      case Pause(sender, paused) => Treasury.SetPaused(cfg, f, sender, paused)
  }

  /** One call, made `wait` seconds after the previous one; a revert changes nothing. */
  function After(cfg: Setup, s: System, wait: nat, c: Call): System {
    var now := s.clock + wait;
    match Step(cfg, s.fund, now, c)
    case None => s.(clock := now)
    case Some(f) =>
      System(f, now,
             s.sent + (if c.TokenTransfer? && c.to == cfg.self then c.amount else 0),
             s.taken + (if c.TakeOut? && c.to != cfg.self then c.amount else 0))
  }

  function Run(cfg: Setup, s: System, calls: seq<(nat, Call)>): System
    decreases |calls|
  {
    if calls == [] then s else Run(cfg, After(cfg, s, calls[0].0, calls[0].1), calls[1..])
  }

  /** Deployment at a given time; tokens already at the treasury's address count as sent to it. */
  function Genesis(
      cfg: Setup, ledger: Balances, perDispute: nat, perParticipant: nat, window: nat, clock: nat): System
  {
    System(
      Fund(ledger, 0, perDispute, perParticipant, window, 0, {}, map[], map[], map[], map[], 0, 0, false, []),
      clock, BalanceOf(ledger, cfg.self), 0)
  }

  // ----- the log -----

  /** What `p` was paid from time `from` on. */
  function PaidFrom(log: seq<Payment>, p: Address, from: int): nat {
    if log == [] then 0
    else
      var n := |log| - 1;
      PaidFrom(log[..n], p, from) + (if log[n].to == p && log[n].at >= from then log[n].amount else 0)
  }

  /** What `p` was paid between two times, both included. */
  function PaidBetween(log: seq<Payment>, p: Address, from: int, to: int): nat {
    if log == [] then 0
    else
      var n := |log| - 1;
      PaidBetween(log[..n], p, from, to) + (if log[n].to == p && from <= log[n].at <= to then log[n].amount else 0)
  }

  function Total(log: seq<Payment>): nat {
    if log == [] then 0 else Total(log[..|log| - 1]) + log[|log| - 1].amount
  }

  lemma PaySnoc(log: seq<Payment>, e: Payment, p: Address, from: int, to: int)
    ensures PaidFrom(log + [e], p, from)
         == PaidFrom(log, p, from) + (if e.to == p && e.at >= from then e.amount else 0)
    ensures PaidBetween(log + [e], p, from, to)
         == PaidBetween(log, p, from, to) + (if e.to == p && from <= e.at <= to then e.amount else 0)
    ensures Total(log + [e]) == Total(log) + e.amount
  {
    assert (log + [e])[..|log|] == log;
  }

  /** Up to a time after which nothing was paid, the two sums agree. */
  lemma {:induction false} NothingLater(log: seq<Payment>, p: Address, from: int, to: int)
    requires forall i :: 0 <= i < |log| ==> log[i].at <= to
    ensures PaidBetween(log, p, from, to) == PaidFrom(log, p, from)
    ensures from > to ==> PaidFrom(log, p, from) == 0
  {
    if log != [] {
      NothingLater(log[..|log| - 1], p, from, to);
    }
  }

  // ----- the rolling window -----

  /** How many whole windows fit between `from` and the end of the window that starts at `start`. */
  function EarlierWindows(window: nat, start: int, from: int): nat {
    if start + window < from then 0 else (start + window - from) / (window + 1)
  }

  /** The most a participant can draw in a span of `length` seconds. */
  function SpanBound(cap: nat, window: nat, length: nat): nat {
    cap * ((length + window) / (window + 1) + 1)
  }

  /** One cap for every earlier window, and what the current one has been used for. */
  function DrawBound(cap: nat, window: nat, start: int, used: nat, from: int): nat {
    cap * EarlierWindows(window, start, from) + (if start + window >= from then used else 0)
  }

  ghost predicate Within(log: seq<Payment>, p: Address, cap: nat, window: nat, start: int, used: nat) {
    && used == PaidFrom(log, p, start)
    && used <= cap
    && forall from :: PaidFrom(log, p, from) <= DrawBound(cap, window, start, used, from)
  }

  ghost predicate Spans(log: seq<Payment>, p: Address, cap: nat, window: nat) {
    forall from, to :: from <= to ==> PaidBetween(log, p, from, to) <= SpanBound(cap, window, to - from)
  }

  ghost predicate NotAfter(log: seq<Payment>, clock: int) {
    forall i :: 0 <= i < |log| ==> log[i].at <= clock
  }

  /** A new window counts the one before it. */
  lemma NextWindow(window: nat, start: int, next: int, from: int)
    requires next > start + window >= from
    ensures EarlierWindows(window, start, from) + 1 <= EarlierWindows(window, next, from)
  {
    DivShift(start + window - from, window + 1);
    DivMono(start + window - from + window + 1, next + window - from, window + 1);
  }

  lemma NewWindowBound(cap: nat, window: nat, start: int, used: nat, from: int, now: int, x: nat, paid: nat)
    requires used <= cap && now > start + window && paid <= DrawBound(cap, window, start, used, from)
    ensures paid + (if from <= now then x else 0) <= DrawBound(cap, window, now, x, from)
  {
    var earlier, later := EarlierWindows(window, start, from), EarlierWindows(window, now, from);
    if start + window >= from {
      NextWindow(window, start, now, from);
      hide EarlierWindows;
      MulMono(cap, earlier + 1, later);
      assert cap * (earlier + 1) == cap * earlier + cap;
    }
  }

  /** A payment in the current window. */
  lemma PayInWindow(log: seq<Payment>, e: Payment, cap: nat, window: nat, start: int, used: nat)
    requires Within(log, e.to, cap, window, start, used) && start <= e.at <= start + window && used + e.amount <= cap
    ensures Within(log + [e], e.to, cap, window, start, used + e.amount)
  {
    PaySnoc(log, e, e.to, start, 0);
    hide PaidFrom, EarlierWindows;
    forall from: int
      ensures PaidFrom(log + [e], e.to, from) <= DrawBound(cap, window, start, used + e.amount, from)
    {
      PaySnoc(log, e, e.to, from, 0);
    }
  }

  /** A payment that opens a new window. */
  lemma PayInNewWindow(log: seq<Payment>, e: Payment, cap: nat, window: nat, start: int, used: nat, clock: int)
    requires Within(log, e.to, cap, window, start, used) && e.at > start + window && e.amount <= cap
    requires NotAfter(log, clock) && clock <= e.at
    ensures Within(log + [e], e.to, cap, window, e.at, e.amount)
  {
    hide PaidFrom, EarlierWindows;
    assert PaidFrom(log, e.to, e.at) <= DrawBound(cap, window, start, used, e.at);
    forall from: int
      ensures PaidFrom(log + [e], e.to, from) <= DrawBound(cap, window, e.at, e.amount, from)
    {
      PaySnoc(log, e, e.to, from, 0);
      NewWindowBound(cap, window, start, used, from, e.at, e.amount, PaidFrom(log, e.to, from));
    }
    PaySnoc(log, e, e.to, e.at, 0);
    assert EarlierWindows(window, start, e.at) == 0 by { EarlierNone(window, start, e.at); }
    MulMono(cap, 0, 0);
  }

  lemma EarlierNone(window: nat, start: int, from: int)
    requires from > start + window
    ensures EarlierWindows(window, start, from) == 0
  {
  }

  /** A payment to someone else. */
  lemma PayOther(log: seq<Payment>, e: Payment, p: Address, cap: nat, window: nat, start: int, used: nat)
    requires Within(log, p, cap, window, start, used) && e.to != p
    ensures Within(log + [e], p, cap, window, start, used)
  {
    PaySnoc(log, e, p, start, 0);
    hide PaidFrom, DrawBound;
    forall from: int
      ensures PaidFrom(log + [e], p, from) <= DrawBound(cap, window, start, used, from)
    {
      PaySnoc(log, e, p, from, 0);
    }
  }

  /** Seen from inside a span, the drawing bound is no more than the span's. */
  lemma DrawInSpan(cap: nat, window: nat, start: int, used: nat, from: int, to: int)
    requires start <= to && from <= to && used <= cap
    ensures DrawBound(cap, window, start, used, from) <= SpanBound(cap, window, to - from)
  {
    var earlier, whole := EarlierWindows(window, start, from), (to - from + window) / (window + 1);
    DivMono(0, to - from + window, window + 1);
    if start + window >= from {
      DivMono(start + window - from, to - from + window, window + 1);
    }
    hide EarlierWindows;
    assert earlier <= whole;
    MulMono(cap, earlier, whole);
    assert cap * (whole + 1) == cap * whole + cap;
  }

  /** The state of the window bounds what was paid in every span of time. */
  lemma SpansStep(log: seq<Payment>, e: Payment, p: Address, cap: nat, window: nat, start: int, used: nat, clock: int)
    requires Spans(log, p, cap, window) && NotAfter(log, clock) && clock <= e.at
    requires Within(log + [e], p, cap, window, start, used) && start <= e.at
    ensures Spans(log + [e], p, cap, window)
  {
    hide PaidFrom, PaidBetween, DrawBound, SpanBound;
    forall from: int, to: int | from <= to
      ensures PaidBetween(log + [e], p, from, to) <= SpanBound(cap, window, to - from)
    {
      PaySnoc(log, e, p, from, to);
      if e.at <= to {
        NothingLater(log + [e], p, from, to);
        DrawInSpan(cap, window, start, used, from, to);
        assert PaidFrom(log + [e], p, from) <= DrawBound(cap, window, start, used, from);
      } else {
        assert PaidBetween(log, p, from, to) <= SpanBound(cap, window, to - from);
      }
    }
  }

  // ----- what a run keeps while the caps stay the same -----

  ghost predicate CapsInv(s: System) {
    && NotAfter(s.fund.payments, s.clock)
    && forall p :: DrawnWithin(s.fund, s.clock, p)
  }

  /** The participant's use is what was paid since its window opened, and every span of time is bounded. */
  ghost predicate DrawnWithin(f: Fund, clock: nat, p: Address) {
    && At(f.windowStart, p) <= clock
    && Within(f.payments, p, f.maxPerParticipant, f.windowDuration, At(f.windowStart, p), At(f.used, p))
    && Spans(f.payments, p, f.maxPerParticipant, f.windowDuration)
  }

  lemma SameDraws(f: Fund, f': Fund, clock: nat, clock': nat, p: Address)
    requires DrawnWithin(f, clock, p) && clock <= clock'
    requires f'.payments == f.payments && f'.windowStart == f.windowStart && f'.used == f.used
    requires f'.maxPerParticipant == f.maxPerParticipant && f'.windowDuration == f.windowDuration
    ensures DrawnWithin(f', clock', p)
  {
    hide Within, Spans;
  }

  /** What a request does to the windows and the log. */
  ghost predicate Draws(f: Fund, f': Fund, e: Payment) {
    && f'.maxPerParticipant == f.maxPerParticipant && f'.windowDuration == f.windowDuration
    && f'.payments == f.payments + [e]
    && (if e.at > At(f.windowStart, e.to) + f.windowDuration then
          At(f'.windowStart, e.to) == e.at && At(f'.used, e.to) == e.amount
        else
          At(f'.windowStart, e.to) == At(f.windowStart, e.to) && At(f'.used, e.to) == At(f.used, e.to) + e.amount)
    && At(f'.used, e.to) <= f.maxPerParticipant
    && forall q :: q != e.to ==> At(f'.windowStart, q) == At(f.windowStart, q) && At(f'.used, q) == At(f.used, q)
  }

  lemma RequestDraws(
      cfg: Setup, f: Fund, now: nat, sender: Address, id: DisputeId, stakeNeeded: nat, participant: Address, d: Dispute)
    requires RequestSubsidy(cfg, f, now, sender, id, stakeNeeded, participant, d).Some?
    ensures var (f', x) := RequestSubsidy(cfg, f, now, sender, id, stakeNeeded, participant, d).value;
      Draws(f, f', Payment(id, participant, x, now))
  {
    hide Transfer, BalanceOf;
  }

  lemma DrawKeeps(f: Fund, f': Fund, e: Payment, clock: nat, p: Address)
    requires DrawnWithin(f, clock, p) && NotAfter(f.payments, clock) && clock <= e.at && Draws(f, f', e)
    ensures DrawnWithin(f', e.at, p)
  {
    var cap, window, start, used := f.maxPerParticipant, f.windowDuration, At(f.windowStart, p), At(f.used, p);
    hide At, Within, Spans;
    if p != e.to {
      PayOther(f.payments, e, p, cap, window, start, used);
    } else if e.at > start + window {
      PayInNewWindow(f.payments, e, cap, window, start, used, clock);
    } else {
      PayInWindow(f.payments, e, cap, window, start, used);
    }
    SpansStep(f.payments, e, p, cap, window, At(f'.windowStart, p), At(f'.used, p), clock);
  }

  /** A successful request as a step of a run. */
  lemma RequestStep(cfg: Setup, s: System, wait: nat, c: Call)
    requires c.Request? && c.sender != 0 && c.sender != cfg.self
    requires RequestSubsidy(cfg, s.fund, s.clock + wait, c.sender, c.id, c.stakeNeeded, c.participant, c.dispute).Some?
    ensures After(cfg, s, wait, c) == s.(
      fund := RequestSubsidy(
        cfg, s.fund, s.clock + wait, c.sender, c.id, c.stakeNeeded, c.participant, c.dispute).value.0,
      clock := s.clock + wait)
  {
    hide RequestSubsidy;
  }

  lemma RequestKeepsCaps(cfg: Setup, s: System, wait: nat, c: Call)
    requires CapsInv(s) && c.Request? && Step(cfg, s.fund, s.clock + wait, c).Some?
    ensures CapsInv(After(cfg, s, wait, c))
  {
    hide RequestSubsidy, DrawnWithin, Draws;
    var now := s.clock + wait;
    RequestDraws(cfg, s.fund, now, c.sender, c.id, c.stakeNeeded, c.participant, c.dispute);
    RequestStep(cfg, s, wait, c);
    var (f', x) := RequestSubsidy(cfg, s.fund, now, c.sender, c.id, c.stakeNeeded, c.participant, c.dispute).value;
    var e := Payment(c.id, c.participant, x, now);
    hide Step, After;
    DrawsAppends(s.fund, f', e);
    forall p
      ensures DrawnWithin(f', now, p)
    {
      DrawKeeps(s.fund, f', e, s.clock, p);
    }
  }

  lemma DrawsAppends(f: Fund, f': Fund, e: Payment)
    requires Draws(f, f', e)
    ensures f'.payments == f.payments + [e]
  {
  }

  lemma StepKeepsCaps(cfg: Setup, s: System, wait: nat, c: Call)
    requires CapsInv(s) && !c.ChangeCaps?
    ensures CapsInv(After(cfg, s, wait, c))
    ensures var f, f' := s.fund, After(cfg, s, wait, c).fund;
      f'.maxPerParticipant == f.maxPerParticipant && f'.windowDuration == f.windowDuration
  {
    hide DrawnWithin, Transfer;
    var s' := After(cfg, s, wait, c);
    if c.Request? && Step(cfg, s.fund, s.clock + wait, c).Some? {
      RequestKeepsCaps(cfg, s, wait, c);
    } else {
      forall p
        ensures DrawnWithin(s'.fund, s'.clock, p)
      {
        SameDraws(s.fund, s'.fund, s.clock, s'.clock, p);
      }
    }
  }

  lemma {:induction false} RunKeepsCaps(cfg: Setup, s: System, calls: seq<(nat, Call)>)
    requires CapsInv(s) && forall i :: 0 <= i < |calls| ==> !calls[i].1.ChangeCaps?
    ensures CapsInv(Run(cfg, s, calls))
    ensures var f, f' := s.fund, Run(cfg, s, calls).fund;
      f'.maxPerParticipant == f.maxPerParticipant && f'.windowDuration == f.windowDuration
    decreases |calls|
  {
    hide CapsInv, After;
    if calls != [] {
      StepKeepsCaps(cfg, s, calls[0].0, calls[0].1);
      RunKeepsCaps(cfg, After(cfg, s, calls[0].0, calls[0].1), calls[1..]);
    }
  }

  /**
   * With fixed caps, whatever is called and whenever: in a span of T seconds a participant draws at
   * most one cap for each window that the span can meet, so at most two caps when T is no longer
   * than a window.
   */
  lemma RollingWindow(
      cfg: Setup, ledger: Balances, perDispute: nat, cap: nat, window: nat, clock: nat, calls: seq<(nat, Call)>,
      p: Address, from: nat, to: nat)
    requires forall i :: 0 <= i < |calls| ==> !calls[i].1.ChangeCaps?
    requires from <= to
    ensures var log := Run(cfg, Genesis(cfg, ledger, perDispute, cap, window, clock), calls).fund.payments;
      var span := to - from;
      && PaidBetween(log, p, from, to) <= cap * ((span + window) / (window + 1) + 1)
      && PaidBetween(log, p, from, to) <= cap * (span / (window + 1) + 2)
      && (span <= window ==> PaidBetween(log, p, from, to) <= 2 * cap)
  {
    var start := Genesis(cfg, ledger, perDispute, cap, window, clock);
    var s := Run(cfg, start, calls);
    RunKeepsCaps(cfg, start, calls) by { GenesisCaps(cfg, ledger, perDispute, cap, window, clock); }
    assert DrawnWithin(s.fund, s.clock, p);
    hide Run, Within, PaidBetween;
    assert PaidBetween(s.fund.payments, p, from, to) <= SpanBound(cap, window, to - from);
    SpanBounds(cap, window, to - from);
  }

  lemma GenesisCaps(cfg: Setup, ledger: Balances, perDispute: nat, cap: nat, window: nat, clock: nat)
    ensures CapsInv(Genesis(cfg, ledger, perDispute, cap, window, clock))
  {
  }

  lemma SpanBounds(cap: nat, window: nat, span: nat)
    ensures SpanBound(cap, window, span) <= cap * (span / (window + 1) + 2)
    ensures span <= window ==> SpanBound(cap, window, span) <= 2 * cap
  {
    var n := window + 1;
    DivMono(span + window, span + n, n);
    DivShift(span, n);
    MulMono(cap, (span + window) / n + 1, span / n + 2);
    if span <= window {
      DivModUnique(span, n, 0, span);
      MulMono(cap, (span + window) / n + 1, 2);
    }
  }

  /** What a participant has used is exactly what it was paid since its window opened, never more than the cap. */
  lemma UsedIsPaid(
      cfg: Setup, ledger: Balances, perDispute: nat, cap: nat, window: nat, clock: nat, calls: seq<(nat, Call)>,
      p: Address)
    requires forall i :: 0 <= i < |calls| ==> !calls[i].1.ChangeCaps?
    ensures var f := Run(cfg, Genesis(cfg, ledger, perDispute, cap, window, clock), calls).fund;
      PaidFrom(f.payments, p, At(f.windowStart, p)) == At(f.used, p) <= cap
  {
    var start := Genesis(cfg, ledger, perDispute, cap, window, clock);
    var s := Run(cfg, start, calls);
    RunKeepsCaps(cfg, start, calls) by { GenesisCaps(cfg, ledger, perDispute, cap, window, clock); }
    assert DrawnWithin(s.fund, s.clock, p);
    hide Run, PaidFrom;
  }

  /** The dispute contract's report of a dispute that `defender` has not joined yet. */
  function OpenDispute(defender: Address): Dispute {
    NO_DISPUTE.(initiator := defender + 1, counterparty := defender, initiatorStake := 1)
  }

  /** Nothing but the participant's cap limits the next `n` payments. */
  predicate Unlimited(cfg: Setup, f: Fund, p: Address, n: nat) {
    && n > 0 && !f.paused && f.ilrm != 0 && p != 0 && cfg.self != 0 && p != cfg.self
    && At(f.score, p) == 0 && At(f.windowStart, p) + f.windowDuration <= MAX_UINT256
    && 0 < f.maxPerParticipant <= f.maxPerDispute && f.minReserve == 0
    && n * f.maxPerParticipant <= BalanceOf(f.ledger, cfg.self)
    && f.totalDistributed + n * f.maxPerParticipant <= MAX_UINT256
  }

  /** A request that nothing but the cap limits, by a participant with nothing used or a window run out. */
  lemma PaysWholeCap(cfg: Setup, f: Fund, now: nat, id: DisputeId, p: Address, n: nat)
    requires Unlimited(cfg, f, p, n) && id !in f.subsidized
    requires At(f.used, p) == 0 || now > At(f.windowStart, p) + f.windowDuration
    ensures var cap := f.maxPerParticipant;
      var r := RequestSubsidy(cfg, f, now, p, id, cap, p, OpenDispute(p));
      && r.Some?
      && r.value.0.payments == f.payments + [Payment(id, p, cap, now)]
      && BalanceOf(r.value.0.ledger, cfg.self) == BalanceOf(f.ledger, cfg.self) - cap
      && r.value.0 == f.(ledger := r.value.0.ledger, used := r.value.0.used, windowStart := r.value.0.windowStart,
                         subsidized := f.subsidized + {id}, recipient := r.value.0.recipient,
                         totalDistributed := f.totalDistributed + cap, payments := r.value.0.payments)
      && At(r.value.0.windowStart, p)
           == (if now > At(f.windowStart, p) + f.windowDuration then now else At(f.windowStart, p))
  {
    MulMono(f.maxPerParticipant, 1, n);
  }

  /** Such a request as a step of a run, which leaves one less. */
  lemma CapStep(cfg: Setup, s: System, wait: nat, id: DisputeId, p: Address, n: nat)
    requires Unlimited(cfg, s.fund, p, n) && id !in s.fund.subsidized
    requires At(s.fund.used, p) == 0 || s.clock + wait > At(s.fund.windowStart, p) + s.fund.windowDuration
    ensures var f, now, cap := s.fund, s.clock + wait, s.fund.maxPerParticipant;
      var s' := After(cfg, s, wait, Request(p, id, cap, p, OpenDispute(p)));
      var start' := if now > At(f.windowStart, p) + f.windowDuration then now else At(f.windowStart, p);
      && s'.clock == now && s'.fund.payments == f.payments + [Payment(id, p, cap, now)]
      && s'.fund.subsidized == f.subsidized + {id} && s'.fund.windowDuration == f.windowDuration
      && s'.fund.maxPerParticipant == cap && At(s'.fund.windowStart, p) == start'
      && (n > 1 && start' + f.windowDuration <= MAX_UINT256 ==> Unlimited(cfg, s'.fund, p, n - 1))
  {
    PaysWholeCap(cfg, s.fund, s.clock + wait, id, p, n);
    hide RequestSubsidy, OpenDispute, At, BalanceOf;
    RequestStep(cfg, s, wait, Request(p, id, s.fund.maxPerParticipant, p, OpenDispute(p)));
    hide After;
    assert n * s.fund.maxPerParticipant - s.fund.maxPerParticipant == (n - 1) * s.fund.maxPerParticipant;
  }

  /** One cap in each of `n` windows, each opened as soon as the one before has run out. */
  function Schedule(p: Address, cap: nat, window: nat, id: DisputeId, at: nat, n: nat): seq<Payment>
    decreases n
  {
    if n == 0 then [] else [Payment(id, p, cap, at)] + Schedule(p, cap, window, id + 1, at + window + 1, n - 1)
  }

  /** The calls of such a schedule: the first after `wait` seconds, the others one window apart. */
  function ScheduleCalls(p: Address, cap: nat, window: nat, id: DisputeId, wait: nat, n: nat): seq<(nat, Call)>
    decreases n
  {
    if n == 0 then []
    else [(wait, Request(p, id, cap, p, OpenDispute(p)))] + ScheduleCalls(p, cap, window, id + 1, window + 1, n - 1)
  }

  lemma {:induction false} RequestsOnly(p: Address, cap: nat, window: nat, id: DisputeId, wait: nat, n: nat)
    ensures forall c :: c in ScheduleCalls(p, cap, window, id, wait, n) ==> c.1.Request?
    decreases n
  {
    if n > 0 {
      RequestsOnly(p, cap, window, id + 1, window + 1, n - 1);
    }
  }

  /** In a run the calls are paid as scheduled. */
  lemma {:induction false} PaysSchedule(cfg: Setup, s: System, p: Address, id: DisputeId, wait: nat, n: nat)
    requires n > 0 ==> Unlimited(cfg, s.fund, p, n)
    requires forall k :: k >= id ==> k !in s.fund.subsidized
    requires s.clock + wait > At(s.fund.windowStart, p) + s.fund.windowDuration
    requires n > 1 ==>
      s.clock + wait + (n - 2) * (s.fund.windowDuration + 1) + s.fund.windowDuration <= MAX_UINT256
    ensures var cap, window := s.fund.maxPerParticipant, s.fund.windowDuration;
      Run(cfg, s, ScheduleCalls(p, cap, window, id, wait, n)).fund.payments
        == s.fund.payments + Schedule(p, cap, window, id, s.clock + wait, n)
    decreases n
  {
    hide After, OpenDispute, Unlimited, At, Run, Schedule, ScheduleCalls;
    if n == 0 {
      NothingScheduled(cfg, s, p, id, wait);
    } else {
      var cap, window, at := s.fund.maxPerParticipant, s.fund.windowDuration, s.clock + wait;
      CapStep(cfg, s, wait, id, p, n);
      var s1 := After(cfg, s, wait, Request(p, id, cap, p, OpenDispute(p)));
      RoomForLater(window, at, n);
      PaysSchedule(cfg, s1, p, id + 1, window + 1, n - 1);
      ScheduleStep(cfg, s, p, id, wait, n);
      AppendTwice(s.fund.payments, [Payment(id, p, cap, at)], Schedule(p, cap, window, id + 1, at + window + 1, n - 1));
    }
  }

  lemma NothingScheduled(cfg: Setup, s: System, p: Address, id: DisputeId, wait: nat)
    ensures var cap, window := s.fund.maxPerParticipant, s.fund.windowDuration;
      Run(cfg, s, ScheduleCalls(p, cap, window, id, wait, 0)).fund.payments
        == s.fund.payments + Schedule(p, cap, window, id, s.clock + wait, 0)
  {
    assert s.fund.payments + [] == s.fund.payments;
  }

  /** If the window before the last one ends in time, so does each before it. */
  lemma RoomForLater(window: nat, at: nat, n: nat)
    requires n > 1 ==> at + (n - 2) * (window + 1) + window <= MAX_UINT256
    ensures n > 1 ==> at + window <= MAX_UINT256
    ensures n > 2 ==> at + window + 1 + (n - 3) * (window + 1) + window <= MAX_UINT256
  {
    if n > 1 {
      MulMono(window + 1, 0, n - 2);
      if n > 2 {
        OneLess(n - 2, window + 1);
      }
    }
  }

  lemma OneLess(n: nat, a: nat)
    requires n > 0
    ensures n * a == (n - 1) * a + a
  {
  }

  lemma AppendTwice(a: seq<Payment>, b: seq<Payment>, c: seq<Payment>)
    ensures a + (b + c) == a + b + c
  {
  }

  lemma ScheduleStep(cfg: Setup, s: System, p: Address, id: DisputeId, wait: nat, n: nat)
    requires n > 0
    ensures var cap, window := s.fund.maxPerParticipant, s.fund.windowDuration;
      && Run(cfg, s, ScheduleCalls(p, cap, window, id, wait, n))
           == Run(cfg, After(cfg, s, wait, Request(p, id, cap, p, OpenDispute(p))),
                  ScheduleCalls(p, cap, window, id + 1, window + 1, n - 1))
      && Schedule(p, cap, window, id, s.clock + wait, n)
           == [Payment(id, p, cap, s.clock + wait)]
              + Schedule(p, cap, window, id + 1, s.clock + wait + window + 1, n - 1)
  {
    hide After, OpenDispute;
    var cap, window := s.fund.maxPerParticipant, s.fund.windowDuration;
    var calls := ScheduleCalls(p, cap, window, id, wait, n);
    assert calls[0] == (wait, Request(p, id, cap, p, OpenDispute(p)));
    assert calls[1..] == ScheduleCalls(p, cap, window, id + 1, window + 1, n - 1);
  }

  lemma {:induction false} PaidAppend(a: seq<Payment>, b: seq<Payment>, p: Address, from: int, to: int)
    ensures PaidBetween(a + b, p, from, to) == PaidBetween(a, p, from, to) + PaidBetween(b, p, from, to)
  {
    if b == [] {
      assert a + b == a;
    } else {
      var m := |b| - 1;
      PaidAppend(a, b[..m], p, from, to);
      assert (a + b)[..|a + b| - 1] == a + b[..m] && (a + b)[|a + b| - 1] == b[m];
    }
  }

  lemma PaidCons(e: Payment, log: seq<Payment>, p: Address, from: int, to: int)
    ensures PaidBetween([e] + log, p, from, to)
         == (if e.to == p && from <= e.at <= to then e.amount else 0) + PaidBetween(log, p, from, to)
  {
    PaySnoc([], e, p, from, to);
    assert [] + [e] == [e];
    PaidAppend([e], log, p, from, to);
    assert PaidBetween([], p, from, to) == 0;
    hide PaidBetween;
  }

  lemma {:induction false} SchedulePaid(
      p: Address, cap: nat, window: nat, id: DisputeId, at: nat, n: nat, from: int, to: int)
    requires from <= at && (n > 0 ==> at + (n - 1) * (window + 1) <= to)
    ensures PaidBetween(Schedule(p, cap, window, id, at, n), p, from, to) == n * cap
    decreases n
  {
    if n > 0 {
      MulMono(window + 1, 0, n - 1);
      if n > 1 {
        OneLess(n - 1, window + 1);
      }
      SchedulePaid(p, cap, window, id + 1, at + window + 1, n - 1, from, to);
      PaidCons(Payment(id, p, cap, at), Schedule(p, cap, window, id + 1, at + window + 1, n - 1), p, from, to);
      OneLess(n, cap);
      hide PaidBetween;
    }
  }

  /** The calls that draw one cap at the end of the first window and one at the start of each later one. */
  function FullCalls(cfg: Setup, cap: nat, window: nat, p: Address, n: nat): seq<(nat, Call)> {
    [(0, ChangeILRM(cfg.owner, 1))] + ([(window, Request(p, 0, cap, p, OpenDispute(p)))]
      + ScheduleCalls(p, cap, window, 1, 1, n))
  }

  /** The first of these calls, with the dispute contract connected. */
  lemma FirstCap(cfg: Setup, cap: nat, window: nat, p: Address, n: nat)
    requires cfg.self != 0 && cfg.owner != 0 && cfg.owner != cfg.self && p != 0 && p != cfg.self && 0 < cap
    requires (n + 1) * cap <= MAX_UINT256 && window <= MAX_UINT256
    ensures var s0 := Genesis(cfg, map[cfg.self := (n + 1) * cap], cap, cap, window, 0);
      var s1 := After(cfg, s0, 0, ChangeILRM(cfg.owner, 1));
      var s2 := After(cfg, s1, window, Request(p, 0, cap, p, OpenDispute(p)));
      && s2.clock == window && s2.fund.payments == [Payment(0, p, cap, window)] && s2.fund.subsidized == {0}
      && s2.fund.windowDuration == window && s2.fund.maxPerParticipant == cap && At(s2.fund.windowStart, p) == 0
      && (n > 0 ==> Unlimited(cfg, s2.fund, p, n))
  {
    MulMono(cap, 0, n + 1);
    var s0 := Genesis(cfg, map[cfg.self := (n + 1) * cap], cap, cap, window, 0);
    var s1 := After(cfg, s0, 0, ChangeILRM(cfg.owner, 1));
    assert s1 == s0.(fund := s0.fund.(ilrm := 1)) && BalanceOf(s1.fund.ledger, cfg.self) == (n + 1) * cap;
    assert s1.fund.payments == [] && s1.fund.subsidized == {} && At(s1.fund.used, p) == 0;
    assert Unlimited(cfg, s1.fund, p, n + 1) && At(s1.fund.windowStart, p) == 0;
    hide After, OpenDispute, Unlimited, At, Genesis;
    CapStep(cfg, s1, window, 0, p, n + 1);
    assert [] + [Payment(0, p, cap, window)] == [Payment(0, p, cap, window)];
  }

  lemma FullRun(cfg: Setup, cap: nat, window: nat, p: Address, n: nat)
    requires cfg.self != 0 && cfg.owner != 0 && cfg.owner != cfg.self && p != 0 && p != cfg.self && 0 < cap
    requires (n + 1) * cap <= MAX_UINT256 && window <= MAX_UINT256
    requires n > 1 ==> window + 1 + (n - 2) * (window + 1) + window <= MAX_UINT256
    ensures var s := Genesis(cfg, map[cfg.self := (n + 1) * cap], cap, cap, window, 0);
      Run(cfg, s, FullCalls(cfg, cap, window, p, n)).fund.payments
        == [Payment(0, p, cap, window)] + Schedule(p, cap, window, 1, window + 1, n)
  {
    hide After, OpenDispute, Unlimited, At, Genesis, Run, Schedule, ScheduleCalls;
    var s0 := Genesis(cfg, map[cfg.self := (n + 1) * cap], cap, cap, window, 0);
    var connect, first := ChangeILRM(cfg.owner, 1), Request(p, 0, cap, p, OpenDispute(p));
    var s1 := After(cfg, s0, 0, connect);
    FirstCap(cfg, cap, window, p, n);
    var s2 := After(cfg, s1, window, first);
    PaysSchedule(cfg, s2, p, 1, 1, n);
    RunTail(cfg, s0, (0, connect), [(window, first)] + ScheduleCalls(p, cap, window, 1, 1, n));
    RunTail(cfg, s1, (window, first), ScheduleCalls(p, cap, window, 1, 1, n));
  }

  lemma RunTail(cfg: Setup, s: System, call: (nat, Call), rest: seq<(nat, Call)>)
    ensures Run(cfg, s, [call] + rest) == Run(cfg, After(cfg, s, call.0, call.1), rest)
  {
    assert ([call] + rest)[1..] == rest;
  }

  /** How many later windows open within a span that begins at the end of one. */
  lemma LaterWindows(cap: nat, window: nat, span: nat) returns (n: nat)
    ensures (n + 1) * cap == SpanBound(cap, window, span)
    ensures n > 0 ==> window + 1 + (n - 1) * (window + 1) <= window + span
    ensures n > 1 ==> window + 1 + (n - 2) * (window + 1) + window <= window + span
  {
    n := (span + window) / (window + 1);
    DivModEquation(span + window, window + 1);
    if n > 0 {
      OneLess(n, window + 1);
    }
    if n > 1 {
      OneLess(n - 1, window + 1);
    }
  }

  /** The bound of `RollingWindow` is reached, for every cap, window and length of the span. */
  lemma SpanBoundAttained(cfg: Setup, cap: nat, window: nat, p: Address, span: nat)
      returns (ledger: Balances, calls: seq<(nat, Call)>)
    requires cfg.self != 0 && cfg.owner != 0 && cfg.owner != cfg.self && p != 0 && p != cfg.self && 0 < cap
    requires SpanBound(cap, window, span) <= MAX_UINT256 && window + span <= MAX_UINT256
    ensures forall i :: 0 <= i < |calls| ==> !calls[i].1.ChangeCaps?
    ensures var log := Run(cfg, Genesis(cfg, ledger, cap, cap, window, 0), calls).fund.payments;
      PaidBetween(log, p, window, window + span) == SpanBound(cap, window, span)
  {
    hide Run, Genesis, SpanBound, ScheduleCalls, Schedule, PaidBetween, OpenDispute;
    var n := LaterWindows(cap, window, span);
    ledger, calls := map[cfg.self := (n + 1) * cap], FullCalls(cfg, cap, window, p, n);
    FullRun(cfg, cap, window, p, n);
    RequestsOnly(p, cap, window, 1, 1, n);
    SchedulePaid(p, cap, window, 1, window + 1, n, window, window + span);
    PaidCons(Payment(0, p, cap, window), Schedule(p, cap, window, 1, window + 1, n), p, window, window + span);
    OneLess(n + 1, cap);
  }

  /** Two whole caps within two seconds: one at the end of a window, one at the start of the next. */
  lemma TwoCapsAttained(cfg: Setup, cap: nat, window: nat, p: Address)
      returns (ledger: Balances, calls: seq<(nat, Call)>)
    requires cfg.self != 0 && cfg.owner != 0 && cfg.owner != cfg.self && p != 0 && p != cfg.self
    requires 0 < cap && 2 * cap <= MAX_UINT256 && 0 < window && window < MAX_UINT256
    ensures forall i :: 0 <= i < |calls| ==> !calls[i].1.ChangeCaps?
    ensures PaidBetween(Run(cfg, Genesis(cfg, ledger, cap, cap, window, 0), calls).fund.payments, p, window, window + 1)
         == 2 * cap
  {
    var span := 1;
    DivModUnique(span + window, window + 1, 1, 0);
    assert SpanBound(cap, window, span) == 2 * cap;
    hide SpanBound, Run, Genesis, PaidBetween;
    ledger, calls := SpanBoundAttained(cfg, cap, window, p, span);
  }

  /** In no run does a participant draw more than one cap in a span as long as a window. */
  ghost predicate OneCapASpan(cfg: Setup, cap: nat, window: nat) {
    forall ledger, perDispute, clock, calls: seq<(nat, Call)>, p, from: nat, to: nat ::
      (forall i :: 0 <= i < |calls| ==> !calls[i].1.ChangeCaps?) && from <= to <= from + window ==>
        PaidBetween(Run(cfg, Genesis(cfg, ledger, perDispute, cap, window, clock), calls).fund.payments, p, from, to)
          <= cap
  }

  /** That is so exactly for a window of no length or a cap of nothing. */
  lemma OneCapExactly(cfg: Setup, cap: nat, window: nat)
    requires cfg.self != 0 && cfg.owner != 0 && cfg.owner != cfg.self
    requires 2 * cap <= MAX_UINT256 && window < MAX_UINT256
    ensures OneCapASpan(cfg, cap, window) <==> window == 0 || cap == 0
  {
    hide Run, Genesis, PaidBetween;
    if window == 0 || cap == 0 {
      forall ledger, perDispute, clock, calls: seq<(nat, Call)>, p, from: nat, to: nat
        | (forall i :: 0 <= i < |calls| ==> !calls[i].1.ChangeCaps?) && from <= to <= from + window
        ensures PaidBetween(
          Run(cfg, Genesis(cfg, ledger, perDispute, cap, window, clock), calls).fund.payments, p, from, to) <= cap
      {
        RollingWindow(cfg, ledger, perDispute, cap, window, clock, calls, p, from, to);
      }
    } else {
      var p := if cfg.self == 1 then 2 else 1;
      var ledger, calls := TwoCapsAttained(cfg, cap, window, p);
      var to := window + 1;
      assert window <= to <= window + window;
    }
  }

  // ----- what every run keeps -----

  /** The log agrees with the record of subsidised disputes and with the running total. */
  ghost predicate LogInv(f: Fund) {
    && (forall i, j :: 0 <= i < j < |f.payments| ==> f.payments[i].id != f.payments[j].id)
    && (forall i :: 0 <= i < |f.payments| ==> Recorded(f, f.payments[i]))
    && (forall id :: id in f.subsidized ==> HasPayment(f.payments, id))
    && f.totalDistributed == Total(f.payments)
  }

  predicate HasPayment(log: seq<Payment>, id: DisputeId) {
    exists i :: 0 <= i < |log| && log[i].id == id
  }

  predicate Recorded(f: Fund, e: Payment) {
    e.amount > 0 && e.id in f.subsidized && e.id in f.recipient && f.recipient[e.id] == e.to
  }

  /** Every token that came in was distributed, taken out by the owner, or is still there. */
  ghost predicate TokenInv(cfg: Setup, s: System) {
    BalanceOf(s.fund.ledger, cfg.self) + s.fund.totalDistributed + s.taken == s.fund.totalInflows + s.sent
  }

  ghost predicate ScoreInv(f: Fund) {
    forall p :: At(f.score, p) <= 100
  }

  ghost predicate Inv(cfg: Setup, s: System) {
    LogInv(s.fund) && TokenInv(cfg, s) && ScoreInv(s.fund)
  }

  /** What a request changes outside the windows. */
  lemma RequestPays(
      cfg: Setup, f: Fund, now: nat, sender: Address, id: DisputeId, stakeNeeded: nat, participant: Address, d: Dispute)
    requires RequestSubsidy(cfg, f, now, sender, id, stakeNeeded, participant, d).Some?
    ensures var (f', x) := RequestSubsidy(cfg, f, now, sender, id, stakeNeeded, participant, d).value;
      && x > 0 && sender == participant && id !in f.subsidized
      && f'.payments == f.payments + [Payment(id, participant, x, now)]
      && f'.subsidized == f.subsidized + {id} && f'.recipient == f.recipient[id := participant]
      && f'.totalDistributed == f.totalDistributed + x && f'.totalInflows == f.totalInflows && f'.score == f.score
      && Transfer(f.ledger, cfg.self, participant, x) == Some(f'.ledger)
  {
    hide Transfer, BalanceOf, Cap, Available, At;
  }

  lemma RequestLogs(f: Fund, f': Fund, e: Payment)
    requires LogInv(f) && e.amount > 0 && e.id !in f.subsidized
    requires f'.payments == f.payments + [e] && f'.subsidized == f.subsidized + {e.id}
    requires f'.recipient == f.recipient[e.id := e.to] && f'.totalDistributed == f.totalDistributed + e.amount
    ensures LogInv(f')
  {
    PaySnoc(f.payments, e, e.to, 0, 0);
    hide Total;
    forall i | 0 <= i < |f.payments|
      ensures f.payments[i].id != e.id && Recorded(f', f.payments[i])
    {
      assert Recorded(f, f.payments[i]);
    }
    forall k | k in f'.subsidized
      ensures HasPayment(f'.payments, k)
    {
      if k == e.id {
        assert f'.payments[|f.payments|].id == k;
      } else {
        assert HasPayment(f.payments, k);
        var i :| 0 <= i < |f.payments| && f.payments[i].id == k;
        assert f'.payments[i].id == k;
      }
    }
    hide HasPayment, Recorded;
  }

  lemma StepKeepsTokens(cfg: Setup, s: System, wait: nat, c: Call)
    requires TokenInv(cfg, s)
    ensures TokenInv(cfg, After(cfg, s, wait, c))
  {
    hide Transfer, BalanceOf, At, RequestSubsidy;
    var f, now := s.fund, s.clock + wait;
    if Step(cfg, f, now, c).Some? {
      match c
      case Request(sender, id, stakeNeeded, participant, dispute) =>
        RequestPays(cfg, f, now, sender, id, stakeNeeded, participant, dispute);
        var x := RequestSubsidy(cfg, f, now, sender, id, stakeNeeded, participant, dispute).value.1;
        TransferDelta(f.ledger, cfg.self, participant, x, cfg.self);
      case GiveTokens(sender, amount, _) => TransferDelta(f.ledger, sender, cfg.self, amount, cfg.self);
      case GiveBurn(sender, amount, _) => TransferDelta(f.ledger, sender, cfg.self, amount, cfg.self);
      case TokenTransfer(sender, to, amount) => TransferDelta(f.ledger, sender, to, amount, cfg.self);
      case TakeOut(_, to, amount) => TransferDelta(f.ledger, cfg.self, to, amount, cfg.self);
      case _ =>
    }
  }

  lemma StepKeepsLog(cfg: Setup, s: System, wait: nat, c: Call)
    requires LogInv(s.fund) && ScoreInv(s.fund)
    ensures LogInv(After(cfg, s, wait, c).fund) && ScoreInv(After(cfg, s, wait, c).fund)
  {
    var f, f', now := s.fund, After(cfg, s, wait, c).fund, s.clock + wait;
    hide Transfer, BalanceOf, Total, RequestSubsidy;
    if c.Request? && Step(cfg, f, now, c).Some? {
      RequestPays(cfg, f, now, c.sender, c.id, c.stakeNeeded, c.participant, c.dispute);
      RequestLogs(f, f', f'.payments[|f.payments|]);
    } else {
      forall i | 0 <= i < |f'.payments|
        ensures Recorded(f', f'.payments[i])
      {
        assert Recorded(f, f.payments[i]);
      }
    }
    forall p
      ensures At(f'.score, p) <= 100
    {
      assert At(f.score, p) <= 100;
    }
  }

  lemma {:induction false} RunKeepsInv(cfg: Setup, s: System, calls: seq<(nat, Call)>)
    requires Inv(cfg, s)
    ensures Inv(cfg, Run(cfg, s, calls))
    decreases |calls|
  {
    hide LogInv, TokenInv, ScoreInv, After;
    if calls != [] {
      StepKeepsLog(cfg, s, calls[0].0, calls[0].1);
      StepKeepsTokens(cfg, s, calls[0].0, calls[0].1);
      RunKeepsInv(cfg, After(cfg, s, calls[0].0, calls[0].1), calls[1..]);
    }
  }

  /** Over every run: no dispute is subsidised twice, the tokens add up, and scores stay between 0 and 100. */
  lemma OneSubsidyPerDispute(
      cfg: Setup, ledger: Balances, perDispute: nat, cap: nat, window: nat, clock: nat, calls: seq<(nat, Call)>)
    ensures var s := Run(cfg, Genesis(cfg, ledger, perDispute, cap, window, clock), calls);
      var log := s.fund.payments;
      && (forall i, j :: 0 <= i < j < |log| ==> log[i].id != log[j].id)
      && (forall id :: id in s.fund.subsidized <==> HasPayment(log, id))
      && s.fund.totalDistributed == Total(log)
      && BalanceOf(s.fund.ledger, cfg.self) + Total(log) + s.taken == s.fund.totalInflows + s.sent
      && (forall p :: At(s.fund.score, p) <= 100)
  {
    var start := Genesis(cfg, ledger, perDispute, cap, window, clock);
    RunKeepsInv(cfg, start, calls);
    var f := Run(cfg, start, calls).fund;
    hide Run, Total, BalanceOf, At;
    forall i | 0 <= i < |f.payments|
      ensures f.payments[i].id in f.subsidized
    {
      assert Recorded(f, f.payments[i]);
    }
  }
}
