/**
 * The calls of the dispute contract one by one, in every reachable state: when each succeeds, by what
 * its sender can look up beforehand, and everything it changes. Opening a dispute is in module Creation,
 * accepting in module Texts, and when a timeout succeeds in module Guarantees.
 */
module Calls {
  import opened Wrappers
  import opened Ledger
  import opened Ilrm
  import opened Protocol
  import opened Guarantees
  import R = AssetRegistry

  /** From `b` to `b'`, `amount` tokens went from one account to another. */
  ghost predicate Moved(b: Balances, b': Balances, from: Address, to: Address, amount: nat) {
    forall a ::
      BalanceOf(b', a) == BalanceOf(b, a) - (if a == from then amount else 0) + (if a == to then amount else 0)
  }

  lemma TransferMoves(b: Balances, from: Address, to: Address, amount: nat)
    requires Transfer(b, from, to, amount).Some?
    ensures Moved(b, Transfer(b, from, to, amount).value, from, to, amount)
  {
    forall a
      ensures BalanceOf(Transfer(b, from, to, amount).value, a)
           == BalanceOf(b, a) - (if a == from then amount else 0) + (if a == to then amount else 0)
    {
      TransferDelta(b, from, to, amount, a);
    }
  }

  /** A transaction sent by an account. */
  ghost predicate Sent(cfg: Config, s: System, c: Call) {
    Inv(cfg, s) && c.sender != 0 && c.sender != cfg.self
  }

  lemma AfterIsStep(cfg: Config, s: System, c: Call)
    requires Sent(cfg, s, c)
    ensures R.IndexInv(s.w.registry) && cfg.self != 0 && s.w.ethBalance == s.w.treasury
    ensures After(cfg, s, c).w == if Step(cfg, s.w, c).Some? then Step(cfg, s.w, c).value else s.w
  {
    hide HistoryInv, R.IndexInv, R.FreezeInv, FrozenForDispute, Step;
  }

  lemma StepIsCall(cfg: Config, w: World, c: Call)
    requires R.IndexInv(w.registry) && c.sender != 0 && c.sender != cfg.self
    ensures c.Stake? ==> Step(cfg, w, c) == DepositStake(cfg, w, c.now, c.sender, c.id, c.approved)
    ensures c.Propose? ==>
      Step(cfg, w, c) == SubmitLLMProposal(cfg, w, c.now, c.sender, c.id, c.proposal, c.signatureValid)
    ensures c.Accept? ==> Step(cfg, w, c) == AcceptProposal(cfg, w, c.now, c.sender, c.id)
    ensures c.Counter? ==> Step(cfg, w, c) == CounterPropose(w, c.now, c.sender, c.id, c.evidence, c.value)
    ensures c.Enforce? ==> Step(cfg, w, c) == EnforceTimeout(cfg, w, c.now, c.id)
    ensures c.DepositReserves? ==> Step(cfg, w, c) == DepositTokenReserves(cfg, w, c.sender, c.amount, c.approved)
    ensures c.Withdraw? ==> Step(cfg, w, c) == WithdrawTreasury(cfg, w, c.sender, c.to, c.amount, c.callSucceeds)
  {
    hide R.IndexInv, DepositStake, SubmitLLMProposal, AcceptProposal, CounterPropose, EnforceTimeout;
    hide DepositTokenReserves, WithdrawTreasury, InitiateBreachDispute, R.RegisterAsset, R.TransferAsset, Transfer;
  }

  /** The registry's own calls change the registry and nothing else. */
  lemma RegistryCallExactly(cfg: Config, s: System, c: Call)
    requires Sent(cfg, s, c) && (c.RegisterAsset? || c.TransferAsset?)
    ensures R.IndexInv(s.w.registry)
    ensures var r :=
        if c.RegisterAsset? then R.RegisterAsset(s.w.registry, c.sender, c.now, c.asset, c.owner, c.terms)
        else R.TransferAsset(s.w.registry, c.sender, c.now, c.asset, c.newOwner);
      && (Step(cfg, s.w, c).Some? <==> r.Some?)
      && After(cfg, s, c).w == if r.Some? then s.w.(registry := r.value) else s.w
  {
    AfterIsStep(cfg, s, c);
    hide Inv, After, R.IndexInv, R.RegisterAsset, R.TransferAsset;
  }

  // ----- stakes -----

  lemma StakeParts(cfg: Config, w: World, now: nat, sender: Address, id: DisputeId, approved: bool)
    requires sender != 0
    ensures var d, r := DisputeAt(w.disputes, id), DepositStake(cfg, w, now, sender, id, approved);
      r.Some? ==
        (&& !w.paused && id in w.disputes && sender == d.counterparty
         && !d.resolved && d.counterpartyStake == 0 && now <= d.startTime + 3 * 24 * 60 * 60
         && TransferFrom(w.ledger, sender, cfg.self, d.initiatorStake, approved).Some?)
    ensures var d, r := DisputeAt(w.disputes, id), DepositStake(cfg, w, now, sender, id, approved);
      r.Some? ==>
        r.value == w.(ledger := TransferFrom(w.ledger, sender, cfg.self, d.initiatorStake, approved).value,
                      disputes := w.disputes[id := d.(counterpartyStake := d.initiatorStake)],
                      events := w.events + [Staked(id, now)])
  {
    hide TransferFrom;
  }

  /**
   * The counterparty answers an open dispute with the same stake: while the contract is not paused,
   * once, within three days of its start, with the transfer approved and covered.
   */
  lemma StakeExactly(cfg: Config, s: System, c: Call)
    requires Sent(cfg, s, c) && c.Stake?
    ensures var d := DisputeAt(s.w.disputes, c.id);
      Step(cfg, s.w, c).Some? ==
        (&& !s.w.paused && c.id in s.w.disputes && c.sender == d.counterparty
         && !d.resolved && d.counterpartyStake == 0 && c.now <= d.startTime + 3 * 24 * 60 * 60
         && c.approved && d.initiatorStake <= BalanceOf(s.w.ledger, c.sender))
    ensures var d, w' := DisputeAt(s.w.disputes, c.id), After(cfg, s, c).w;
      Step(cfg, s.w, c).Some? ==>
        && w' == s.w.(ledger := w'.ledger,
                      disputes := s.w.disputes[c.id := d.(counterpartyStake := d.initiatorStake)],
                      events := s.w.events + [Staked(c.id, c.now)])
        && Moved(s.w.ledger, w'.ledger, c.sender, cfg.self, d.initiatorStake)
  {
    hide Inv, After, Step, R.IndexInv, Moved, Transfer, BalanceOf, DepositStake;
    AfterIsStep(cfg, s, c);
    StepIsCall(cfg, s.w, c);
    StakeParts(cfg, s.w, c.now, c.sender, c.id, c.approved);
    var d := DisputeAt(s.w.disputes, c.id);
    TransferExactly(s.w.ledger, c.sender, cfg.self, d.initiatorStake, c.approved);
    if Step(cfg, s.w, c).Some? {
      TransferMoves(s.w.ledger, c.sender, cfg.self, d.initiatorStake);
    }
  }

  /** Over every run: no dispute was ever answered later than three days after its creation. */
  lemma StakesCameInTime(cfg: Config, ledger: Balances, calls: seq<Call>, i: nat)
    requires ValidConfig(cfg)
    requires i < |Run(cfg, Genesis(cfg, ledger), calls).w.events|
    requires Run(cfg, Genesis(cfg, ledger), calls).w.events[i].Staked?
    ensures var es := Run(cfg, Genesis(cfg, ledger), calls).w.events;
      es[i].at <= CreatedAt(es, es[i].id) + 3 * 24 * 60 * 60
  {
    var s := Run(cfg, Genesis(cfg, ledger), calls);
    var id := s.w.events[i].id;
    assert id in s.w.disputes;
    assert DisputeOk(cfg, s.w.events, id, s.w.disputes[id]);
    hide CreatedAt, FeesBurned, Payouts, AcceptedSince, PaidRight, TextOk, Ilrm.Pow2, Genesis, Run;
  }

  // ----- proposals -----

  /** The oracle contract puts a signed text on the table of an open dispute with both stakes in. */
  lemma ProposeExactly(cfg: Config, s: System, c: Call)
    requires Sent(cfg, s, c) && c.Propose?
    ensures var d := DisputeAt(s.w.disputes, c.id);
      Step(cfg, s.w, c).Some? ==
        (&& c.sender == cfg.oracle && c.id in s.w.disputes && !d.resolved && d.counterpartyStake > 0
         && c.proposal != "" && c.signatureValid)
    ensures Step(cfg, s.w, c).Some? ==>
      After(cfg, s, c).w
        == s.w.(disputes := s.w.disputes[c.id := DisputeAt(s.w.disputes, c.id).(llmProposal := c.proposal)],
                events := s.w.events + [Proposed(c.id, c.proposal, c.now)])
  {
    AfterIsStep(cfg, s, c);
    StepIsCall(cfg, s.w, c);
    hide Inv, After, Step, R.IndexInv;
  }

  /** What the next counter-proposal costs: 0.01 ether, then twice that, then four times. */
  function NextFee(d: Dispute): nat {
    (if d.counterCount == 0 then 1 else if d.counterCount == 1 then 2 else 4) * 10_000_000_000_000_000
  }

  lemma CounterParts(w: World, now: nat, sender: Address, id: DisputeId, evidence: nat, value: nat)
    requires sender != 0
    ensures var d, r := DisputeAt(w.disputes, id), CounterPropose(w, now, sender, id, evidence, value);
      r.Some? ==
        (&& !w.paused && id in w.disputes && (sender == d.initiator || sender == d.counterparty)
         && !d.resolved && d.counterpartyStake > 0 && d.counterCount < 3
         && 10_000_000_000_000_000 * Pow2(d.counterCount) <= value)
    ensures var d, r := DisputeAt(w.disputes, id), CounterPropose(w, now, sender, id, evidence, value);
      var fee: nat := 10_000_000_000_000_000 * Pow2(d.counterCount);
      r.Some? ==>
        r.value == w.(treasury := w.treasury + (value - fee), ethBalance := w.ethBalance + (value - fee),
                     disputes := w.disputes[id := d.(
                       counterCount := d.counterCount + 1, evidenceHash := evidence, llmProposal := "",
                       initiatorAccepted := false, counterpartyAccepted := false,
                       startTime := d.startTime + 24 * 60 * 60)],
                     events := w.events + [Countered(id, fee, now)])
  {
    hide Pow2;
  }

  /**
   * Either party counters, at most three times: the fee is burned, what was sent beyond it goes to the
   * treasury, the table is cleared, both acceptances with it, and the clock moves on by a day.
   */
  lemma CounterExactly(cfg: Config, s: System, c: Call)
    requires Sent(cfg, s, c) && c.Counter?
    ensures var d := DisputeAt(s.w.disputes, c.id);
      Step(cfg, s.w, c).Some? ==
        (&& !s.w.paused && c.id in s.w.disputes && (c.sender == d.initiator || c.sender == d.counterparty)
         && !d.resolved && d.counterpartyStake > 0 && d.counterCount < 3 && NextFee(d) <= c.value)
    ensures var d := DisputeAt(s.w.disputes, c.id);
      Step(cfg, s.w, c).Some? ==>
        && NextFee(d) <= c.value
        && After(cfg, s, c).w
             == s.w.(treasury := s.w.treasury + (c.value - NextFee(d)),
                     ethBalance := s.w.ethBalance + (c.value - NextFee(d)),
                     disputes := s.w.disputes[c.id := d.(
                       counterCount := d.counterCount + 1, evidenceHash := c.evidence, llmProposal := "",
                       initiatorAccepted := false, counterpartyAccepted := false,
                       startTime := d.startTime + 24 * 60 * 60)],
                     events := s.w.events + [Countered(c.id, NextFee(d), c.now)])
  {
    hide Inv, After, Step, R.IndexInv, Moved, Transfer, BalanceOf, CounterPropose;
    AfterIsStep(cfg, s, c);
    StepIsCall(cfg, s.w, c);
    CounterParts(s.w, c.now, c.sender, c.id, c.evidence, c.value);
    assert Pow2(0) == 1 && Pow2(1) == 2 && Pow2(2) == 4;
    var n := DisputeAt(s.w.disputes, c.id).counterCount;
    assert n < 3 ==> n == 0 || n == 1 || n == 2;
  }

  /** A voluntary request costs at least 0.01 ether, which is burned, and changes nothing. */
  lemma RequestExactly(cfg: Config, s: System, c: Call)
    requires Sent(cfg, s, c) && c.Request?
    ensures Step(cfg, s.w, c).Some? <==> c.counterparty != 0 && 10_000_000_000_000_000 <= c.value
    ensures After(cfg, s, c).w == s.w
  {
    AfterIsStep(cfg, s, c);
    hide Inv, After, R.IndexInv;
  }

  // ----- the ends of a dispute -----

  lemma EnforceParts(cfg: Config, w: World, now: nat, id: DisputeId)
    requires EnforceTimeout(cfg, w, now, id).Some?
    ensures var d, w' := DisputeAt(w.disputes, id), EnforceTimeout(cfg, w, now, id).value;
      && !d.resolved
      && w' == w.(ledger := w'.ledger, registry := w'.registry, tokenReserves := w'.tokenReserves,
                    events := w'.events,
                    disputes := w.disputes[id := d.(
                      resolved := true,
                      outcome := if d.counterpartyStake == 0 then DefaultLicenseApplied else TimeoutWithBurn)])
      && (d.counterpartyStake > 0 ==> w'.tokenReserves == w.tokenReserves)
      && |w'.events| == |w.events| + 1 && w'.events[..|w.events|] == w.events
      && w'.events[|w.events|].Resolved? && w'.events[|w.events|].id == id
      && w'.events[|w.events|].at == now
  {
    hide Transfer, TimeoutTransfers, R.UnfreezeAssets, R.ApplyFallbackLicense;
  }

  /** The record of a dispute that timed out: resolved, with the outcome by its counter-stake. */
  lemma EnforceEffect(cfg: Config, s: System, c: Call)
    requires Sent(cfg, s, c) && c.Enforce? && Step(cfg, s.w, c).Some?
    ensures var d, w' := DisputeAt(s.w.disputes, c.id), After(cfg, s, c).w;
      && c.id in s.w.disputes && !d.resolved
      && w' == s.w.(ledger := w'.ledger, registry := w'.registry, tokenReserves := w'.tokenReserves,
                    events := w'.events,
                    disputes := s.w.disputes[c.id := d.(
                      resolved := true,
                      outcome := if d.counterpartyStake == 0 then DefaultLicenseApplied else TimeoutWithBurn)])
      && (d.counterpartyStake > 0 ==> w'.tokenReserves == s.w.tokenReserves)
      && |w'.events| == |s.w.events| + 1 && w'.events[..|s.w.events|] == s.w.events
      && w'.events[|s.w.events|].Resolved? && w'.events[|s.w.events|].id == c.id
      && w'.events[|s.w.events|].at == c.now
  {
    hide Inv, After, Step, R.IndexInv, Moved, Transfer, BalanceOf, EnforceTimeout;
    AfterIsStep(cfg, s, c);
    StepIsCall(cfg, s.w, c);
    EnforceParts(cfg, s.w, c.now, c.id);
    OnlyCreatedDisputesTimeOut(cfg, s.w, c.now, c.id);
  }

  lemma SettleParts(cfg: Config, w: World, now: nat, sender: Address, id: DisputeId)
    requires AcceptProposal(cfg, w, now, sender, id).Some?
    requires DisputeAt(AcceptProposal(cfg, w, now, sender, id).value.disputes, id).resolved
    ensures var d, w' := DisputeAt(w.disputes, id), AcceptProposal(cfg, w, now, sender, id).value;
      && !d.resolved && id in w.disputes
      && w' == w.(ledger := w'.ledger, registry := w'.registry, events := w'.events,
                    disputes := w.disputes[id := d.(
                      initiatorAccepted := true, counterpartyAccepted := true,
                      resolved := true, outcome := AcceptedProposal)])
  {
    hide Transfer, R.UnfreezeAssets;
  }

  /** The record of a dispute settled by its second acceptance. */
  lemma SettleEffect(cfg: Config, s: System, c: Call)
    requires Sent(cfg, s, c) && c.Accept? && Step(cfg, s.w, c).Some?
    requires DisputeAt(After(cfg, s, c).w.disputes, c.id).resolved
    ensures var d, w' := DisputeAt(s.w.disputes, c.id), After(cfg, s, c).w;
      && c.id in s.w.disputes && !d.resolved
      && w' == s.w.(ledger := w'.ledger, registry := w'.registry, events := w'.events,
                    disputes := s.w.disputes[c.id := d.(
                      initiatorAccepted := true, counterpartyAccepted := true,
                      resolved := true, outcome := AcceptedProposal)])
  {
    hide Inv, After, Step, R.IndexInv, Moved, Transfer, BalanceOf, AcceptProposal;
    AfterIsStep(cfg, s, c);
    StepIsCall(cfg, s.w, c);
    SettleParts(cfg, s.w, c.now, c.sender, c.id);
  }

  // ----- tokens and ether -----

  /** Anyone moves tokens it has. */
  lemma TransferCallExactly(cfg: Config, s: System, c: Call)
    requires Sent(cfg, s, c) && c.TokenTransfer?
    ensures Step(cfg, s.w, c).Some? <==> c.to != 0 && c.amount <= BalanceOf(s.w.ledger, c.sender)
    ensures Step(cfg, s.w, c).Some? ==>
      && After(cfg, s, c).w == s.w.(ledger := After(cfg, s, c).w.ledger)
      && Moved(s.w.ledger, After(cfg, s, c).w.ledger, c.sender, c.to, c.amount)
  {
    AfterIsStep(cfg, s, c);
    hide Inv, After, Moved, Transfer, BalanceOf, R.IndexInv;
    TransferExactly(s.w.ledger, c.sender, c.to, c.amount, true);
    if Step(cfg, s.w, c).Some? {
      TransferMoves(s.w.ledger, c.sender, c.to, c.amount);
    }
  }

  /** Anyone adds tokens to the reserves, which grow by exactly what is paid. */
  lemma DepositExactly(cfg: Config, s: System, c: Call)
    requires Sent(cfg, s, c) && c.DepositReserves?
    ensures Step(cfg, s.w, c).Some?
       <==> && c.amount > 0 && c.approved && c.amount <= BalanceOf(s.w.ledger, c.sender)
            && s.w.tokenReserves + c.amount <= MAX_UINT256
    ensures var w' := After(cfg, s, c).w;
      Step(cfg, s.w, c).Some? ==>
        && w' == s.w.(ledger := w'.ledger, tokenReserves := s.w.tokenReserves + c.amount)
        && Moved(s.w.ledger, w'.ledger, c.sender, cfg.self, c.amount)
  {
    AfterIsStep(cfg, s, c);
    StepIsCall(cfg, s.w, c);
    hide Inv, After, Step, Moved, Transfer, BalanceOf, R.IndexInv;
    TransferExactly(s.w.ledger, c.sender, cfg.self, c.amount, c.approved);
    if Step(cfg, s.w, c).Some? {
      TransferMoves(s.w.ledger, c.sender, cfg.self, c.amount);
    }
  }

  lemma WithdrawParts(cfg: Config, w: World, sender: Address, to: Address, amount: nat, callSucceeds: bool)
    ensures var r := WithdrawTreasury(cfg, w, sender, to, amount, callSucceeds);
      && r.Some? ==
           (sender == cfg.owner && amount <= w.treasury && to != 0 && amount <= w.ethBalance && callSucceeds)
      && (r.Some? ==>
            r.value == if to == cfg.self then w
                       else w.(treasury := w.treasury - amount, ethBalance := w.ethBalance - amount))
  {
  }

  /**
   * The owner, and no one else, takes ether out of the treasury, up to all of it. The contract always
   * has the ether; sent to the contract itself it comes straight back.
   */
  lemma WithdrawExactly(cfg: Config, s: System, c: Call)
    requires Sent(cfg, s, c) && c.Withdraw?
    ensures Step(cfg, s.w, c).Some?
       <==> c.sender == cfg.owner && c.amount <= s.w.treasury && c.to != 0 && c.callSucceeds
    ensures Step(cfg, s.w, c).Some? ==>
      && c.amount <= s.w.treasury && c.amount <= s.w.ethBalance
      && After(cfg, s, c).w
           == if c.to == cfg.self then s.w
              else s.w.(treasury := s.w.treasury - c.amount, ethBalance := s.w.ethBalance - c.amount)
  {
    hide Inv, After, Step, R.IndexInv, Moved, Transfer, BalanceOf, WithdrawTreasury;
    AfterIsStep(cfg, s, c);
    StepIsCall(cfg, s.w, c);
    WithdrawParts(cfg, s.w, c.sender, c.to, c.amount, c.callSucceeds);
  }

  /** Ether sent to the contract is counted in the treasury. */
  lemma SendEtherExactly(cfg: Config, s: System, c: Call)
    requires Sent(cfg, s, c) && c.SendEther?
    ensures Step(cfg, s.w, c).Some?
    ensures After(cfg, s, c).w
         == s.w.(treasury := s.w.treasury + c.value, ethBalance := s.w.ethBalance + c.value)
  {
    AfterIsStep(cfg, s, c);
    hide Inv, After, R.IndexInv;
  }

  /** The owner, and no one else, turns the pause on when it is off and off when it is on. */
  lemma PauseExactly(cfg: Config, s: System, c: Call)
    requires Sent(cfg, s, c) && c.Pause?
    ensures Step(cfg, s.w, c).Some? <==> c.sender == cfg.owner && s.w.paused != c.paused
    ensures Step(cfg, s.w, c).Some? ==> After(cfg, s, c).w == s.w.(paused := c.paused)
  {
    AfterIsStep(cfg, s, c);
    hide Inv, After, R.IndexInv;
  }
}
