/**
 * The token supply: no call of the dispute system creates or destroys tokens, so a stake of more than
 * half of them can never be matched.
 */
module Supply {
  import opened Wrappers
  import opened Ledger
  import opened Ilrm
  import opened Protocol
  import opened Guarantees
  import opened Creation
  import R = AssetRegistry

  // ----- sums of balances -----

  function SumOf(b: Balances, accounts: seq<Address>): nat {
    if accounts == [] then 0
    else SumOf(b, accounts[..|accounts| - 1]) + BalanceOf(b, accounts[|accounts| - 1])
  }

  /** No different accounts hold more than `total` together, and some hold exactly that. */
  ghost predicate SupplyIs(b: Balances, total: nat) {
    && (forall accounts :: R.NoRepeats(accounts) ==> SumOf(b, accounts) <= total)
    && (exists accounts :: R.NoRepeats(accounts) && SumOf(b, accounts) == total)
  }

  lemma SumSnoc(b: Balances, accounts: seq<Address>, a: Address)
    ensures SumOf(b, accounts + [a]) == SumOf(b, accounts) + BalanceOf(b, a)
  {
    assert (accounts + [a])[..|accounts|] == accounts;
  }

  lemma {:induction false} TransferSum(b: Balances, from: Address, to: Address, amount: nat, accounts: seq<Address>)
    requires Transfer(b, from, to, amount).Some? && R.NoRepeats(accounts)
    ensures SumOf(Transfer(b, from, to, amount).value, accounts)
         == SumOf(b, accounts) - (if from in accounts then amount else 0) + (if to in accounts then amount else 0)
  {
    if accounts != [] {
      var n := |accounts| - 1;
      var init, last := accounts[..n], accounts[n];
      assert last !in init && accounts == init + [last];
      TransferSum(b, from, to, amount, init);
      TransferDelta(b, from, to, amount, last);
      hide Transfer, BalanceOf;
    }
  }

  /** A list of accounts that holds everything, extended by one account, still does. */
  lemma WithAccount(b: Balances, total: nat, accounts: seq<Address>, a: Address) returns (more: seq<Address>)
    requires SupplyIs(b, total) && R.NoRepeats(accounts) && SumOf(b, accounts) == total
    ensures R.NoRepeats(more) && SumOf(b, more) == total && a in more && forall x :: x in accounts ==> x in more
  {
    if a in accounts {
      more := accounts;
    } else {
      more := accounts + [a];
      SumSnoc(b, accounts, a);
      assert R.NoRepeats(more);
    }
  }

  lemma TransferWithin(b: Balances, from: Address, to: Address, amount: nat, total: nat, accounts: seq<Address>)
    requires Transfer(b, from, to, amount).Some? && SupplyIs(b, total) && R.NoRepeats(accounts)
    ensures SumOf(Transfer(b, from, to, amount).value, accounts) <= total
  {
    TransferSum(b, from, to, amount, accounts);
    if from !in accounts {
      SumSnoc(b, accounts, from);
      assert R.NoRepeats(accounts + [from]);
      assert amount <= BalanceOf(b, from);
    }
    hide Transfer, SumOf, BalanceOf;
  }

  lemma TransferKeepsSupply(b: Balances, from: Address, to: Address, amount: nat, total: nat)
    requires Transfer(b, from, to, amount).Some? && SupplyIs(b, total)
    ensures SupplyIs(Transfer(b, from, to, amount).value, total)
  {
    hide Transfer, SumOf;
    var b' := Transfer(b, from, to, amount).value;
    forall accounts | R.NoRepeats(accounts)
      ensures SumOf(b', accounts) <= total
    {
      TransferWithin(b, from, to, amount, total, accounts);
    }
    var all :| R.NoRepeats(all) && SumOf(b, all) == total;
    all := WithAccount(b, total, all, from);
    all := WithAccount(b, total, all, to);
    TransferSum(b, from, to, amount, all);
    assert SumOf(b', all) == total;
  }

  // ----- over runs -----

  lemma AcceptKeepsSupply(cfg: Config, w: World, now: nat, sender: Address, id: DisputeId, total: nat)
    requires AcceptProposal(cfg, w, now, sender, id).Some? && id in w.disputes && SupplyIs(w.ledger, total)
    ensures SupplyIs(AcceptProposal(cfg, w, now, sender, id).value.ledger, total)
  {
    hide SupplyIs, Transfer, R.UnfreezeAssets;
    if DisputeAt(AcceptProposal(cfg, w, now, sender, id).value.disputes, id).resolved {
      AcceptanceTransfers(cfg, w, now, sender, id);
      var d := w.disputes[id];
      var ledger1 := Transfer(w.ledger, cfg.self, d.initiator, d.initiatorStake).value;
      TransferKeepsSupply(w.ledger, cfg.self, d.initiator, d.initiatorStake, total);
      TransferKeepsSupply(ledger1, cfg.self, d.counterparty, d.counterpartyStake, total);
    }
  }

  lemma TimeoutTransfersKeepSupply(
      b: Balances, self: Address, d: Dispute, burned: nat, each: nat, dust: nat, total: nat)
    requires TimeoutTransfers(b, self, d, burned, each, dust).Some? && SupplyIs(b, total)
    ensures SupplyIs(TimeoutTransfers(b, self, d, burned, each, dust).value, total)
  {
    hide SupplyIs, Transfer;
    var ledger1 := Transfer(b, self, BURN_ADDRESS, burned).value;
    var ledger2 := Transfer(ledger1, self, d.initiator, each).value;
    var ledger3 := Transfer(ledger2, self, d.counterparty, each).value;
    TransferKeepsSupply(b, self, BURN_ADDRESS, burned, total);
    TransferKeepsSupply(ledger1, self, d.initiator, each, total);
    TransferKeepsSupply(ledger2, self, d.counterparty, each, total);
    if dust > 0 {
      TransferKeepsSupply(ledger3, self, BURN_ADDRESS, dust, total);
    }
  }

  lemma BurnKeepsSupply(cfg: Config, w: World, now: nat, id: DisputeId, total: nat)
    requires id in w.disputes && w.disputes[id].initiatorStake == w.disputes[id].counterpartyStake
    requires ResolveTimeout(cfg, w, now, id).Some? && SupplyIs(w.ledger, total)
    ensures SupplyIs(ResolveTimeout(cfg, w, now, id).value.ledger, total)
  {
    hide SupplyIs, TimeoutTransfers, ResolveTimeout;
    var d, n := w.disputes[id], w.disputes[id].initiatorStake;
    TimeoutLedger(cfg, w, now, id);
    TimeoutTransfersKeepSupply(w.ledger, cfg.self, d, n, n / 2, n % 2, total);
  }

  lemma DefaultKeepsSupply(cfg: Config, w: World, now: nat, id: DisputeId, total: nat)
    requires id in w.disputes && ResolveNonParticipation(cfg, w, now, id).Some? && SupplyIs(w.ledger, total)
    ensures SupplyIs(ResolveNonParticipation(cfg, w, now, id).value.ledger, total)
  {
    hide SupplyIs, Transfer, ResolveNonParticipation;
    var d := w.disputes[id];
    NonParticipationLedger(cfg, w, now, id);
    TransferKeepsSupply(w.ledger, cfg.self, d.initiator,
      d.initiatorStake + IncentiveFrom(w.tokenReserves, d.initiatorStake), total);
  }

  lemma EnforceKeepsSupply(cfg: Config, s: System, now: nat, id: DisputeId, total: nat)
    requires Inv(cfg, s) && EnforceTimeout(cfg, s.w, now, id).Some? && SupplyIs(s.w.ledger, total)
    ensures SupplyIs(EnforceTimeout(cfg, s.w, now, id).value.ledger, total)
  {
    OnlyCreatedDisputesTimeOut(cfg, s.w, now, id);
    hide Inv, SupplyIs, ResolveTimeout, ResolveNonParticipation;
    var d := s.w.disputes[id];
    StakesAreHeld(cfg, s, id);
    if d.counterpartyStake > 0 {
      BurnKeepsSupply(cfg, s.w, now, id, total);
    } else {
      DefaultKeepsSupply(cfg, s.w, now, id, total);
    }
  }

  lemma CallerKeepsSupply(cfg: Config, w: World, c: Call, total: nat)
    requires R.IndexInv(w.registry) && Step(cfg, w, c).Some? && !c.Enforce? && !c.Accept? && SupplyIs(w.ledger, total)
    ensures SupplyIs(Step(cfg, w, c).value.ledger, total)
  {
    hide R.IndexInv, R.RegisterAsset, R.TransferAsset, R.FreezeAssets, Ilrm.Pow2, SupplyIs, Transfer;
    match c
    case TokenTransfer(sender, to, amount) => TransferKeepsSupply(w.ledger, sender, to, amount, total);
    case Initiate(sender, now, counterparty, stake, _, _, _) =>
      var escalated := EscalatedStake(w.lastDisputeTime, now, sender, counterparty, stake);
      TransferKeepsSupply(w.ledger, sender, cfg.self, escalated.value, total);
      hide EscalatedStake;
    case Stake(sender, _, id, _) =>
      TransferKeepsSupply(w.ledger, sender, cfg.self, DisputeAt(w.disputes, id).initiatorStake, total);
    case DepositReserves(sender, amount, _) => TransferKeepsSupply(w.ledger, sender, cfg.self, amount, total);
    case _ =>
  }

  lemma AfterKeepsSupply(cfg: Config, s: System, c: Call, total: nat)
    requires Inv(cfg, s) && SupplyIs(s.w.ledger, total)
    ensures SupplyIs(After(cfg, s, c).w.ledger, total)
  {
    hide HistoryInv, R.IndexInv, R.FreezeInv, MoneyInv, FrozenForDispute, SupplyIs, EnforceTimeout, AcceptProposal;
    if Step(cfg, s.w, c).Some? {
      if c.Enforce? {
        EnforceKeepsSupply(cfg, s, c.now, c.id, total);
      } else if c.Accept? {
        OnlyCreatedAccepted(cfg, s, c.now, c.sender, c.id);
        AcceptKeepsSupply(cfg, s.w, c.now, c.sender, c.id, total);
      } else {
        CallerKeepsSupply(cfg, s.w, c, total);
      }
    }
    hide Step;
  }

  lemma OnlyCreatedAccepted(cfg: Config, s: System, now: nat, sender: Address, id: DisputeId)
    requires AcceptProposal(cfg, s.w, now, sender, id).Some?
    ensures id in s.w.disputes
  {
    hide ResolveAccepted;
  }

  /** Over every run the supply stays what it was. */
  lemma {:induction false} SupplyConserved(cfg: Config, s: System, calls: seq<Call>, total: nat)
    requires Inv(cfg, s) && SupplyIs(s.w.ledger, total)
    ensures SupplyIs(Run(cfg, s, calls).w.ledger, total)
    decreases |calls|
  {
    hide Inv, After, SupplyIs;
    if calls != [] {
      AfterKeepsSupply(cfg, s, calls[0], total);
      SupplyConserved(cfg, After(cfg, s, calls[0]), calls[1..], total);
    }
  }

  // ----- stakes that cannot be matched -----

  /** More than half of all tokens, and too much for the incentive's multiplication. */
  predicate TooLarge(d: Dispute, total: nat) {
    2 * d.initiatorStake > total && d.initiatorStake * INITIATOR_INCENTIVE_BPS > MAX_UINT256
  }

  lemma TwoHold(b: Balances, total: nat, x: Address, y: Address)
    requires SupplyIs(b, total) && x != y
    ensures BalanceOf(b, x) + BalanceOf(b, y) <= total
  {
    hide BalanceOf;
    SumSnoc(b, [], x);
    SumSnoc(b, [x], y);
    assert [] + [x] == [x] && R.NoRepeats([x] + [y]);
    assert SumOf(b, [x] + [y]) <= total;
  }

  /** While such a stake is held, nobody has as much again. */
  lemma NoMatch(cfg: Config, s: System, id: DisputeId, total: nat, a: Address)
    requires Inv(cfg, s) && SupplyIs(s.w.ledger, total)
    requires id in s.w.disputes && !s.w.disputes[id].resolved && TooLarge(s.w.disputes[id], total)
    requires a != cfg.self
    ensures BalanceOf(s.w.ledger, a) < s.w.disputes[id].initiatorStake
  {
    hide Inv, BalanceOf, SupplyIs;
    StakesAreHeld(cfg, s, id);
    TwoHold(s.w.ledger, total, cfg.self, a);
  }

  /** The record of a dispute without a counter-stake changes only by that stake or by a timeout. */
  lemma OnlyStakeOrEnforce(cfg: Config, w: World, c: Call, id: DisputeId)
    requires HistoryInv(cfg, w) && R.IndexInv(w.registry) && Step(cfg, w, c).Some?
    requires id in w.disputes && w.disputes[id].counterpartyStake == 0 && w.disputes[id].llmProposal == ""
    requires !(c.Stake? && c.id == id) && !(c.Enforce? && c.id == id)
    ensures id in Step(cfg, w, c).value.disputes && Step(cfg, w, c).value.disputes[id] == w.disputes[id]
  {
    hide R.IndexInv, Transfer, TransferFrom, R.FreezeAssets, R.UnfreezeAssets, R.ApplyFallbackLicense;
    hide R.RegisterAsset, R.TransferAsset, EscalatedStake, Ilrm.Pow2, DisputeOk;
    if c.Enforce? {
      TimeoutDisputes(cfg, w, c.now, c.id);
    }
  }

  lemma StakeNeedsBalance(cfg: Config, w: World, now: nat, sender: Address, id: DisputeId, approved: bool)
    requires DepositStake(cfg, w, now, sender, id, approved).Some? && id in w.disputes
    ensures w.disputes[id].initiatorStake <= BalanceOf(w.ledger, sender)
  {
  }

  lemma UnstakedHasNoText(cfg: Config, s: System, id: DisputeId)
    requires Inv(cfg, s) && id in s.w.disputes && s.w.disputes[id].counterpartyStake == 0
    ensures s.w.disputes[id].llmProposal == ""
  {
    assert DisputeOk(cfg, s.w.events, id, s.w.disputes[id]);
  }

  lemma AfterKeepsTooLarge(cfg: Config, s: System, c: Call, id: DisputeId, total: nat)
    requires Inv(cfg, s) && SupplyIs(s.w.ledger, total)
    requires id in s.w.disputes && !s.w.disputes[id].resolved && s.w.disputes[id].counterpartyStake == 0
    requires TooLarge(s.w.disputes[id], total)
    ensures id in After(cfg, s, c).w.disputes && After(cfg, s, c).w.disputes[id] == s.w.disputes[id]
  {
    UnstakedHasNoText(cfg, s, id);
    EnforceExactly(cfg, s, if c.Enforce? then c.now else 0, id);
    hide HistoryInv, R.IndexInv, R.FreezeInv, MoneyInv, FrozenForDispute, SupplyIs;
    hide EnforceTimeout, DepositStake, BalanceOf;
    if Step(cfg, s.w, c).Some? {
      if c.Stake? && c.id == id {
        NoMatch(cfg, s, id, total, c.sender);
        StakeNeedsBalance(cfg, s.w, c.now, c.sender, id, c.approved);
        assert false;
      }
      OnlyStakeOrEnforce(cfg, s.w, c, id);
    }
    hide Step;
  }

  /** A dispute opened with such a stake is unresolved after every run. */
  lemma {:induction false} TooLargeForEver(cfg: Config, s: System, calls: seq<Call>, id: DisputeId, total: nat)
    requires Inv(cfg, s) && SupplyIs(s.w.ledger, total)
    requires id in s.w.disputes && !s.w.disputes[id].resolved && s.w.disputes[id].counterpartyStake == 0
    requires TooLarge(s.w.disputes[id], total)
    ensures id in Run(cfg, s, calls).w.disputes && Run(cfg, s, calls).w.disputes[id] == s.w.disputes[id]
    decreases |calls|
  {
    hide Inv, After, SupplyIs, TooLarge;
    if calls != [] {
      AfterKeepsSupply(cfg, s, calls[0], total);
      AfterKeepsTooLarge(cfg, s, calls[0], id, total);
      TooLargeForEver(cfg, After(cfg, s, calls[0]), calls[1..], id, total);
    }
  }

  lemma {:induction false} OneHolder(a: Address, amount: nat, accounts: seq<Address>)
    requires R.NoRepeats(accounts)
    ensures SumOf(map[a := amount], accounts) == if a in accounts then amount else 0
  {
    if accounts != [] {
      var n := |accounts| - 1;
      assert accounts == accounts[..n] + [accounts[n]] && accounts[n] !in accounts[..n];
      OneHolder(a, amount, accounts[..n]);
    }
  }

  lemma HolderSupply(a: Address, amount: nat)
    ensures SupplyIs(map[a := amount], amount)
  {
    forall accounts | R.NoRepeats(accounts)
      ensures SumOf(map[a := amount], accounts) <= amount
    {
      OneHolder(a, amount, accounts);
    }
    OneHolder(a, amount, [a]);
    assert R.NoRepeats([a]);
  }

  lemma LargestOpening(cfg: Config, a: Address, b: Address, first: nat)
    requires ValidConfig(cfg) && Parties(cfg, a, b)
    ensures var s := Opening(cfg, map[a := MAX_UINT256], a, b, MAX_UINT256, first);
      && Inv(cfg, s) && SupplyIs(s.w.ledger, MAX_UINT256) && R.FrozenList(s.w.registry, 0) != []
      && s.w.disputes == map[0 := NewDispute(Allege(a, first, b, MAX_UINT256), MAX_UINT256)]
  {
    var ledger: Balances := map[a := MAX_UINT256];
    assert BalanceOf(ledger, a) == MAX_UINT256;
    hide Opening, Inv, Transfer, BalanceOf, SupplyIs;
    OpeningState(cfg, ledger, a, b, MAX_UINT256, first);
    HolderSupply(a, MAX_UINT256);
    TransferKeepsSupply(ledger, a, cfg.self, MAX_UINT256, MAX_UINT256);
  }

  /** Such a dispute is opened from deployment, frozen asset and all, and no run resolves it. */
  lemma TooLargeFromGenesis(cfg: Config, a: Address, b: Address, first: nat, calls: seq<Call>)
    requires ValidConfig(cfg) && Parties(cfg, a, b)
    ensures var s := Opening(cfg, map[a := MAX_UINT256], a, b, MAX_UINT256, first);
      && Inv(cfg, s) && R.FrozenList(s.w.registry, 0) != []
      && var end := Run(cfg, s, calls).w;
         0 in end.disputes && !end.disputes[0].resolved
  {
    hide Opening, Inv, Run, SupplyIs;
    LargestOpening(cfg, a, b, first);
    TooLargeForEver(cfg, Opening(cfg, map[a := MAX_UINT256], a, b, MAX_UINT256, first), calls, 0, MAX_UINT256);
  }
}
