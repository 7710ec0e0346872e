/**
 * The treasury as an object with storage. Each function takes the steps of contracts/Treasury.sol in
 * order and is tied to the step functions of module Treasury; a transaction is a step of a run.
 */
module TreasuryContract {
  import opened Wrappers
  import opened Ledger
  import opened Ilrm
  import opened Treasury
  import TreasuryRuns

  class NatLangChainTreasury {
    const cfg: Setup
    const token: Token

    var ilrm: Address
    var maxPerDispute: nat
    var maxPerParticipant: nat
    var windowDuration: nat
    var minReserve: nat
    var disputeSubsidized: set<DisputeId>
    var disputeSubsidyRecipient: map<DisputeId, Address>
    var participantSubsidyUsed: map<Address, nat>
    var participantWindowStart: map<Address, nat>
    var harassmentScore: map<Address, nat>
    var totalSubsidiesDistributed: nat
    var totalInflows: nat
    var paused: bool
    var payments: seq<Payment>

    constructor (cfg: Setup, token: Token, maxPerDispute: nat, maxPerParticipant: nat, windowDuration: nat)
      ensures this.cfg == cfg && this.token == token
      ensures State()
           == TreasuryRuns.Genesis(cfg, token.balances, maxPerDispute, maxPerParticipant, windowDuration, 0).fund
    {
      this.cfg, this.token := cfg, token;
      this.maxPerDispute, this.maxPerParticipant := maxPerDispute, maxPerParticipant;
      this.windowDuration, minReserve, ilrm := windowDuration, 0, 0;
      disputeSubsidized, disputeSubsidyRecipient := {}, map[];
      participantSubsidyUsed, participantWindowStart, harassmentScore := map[], map[], map[];
      totalSubsidiesDistributed, totalInflows, paused, payments := 0, 0, false, [];
    }

    function State(): Fund
      reads this, token
    {
      Fund(token.balances, ilrm, maxPerDispute, maxPerParticipant, windowDuration, minReserve,
           disputeSubsidized, disputeSubsidyRecipient, participantSubsidyUsed, participantWindowStart,
           harassmentScore, totalSubsidiesDistributed, totalInflows, paused, payments)
    }

    /** What a revert does. */
    method Restore(f: Fund)
      modifies this, token
      ensures State() == f
    {
      token.balances := f.ledger;
      ilrm, minReserve, paused, payments := f.ilrm, f.minReserve, f.paused, f.payments;
      maxPerDispute, maxPerParticipant, windowDuration := f.maxPerDispute, f.maxPerParticipant, f.windowDuration;
      disputeSubsidized, disputeSubsidyRecipient := f.subsidized, f.recipient;
      participantSubsidyUsed, participantWindowStart, harassmentScore := f.used, f.windowStart, f.score;
      totalSubsidiesDistributed, totalInflows := f.totalDistributed, f.totalInflows;
    }

    /**
     * `d` is the dispute contract's answer for the dispute. `Treasury.RequestExactly` and
     * `Treasury.SubsidyMaximal` say when and how much it pays.
     */
    method RequestSubsidy(
        now: nat, sender: Address, id: DisputeId, stakeNeeded: nat, participant: Address, d: Dispute)
      returns (ok: bool, subsidyAmount: nat)
      modifies this, token
      ensures var r := Treasury.RequestSubsidy(cfg, old(State()), now, sender, id, stakeNeeded, participant, d);
        && ok == r.Some?
        && (ok ==> subsidyAmount == r.value.1)
        && State() == if ok then r.value.0 else old(State())
    {
      hide Pay, BalanceOf, Cap, Available;
      var before := State();
      subsidyAmount := 0;
      if paused || sender != participant || id in disputeSubsidized || stakeNeeded == 0 || ilrm == 0 {
        return false, 0;
      }
      if d.resolved || d.counterpartyStake != 0 || participant != d.counterparty || participant == d.initiator {
        return false, 0;
      }
      if At(harassmentScore, participant) >= HARASSMENT_THRESHOLD {
        return false, 0;
      }
      if At(participantWindowStart, participant) + windowDuration > MAX_UINT256 {
        return false, 0;
      }
      if now > At(participantWindowStart, participant) + windowDuration {
        participantSubsidyUsed := participantSubsidyUsed[participant := 0];
        participantWindowStart := participantWindowStart[participant := now];
      }
      assert State() == OpenWindow(before, now, participant);
      hide OpenWindow, At;
      subsidyAmount := CappedAmount(stakeNeeded, At(participantSubsidyUsed, participant));
      ok := PayOut(now, id, participant, subsidyAmount);
      if !ok {
        Restore(before);
      }
    }

    /** The state updates and the transfer of a subsidy; a failure reverts the request. */
    method PayOut(now: nat, id: DisputeId, participant: Address, amount: nat) returns (ok: bool)
      modifies this, token
      ensures var r := Pay(cfg, old(State()), now, id, participant, amount);
        && ok == r.Some?
        && (ok ==> State() == r.value)
    {
      hide Transfer, At;
      if amount == 0 || totalSubsidiesDistributed + amount > MAX_UINT256 {
        return false;
      }
      disputeSubsidized := disputeSubsidized + {id};
      disputeSubsidyRecipient := disputeSubsidyRecipient[id := participant];
      participantSubsidyUsed := participantSubsidyUsed[participant := At(participantSubsidyUsed, participant) + amount];
      totalSubsidiesDistributed := totalSubsidiesDistributed + amount;
      ok := token.SafeTransfer(cfg.self, participant, amount);
      payments := payments + [Payment(id, participant, amount, now)];
    }

    /** The need, narrowed by one cap after the other. */
    method CappedAmount(stakeNeeded: nat, used: nat) returns (amount: nat)
      ensures amount == Cap(Cap(Cap(stakeNeeded, maxPerDispute), Available(maxPerParticipant, used)),
                            Available(BalanceOf(token.balances, cfg.self), minReserve))
      ensures amount <= stakeNeeded && amount <= maxPerDispute
      ensures amount > 0 ==> used + amount <= maxPerParticipant
      ensures amount > 0 ==> minReserve + amount <= BalanceOf(token.balances, cfg.self)
      ensures || amount == stakeNeeded || amount == maxPerDispute || used + amount == maxPerParticipant
              || minReserve + amount == BalanceOf(token.balances, cfg.self)
              || (amount == 0 && (used > maxPerParticipant || minReserve > BalanceOf(token.balances, cfg.self)))
    {
      amount := stakeNeeded;
      if amount > maxPerDispute {
        amount := maxPerDispute;
      }
      var participantAvailable := if maxPerParticipant > used then maxPerParticipant - used else 0;
      if amount > participantAvailable {
        amount := participantAvailable;
      }
      var treasuryBalance := BalanceOf(token.balances, cfg.self);
      var availableBalance := if treasuryBalance > minReserve then treasuryBalance - minReserve else 0;
      if amount > availableBalance {
        amount := availableBalance;
      }
    }

    /** The preview; `ok` is false when the window arithmetic overflows. */
    method CalculateSubsidy(now: nat, id: DisputeId, stakeNeeded: nat, participant: Address)
      returns (ok: bool, subsidyAmount: nat, eligible: bool)
      ensures var r := Treasury.CalculateSubsidy(cfg, State(), now, id, stakeNeeded, participant);
        && ok == r.Some?
        && (ok ==> r.value == (subsidyAmount, eligible))
      ensures eligible ==>
                && 0 < subsidyAmount <= stakeNeeded && subsidyAmount <= maxPerDispute
                && (|| subsidyAmount == stakeNeeded || subsidyAmount == maxPerDispute
                    || UsedNow(State(), now, participant) + subsidyAmount == maxPerParticipant
                    || minReserve + subsidyAmount == BalanceOf(token.balances, cfg.self))
    {
      if id in disputeSubsidized || stakeNeeded == 0 || At(harassmentScore, participant) >= HARASSMENT_THRESHOLD {
        return true, 0, false;
      }
      var usedInWindow := At(participantSubsidyUsed, participant);
      if At(participantWindowStart, participant) + windowDuration > MAX_UINT256 {
        return false, 0, false;
      }
      if now > At(participantWindowStart, participant) + windowDuration {
        usedInWindow := 0;
      }
      subsidyAmount := CappedAmount(stakeNeeded, usedInWindow);
      return true, subsidyAmount, subsidyAmount > 0;
    }

    method Deposit(sender: Address, amount: nat, approved: bool) returns (ok: bool)
      modifies this, token
      ensures var r := Treasury.Deposit(cfg, old(State()), sender, amount, approved);
        && ok == r.Some?
        && State() == if ok then r.value else old(State())
    {
      hide TransferFrom;
      var before := State();
      if amount == 0 {
        return false;
      }
      ok := token.SafeTransferFrom(sender, cfg.self, amount, approved);
      if !ok {
        return;
      }
      if totalInflows + amount > MAX_UINT256 {
        Restore(before);
        return false;
      }
      totalInflows := totalInflows + amount;
    }

    method DepositBurn(sender: Address, amount: nat, approved: bool) returns (ok: bool)
      modifies this, token
      ensures var r := Treasury.DepositBurn(cfg, old(State()), sender, amount, approved);
        && ok == r.Some?
        && State() == if ok then r.value else old(State())
      ensures ok ==> sender == old(ilrm)
    {
      if sender != ilrm {
        return false;
      }
      ok := Deposit(sender, amount, approved);
    }

    method UpdateHarassmentScore(sender: Address, participant: Address, scoreDelta: int) returns (ok: bool)
      modifies this`harassmentScore
      ensures var r := Treasury.UpdateHarassmentScore(old(State()), sender, participant, scoreDelta);
        && ok == r.Some?
        && State() == if ok then r.value else old(State())
      ensures ok <==> sender == old(ilrm) && -100 <= scoreDelta <= 100
      ensures ok ==>
                var was, moved := old(At(harassmentScore, participant)), At(harassmentScore, participant);
                && (0 <= was + scoreDelta <= 100 ==> moved == was + scoreDelta)
                && (was + scoreDelta < 0 ==> moved == 0)
                && (was + scoreDelta > 100 && scoreDelta >= 0 ==> moved == 100)
    {
      if sender != ilrm || scoreDelta < -100 || scoreDelta > 100 {
        return false;
      }
      var oldScore := At(harassmentScore, participant);
      var newScore: nat;
      if scoreDelta >= 0 {
        newScore := oldScore + scoreDelta;
        if newScore > 100 {
          newScore := 100;
        }
      } else {
        var decrease := -scoreDelta;
        newScore := if oldScore > decrease then oldScore - decrease else 0;
      }
      harassmentScore := harassmentScore[participant := newScore];
      return true;
    }

    method SetHarassmentScore(sender: Address, participant: Address, score: nat) returns (ok: bool)
      modifies this`harassmentScore
      ensures var r := Treasury.SetHarassmentScore(cfg, old(State()), sender, participant, score);
        && ok == r.Some?
        && State() == if ok then r.value else old(State())
      ensures ok <==> sender == cfg.owner
      ensures ok ==> At(harassmentScore, participant) == if score <= 100 then score else 100
    {
      ok := sender == cfg.owner;
      if ok {
        harassmentScore := harassmentScore[participant := if score > 100 then 100 else score];
      }
    }

    method SetILRM(sender: Address, newIlrm: Address) returns (ok: bool)
      modifies this`ilrm
      ensures var r := Treasury.SetILRM(cfg, old(State()), sender, newIlrm);
        && ok == r.Some?
        && State() == if ok then r.value else old(State())
      ensures ok <==> sender == cfg.owner && newIlrm != 0
      ensures ilrm == if ok then newIlrm else old(ilrm)
    {
      ok := sender == cfg.owner && newIlrm != 0;
      if ok {
        ilrm := newIlrm;
      }
    }

    method UpdateCaps(sender: Address, perDispute: nat, perParticipant: nat, window: nat) returns (ok: bool)
      modifies this`maxPerDispute, this`maxPerParticipant, this`windowDuration
      ensures var r := Treasury.UpdateCaps(cfg, old(State()), sender, perDispute, perParticipant, window);
        && ok == r.Some?
        && State() == if ok then r.value else old(State())
      ensures ok <==> sender == cfg.owner
      ensures ok ==> maxPerDispute == perDispute && maxPerParticipant == perParticipant && windowDuration == window
    {
      ok := sender == cfg.owner;
      if ok {
        maxPerDispute, maxPerParticipant, windowDuration := perDispute, perParticipant, window;
      }
    }

    method SetMinReserve(sender: Address, reserve: nat) returns (ok: bool)
      modifies this`minReserve
      ensures var r := Treasury.SetMinReserve(cfg, old(State()), sender, reserve);
        && ok == r.Some?
        && State() == if ok then r.value else old(State())
      ensures ok <==> sender == cfg.owner
      ensures minReserve == if ok then reserve else old(minReserve)
    {
      ok := sender == cfg.owner;
      if ok {
        minReserve := reserve;
      }
    }

    method EmergencyWithdraw(sender: Address, to: Address, amount: nat) returns (ok: bool)
      modifies token
      ensures var r := Treasury.EmergencyWithdraw(cfg, old(State()), sender, to, amount);
        && ok == r.Some?
        && State() == if ok then r.value else old(State())
      ensures ok ==> sender == cfg.owner && to != 0
    {
      hide Transfer;
      if sender != cfg.owner || to == 0 {
        return false;
      }
      ok := token.SafeTransfer(cfg.self, to, amount);
    }

    method SetPaused(sender: Address, value: bool) returns (ok: bool)
      modifies this`paused
      ensures var r := Treasury.SetPaused(cfg, old(State()), sender, value);
        && ok == r.Some?
        && State() == if ok then r.value else old(State())
      ensures ok <==> sender == cfg.owner && value != old(paused)
      ensures paused == if ok then value else old(paused)
    {
      ok := sender == cfg.owner && paused != value;
      if ok {
        paused := value;
      }
    }

    /** One transaction, made at time `now`, takes the treasury to the next state of a run. */
    method Execute(ghost s: TreasuryRuns.System, now: nat, c: TreasuryRuns.Call)
      requires State() == s.fund && s.clock <= now
      modifies this, token
      ensures State() == TreasuryRuns.After(cfg, s, now - s.clock, c).fund
    {
      hide Treasury.RequestSubsidy, Treasury.Deposit, Treasury.DepositBurn, Transfer;
      if c.sender == 0 || c.sender == cfg.self {
        return;
      }
      var ok, amount: nat;
      match c
      case Request(sender, id, stakeNeeded, participant, d) =>
        ok, amount := RequestSubsidy(now, sender, id, stakeNeeded, participant, d);
      case GiveTokens(sender, value, approved) => ok := Deposit(sender, value, approved);
      case GiveBurn(sender, value, approved) => ok := DepositBurn(sender, value, approved);
      case TokenTransfer(sender, to, value) => ok := token.SafeTransfer(sender, to, value);
      case MoveScore(sender, participant, delta) => ok := UpdateHarassmentScore(sender, participant, delta);
      case SetScore(sender, participant, score) => ok := SetHarassmentScore(sender, participant, score);
      case ChangeILRM(sender, newIlrm) => ok := SetILRM(sender, newIlrm);
      case ChangeCaps(sender, perDispute, perParticipant, window) =>
        ok := UpdateCaps(sender, perDispute, perParticipant, window);
      case ChangeReserve(sender, reserve) => ok := SetMinReserve(sender, reserve);
      case TakeOut(sender, to, value) => ok := EmergencyWithdraw(sender, to, value);
      case Pause(sender, value) => ok := SetPaused(sender, value);
    }
  }
}
