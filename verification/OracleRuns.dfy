/**
 * The oracle contract and the dispute system running together: every proposal comes through the
 * oracle contract, and a submission there ends in the dispute contract's own verification, or, while
 * the oracle contract is connected to another one, in that contract's answer.
 */
module OracleRuns {
  import opened Wrappers
  import opened Ledger
  import opened Ilrm
  import opened Protocol
  import opened Guarantees
  import R = AssetRegistry
  import O = Oracle

  datatype Joint = Joint(store: O.Store, system: System)

  /** A transaction to the dispute system, or one to the oracle contract. */
  datatype Move =
    | ToDisputes(call: Call)
    | ToOracle(request: O.Call, now: nat)

  /** The oracle contract itself calls the dispute contract only when a submission ends there. */
  ghost function AfterMove(ocfg: O.Setup, cfg: Config, j: Joint, m: Move): (r: Joint)
    requires Inv(cfg, j.system)
    ensures Inv(cfg, r.system)
  {
    match m
    case ToDisputes(call) =>
      if call.sender == ocfg.self then j else j.(system := After(cfg, j.system, call))
    case ToOracle(request, now) =>
      if request.Submit? && j.store.ilrmContract == cfg.self then
        var r := O.SubmitThrough(
          ocfg, j.store, request.sender, request.id, request.proposal, request.signature, cfg, j.system.w, now);
        if r.None? then j
        else
          Joint(r.value.0, After(cfg, j.system, Propose(ocfg.self, now, request.id, request.proposal, true)))
      else
        j.(store := O.After(ocfg, j.store, request))
  }

  ghost function RunMoves(ocfg: O.Setup, cfg: Config, j: Joint, moves: seq<Move>): (r: Joint)
    requires Inv(cfg, j.system)
    ensures Inv(cfg, r.system)
    decreases |moves|
  {
    if moves == [] then j else RunMoves(ocfg, cfg, AfterMove(ocfg, cfg, j, moves[0]), moves[1..])
  }

  /** Whoever is registered as an operator is one of `operators`. */
  predicate Registers(m: Move, operators: set<Address>) {
    m.ToOracle? && m.request.Register? ==> m.request.operator in operators
  }

  /** No proposal lies on any table, and nothing was settled by acceptance. */
  ghost predicate NoTexts(disputes: map<DisputeId, Dispute>) {
    forall id :: id in disputes ==> disputes[id].llmProposal == "" && disputes[id].outcome != AcceptedProposal
  }

  lemma TimeoutKeepsText(cfg: Config, w: World, now: nat, id: DisputeId)
    requires EnforceTimeout(cfg, w, now, id).Some? && id in w.disputes
    ensures var d' := DisputeAt(EnforceTimeout(cfg, w, now, id).value.disputes, id);
      d'.llmProposal == w.disputes[id].llmProposal && d'.outcome != AcceptedProposal
  {
    hide Transfer, TimeoutTransfers, R.UnfreezeAssets, R.ApplyFallbackLicense;
  }

  lemma NothingToAccept(cfg: Config, w: World, now: nat, sender: Address, id: DisputeId)
    requires NoTexts(w.disputes)
    ensures AcceptProposal(cfg, w, now, sender, id).None?
  {
    hide ResolveAccepted;
  }

  lemma StepKeepsNoTexts(cfg: Config, w: World, c: Call)
    requires R.IndexInv(w.registry) && NoTexts(w.disputes) && Step(cfg, w, c).Some?
    requires c.Propose? ==> c.sender != cfg.oracle
    ensures NoTexts(Step(cfg, w, c).value.disputes)
  {
    hide R.IndexInv, Transfer, TransferFrom, R.FreezeAssets, R.RegisterAsset, R.TransferAsset, EscalatedStake;
    hide Ilrm.Pow2, AcceptProposal, EnforceTimeout;
    if c.Accept? {
      NothingToAccept(cfg, w, c.now, c.sender, c.id);
    } else if c.Enforce? {
      TimeoutDisputes(cfg, w, c.now, c.id);
      TimeoutKeepsText(cfg, w, c.now, c.id);
    }
  }

  lemma AfterKeepsNoTexts(cfg: Config, s: System, c: Call)
    requires Inv(cfg, s) && NoTexts(s.w.disputes) && (c.Propose? ==> c.sender != cfg.oracle)
    ensures NoTexts(After(cfg, s, c).w.disputes)
  {
    hide HistoryInv, R.IndexInv, R.FreezeInv, MoneyInv, FrozenForDispute, NoTexts;
    if Step(cfg, s.w, c).Some? {
      StepKeepsNoTexts(cfg, s.w, c);
    }
    hide Step;
  }

  lemma MoveKeepsNoTexts(ocfg: O.Setup, cfg: Config, j: Joint, m: Move, operators: set<Address>)
    requires Inv(cfg, j.system) && cfg.oracle == ocfg.self && O.SignsOnce(ocfg, operators)
    requires NoTexts(j.system.w.disputes) && j.store.operators <= operators && Registers(m, operators)
    ensures var j' := AfterMove(ocfg, cfg, j, m);
      NoTexts(j'.system.w.disputes) && j'.store.operators <= operators
  {
    hide Inv, After, NoTexts, O.SubmitThrough, O.SubmitProposal, O.ResetProposal;
    match m
    case ToDisputes(call) =>
      if call.sender != ocfg.self {
        AfterKeepsNoTexts(cfg, j.system, call);
      }
    case ToOracle(request, now) =>
      if request.Submit? && j.store.ilrmContract == cfg.self {
        FewerSignOnce(ocfg, j.store.operators, operators);
        O.NoProposalGetsThrough(ocfg, j.store, request.sender, request.id, request.proposal, request.signature,
          cfg, j.system.w, now);
      } else {
        StoreKeepsOperators(ocfg, j.store, request, operators);
      }
  }

  lemma FewerSignOnce(ocfg: O.Setup, some: set<Address>, all: set<Address>)
    requires some <= all && O.SignsOnce(ocfg, all)
    ensures O.SignsOnce(ocfg, some)
  {
    forall signature, a, b | O.SignedBy(ocfg, some, a, signature) && O.SignedBy(ocfg, some, b, signature)
      ensures a == b
    {
      assert O.SignedBy(ocfg, all, a, signature) && O.SignedBy(ocfg, all, b, signature);
    }
  }

  lemma StoreKeepsOperators(ocfg: O.Setup, store: O.Store, request: O.Call, operators: set<Address>)
    requires store.operators <= operators
    requires request.Register? ==> request.operator in operators
    ensures O.After(ocfg, store, request).operators <= operators
  {
  }

  lemma {:induction false} RunKeepsNoTexts(
      ocfg: O.Setup, cfg: Config, j: Joint, moves: seq<Move>, operators: set<Address>)
    requires Inv(cfg, j.system) && cfg.oracle == ocfg.self && O.SignsOnce(ocfg, operators)
    requires NoTexts(j.system.w.disputes) && j.store.operators <= operators
    requires forall i :: 0 <= i < |moves| ==> Registers(moves[i], operators)
    ensures NoTexts(RunMoves(ocfg, cfg, j, moves).system.w.disputes)
    decreases |moves|
  {
    hide Inv, AfterMove, NoTexts, O.SignsOnce, Registers;
    if moves != [] {
      MoveKeepsNoTexts(ocfg, cfg, j, moves[0], operators);
      RunKeepsNoTexts(ocfg, cfg, AfterMove(ocfg, cfg, j, moves[0]), moves[1..], operators);
    }
  }

  /**
   * With this oracle contract and signatures that are each good for one digest, no run from deployment
   * ever settles a dispute by acceptance: no proposal even reaches one.
   */
  lemma NeverAccepted(
      ocfg: O.Setup, cfg: Config, ledger: Balances, moves: seq<Move>, operators: set<Address>, id: DisputeId)
    requires ValidConfig(cfg) && cfg.oracle == ocfg.self && O.SignsOnce(ocfg, operators)
    requires forall i :: 0 <= i < |moves| ==> Registers(moves[i], operators)
    ensures var w := RunMoves(ocfg, cfg, Joint(O.NEW_ORACLE, Genesis(cfg, ledger)), moves).system.w;
      id in w.disputes ==> w.disputes[id].outcome != AcceptedProposal && w.disputes[id].llmProposal == ""
  {
    RunKeepsNoTexts(ocfg, cfg, Joint(O.NEW_ORACLE, Genesis(cfg, ledger)), moves, operators);
    hide Inv, RunMoves, O.SignsOnce, Registers;
  }
}
