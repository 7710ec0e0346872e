/**
 * The oracle contract (contracts/Oracle.sol): signed proposals, each accepted once. The hash and the
 * recovery of a signer are parameters; the digest is the triple that it hashes. `None` is a revert.
 */
module Oracle {
  import opened Wrappers
  import opened Ledger
  import Ilrm

  type DisputeId = nat

  /** What a signature is made over. */
  datatype Digest = Digest(id: DisputeId, proposalHash: nat, nonce: nat)

  /** `recover` gives the signer, or `None` for a malformed signature. */
  datatype Crypto = Crypto(hash: string -> nat, recover: (Digest, string) -> Option<Address>)

  /** The contract and its owner. */
  datatype Setup = Setup(self: Address, owner: Address, crypto: Crypto)

  datatype Event =
    | Submitted(id: DisputeId, nonce: nat, proposalHash: nat, signer: Address)
    | Reset(id: DisputeId, nonce: nat)

  datatype Store = Store(
    ilrmContract: Address, operators: set<Address>,
    nonces: map<DisputeId, nat>, pending: set<DisputeId>, processed: map<DisputeId, nat>,
    events: seq<Event>)

  function At(m: map<DisputeId, nat>, id: DisputeId): nat {
    if id in m then m[id] else 0
  }

  /** The registered operator whose signature this is, at the dispute's current nonce. */
  function Signer(cfg: Setup, o: Store, id: DisputeId, proposalHash: nat, signature: string): Option<Address> {
    var signer :- cfg.crypto.recover(Digest(id, proposalHash, At(o.nonces, id)), signature);
    :- Require(signer in o.operators);
    Some(signer)
  }

  predicate VerifySignature(cfg: Setup, o: Store, id: DisputeId, proposalHash: nat, signature: string) {
    Signer(cfg, o, id, proposalHash, signature).Some?
  }

  function RequestProposal(o: Store, sender: Address, id: DisputeId): Option<Store> {
    if sender == o.ilrmContract then
      Some(o.(pending := o.pending + {id}))
    else
      None
  }

  /** The store as the dispute contract sees it when it is called. */
  function Recorded(cfg: Setup, o: Store, id: DisputeId, proposalHash: nat, signer: Address): Store {
    o.(processed := o.processed[id := proposalHash], pending := o.pending - {id},
       nonces := o.nonces[id := At(o.nonces, id) + 1],
       events := o.events + [Submitted(id, At(o.nonces, id), proposalHash, signer)])
  }

  /** `ilrmAccepts` is the dispute contract's answer to the call that ends a submission. */
  function SubmitProposal(
      cfg: Setup, o: Store, sender: Address, id: DisputeId, proposal: string, signature: string, ilrmAccepts: bool)
      : Option<Store>
  {
    if sender !in o.operators || At(o.processed, id) != 0 || |signature| == 0 then
      None
    else
      var proposalHash := cfg.crypto.hash(proposal);
      var signer :- Signer(cfg, o, id, proposalHash, signature);
      :- Require(ilrmAccepts);
      Some(Recorded(cfg, o, id, proposalHash, signer))
  }

  function ResetProposal(cfg: Setup, o: Store, sender: Address, id: DisputeId): Option<Store> {
    if sender == cfg.owner && At(o.processed, id) != 0 then
      Some(o.(processed := o.processed[id := 0], pending := o.pending + {id},
              nonces := o.nonces[id := At(o.nonces, id) + 1],
              events := o.events + [Reset(id, At(o.nonces, id))]))
    else
      None
  }

  function CancelPendingRequest(cfg: Setup, o: Store, sender: Address, id: DisputeId): Option<Store> {
    if sender == cfg.owner && id in o.pending then
      Some(o.(pending := o.pending - {id}))
    else
      None
  }

  function RegisterOracle(cfg: Setup, o: Store, sender: Address, operator: Address): Option<Store> {
    if sender == cfg.owner && operator != 0 then
      Some(o.(operators := o.operators + {operator}))
    else
      None
  }

  function RevokeOracle(cfg: Setup, o: Store, sender: Address, operator: Address): Option<Store> {
    if sender == cfg.owner then
      Some(o.(operators := o.operators - {operator}))
    else
      None
  }

  function SetILRM(cfg: Setup, o: Store, sender: Address, ilrm: Address): Option<Store> {
    if sender == cfg.owner && ilrm != 0 then
      Some(o.(ilrmContract := ilrm))
    else
      None
  }

  // ----- runs -----

  datatype Call =
    | Submit(sender: Address, id: DisputeId, proposal: string, signature: string, ilrmAccepts: bool)
    | StartOver(sender: Address, id: DisputeId)
    | Ask(sender: Address, id: DisputeId)
    | Cancel(sender: Address, id: DisputeId)
    | Register(sender: Address, operator: Address)
    | Revoke(sender: Address, operator: Address)
    | ChangeILRM(sender: Address, ilrm: Address)

  function Step(cfg: Setup, o: Store, c: Call): Option<Store> {
    match c
    case Submit(sender, id, proposal, signature, accepts) =>
      SubmitProposal(cfg, o, sender, id, proposal, signature, accepts)
    case StartOver(sender, id) => ResetProposal(cfg, o, sender, id)
    case Ask(sender, id) => RequestProposal(o, sender, id)
    case Cancel(sender, id) => CancelPendingRequest(cfg, o, sender, id)
    case Register(sender, operator) => RegisterOracle(cfg, o, sender, operator)
    case Revoke(sender, operator) => RevokeOracle(cfg, o, sender, operator)
    case ChangeILRM(sender, ilrm) => SetILRM(cfg, o, sender, ilrm)
  }

  /** One call: a revert changes nothing. */
  function After(cfg: Setup, o: Store, c: Call): Store {
    var r := Step(cfg, o, c);
    if r.Some? then r.value else o
  }

  function Run(cfg: Setup, o: Store, calls: seq<Call>): Store
    decreases |calls|
  {
    if calls == [] then o else Run(cfg, After(cfg, o, calls[0]), calls[1..])
  }

  /** A new contract: no operators, no dispute contract, no proposals. */
  const NEW_ORACLE: Store := Store(0, {}, map[], {}, map[], [])

  /** No proposal hashes to zero. */
  ghost predicate NonZeroHashes(cfg: Setup) {
    forall proposal :: cfg.crypto.hash(proposal) != 0
  }

  /** The dispute's own part of the log, in order. */
  function History(events: seq<Event>, id: DisputeId): seq<Event> {
    if events == [] then []
    else
      var n := |events| - 1;
      History(events[..n], id) + (if events[n].id == id then [events[n]] else [])
  }

  /** A dispute's history runs submission, reset, submission, ..., each entry one nonce on. */
  ghost predicate Alternates(history: seq<Event>) {
    forall k :: 0 <= k < |history| ==> history[k].nonce == k && (history[k].Submitted? <==> k % 2 == 0)
  }

  /** The nonce and the recorded hash that a history leads to. */
  ghost predicate LeadsTo(history: seq<Event>, nonce: nat, recorded: nat) {
    && nonce == |history|
    && Alternates(history)
    && (recorded != 0 <==> |history| % 2 == 1)
    && (|history| % 2 == 1 ==> history[|history| - 1].proposalHash == recorded)
  }

  ghost predicate NonceInv(o: Store, id: DisputeId) {
    LeadsTo(History(o.events, id), At(o.nonces, id), At(o.processed, id))
  }

  lemma HistorySnoc(events: seq<Event>, e: Event, id: DisputeId)
    ensures History(events + [e], id) == History(events, id) + (if e.id == id then [e] else [])
  {
    assert (events + [e])[..|events|] == events;
  }

  lemma OneMore(history: seq<Event>, nonce: nat, recorded: nat, e: Event, recorded': nat)
    requires LeadsTo(history, nonce, recorded) && e.nonce == nonce
    requires if e.Submitted? then recorded == 0 && e.proposalHash == recorded' != 0 else recorded != 0 && recorded' == 0
    ensures LeadsTo(history + [e], nonce + 1, recorded')
  {
  }

  lemma StepKeepsNonces(cfg: Setup, o: Store, c: Call, id: DisputeId)
    requires NonZeroHashes(cfg) && NonceInv(o, id)
    ensures NonceInv(After(cfg, o, c), id)
  {
    hide History, LeadsTo, Signer;
    var o' := After(cfg, o, c);
    if (c.Submit? || c.StartOver?) && Step(cfg, o, c).Some? {
      var e := o'.events[|o.events|];
      HistorySnoc(o.events, e, id);
      if e.id == id {
        OneMore(History(o.events, id), At(o.nonces, id), At(o.processed, id), e, At(o'.processed, id));
      }
      assert History(o.events, id) + [] == History(o.events, id);
    }
  }

  lemma {:induction false} RunKeepsNonces(cfg: Setup, o: Store, calls: seq<Call>, id: DisputeId)
    requires NonZeroHashes(cfg) && NonceInv(o, id)
    ensures NonceInv(Run(cfg, o, calls), id)
    decreases |calls|
  {
    hide NonceInv, After;
    if calls != [] {
      StepKeepsNonces(cfg, o, calls[0], id);
      RunKeepsNonces(cfg, After(cfg, o, calls[0]), calls[1..], id);
    }
  }

  function Count(history: seq<Event>, submissions: bool): nat {
    if history == [] then 0
    else
      var n := |history| - 1;
      Count(history[..n], submissions) + (if history[n].Submitted? == submissions then 1 else 0)
  }

  lemma {:induction false} CountBoth(history: seq<Event>)
    requires Alternates(history)
    ensures Count(history, true) == (|history| + 1) / 2
    ensures Count(history, false) == |history| / 2
  {
    if history != [] {
      CountBoth(history[..|history| - 1]);
    }
  }

  /**
   * Over every run: the nonce is the number of submissions and resets, which alternate from a
   * submission on, and a proposal is recorded exactly when the nonce is odd.
   */
  lemma NonceDiscipline(cfg: Setup, calls: seq<Call>, id: DisputeId)
    requires NonZeroHashes(cfg)
    ensures var o := Run(cfg, NEW_ORACLE, calls);
      var history := History(o.events, id);
      && At(o.nonces, id) == Count(history, true) + Count(history, false)
      && 0 <= Count(history, true) - Count(history, false) <= 1
      && Alternates(history)
      && (At(o.processed, id) != 0 <==> At(o.nonces, id) % 2 == 1)
  {
    RunKeepsNonces(cfg, NEW_ORACLE, calls, id);
    CountBoth(History(Run(cfg, NEW_ORACLE, calls).events, id));
    hide Run, Count, History, Alternates;
  }

  /** Where two entries of the log for one dispute stand in its history. */
  lemma {:induction false} InHistory(events: seq<Event>, i: nat, j: nat) returns (k: nat, l: nat)
    requires i < j < |events| && events[i].id == events[j].id
    ensures var history := History(events, events[i].id);
      k < l < |history| && history[k] == events[i] && history[l] == events[j]
  {
    var n, id := |events| - 1, events[i].id;
    var init := History(events[..n], id);
    assert events == events[..n] + [events[n]];
    HistorySnoc(events[..n], events[n], id);
    if j < n {
      k, l := InHistory(events[..n], i, j);
    } else {
      k := IndexInHistory(events[..n], i);
      l := |init|;
    }
    hide History;
  }

  lemma {:induction false} IndexInHistory(events: seq<Event>, i: nat) returns (k: nat)
    requires i < |events|
    ensures k < |History(events, events[i].id)| && History(events, events[i].id)[k] == events[i]
  {
    var n, id := |events| - 1, events[i].id;
    var init := History(events[..n], id);
    assert events == events[..n] + [events[n]];
    HistorySnoc(events[..n], events[n], id);
    if i < n {
      k := IndexInHistory(events[..n], i);
    } else {
      k := |init|;
    }
    hide History;
    assert History(events, id)[k] == events[i];
  }

  /** No two entries of a run's log, so no two submissions, used the same nonce of the same dispute. */
  lemma NoNonceTwice(cfg: Setup, calls: seq<Call>, i: nat, j: nat)
    requires NonZeroHashes(cfg) && i < j < |Run(cfg, NEW_ORACLE, calls).events|
    requires var events := Run(cfg, NEW_ORACLE, calls).events; events[i].id == events[j].id
    ensures var events := Run(cfg, NEW_ORACLE, calls).events; events[i].nonce < events[j].nonce
  {
    var events := Run(cfg, NEW_ORACLE, calls).events;
    var id := events[i].id;
    RunKeepsNonces(cfg, NEW_ORACLE, calls, id);
    var k, l := InHistory(events, i, j);
    var history := History(events, id);
    hide Run, History;
    assert history[k].nonce == k && history[l].nonce == l;
  }

  // ----- when a call succeeds, and what it changes -----

  /**
   * A submission succeeds exactly when an operator makes it, nothing is recorded for the dispute, the
   * signature recovers to an operator at the current nonce, and the dispute contract takes the proposal.
   */
  lemma SubmitExactly(
      cfg: Setup, o: Store, sender: Address, id: DisputeId, proposal: string, signature: string, ilrmAccepts: bool)
    ensures var h, n := cfg.crypto.hash(proposal), At(o.nonces, id);
      var signer := cfg.crypto.recover(Digest(id, h, n), signature);
      var o' := After(cfg, o, Submit(sender, id, proposal, signature, ilrmAccepts));
      if && sender in o.operators && At(o.processed, id) == 0 && |signature| > 0
         && signer.Some? && signer.value in o.operators && ilrmAccepts
      then
        && At(o'.processed, id) == h && id !in o'.pending && At(o'.nonces, id) == n + 1
        && o'.events == o.events + [Submitted(id, n, h, signer.value)]
        && o'.operators == o.operators && o'.ilrmContract == o.ilrmContract
      else o' == o
    ensures forall k :: k != id ==>
      SameRecord(o, After(cfg, o, Submit(sender, id, proposal, signature, ilrmAccepts)), k)
  {
  }

  /** Nothing changed for this dispute. */
  ghost predicate SameRecord(o: Store, o': Store, k: DisputeId) {
    && At(o'.processed, k) == At(o.processed, k) && At(o'.nonces, k) == At(o.nonces, k)
    && (k in o'.pending <==> k in o.pending)
  }

  /** Only the owner starts a dispute over, and only with a proposal recorded: the record goes, the nonce moves on. */
  lemma ResetExactly(cfg: Setup, o: Store, sender: Address, id: DisputeId)
    ensures var o' := After(cfg, o, StartOver(sender, id));
      if sender == cfg.owner && At(o.processed, id) != 0 then
        && At(o'.processed, id) == 0 && id in o'.pending && At(o'.nonces, id) == At(o.nonces, id) + 1
        && o'.events == o.events + [Reset(id, At(o.nonces, id))]
        && o'.operators == o.operators && o'.ilrmContract == o.ilrmContract
      else o' == o
    ensures forall k :: k != id ==> SameRecord(o, After(cfg, o, StartOver(sender, id)), k)
  {
  }

  /** An account is an operator exactly when the owner's last word on it was to register it. */
  lemma {:induction false} OperatorExactly(cfg: Setup, calls: seq<Call>, a: Address)
    requires a != 0
    ensures a in Run(cfg, NEW_ORACLE, calls).operators
       <==> exists i :: 0 <= i < |calls| && calls[i] == Register(cfg.owner, a)
              && forall j :: i < j < |calls| ==> calls[j] != Revoke(cfg.owner, a)
    decreases |calls|
  {
    if calls != [] {
      var n := |calls| - 1;
      var init := calls[..n];
      OperatorExactly(cfg, init, a);
      RunSnoc(cfg, NEW_ORACLE, init, calls[n]);
      assert calls == init + [calls[n]];
      var o := Run(cfg, NEW_ORACLE, init);
      OperatorStep(cfg, o, calls[n], a);
      hide Run, After;
      assert forall i :: 0 <= i < n ==> init[i] == calls[i];
    }
  }

  lemma OperatorStep(cfg: Setup, o: Store, c: Call, a: Address)
    requires a != 0
    ensures a in After(cfg, o, c).operators
       <==> c == Register(cfg.owner, a) || (a in o.operators && c != Revoke(cfg.owner, a))
  {
  }

  lemma {:induction false} RunSnoc(cfg: Setup, o: Store, calls: seq<Call>, c: Call)
    ensures Run(cfg, o, calls + [c]) == After(cfg, Run(cfg, o, calls), c)
    decreases |calls|
  {
    hide After;
    if calls == [] {
      assert ([] + [c])[1..] == [] && ([] + [c])[0] == c;
      assert Run(cfg, After(cfg, o, c), []) == After(cfg, o, c);
    } else {
      assert (calls + [c])[0] == calls[0] && (calls + [c])[1..] == calls[1..] + [c];
      RunSnoc(cfg, After(cfg, o, calls[0]), calls[1..], c);
    }
  }

  // ----- together with the dispute contract -----

  /** The verdict that the dispute contract gets when it asks for the signature again. */
  predicate SecondVerdict(cfg: Setup, o: Store, id: DisputeId, proposal: string, signature: string, signer: Address) {
    var proposalHash := cfg.crypto.hash(proposal);
    VerifySignature(cfg, Recorded(cfg, o, id, proposalHash, signer), id, proposalHash, signature)
  }

  /**
   * A submission that ends in the dispute contract of module Ilrm, which verifies the signature again;
   * it gets there if that is the contract the oracle contract calls.
   */
  function SubmitThrough(
      cfg: Setup, o: Store, sender: Address, id: DisputeId, proposal: string, signature: string,
      ilrm: Ilrm.Config, w: Ilrm.World, now: nat): Option<(Store, Ilrm.World)>
  {
    if o.ilrmContract != ilrm.self then
      None
    else
      var signer := Signer(cfg, o, id, cfg.crypto.hash(proposal), signature);
      var verdict := signer.Some? && SecondVerdict(cfg, o, id, proposal, signature, signer.value);
      var w' := Ilrm.SubmitLLMProposal(ilrm, w, now, cfg.self, id, proposal, verdict);
      var o' :- SubmitProposal(cfg, o, sender, id, proposal, signature, w'.Some?);
      Some((o', w'.value))
  }

  /**
   * The two contracts verify one signature at two different nonces, so between contracts that know
   * each other a proposal gets through exactly when the signature recovers to an operator for both.
   */
  lemma SubmissionNeedsTwoNonces(
      cfg: Setup, o: Store, sender: Address, id: DisputeId, proposal: string, signature: string,
      ilrm: Ilrm.Config, w: Ilrm.World, now: nat)
    ensures var h, n := cfg.crypto.hash(proposal), At(o.nonces, id);
      var first, second := cfg.crypto.recover(Digest(id, h, n), signature),
                           cfg.crypto.recover(Digest(id, h, n + 1), signature);
      var d := Ilrm.DisputeAt(w.disputes, id);
      SubmitThrough(cfg, o, sender, id, proposal, signature, ilrm, w, now).Some? ==
        (&& sender in o.operators && At(o.processed, id) == 0 && |signature| > 0
         && first.Some? && first.value in o.operators
         && second.Some? && second.value in o.operators
         && o.ilrmContract == ilrm.self && cfg.self == ilrm.oracle
         && d.counterpartyStake > 0 && !d.resolved && |proposal| > 0)
  {
  }

  /** A signature is by an operator for one digest only: what a signature is for. */
  ghost predicate SignsOnce(cfg: Setup, operators: set<Address>) {
    forall signature, a, b ::
      SignedBy(cfg, operators, a, signature) && SignedBy(cfg, operators, b, signature) ==> a == b
  }

  predicate SignedBy(cfg: Setup, operators: set<Address>, digest: Digest, signature: string) {
    var signer := cfg.crypto.recover(digest, signature);
    signer.Some? && signer.value in operators
  }

  /** So with signatures that do not carry over to another nonce, no proposal ever gets through. */
  lemma NoProposalGetsThrough(
      cfg: Setup, o: Store, sender: Address, id: DisputeId, proposal: string, signature: string,
      ilrm: Ilrm.Config, w: Ilrm.World, now: nat)
    requires SignsOnce(cfg, o.operators)
    ensures SubmitThrough(cfg, o, sender, id, proposal, signature, ilrm, w, now).None?
  {
    SubmissionNeedsTwoNonces(cfg, o, sender, id, proposal, signature, ilrm, w, now);
    hide SubmitThrough;
    var h, n := cfg.crypto.hash(proposal), At(o.nonces, id);
    if SignedBy(cfg, o.operators, Digest(id, h, n), signature) {
      assert !SignedBy(cfg, o.operators, Digest(id, h, n + 1), signature);
    }
  }

  /**
   * There are such signatures, good by every check of the oracle contract: the store is the one after
   * the owner registered the operator and connected the dispute contract, the oracle contract alone
   * accepts the submission, and still the dispute contract takes the proposal in no state, though
   * without the second look at the signature it would on every open dispute with both stakes.
   */
  lemma SignedYetRefused(
      self: Address, owner: Address, operator: Address, disputes: Address, id: DisputeId, proposal: string)
      returns (cfg: Setup, o: Store, signature: string)
    requires operator != 0 && disputes != 0 && |proposal| > 0
    ensures cfg.self == self && cfg.owner == owner && NonZeroHashes(cfg)
    ensures o == Run(cfg, NEW_ORACLE, [Register(owner, operator), ChangeILRM(owner, disputes)])
    ensures o.ilrmContract == disputes && operator in o.operators && SignsOnce(cfg, o.operators)
    ensures VerifySignature(cfg, o, id, cfg.crypto.hash(proposal), signature)
    ensures SubmitProposal(cfg, o, operator, id, proposal, signature, true).Some?
    ensures forall ilrm, w, now :: SubmitThrough(cfg, o, operator, id, proposal, signature, ilrm, w, now).None?
    ensures forall ilrm: Ilrm.Config, w: Ilrm.World, now ::
      ilrm.oracle == self && Ilrm.DisputeAt(w.disputes, id).counterpartyStake > 0
        && !Ilrm.DisputeAt(w.disputes, id).resolved
      ==> Ilrm.SubmitLLMProposal(ilrm, w, now, cfg.self, id, proposal, true).Some?
  {
    signature := "signed";
    var crypto := Crypto(_ => 1, (d, s) => if s == "signed" && d == Digest(id, 1, 0) then Some(operator) else None);
    cfg := Setup(self, owner, crypto);
    var register, connect := Register(owner, operator), ChangeILRM(owner, disputes);
    var o1 := After(cfg, NEW_ORACLE, register);
    o := After(cfg, o1, connect);
    assert [register, connect][1..] == [connect] && [connect][1..] == [];
    assert Run(cfg, o, []) == o && Run(cfg, o1, [connect]) == o;
    assert SignsOnce(cfg, o.operators);
    hide SignsOnce, SubmitThrough;
    forall ilrm, w, now
      ensures SubmitThrough(cfg, o, operator, id, proposal, signature, ilrm, w, now).None?
    {
      NoProposalGetsThrough(cfg, o, operator, id, proposal, signature, ilrm, w, now);
    }
  }

  // ----- the contract -----

  class NatLangChainOracle {
    const cfg: Setup

    var ilrmContract: Address
    var operators: set<Address>
    var proposalNonces: map<DisputeId, nat>
    var pendingRequests: set<DisputeId>
    var processedProposals: map<DisputeId, nat>
    var events: seq<Event>

    constructor (cfg: Setup)
      ensures this.cfg == cfg && State() == NEW_ORACLE
    {
      this.cfg := cfg;
      ilrmContract, operators, proposalNonces := 0, {}, map[];
      pendingRequests, processedProposals, events := {}, map[], [];
    }

    function State(): Store
      reads this
    {
      Store(ilrmContract, operators, proposalNonces, pendingRequests, processedProposals, events)
    }

    method DoVerifySignature(id: DisputeId, proposalHash: nat, signature: string) returns (signer: Option<Address>)
      ensures signer == Signer(cfg, State(), id, proposalHash, signature)
    {
      signer := cfg.crypto.recover(Digest(id, proposalHash, At(proposalNonces, id)), signature);
      if signer.Some? && signer.value !in operators {
        signer := None;
      }
    }

    /** Records first, calls the dispute contract after; when that reverts, the record goes too. */
    method DoSubmitProposal(sender: Address, id: DisputeId, proposal: string, signature: string, ilrmAccepts: bool)
      returns (ok: bool)
      modifies `proposalNonces, `pendingRequests, `processedProposals, `events
      ensures var r := SubmitProposal(cfg, old(State()), sender, id, proposal, signature, ilrmAccepts);
        && ok == r.Some?
        && State() == if ok then r.value else old(State())
      ensures var signer := cfg.crypto.recover(
          Digest(id, cfg.crypto.hash(proposal), old(At(proposalNonces, id))), signature);
        ok == (&& sender in operators && old(At(processedProposals, id)) == 0 && |signature| > 0
               && signer.Some? && signer.value in operators && ilrmAccepts)
      ensures ok ==>
                && processedProposals == old(processedProposals)[id := cfg.crypto.hash(proposal)]
                && pendingRequests == old(pendingRequests) - {id}
                && proposalNonces == old(proposalNonces)[id := old(At(proposalNonces, id)) + 1]
    {
      if sender !in operators || At(processedProposals, id) != 0 {
        return false;
      }
      var proposalHash := cfg.crypto.hash(proposal);
      if |signature| == 0 {
        return false;
      }
      var signer := DoVerifySignature(id, proposalHash, signature);
      if signer.None? {
        return false;
      }
      var before := (processedProposals, pendingRequests, proposalNonces);
      processedProposals := processedProposals[id := proposalHash];
      pendingRequests := pendingRequests - {id};
      proposalNonces := proposalNonces[id := At(proposalNonces, id) + 1];
      if !ilrmAccepts {
        processedProposals, pendingRequests, proposalNonces := before.0, before.1, before.2;
        return false;
      }
      events := events + [Submitted(id, At(before.2, id), proposalHash, signer.value)];
      return true;
    }

    method DoResetProposal(sender: Address, id: DisputeId) returns (ok: bool)
      modifies `proposalNonces, `pendingRequests, `processedProposals, `events
      ensures var r := ResetProposal(cfg, old(State()), sender, id);
        && ok == r.Some?
        && State() == if ok then r.value else old(State())
      ensures ok <==> sender == cfg.owner && old(At(processedProposals, id)) != 0
      ensures ok ==>
                && processedProposals == old(processedProposals)[id := 0]
                && pendingRequests == old(pendingRequests) + {id}
                && proposalNonces == old(proposalNonces)[id := old(At(proposalNonces, id)) + 1]
    {
      if sender != cfg.owner || At(processedProposals, id) == 0 {
        return false;
      }
      events := events + [Reset(id, At(proposalNonces, id))];
      processedProposals := processedProposals[id := 0];
      pendingRequests := pendingRequests + {id};
      proposalNonces := proposalNonces[id := At(proposalNonces, id) + 1];
      return true;
    }

    method DoRequestProposal(sender: Address, id: DisputeId) returns (ok: bool)
      modifies `pendingRequests
      ensures var r := RequestProposal(old(State()), sender, id);
        && ok == r.Some?
        && State() == if ok then r.value else old(State())
      ensures ok <==> sender == ilrmContract
      ensures pendingRequests == if ok then old(pendingRequests) + {id} else old(pendingRequests)
    {
      ok := sender == ilrmContract;
      if ok {
        pendingRequests := pendingRequests + {id};
      }
    }

    method DoCancelPendingRequest(sender: Address, id: DisputeId) returns (ok: bool)
      modifies `pendingRequests
      ensures var r := CancelPendingRequest(cfg, old(State()), sender, id);
        && ok == r.Some?
        && State() == if ok then r.value else old(State())
      ensures ok <==> sender == cfg.owner && id in old(pendingRequests)
      ensures pendingRequests == if ok then old(pendingRequests) - {id} else old(pendingRequests)
    {
      ok := sender == cfg.owner && id in pendingRequests;
      if ok {
        pendingRequests := pendingRequests - {id};
      }
    }

    method DoRegisterOracle(sender: Address, operator: Address) returns (ok: bool)
      modifies `operators
      ensures var r := RegisterOracle(cfg, old(State()), sender, operator);
        && ok == r.Some?
        && State() == if ok then r.value else old(State())
      ensures ok <==> sender == cfg.owner && operator != 0
      ensures operators == if ok then old(operators) + {operator} else old(operators)
    {
      ok := sender == cfg.owner && operator != 0;
      if ok {
        operators := operators + {operator};
      }
    }

    method DoRevokeOracle(sender: Address, operator: Address) returns (ok: bool)
      modifies `operators
      ensures var r := RevokeOracle(cfg, old(State()), sender, operator);
        && ok == r.Some?
        && State() == if ok then r.value else old(State())
      ensures ok <==> sender == cfg.owner
      ensures operators == if ok then old(operators) - {operator} else old(operators)
    {
      ok := sender == cfg.owner;
      if ok {
        operators := operators - {operator};
      }
    }

    method DoSetILRM(sender: Address, ilrm: Address) returns (ok: bool)
      modifies `ilrmContract
      ensures var r := SetILRM(cfg, old(State()), sender, ilrm);
        && ok == r.Some?
        && State() == if ok then r.value else old(State())
      ensures ok <==> sender == cfg.owner && ilrm != 0
      ensures ilrmContract == if ok then ilrm else old(ilrmContract)
    {
      ok := sender == cfg.owner && ilrm != 0;
      if ok {
        ilrmContract := ilrm;
      }
    }

    /** One transaction is one step of a run. */
    method Execute(c: Call)
      modifies this
      ensures State() == After(cfg, old(State()), c)
    {
      hide SubmitProposal, ResetProposal;
      var ok: bool;
      match c
      case Submit(sender, id, proposal, signature, accepts) =>
        ok := DoSubmitProposal(sender, id, proposal, signature, accepts);
      case StartOver(sender, id) => ok := DoResetProposal(sender, id);
      case Ask(sender, id) => ok := DoRequestProposal(sender, id);
      case Cancel(sender, id) => ok := DoCancelPendingRequest(sender, id);
      case Register(sender, operator) => ok := DoRegisterOracle(sender, operator);
      case Revoke(sender, operator) => ok := DoRevokeOracle(sender, operator);
      case ChangeILRM(sender, ilrm) => ok := DoSetILRM(sender, ilrm);
    }
  }
}
