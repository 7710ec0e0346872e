/**
 * Which text the parties of a dispute accepted. A new proposal overwrites the text and leaves the
 * acceptances standing, so both may have accepted without having accepted the same text; this is
 * when they have, and what the second to accept can look at beforehand.
 */
module Texts {
  import opened Wrappers
  import opened Ledger
  import opened Ilrm
  import opened Protocol
  import opened Guarantees
  import opened Calls
  import opened Creation
  import R = AssetRegistry

  // ----- reading the log -----

  /** Entry `k` is the dispute's latest proposal before entry `m`, with no counter-proposal in between. */
  ghost predicate LastProposal(events: seq<Event>, k: nat, id: DisputeId, m: nat) {
    && k < m <= |events|
    && events[k].Proposed? && events[k].id == id
    && forall j :: k < j < m && events[j].id == id ==> !events[j].Proposed? && !events[j].Countered?
  }

  /** The text on the table when entry `m` was made. */
  function TextAt(events: seq<Event>, id: DisputeId, m: nat): string
    requires m <= |events|
  {
    TextIn(events[..m], id)
  }

  lemma TextAtStep(events: seq<Event>, id: DisputeId, m: nat)
    requires m < |events|
    ensures TextAt(events, id, m + 1)
         == if events[m].Proposed? && events[m].id == id then events[m].text
            else if events[m].Countered? && events[m].id == id then "" else TextAt(events, id, m)
  {
    assert events[..m + 1] == events[..m] + [events[m]];
    TextSnoc(events[..m], events[m], id);
  }

  /** What `TextAt` says: a text lies on the table exactly when the latest proposal is of that text. */
  lemma {:induction false} TextAtMeans(events: seq<Event>, id: DisputeId, m: nat, text: string)
    requires m <= |events| && text != ""
    ensures TextAt(events, id, m) == text <==> exists k: nat :: LastProposal(events, k, id, m) && events[k].text == text
  {
    if m > 0 {
      TextAtMeans(events, id, m - 1, text);
      TextAtStep(events, id, m - 1);
      hide TextAt;
      if events[m - 1].id == id && events[m - 1].Proposed? {
        assert LastProposal(events, m - 1, id, m);
        forall k: nat | LastProposal(events, k, id, m)
          ensures k == m - 1
        {
        }
      } else if events[m - 1].id == id && events[m - 1].Countered? {
        forall k: nat
          ensures !LastProposal(events, k, id, m)
        {
        }
      } else {
        forall k: nat
          ensures LastProposal(events, k, id, m) <==> LastProposal(events, k, id, m - 1)
        {
        }
      }
    }
  }

  /** Entries that are no proposal or counter-proposal of the dispute leave the text on the table. */
  lemma {:induction false} TextStaysOnTable(events: seq<Event>, id: DisputeId, m: nat, n: nat)
    requires m <= n <= |events|
    requires forall j :: m <= j < n && events[j].id == id ==> !events[j].Proposed? && !events[j].Countered?
    ensures TextAt(events, id, n) == TextAt(events, id, m)
    decreases n
  {
    if m < n {
      TextStaysOnTable(events, id, m, n - 1);
      TextAtStep(events, id, n - 1);
    }
  }

  /** No proposal of another text is the latest before entry `m`. */
  ghost predicate NoOtherText(events: seq<Event>, id: DisputeId, m: nat, text: string) {
    forall k: nat :: LastProposal(events, k, id, m) ==> events[k].text == text
  }

  // ----- both accepted the same text -----

  /** Of the two standing acceptances behind a settlement, the later one was of the final text. */
  lemma LaterAcceptedFinal(cfg: Config, s: System, id: DisputeId, i: nat, j: nat)
    requires Inv(cfg, s) && id in s.w.disputes && s.w.disputes[id].outcome == AcceptedProposal
    requires StandingAcceptance(s.w.events, i, id, s.w.disputes[id].initiator)
    requires StandingAcceptance(s.w.events, j, id, s.w.disputes[id].counterparty)
    ensures var es, d := s.w.events, s.w.disputes[id];
      && TextAt(es, id, i) != "" && TextAt(es, id, j) != ""
      && i != j && TextAt(es, id, if i < j then j else i) == d.llmProposal
  {
    var es, d := s.w.events, s.w.disputes[id];
    DisputeHasText(cfg, s, id);
    hide Inv, TextIn;
    var k: nat :| ClosedAt(es, id, d, k);
    LastOfTwo(es, id, d, k, i, j);
    assert es[..|es|] == es;
    hide StandingAcceptance, ClosedAt;
  }

  lemma LastOfTwo(events: seq<Event>, id: DisputeId, d: Dispute, k: nat, i: nat, j: nat)
    requires ClosedAt(events, id, d, k) && d.initiator != d.counterparty
    requires StandingAcceptance(events, i, id, d.initiator) && StandingAcceptance(events, j, id, d.counterparty)
    ensures i != j && k == (if i < j then j else i) && k < |events|
    ensures TextAt(events, id, |events|) == TextAt(events, id, k)
  {
    hide TextAt;
    TextStaysOnTable(events, id, k, |events|);
    assert i <= k && j <= k;
    assert k == if events[k].who == d.initiator then i else j;
  }

  lemma DisputeHasText(cfg: Config, s: System, id: DisputeId)
    requires Inv(cfg, s) && id in s.w.disputes
    ensures TextOk(s.w.events, id, s.w.disputes[id])
    ensures s.w.disputes[id].initiator != s.w.disputes[id].counterparty
  {
    assert DisputeOk(cfg, s.w.events, id, s.w.disputes[id]);
    hide TextOk;
  }

  /**
   * In every reachable state: behind an accepted proposal, both parties accepted the final text if
   * and only if no proposal of another text was the latest before either acceptance.
   */
  lemma SameTextExactly(cfg: Config, s: System, id: DisputeId, i: nat, j: nat)
    requires Inv(cfg, s) && id in s.w.disputes && s.w.disputes[id].outcome == AcceptedProposal
    requires StandingAcceptance(s.w.events, i, id, s.w.disputes[id].initiator)
    requires StandingAcceptance(s.w.events, j, id, s.w.disputes[id].counterparty)
    ensures var es, text := s.w.events, s.w.disputes[id].llmProposal;
      (TextAt(es, id, i) == text && TextAt(es, id, j) == text) ==
        (NoOtherText(es, id, i, text) && NoOtherText(es, id, j, text))
    ensures var es, text := s.w.events, s.w.disputes[id].llmProposal;
      TextAt(es, id, i) == text && TextAt(es, id, j) == text <==> TextAt(es, id, i) == TextAt(es, id, j)
  {
    var es, text := s.w.events, s.w.disputes[id].llmProposal;
    LaterAcceptedFinal(cfg, s, id, i, j);
    hide Inv, TextAt;
    OnTableExactly(es, id, i, text);
    OnTableExactly(es, id, j, text);
  }

  lemma OnTableExactly(events: seq<Event>, id: DisputeId, m: nat, text: string)
    requires m <= |events| && TextAt(events, id, m) != ""
    ensures TextAt(events, id, m) == text <==> NoOtherText(events, id, m, text)
  {
    hide TextAt;
    var actual := TextAt(events, id, m);
    TextAtMeans(events, id, m, actual);
    var k: nat :| LastProposal(events, k, id, m) && events[k].text == actual;
    forall l: nat | LastProposal(events, l, id, m)
      ensures l == k
    {
    }
  }

  // ----- what the second to accept can check -----

  function OtherParty(d: Dispute, who: Address): Address {
    if who == d.initiator then d.counterparty else d.initiator
  }

  /**
   * Before the call that would settle the dispute: both parties will have accepted the same text if
   * and only if the text in storage is the one that the other party accepted.
   */
  lemma SecondAcceptorChecks(cfg: Config, s: System, now: nat, sender: Address, id: DisputeId, i: nat)
    requires Inv(cfg, s) && sender != 0 && sender != cfg.self
    requires AcceptProposal(cfg, s.w, now, sender, id).Some?
    requires DisputeAt(AcceptProposal(cfg, s.w, now, sender, id).value.disputes, id).resolved
    requires id in s.w.disputes && StandingAcceptance(s.w.events, i, id, OtherParty(s.w.disputes[id], sender))
    ensures var d, end := s.w.disputes[id], After(cfg, s, Accept(sender, now, id)).w;
      var j := |s.w.events|;
      && id in end.disputes && end.disputes[id].outcome == AcceptedProposal
      && StandingAcceptance(end.events, i, id, OtherParty(d, sender)) && StandingAcceptance(end.events, j, id, sender)
      && TextAt(end.events, id, i) == TextAt(s.w.events, id, i)
      && TextAt(end.events, id, j) == end.disputes[id].llmProposal == d.llmProposal
      && (TextAt(end.events, id, i) == TextAt(end.events, id, j) <==> d.llmProposal == TextAt(s.w.events, id, i))
  {
    hide Inv, After, AcceptProposal, TextIn, StandingAcceptance;
    var d, es := s.w.disputes[id], s.w.events;
    var end := AcceptProposal(cfg, s.w, now, sender, id).value;
    AcceptIsStep(cfg, s, now, sender, id);
    SettlingStep(cfg, s.w, now, sender, id);
    DisputeHasText(cfg, s, id);
    SettlingLog(es, Accepted(id, sender, now), end.events[|es| + 1], i, OtherParty(d, sender));
    assert es[..|es|] == es;
  }

  lemma SettlingLog(events: seq<Event>, e: Event, f: Event, i: nat, other: Address)
    requires e.Accepted? && f.Resolved? && f.id == e.id && StandingAcceptance(events, i, e.id, other) && e.who != other
    ensures var es := events + [e, f];
      && StandingAcceptance(es, i, e.id, other) && StandingAcceptance(es, |events|, e.id, e.who)
      && es[..i] == events[..i] && es[..|events|] == events
  {
  }

  lemma AcceptIsStep(cfg: Config, s: System, now: nat, sender: Address, id: DisputeId)
    requires Inv(cfg, s) && sender != 0 && sender != cfg.self
    requires AcceptProposal(cfg, s.w, now, sender, id).Some?
    ensures After(cfg, s, Accept(sender, now, id)) == s.(w := AcceptProposal(cfg, s.w, now, sender, id).value)
  {
    hide HistoryInv, R.IndexInv, R.FreezeInv, MoneyInv, FrozenForDispute, AcceptProposal;
  }

  lemma SettlingStep(cfg: Config, w: World, now: nat, sender: Address, id: DisputeId)
    requires AcceptProposal(cfg, w, now, sender, id).Some? && id in w.disputes
    requires DisputeAt(AcceptProposal(cfg, w, now, sender, id).value.disputes, id).resolved
    ensures var d, w' := w.disputes[id], AcceptProposal(cfg, w, now, sender, id).value;
      && id in w'.disputes && w'.disputes[id].outcome == AcceptedProposal
      && w'.disputes[id].llmProposal == d.llmProposal
      && (sender == d.initiator || sender == d.counterparty)
      && w'.events == w.events + [Accepted(id, sender, now),
           Resolved(id, AcceptedProposal, d.initiatorStake, d.counterpartyStake, 0, w.tokenReserves, now)]
  {
    hide Transfer, R.UnfreezeAssets;
  }

  // ----- when an acceptance succeeds -----

  /** A party that has not accepted yet, in time, with a text on the table. */
  predicate MayAccept(d: Dispute, now: nat, sender: Address) {
    && !d.resolved && d.llmProposal != "" && now <= d.startTime + 7 * 24 * 60 * 60
    && (sender == d.initiator || sender == d.counterparty)
    && (if sender == d.initiator then !d.initiatorAccepted else !d.counterpartyAccepted)
  }

  /** This acceptance would be the second one. */
  predicate Settles(d: Dispute, sender: Address) {
    if sender == d.initiator then d.counterpartyAccepted else d.initiatorAccepted
  }

  lemma AcceptParts(cfg: Config, w: World, now: nat, sender: Address, id: DisputeId)
    requires id in w.disputes
    ensures var d := w.disputes[id];
      var ledger1 := Transfer(w.ledger, cfg.self, d.initiator, d.initiatorStake);
      AcceptProposal(cfg, w, now, sender, id).Some? ==
        (&& MayAccept(d, now, sender)
         && (Settles(d, sender) ==>
               && ledger1.Some? && Transfer(ledger1.value, cfg.self, d.counterparty, d.counterpartyStake).Some?
               && R.UnfreezeAssets(w.registry, cfg.self, now, id).Some?))
    ensures MayAccept(w.disputes[id], now, sender) && !Settles(w.disputes[id], sender) ==>
      AcceptProposal(cfg, w, now, sender, id)
        == Some(w.(disputes := w.disputes[id := WithAcceptance(w.disputes[id], sender)],
                   events := w.events + [Accepted(id, sender, now)]))
    ensures Settles(w.disputes[id], sender) && AcceptProposal(cfg, w, now, sender, id).Some? ==>
      DisputeAt(AcceptProposal(cfg, w, now, sender, id).value.disputes, id).resolved
  {
    hide Transfer, R.UnfreezeAssets;
  }

  /** When `acceptProposal` succeeds, exactly: the balance always suffices, a frozen asset may be missing. */
  lemma AcceptExactly(cfg: Config, s: System, now: nat, sender: Address, id: DisputeId)
    requires Inv(cfg, s) && id in s.w.disputes
    ensures AcceptProposal(cfg, s.w, now, sender, id).Some? ==
      (&& MayAccept(s.w.disputes[id], now, sender)
       && (Settles(s.w.disputes[id], sender) ==> R.FrozenList(s.w.registry, id) != []))
  {
    AcceptParts(cfg, s.w, now, sender, id);
    if MayAccept(s.w.disputes[id], now, sender) && Settles(s.w.disputes[id], sender) {
      ProposalNeedsStakes(cfg, s, id);
      AcceptTransfersSucceed(cfg, s, id);
      assert R.UnfreezeAssets(s.w.registry, cfg.self, now, id).Some? <==> R.FrozenList(s.w.registry, id) != [];
    }
    hide AcceptProposal, Inv, Transfer;
  }

  lemma AcceptTransfersSucceed(cfg: Config, s: System, id: DisputeId)
    requires Inv(cfg, s) && id in s.w.disputes && !s.w.disputes[id].resolved && s.w.disputes[id].counterpartyStake > 0
    ensures var d := s.w.disputes[id];
      var ledger1 := Transfer(s.w.ledger, cfg.self, d.initiator, d.initiatorStake);
      ledger1.Some? && Transfer(ledger1.value, cfg.self, d.counterparty, d.counterpartyStake).Some?
  {
    var d := s.w.disputes[id];
    assert cfg.self != 0;
    StakesAreHeld(cfg, s, id);
    hide Inv, Transfer, BalanceOf;
    TransferSucceeds(s.w.ledger, cfg.self, d.initiator, d.initiatorStake);
    TransferSucceeds(Transfer(s.w.ledger, cfg.self, d.initiator, d.initiatorStake).value, cfg.self, d.counterparty,
      d.counterpartyStake);
  }

  // ----- two texts, both accepted -----

  /** A proposal on a fully staked, unresolved dispute; it leaves the acceptances as they are. */
  lemma ProposeEffect(cfg: Config, s: System, now: nat, id: DisputeId, text: string)
    requires Inv(cfg, s) && cfg.oracle != 0 && cfg.oracle != cfg.self && text != ""
    requires id in s.w.disputes && !s.w.disputes[id].resolved && s.w.disputes[id].counterpartyStake > 0
    ensures After(cfg, s, Propose(cfg.oracle, now, id, text, true)).w
         == s.w.(disputes := s.w.disputes[id := s.w.disputes[id].(llmProposal := text)],
                 events := s.w.events + [Proposed(id, text, now)])
  {
    hide Inv, After, Step;
    ProposeExactly(cfg, s, Propose(cfg.oracle, now, id, text, true));
  }

  lemma FirstAcceptEffect(cfg: Config, s: System, now: nat, sender: Address, id: DisputeId)
    requires Inv(cfg, s) && sender != 0 && sender != cfg.self && id in s.w.disputes
    requires MayAccept(s.w.disputes[id], now, sender) && !Settles(s.w.disputes[id], sender)
    ensures After(cfg, s, Accept(sender, now, id)).w
         == s.w.(disputes := s.w.disputes[id := WithAcceptance(s.w.disputes[id], sender)],
                 events := s.w.events + [Accepted(id, sender, now)])
  {
    hide Inv, After, AcceptProposal, MayAccept, Settles;
    AcceptParts(cfg, s.w, now, sender, id);
    AcceptIsStep(cfg, s, now, sender, id);
  }

  /** One text proposed and accepted by the initiator, then another, accepted by the counterparty. */
  function SwapCalls(oracle: Address, d: Dispute, id: DisputeId, now: nat, a: string, b: string): seq<Call> {
    [Propose(oracle, now, id, a, true)] + [Accept(d.initiator, now, id)]
    + [Propose(oracle, now, id, b, true)] + [Accept(d.counterparty, now, id)]
  }

  lemma RunFour(cfg: Config, s: System, c0: Call, c1: Call, c2: Call, c3: Call)
    requires Inv(cfg, s)
    ensures Run(cfg, s, [c0] + [c1] + [c2] + [c3])
         == After(cfg, After(cfg, After(cfg, After(cfg, s, c0), c1), c2), c3)
  {
    hide Inv, After, Run;
    RunOne(cfg, s, c0);
    RunSnoc(cfg, s, [c0], c1);
    RunSnoc(cfg, s, [c0] + [c1], c2);
    RunSnoc(cfg, s, [c0] + [c1] + [c2], c3);
  }

  /** The log after a text and an acceptance of it, and then another text. */
  lemma SwappedLog(events: seq<Event>, e: Event, f: Event, g: Event)
    requires e.Proposed? && f.Accepted? && g.Proposed? && e.id == f.id == g.id
    ensures var es := events + [e] + [f] + [g];
      StandingAcceptance(es, |events| + 1, f.id, f.who) && TextAt(es, f.id, |events| + 1) == e.text
  {
    TextSnoc(events, e, e.id);
    assert (events + [e] + [f] + [g])[..|events| + 1] == events + [e];
    hide TextIn;
  }

  /**
   * On every open dispute with both stakes, a frozen asset and no acceptance yet, the parties can be
   * brought to settle on text `b` of which one of them accepted only `a`.
   */
  lemma SwappedText(cfg: Config, s: System, id: DisputeId, now: nat, a: string, b: string)
    requires Inv(cfg, s) && cfg.oracle != 0 && cfg.oracle != cfg.self && a != "" && b != ""
    requires id in s.w.disputes && !s.w.disputes[id].resolved && s.w.disputes[id].counterpartyStake > 0
    requires !s.w.disputes[id].initiatorAccepted && !s.w.disputes[id].counterpartyAccepted
    requires now <= s.w.disputes[id].startTime + RESOLUTION_TIMEOUT && R.FrozenList(s.w.registry, id) != []
    ensures var d := s.w.disputes[id];
      var end := Run(cfg, s, SwapCalls(cfg.oracle, d, id, now, a, b)).w;
      var i, j := |s.w.events| + 1, |s.w.events| + 3;
      && id in end.disputes && end.disputes[id].outcome == AcceptedProposal && end.disputes[id].llmProposal == b
      && StandingAcceptance(end.events, i, id, d.initiator) && TextAt(end.events, id, i) == a
      && StandingAcceptance(end.events, j, id, d.counterparty) && TextAt(end.events, id, j) == b
  {
    hide Inv, After, Run, AcceptProposal, TextAt, StandingAcceptance;
    var d := s.w.disputes[id];
    StakesAreHeld(cfg, s, id);
    DisputeHasText(cfg, s, id);
    var c0, c1 := Propose(cfg.oracle, now, id, a, true), Accept(d.initiator, now, id);
    var c2, c3 := Propose(cfg.oracle, now, id, b, true), Accept(d.counterparty, now, id);
    RunFour(cfg, s, c0, c1, c2, c3);
    ProposeEffect(cfg, s, now, id, a);
    var s1 := After(cfg, s, c0);
    FirstAcceptEffect(cfg, s1, now, d.initiator, id);
    var s2 := After(cfg, s1, c1);
    ProposeEffect(cfg, s2, now, id, b);
    var s3 := After(cfg, s2, c2);
    SwappedLog(s.w.events, Proposed(id, a, now), Accepted(id, d.initiator, now), Proposed(id, b, now));
    AcceptExactly(cfg, s3, now, d.counterparty, id);
    AcceptParts(cfg, s3.w, now, d.counterparty, id);
    SecondAcceptorChecks(cfg, s3, now, d.counterparty, id, |s.w.events| + 1);
  }

  /** It does come about, from deployment on. */
  lemma SwappedFromGenesis(
      cfg: Config, initiator: Address, counterparty: Address, stake: nat, now: nat, a: string, b: string)
    requires ValidConfig(cfg) && cfg.oracle != 0 && cfg.oracle != cfg.self
    requires Parties(cfg, initiator, counterparty) && stake > 0 && a != "" && b != "" && a != b
    ensures var s0 := Genesis(cfg, map[initiator := stake, counterparty := stake]);
      var d := NewDispute(Allege(initiator, now, counterparty, stake), stake);
      var calls := StakedCalls(initiator, counterparty, stake, now) + SwapCalls(cfg.oracle, d, 0, now, a, b);
      var end := Run(cfg, s0, calls).w;
      && 0 in end.disputes && end.disputes[0].outcome == AcceptedProposal
      && exists i: nat, j: nat ::
           && StandingAcceptance(end.events, i, 0, initiator) && StandingAcceptance(end.events, j, 0, counterparty)
           && TextAt(end.events, 0, i) != TextAt(end.events, 0, j)
  {
    hide Genesis, Inv, Run, TextAt;
    var s0 := Genesis(cfg, map[initiator := stake, counterparty := stake]);
    var d := NewDispute(Allege(initiator, now, counterparty, stake), stake);
    StakedState(cfg, initiator, counterparty, stake, now);
    var s := Run(cfg, s0, StakedCalls(initiator, counterparty, stake, now));
    SwappedText(cfg, s, 0, now, a, b);
    assert SwapCalls(cfg.oracle, s.w.disputes[0], 0, now, a, b) == SwapCalls(cfg.oracle, d, 0, now, a, b);
    RunAppend(cfg, s0, StakedCalls(initiator, counterparty, stake, now), SwapCalls(cfg.oracle, d, 0, now, a, b));
    var end, n := Run(cfg, s, SwapCalls(cfg.oracle, d, 0, now, a, b)).w, |s.w.events|;
    assert StandingAcceptance(end.events, n + 1, 0, initiator);
    assert StandingAcceptance(end.events, n + 3, 0, counterparty);
    assert TextAt(end.events, 0, n + 1) != TextAt(end.events, 0, n + 3);
  }
}
