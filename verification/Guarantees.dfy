/**
 * What the dispute protocol guarantees over whole runs: solvency, exclusive freezes, bounded life
 * with a guaranteed exit, bounded griefing fees, and settlement once and by the rules.
 */
module Guarantees {
  import opened Wrappers
  import opened Ledger
  import opened Ilrm
  import opened Protocol
  import R = AssetRegistry

  /** The world together with the tokens sent straight to the dispute contract so far. */
  datatype System = System(w: World, donated: nat)

  ghost predicate Inv(cfg: Config, s: System) {
    ValidConfig(cfg) && WorldInv(cfg, s.w, s.donated)
  }

  /** One call: a revert changes nothing. */
  ghost function After(cfg: Config, s: System, c: Call): (r: System)
    requires Inv(cfg, s)
    ensures Inv(cfg, r)
  {
    match Step(cfg, s.w, c)
    case None => s
    case Some(w') =>
      StepKeepsHistory(cfg, s.w, c);
      StepKeepsFreezes(cfg, s.w, c);
      StepKeepsMoney(cfg, s.w, c, s.donated);
      System(w', s.donated + Donation(cfg, c))
  }

  ghost function Run(cfg: Config, s: System, calls: seq<Call>): (r: System)
    requires Inv(cfg, s)
    ensures Inv(cfg, r)
    decreases |calls|
  {
    if calls == [] then s else Run(cfg, After(cfg, s, calls[0]), calls[1..])
  }

  /** Deployment: no disputes, no assets; tokens already at the contract's address count as sent to it. */
  ghost function Genesis(cfg: Config, ledger: Balances): (r: System)
    requires ValidConfig(cfg)
    ensures Inv(cfg, r)
  {
    System(
      World(ledger, R.Registry({cfg.self}, map[], map[], map[], map[], 0), map[], 0, map[], 0, 0, 0, false, []),
      BalanceOf(ledger, cfg.self))
  }

  // ----- money -----

  /** In every reachable state the token balance is reserves, stakes of unresolved disputes and donations. */
  lemma Solvency(cfg: Config, ledger: Balances, calls: seq<Call>)
    requires ValidConfig(cfg)
    ensures var s := Run(cfg, Genesis(cfg, ledger), calls);
      && BalanceOf(s.w.ledger, cfg.self)
           == s.w.tokenReserves + Escrow(s.w.disputes, s.w.disputeCounter) + s.donated
      && s.w.ethBalance == s.w.treasury
  {
    var s := Run(cfg, Genesis(cfg, ledger), calls);
    assert MoneyInv(cfg, s.w, s.donated);
  }

  /** The counter-proposal fees burned for a dispute, exactly; never more than 0.07 ether. */
  lemma BoundedGriefing(cfg: Config, s: System, id: DisputeId)
    requires Inv(cfg, s) && id in s.w.disputes
    ensures var n := s.w.disputes[id].counterCount;
      && n <= 3
      && FeesBurned(s.w.events, id) == COUNTER_FEE_BASE * (Pow2(n) - 1) <= 7 * COUNTER_FEE_BASE
  {
    var n := s.w.disputes[id].counterCount;
    assert DisputeOk(cfg, s.w.events, id, s.w.disputes[id]);
    assert Pow2(0) == 1 && Pow2(1) == 2 && Pow2(2) == 4 && Pow2(3) == 8;
    assert n == 0 || n == 1 || n == 2 || n == 3;
  }

  // ----- freezes -----

  /**
   * An asset is frozen exactly when it is on the list of the dispute it names, once and on no other
   * list; that dispute is unresolved and its initiator owns the asset.
   */
  lemma FrozenForOneDispute(cfg: Config, s: System, a: R.AssetId)
    requires Inv(cfg, s) && a in s.w.registry.assets
    ensures var r, asset := s.w.registry, s.w.registry.assets[a];
      && (asset.status == R.Frozen <==> exists d :: a in R.FrozenList(r, d))
      && (asset.status == R.Frozen ==>
            && (forall d :: a in R.FrozenList(r, d) <==> d == asset.disputeId)
            && multiset(R.FrozenList(r, asset.disputeId))[a] == 1
            && asset.disputeId in s.w.disputes
            && !s.w.disputes[asset.disputeId].resolved
            && s.w.disputes[asset.disputeId].initiator == asset.owner)
  {
    var r, asset := s.w.registry, s.w.registry.assets[a];
    hide R.IndexInv, HistoryInv, MoneyInv;
    forall d
      ensures a in R.FrozenList(r, d) <==> asset.status == R.Frozen && asset.disputeId == d
    {
      R.FrozenExactlyOnce(r, a, d);
    }
    R.FrozenExactlyOnce(r, a, asset.disputeId);
    assert FrozenForDispute(s.w, asset.disputeId);
  }

  /** Every loop over an owner's assets or a dispute's frozen assets runs at most 100 times. */
  lemma LoopsBounded(cfg: Config, s: System, owner: Address, id: DisputeId)
    requires Inv(cfg, s)
    ensures |R.OwnerList(s.w.registry, owner)| <= 100 && |R.FrozenList(s.w.registry, id)| <= 100
  {
  }

  /** The call that resolves a dispute makes all of its frozen assets active and empties its list. */
  lemma ResolutionReleases(cfg: Config, s: System, c: Call, id: DisputeId)
    requires Inv(cfg, s) && id in s.w.disputes && !s.w.disputes[id].resolved
    requires var d := DisputeAt(After(cfg, s, c).w.disputes, id); d.resolved
    ensures R.FrozenList(s.w.registry, id) != []
    ensures R.FrozenList(After(cfg, s, c).w.registry, id) == []
    ensures forall a :: a in R.FrozenList(s.w.registry, id) ==>
      && a in After(cfg, s, c).w.registry.assets
      && After(cfg, s, c).w.registry.assets[a].status == R.Active
  {
    hide R.IndexInv, R.FreezeInv, HistoryInv, MoneyInv, FrozenForDispute;
    hide AcceptProposal, EnforceTimeout, R.UnfreezeAssets, R.ApplyFallbackLicense;
    var w, w' := s.w, After(cfg, s, c).w;
    assert FreezesInv(cfg, w) && Step(cfg, w, c) == Some(w');
    OnlyResolversResolve(cfg, w, c, id);
    hide Step, After;
    if c.Accept? {
      AcceptReleases(cfg, w, c.now, c.sender, id);
      UnfreezeReleases(w.registry, cfg.self, c.now, id, w'.registry);
    } else {
      TimeoutRegistry(cfg, w, c.now, id);
      var terms := w.disputes[id].fallbackLicense.termsHash;
      var relicensed := R.ApplyFallbackLicense(w.registry, cfg.self, c.now, id, terms).value;
      RelicenseKeeps(cfg, w, c.now, id, terms);
      RelicenseKeepsLists(w.registry, cfg.self, c.now, id, terms);
      UnfreezeReleases(relicensed, cfg.self, c.now, id, w'.registry);
    }
  }

  lemma UnfreezeReleases(r: R.Registry, self: Address, now: nat, id: DisputeId, r': R.Registry)
    requires R.IndexInv(r) && R.FreezeInv(r) && R.UnfreezeAssets(r, self, now, id) == Some(r')
    ensures R.FrozenList(r, id) != [] && R.FrozenList(r', id) == []
    ensures forall a :: a in R.FrozenList(r, id) ==> a in r'.assets && r'.assets[a].status == R.Active
  {
    hide R.IndexInv, R.FreezeInv;
    R.UnfreezeKeeps(r, self, now, id);
  }

  lemma OnlyResolversResolve(cfg: Config, w: World, c: Call, id: DisputeId)
    requires R.IndexInv(w.registry) && Step(cfg, w, c).Some?
    requires id in w.disputes && !w.disputes[id].resolved && DisputeAt(Step(cfg, w, c).value.disputes, id).resolved
    ensures (c.Accept? && AcceptProposal(cfg, w, c.now, c.sender, id) == Step(cfg, w, c))
         || (c.Enforce? && EnforceTimeout(cfg, w, c.now, id) == Step(cfg, w, c))
  {
    hide R.IndexInv, Transfer, TransferFrom, R.FreezeAssets, R.UnfreezeAssets, R.ApplyFallbackLicense;
    hide R.RegisterAsset, R.TransferAsset, EscalatedStake, Ilrm.Pow2;
    if c.Accept? {
    } else if c.Enforce? {
      TimeoutDisputes(cfg, w, c.now, c.id);
    }
  }

  lemma AcceptReleases(cfg: Config, w: World, now: nat, sender: Address, id: DisputeId)
    requires AcceptProposal(cfg, w, now, sender, id).Some? && id in w.disputes
    requires DisputeAt(AcceptProposal(cfg, w, now, sender, id).value.disputes, id).resolved
    ensures !w.disputes[id].resolved
    ensures R.UnfreezeAssets(w.registry, cfg.self, now, id)
         == Some(AcceptProposal(cfg, w, now, sender, id).value.registry)
  {
    hide Transfer, R.UnfreezeAssets;
  }

  // ----- bounded life and guaranteed exit -----

  /** The checked multiplications of a timeout do not overflow. */
  predicate Payable(d: Dispute) {
    if d.counterpartyStake == 0 then d.initiatorStake * 1000 <= MAX_UINT256
    else (d.initiatorStake + d.counterpartyStake) * 50 <= MAX_UINT256
  }

  /** Three days without an answer, seven days with one. */
  function Deadline(d: Dispute): nat {
    d.startTime + (if d.counterpartyStake == 0 then 3 else 7) * (24 * 60 * 60)
  }

  lemma TransferSucceeds(b: Balances, self: Address, to: Address, amount: nat)
    requires self != 0 && to != 0 && amount <= BalanceOf(b, self)
    ensures Transfer(b, self, to, amount).Some?
    ensures to != self ==> BalanceOf(Transfer(b, self, to, amount).value, self) == BalanceOf(b, self) - amount
  {
  }

  lemma TimeoutTransfersSucceed(b: Balances, self: Address, d: Dispute, burned: nat, each: nat, dust: nat)
    requires self != 0 && self != BURN_ADDRESS && burned + dust + 2 * each <= BalanceOf(b, self)
    requires d.initiator != 0 && d.counterparty != 0 && d.initiator != self && d.counterparty != self
    ensures TimeoutTransfers(b, self, d, burned, each, dust).Some?
  {
    hide Transfer, BalanceOf;
    TransferSucceeds(b, self, BURN_ADDRESS, burned);
    var ledger1 := Transfer(b, self, BURN_ADDRESS, burned).value;
    TransferSucceeds(ledger1, self, d.initiator, each);
    var ledger2 := Transfer(ledger1, self, d.initiator, each).value;
    TransferSucceeds(ledger2, self, d.counterparty, each);
    var ledger3 := Transfer(ledger2, self, d.counterparty, each).value;
    TransferSucceeds(ledger3, self, BURN_ADDRESS, dust);
  }

  /** The registry's part of a timeout fails only on an empty frozen list. */
  lemma RegistryReleases(r: R.Registry, self: Address, now: nat, id: DisputeId, terms: nat)
    requires self in r.authorized
    ensures R.ApplyFallbackLicense(r, self, now, id, terms).Some?
    ensures R.UnfreezeAssets(R.ApplyFallbackLicense(r, self, now, id, terms).value, self, now, id).Some?
       <==> R.FrozenList(r, id) != []
  {
  }

  /** A timeout of a fully staked dispute succeeds exactly when each of its parts does. */
  lemma TimeoutParts(cfg: Config, w: World, now: nat, id: DisputeId)
    requires id in w.disputes && w.disputes[id].initiatorStake == w.disputes[id].counterpartyStake
    ensures var d, n := w.disputes[id], w.disputes[id].initiatorStake;
      var relicensed := R.ApplyFallbackLicense(w.registry, cfg.self, now, id, d.fallbackLicense.termsHash);
      ResolveTimeout(cfg, w, now, id).Some? ==
        (&& 2 * n * BURN_PERCENTAGE <= MAX_UINT256
         && TimeoutTransfers(w.ledger, cfg.self, d, n, n / 2, n % 2).Some?
         && relicensed.Some? && R.UnfreezeAssets(relicensed.value, cfg.self, now, id).Some?)
  {
    hide Transfer, R.UnfreezeAssets, R.ApplyFallbackLicense;
    HalvesOf(w.disputes[id].initiatorStake);
  }

  lemma NonParticipationParts(cfg: Config, w: World, now: nat, id: DisputeId)
    requires id in w.disputes
    ensures var d := w.disputes[id];
      var incentive := d.initiatorStake * INITIATOR_INCENTIVE_BPS / 10000;
      var paid := if w.tokenReserves >= incentive then incentive else 0;
      var relicensed := R.ApplyFallbackLicense(w.registry, cfg.self, now, id, d.fallbackLicense.termsHash);
      ResolveNonParticipation(cfg, w, now, id).Some? ==
        (&& d.initiatorStake * INITIATOR_INCENTIVE_BPS <= MAX_UINT256
         && Transfer(w.ledger, cfg.self, d.initiator, d.initiatorStake + paid).Some?
         && relicensed.Some? && R.UnfreezeAssets(relicensed.value, cfg.self, now, id).Some?)
  {
    hide Transfer, R.UnfreezeAssets, R.ApplyFallbackLicense;
  }

  /** The contract holds the stakes of every unresolved dispute, on top of its reserves. */
  lemma StakesAreHeld(cfg: Config, s: System, id: DisputeId)
    requires Inv(cfg, s) && id in s.w.disputes && !s.w.disputes[id].resolved
    ensures var d := s.w.disputes[id];
      && d.initiator != 0 && d.counterparty != 0 && d.initiator != cfg.self
      && (d.counterpartyStake > 0 ==> d.counterparty != cfg.self && d.initiatorStake == d.counterpartyStake)
      && s.w.tokenReserves + d.initiatorStake + d.counterpartyStake <= BalanceOf(s.w.ledger, cfg.self)
  {
    hide DisputeOk, FreezesInv, BalanceOf;
    StoredDisputeHasParties(cfg, s.w, id);
    EscrowIncludes(s.w.disputes, s.w.disputeCounter, id);
  }

  lemma TimeoutExactly(cfg: Config, s: System, now: nat, id: DisputeId)
    requires Inv(cfg, s) && id in s.w.disputes && !s.w.disputes[id].resolved && s.w.disputes[id].counterpartyStake > 0
    ensures ResolveTimeout(cfg, s.w, now, id).Some?
       <==> R.FrozenList(s.w.registry, id) != [] && Payable(s.w.disputes[id])
  {
    var w, d := s.w, s.w.disputes[id];
    var n := d.initiatorStake;
    assert cfg.self in w.registry.authorized && cfg.self != 0 && cfg.self != BURN_ADDRESS;
    StakesAreHeld(cfg, s, id);
    hide Inv, ResolveTimeout, TimeoutTransfers, R.UnfreezeAssets, R.ApplyFallbackLicense, BalanceOf;
    HalvesOf(n);
    RegistryReleases(w.registry, cfg.self, now, id, d.fallbackLicense.termsHash);
    TimeoutTransfersSucceed(w.ledger, cfg.self, d, n, n / 2, n % 2);
    TimeoutParts(cfg, w, now, id);
  }

  lemma NonParticipationExactly(cfg: Config, s: System, now: nat, id: DisputeId)
    requires Inv(cfg, s) && id in s.w.disputes && !s.w.disputes[id].resolved && s.w.disputes[id].counterpartyStake == 0
    ensures ResolveNonParticipation(cfg, s.w, now, id).Some?
       <==> R.FrozenList(s.w.registry, id) != [] && Payable(s.w.disputes[id])
  {
    var w, d := s.w, s.w.disputes[id];
    assert cfg.self in w.registry.authorized && cfg.self != 0;
    StakesAreHeld(cfg, s, id);
    hide Inv, ResolveNonParticipation, R.UnfreezeAssets, R.ApplyFallbackLicense, Transfer, BalanceOf;
    RegistryReleases(w.registry, cfg.self, now, id, d.fallbackLicense.termsHash);
    var incentive := d.initiatorStake * INITIATOR_INCENTIVE_BPS / 10000;
    var paid := if w.tokenReserves >= incentive then incentive else 0;
    TransferSucceeds(w.ledger, cfg.self, d.initiator, d.initiatorStake + paid);
    NonParticipationParts(cfg, w, now, id);
  }

  /**
   * When `enforceTimeout` succeeds, exactly: the dispute is unresolved and past its deadline, it
   * froze an asset, and its stake is small enough for the checked multiplications. The balance
   * always suffices.
   */
  lemma EnforceExactly(cfg: Config, s: System, now: nat, id: DisputeId)
    requires Inv(cfg, s) && id in s.w.disputes
    ensures EnforceTimeout(cfg, s.w, now, id).Some?
       <==> && !s.w.disputes[id].resolved
            && now > Deadline(s.w.disputes[id])
            && R.FrozenList(s.w.registry, id) != []
            && Payable(s.w.disputes[id])
  {
    var d := s.w.disputes[id];
    if !d.resolved {
      if d.counterpartyStake == 0 {
        NonParticipationExactly(cfg, s, now, id);
      } else {
        TimeoutExactly(cfg, s, now, id);
      }
    }
    hide Inv, ResolveTimeout, ResolveNonParticipation;
  }

  /** The start time moves by one day for each counter-proposal, so no deadline is later than ten days in. */
  lemma BoundedLife(cfg: Config, s: System, id: DisputeId)
    requires Inv(cfg, s) && id in s.w.disputes
    ensures var d := s.w.disputes[id];
      && d.startTime == CreatedAt(s.w.events, id) + d.counterCount * ONE_DAY
      && Deadline(d) <= CreatedAt(s.w.events, id) + 10 * ONE_DAY
  {
    assert DisputeOk(cfg, s.w.events, id, s.w.disputes[id]);
  }

  /** Anyone can end any unresolved dispute that froze an asset, ten days after its creation. */
  lemma GuaranteedExit(cfg: Config, s: System, now: nat, id: DisputeId)
    requires Inv(cfg, s) && id in s.w.disputes && !s.w.disputes[id].resolved
    requires now > CreatedAt(s.w.events, id) + 10 * ONE_DAY
    ensures EnforceTimeout(cfg, s.w, now, id).Some?
       <==> R.FrozenList(s.w.registry, id) != [] && Payable(s.w.disputes[id])
  {
    BoundedLife(cfg, s, id);
    EnforceExactly(cfg, s, now, id);
  }

  lemma StepKeepsIds(cfg: Config, w: World, c: Call, id: DisputeId)
    requires R.IndexInv(w.registry) && Step(cfg, w, c).Some? && id in w.disputes
    ensures id in Step(cfg, w, c).value.disputes
  {
    hide R.IndexInv, Transfer, TransferFrom, R.FreezeAssets, R.UnfreezeAssets, R.ApplyFallbackLicense;
    hide R.RegisterAsset, R.TransferAsset, EscalatedStake, Ilrm.Pow2;
  }

  /** What an unresolved dispute has frozen does not change before it is resolved. */
  lemma ListStays(cfg: Config, w: World, c: Call, id: DisputeId)
    requires HistoryInv(cfg, w) && FreezesInv(cfg, w) && Step(cfg, w, c).Some?
    requires id in w.disputes && !DisputeAt(Step(cfg, w, c).value.disputes, id).resolved
    ensures R.FrozenList(Step(cfg, w, c).value.registry, id) == R.FrozenList(w.registry, id)
  {
    hide DisputeOk, Transfer, TransferFrom, EscalatedStake, Ilrm.Pow2, R.IndexInv, R.FreezeInv, FrozenForDispute;
    hide R.FreezeAssets, R.UnfreezeAssets, R.ApplyFallbackLicense, R.RegisterAsset, R.TransferAsset;
    match c
    case RegisterAsset(sender, now, asset, owner, terms) =>
      OwnershipKeepsLists(w.registry, sender, now, asset, owner, terms);
    case TransferAsset(sender, now, asset, newOwner) =>
      OwnershipKeepsLists(w.registry, sender, now, asset, newOwner, 0);
    case Initiate(sender, now, _, _, _, _, _) =>
      FreezeTouchesOneList(w.registry, cfg.self, now, w.disputeCounter, sender, id);
    case Accept(sender, now, k) =>
      UnfreezeEmpties(w.registry, cfg.self, now, k, id);
    case Enforce(_, now, k) =>
      hide EnforceTimeout;
      TimeoutDisputes(cfg, w, now, k);
      TimeoutKeepsOthers(cfg, w, now, k, id);
    case _ =>
  }

  lemma TimeoutKeepsOthers(cfg: Config, w: World, now: nat, k: DisputeId, id: DisputeId)
    requires EnforceTimeout(cfg, w, now, k).Some? && id != k
    ensures R.FrozenList(EnforceTimeout(cfg, w, now, k).value.registry, id) == R.FrozenList(w.registry, id)
  {
    hide EnforceTimeout, R.UnfreezeAssets, R.ApplyFallbackLicense;
    TimeoutRegistry(cfg, w, now, k);
    var terms := w.disputes[k].fallbackLicense.termsHash;
    RelicenseKeepsLists(w.registry, cfg.self, now, k, terms);
    UnfreezeEmpties(R.ApplyFallbackLicense(w.registry, cfg.self, now, k, terms).value, cfg.self, now, k, id);
  }

  lemma OwnershipKeepsLists(
      r: R.Registry, sender: Address, now: nat, asset: R.AssetId, owner: Address, terms: nat)
    requires R.IndexInv(r)
    ensures var r' := R.RegisterAsset(r, sender, now, asset, owner, terms);
      r'.Some? ==> r'.value.frozenAssets == r.frozenAssets
    ensures var r' := R.TransferAsset(r, sender, now, asset, owner);
      r'.Some? ==> r'.value.frozenAssets == r.frozenAssets
  {
  }

  lemma FreezeTouchesOneList(r: R.Registry, sender: Address, now: nat, d: DisputeId, party: Address, e: DisputeId)
    requires e != d
    ensures var r' := R.FreezeAssets(r, sender, now, d, party);
      r'.Some? ==> R.FrozenList(r'.value, e) == R.FrozenList(r, e)
  {
  }

  lemma UnfreezeEmpties(r: R.Registry, sender: Address, now: nat, d: DisputeId, e: DisputeId)
    ensures var r' := R.UnfreezeAssets(r, sender, now, d);
      r'.Some? ==> R.FrozenList(r'.value, e) == if e == d then [] else R.FrozenList(r, e)
  {
  }

  lemma RelicenseKeepsLists(r: R.Registry, sender: Address, now: nat, d: DisputeId, terms: nat)
    ensures var r' := R.ApplyFallbackLicense(r, sender, now, d, terms);
      r'.Some? ==> r'.value.frozenAssets == r.frozenAssets
  {
  }

  lemma AfterKeepsIds(cfg: Config, s: System, c: Call, id: DisputeId)
    requires Inv(cfg, s) && id in s.w.disputes
    ensures id in After(cfg, s, c).w.disputes
  {
    hide HistoryInv, R.IndexInv, MoneyInv;
    if Step(cfg, s.w, c).Some? {
      StepKeepsIds(cfg, s.w, c, id);
    }
    hide Step;
  }

  lemma AfterKeepsResolved(cfg: Config, s: System, c: Call, id: DisputeId)
    requires Inv(cfg, s) && id in s.w.disputes && s.w.disputes[id].resolved
    ensures id in After(cfg, s, c).w.disputes && After(cfg, s, c).w.disputes[id] == s.w.disputes[id]
  {
    hide HistoryInv, R.IndexInv, MoneyInv;
    if Step(cfg, s.w, c).Some? {
      ResolvedUnchanged(cfg, s.w, c, id);
    }
    hide Step;
  }

  lemma AfterKeepsList(cfg: Config, s: System, c: Call, id: DisputeId)
    requires Inv(cfg, s) && id in s.w.disputes && !DisputeAt(After(cfg, s, c).w.disputes, id).resolved
    ensures R.FrozenList(After(cfg, s, c).w.registry, id) == R.FrozenList(s.w.registry, id)
  {
    hide HistoryInv, R.IndexInv, R.FreezeInv, MoneyInv, FrozenForDispute;
    if Step(cfg, s.w, c).Some? {
      ListStays(cfg, s.w, c, id);
    }
    hide Step;
  }

  /** A step leaves an unresolved dispute without frozen assets as it is: unresolved, with nothing frozen. */
  lemma StepNeverResolves(cfg: Config, s: System, c: Call, id: DisputeId)
    requires Inv(cfg, s) && id in s.w.disputes && !s.w.disputes[id].resolved && R.FrozenList(s.w.registry, id) == []
    ensures var w' := After(cfg, s, c).w;
      id in w'.disputes && !w'.disputes[id].resolved && R.FrozenList(w'.registry, id) == []
  {
    hide Inv, After;
    AfterKeepsIds(cfg, s, c, id);
    if After(cfg, s, c).w.disputes[id].resolved {
      ResolutionReleases(cfg, s, c, id);
    }
    AfterKeepsList(cfg, s, c, id);
  }

  /** A dispute that froze no asset is never resolved, whatever is called and however long one waits. */
  lemma {:induction false} StuckWithoutAssets(cfg: Config, s: System, calls: seq<Call>, id: DisputeId)
    requires Inv(cfg, s) && id in s.w.disputes && !s.w.disputes[id].resolved && R.FrozenList(s.w.registry, id) == []
    ensures var w' := Run(cfg, s, calls).w;
      id in w'.disputes && !w'.disputes[id].resolved
    decreases |calls|
  {
    hide Inv, After;
    if calls != [] {
      StepNeverResolves(cfg, s, calls[0], id);
      StuckWithoutAssets(cfg, After(cfg, s, calls[0]), calls[1..], id);
    }
  }

  /** What a dispute froze when it was created stays frozen for it until it is resolved. */
  lemma {:induction false} FreezesLast(cfg: Config, s: System, calls: seq<Call>, id: DisputeId)
    requires Inv(cfg, s) && id in s.w.disputes
    requires !DisputeAt(Run(cfg, s, calls).w.disputes, id).resolved
    ensures id in Run(cfg, s, calls).w.disputes
    ensures R.FrozenList(Run(cfg, s, calls).w.registry, id) == R.FrozenList(s.w.registry, id)
    decreases |calls|
  {
    hide Inv, After;
    if calls != [] {
      var next := After(cfg, s, calls[0]);
      AfterKeepsIds(cfg, s, calls[0], id);
      if next.w.disputes[id].resolved {
        ResolvedIsAbsorbing(cfg, next, calls[1..], id);
      }
      AfterKeepsList(cfg, s, calls[0], id);
      FreezesLast(cfg, next, calls[1..], id);
    }
  }

  /**
   * Whatever happens after a dispute has been created, it is resolved or anyone can resolve it ten
   * days after its creation, provided it froze an asset and the multiplications do not overflow.
   */
  lemma AlwaysAnExit(cfg: Config, s: System, calls: seq<Call>, now: nat, id: DisputeId)
    requires Inv(cfg, s) && id in s.w.disputes && R.FrozenList(s.w.registry, id) != []
    ensures var end := Run(cfg, s, calls);
      && id in end.w.disputes
      && (end.w.disputes[id].resolved
          || (Payable(end.w.disputes[id]) && now > CreatedAt(end.w.events, id) + 10 * ONE_DAY
              ==> EnforceTimeout(cfg, end.w, now, id).Some?))
  {
    var end := Run(cfg, s, calls);
    RunKeepsIds(cfg, s, calls, id);
    if !end.w.disputes[id].resolved {
      FreezesLast(cfg, s, calls, id);
      BoundedLife(cfg, end, id);
      EnforceExactly(cfg, end, now, id);
    }
    hide Inv;
  }

  lemma {:induction false} RunKeepsIds(cfg: Config, s: System, calls: seq<Call>, id: DisputeId)
    requires Inv(cfg, s) && id in s.w.disputes
    ensures id in Run(cfg, s, calls).w.disputes
    decreases |calls|
  {
    hide Inv, After;
    if calls != [] {
      AfterKeepsIds(cfg, s, calls[0], id);
      RunKeepsIds(cfg, After(cfg, s, calls[0]), calls[1..], id);
    }
  }

  // ----- settlement -----

  /** Accepted proposals need both parties: standing, timely acceptances and equal, non-zero stakes. */
  lemma AcceptedByBoth(cfg: Config, s: System, id: DisputeId)
    requires Inv(cfg, s) && id in s.w.disputes && s.w.disputes[id].outcome == AcceptedProposal
    ensures var d, es := s.w.disputes[id], s.w.events;
      && d.initiatorStake == d.counterpartyStake > 0
      && (exists i: nat ::
            StandingAcceptance(es, i, id, d.initiator) && es[i].at <= d.startTime + RESOLUTION_TIMEOUT)
      && (exists i: nat ::
            StandingAcceptance(es, i, id, d.counterparty) && es[i].at <= d.startTime + RESOLUTION_TIMEOUT)
  {
    var d := s.w.disputes[id];
    BothAccepted(cfg, s, id);
    hide Inv, AcceptedSince, StandingAcceptance;
    AcceptedSinceMeans(s.w.events, id, d.initiator, d.startTime + RESOLUTION_TIMEOUT);
    AcceptedSinceMeans(s.w.events, id, d.counterparty, d.startTime + RESOLUTION_TIMEOUT);
  }

  lemma BothAccepted(cfg: Config, s: System, id: DisputeId)
    requires Inv(cfg, s) && id in s.w.disputes && s.w.disputes[id].outcome == AcceptedProposal
    ensures var d, es := s.w.disputes[id], s.w.events;
      && d.initiatorStake == d.counterpartyStake > 0
      && AcceptedSince(es, id, d.initiator, d.startTime + RESOLUTION_TIMEOUT)
      && AcceptedSince(es, id, d.counterparty, d.startTime + RESOLUTION_TIMEOUT)
  {
    hide FreezesInv, MoneyInv, AcceptedSince, CreatedAt, FeesBurned, Payouts, PaidRight, TextOk, Ilrm.Pow2;
    assert DisputeOk(cfg, s.w.events, id, s.w.disputes[id]);
  }

  /** A dispute is paid out once if resolved and never otherwise, and every payout is the one due. */
  lemma PaidOnce(cfg: Config, s: System, id: DisputeId)
    requires Inv(cfg, s) && id in s.w.disputes
    ensures Payouts(s.w.events, id) == if s.w.disputes[id].resolved then 1 else 0
    ensures forall i :: 0 <= i < |s.w.events| && s.w.events[i].Resolved? && s.w.events[i].id == id ==>
      RightPayout(s.w.events[i], s.w.disputes[id])
  {
    assert DisputeOk(cfg, s.w.events, id, s.w.disputes[id]);
  }

  /** After a timeout of a fully staked dispute each party has floor(s/2) more and the rest is burned. */
  lemma TimeoutSettlement(cfg: Config, s: System, now: nat, id: DisputeId, a: Address)
    requires Inv(cfg, s) && id in s.w.disputes && s.w.disputes[id].counterpartyStake > 0
    requires EnforceTimeout(cfg, s.w, now, id).Some?
    ensures var d, n := s.w.disputes[id], s.w.disputes[id].initiatorStake;
      BalanceOf(EnforceTimeout(cfg, s.w, now, id).value.ledger, a)
        == BalanceOf(s.w.ledger, a)
           - (if a == cfg.self then 2 * n else 0)
           + (if a == d.initiator then n / 2 else 0)
           + (if a == d.counterparty then n / 2 else 0)
           + (if a == BURN_ADDRESS then 2 * n - 2 * (n / 2) else 0)
  {
    var d := s.w.disputes[id];
    var n := d.initiatorStake;
    StoredDisputeHasParties(cfg, s.w, id);
    TimeoutLedger(cfg, s.w, now, id);
    TimeoutTransfersDelta(s.w.ledger, cfg.self, d, n, n / 2, n % 2, a);
    hide ResolveTimeout, TimeoutTransfers, BalanceOf, Inv;
  }

  /**
   * When the counterparty never staked, the initiator gets the stake back and a tenth of it on top,
   * out of the reserves, exactly when the reserves cover that tenth.
   */
  lemma NonParticipationSettlement(cfg: Config, s: System, now: nat, id: DisputeId, a: Address)
    requires Inv(cfg, s) && id in s.w.disputes && s.w.disputes[id].counterpartyStake == 0
    requires EnforceTimeout(cfg, s.w, now, id).Some?
    ensures var d, w' := s.w.disputes[id], EnforceTimeout(cfg, s.w, now, id).value;
      var incentive := IncentiveFrom(s.w.tokenReserves, d.initiatorStake);
      && w'.tokenReserves == s.w.tokenReserves - incentive
      && BalanceOf(w'.ledger, a)
           == BalanceOf(s.w.ledger, a)
              - (if a == cfg.self then d.initiatorStake + incentive else 0)
              + (if a == d.initiator then d.initiatorStake + incentive else 0)
  {
    hide Inv, ResolveTimeout, ResolveNonParticipation, Transfer, BalanceOf;
    var n := s.w.disputes[id].initiatorStake;
    var paid := IncentiveFrom(s.w.tokenReserves, n);
    assert EnforceTimeout(cfg, s.w, now, id) == ResolveNonParticipation(cfg, s.w, now, id);
    hide EnforceTimeout;
    NonParticipationLedger(cfg, s.w, now, id);
    TransferDelta(s.w.ledger, cfg.self, s.w.disputes[id].initiator, n + paid, a);
  }

  lemma NonParticipationLedger(cfg: Config, w: World, now: nat, id: DisputeId)
    requires id in w.disputes && ResolveNonParticipation(cfg, w, now, id).Some?
    ensures var d, w' := w.disputes[id], ResolveNonParticipation(cfg, w, now, id).value;
      var paid := IncentiveFrom(w.tokenReserves, d.initiatorStake);
      && w'.tokenReserves == w.tokenReserves - paid
      && Transfer(w.ledger, cfg.self, d.initiator, d.initiatorStake + paid) == Some(w'.ledger)
  {
    TenthOf(w.disputes[id].initiatorStake);
    hide Transfer, R.UnfreezeAssets, R.ApplyFallbackLicense;
  }

  /** The transfers of an accepted proposal. */
  lemma AcceptanceTransfers(cfg: Config, w: World, now: nat, sender: Address, id: DisputeId)
    requires AcceptProposal(cfg, w, now, sender, id).Some? && id in w.disputes
    requires DisputeAt(AcceptProposal(cfg, w, now, sender, id).value.disputes, id).resolved
    ensures !w.disputes[id].resolved && |w.disputes[id].llmProposal| > 0
    ensures var d := w.disputes[id];
      var ledger1 := Transfer(w.ledger, cfg.self, d.initiator, d.initiatorStake);
      && ledger1.Some?
      && Transfer(ledger1.value, cfg.self, d.counterparty, d.counterpartyStake)
           == Some(AcceptProposal(cfg, w, now, sender, id).value.ledger)
  {
    hide Transfer, R.UnfreezeAssets;
  }

  /** When the second acceptance resolves a dispute, each party gets its stake back. */
  lemma AcceptanceSettlement(cfg: Config, s: System, now: nat, sender: Address, id: DisputeId, a: Address)
    requires Inv(cfg, s) && id in s.w.disputes && AcceptProposal(cfg, s.w, now, sender, id).Some?
    requires DisputeAt(AcceptProposal(cfg, s.w, now, sender, id).value.disputes, id).resolved
    ensures var d, n := s.w.disputes[id], s.w.disputes[id].initiatorStake;
      BalanceOf(AcceptProposal(cfg, s.w, now, sender, id).value.ledger, a)
        == BalanceOf(s.w.ledger, a)
           - (if a == cfg.self then 2 * n else 0)
           + (if a == d.initiator then n else 0)
           + (if a == d.counterparty then n else 0)
  {
    var d := s.w.disputes[id];
    var n := d.initiatorStake;
    AcceptanceTransfers(cfg, s.w, now, sender, id);
    StakesAreHeld(cfg, s, id);
    ProposalNeedsStakes(cfg, s, id);
    hide AcceptProposal, Inv, Transfer, BalanceOf;
    var ledger1 := Transfer(s.w.ledger, cfg.self, d.initiator, n).value;
    TransferDelta(s.w.ledger, cfg.self, d.initiator, n, a);
    TransferDelta(ledger1, cfg.self, d.counterparty, n, a);
  }

  lemma ProposalNeedsStakes(cfg: Config, s: System, id: DisputeId)
    requires Inv(cfg, s) && id in s.w.disputes && |s.w.disputes[id].llmProposal| > 0
    ensures s.w.disputes[id].counterpartyStake > 0
  {
    assert DisputeOk(cfg, s.w.events, id, s.w.disputes[id]);
  }

  /** Resolution is final: no call changes the record of a resolved dispute. */
  lemma {:induction false} ResolvedIsAbsorbing(cfg: Config, s: System, calls: seq<Call>, id: DisputeId)
    requires Inv(cfg, s) && id in s.w.disputes && s.w.disputes[id].resolved
    ensures id in Run(cfg, s, calls).w.disputes
    ensures Run(cfg, s, calls).w.disputes[id] == s.w.disputes[id]
    decreases |calls|
  {
    hide Inv, After;
    if calls != [] {
      AfterKeepsResolved(cfg, s, calls[0], id);
      ResolvedIsAbsorbing(cfg, After(cfg, s, calls[0]), calls[1..], id);
    }
  }

  lemma ResolvedUnchanged(cfg: Config, w: World, c: Call, id: DisputeId)
    requires HistoryInv(cfg, w) && R.IndexInv(w.registry) && Step(cfg, w, c).Some?
    requires id in w.disputes && w.disputes[id].resolved
    ensures id in Step(cfg, w, c).value.disputes && Step(cfg, w, c).value.disputes[id] == w.disputes[id]
  {
    hide R.IndexInv, Transfer, TransferFrom, R.FreezeAssets, R.UnfreezeAssets, R.ApplyFallbackLicense;
    hide R.RegisterAsset, R.TransferAsset, EscalatedStake, Ilrm.Pow2, DisputeOk;
    if c.Enforce? {
      TimeoutDisputes(cfg, w, c.now, c.id);
    }
  }
}
