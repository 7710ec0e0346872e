/**
 * What disputes of others never do to an account that stays out of them: its assets are not frozen,
 * moved or re-licensed, and nothing else about them changes.
 */
module Bystanders {
  import opened Wrappers
  import opened Ledger
  import opened Ilrm
  import opened Protocol
  import opened Guarantees
  import R = AssetRegistry

  /** The account is the initiator of no open dispute. */
  ghost predicate StaysOut(disputes: map<DisputeId, Dispute>, a: Address) {
    forall id :: id in disputes && !disputes[id].resolved ==> disputes[id].initiator != a
  }

  // ----- what the registry does to assets of others -----

  lemma RegisterLeaves(
      r: R.Registry, sender: Address, now: nat, asset: R.AssetId, owner: Address, terms: nat, x: R.AssetId)
    requires x in r.assets
    ensures var r' := R.RegisterAsset(r, sender, now, asset, owner, terms);
      r'.Some? ==> x in r'.value.assets && r'.value.assets[x] == r.assets[x]
  {
  }

  lemma TransferLeaves(r: R.Registry, sender: Address, now: nat, asset: R.AssetId, newOwner: Address, x: R.AssetId)
    requires R.IndexInv(r) && x in r.assets && r.assets[x].owner != sender
    ensures var r' := R.TransferAsset(r, sender, now, asset, newOwner);
      r'.Some? ==> x in r'.value.assets && r'.value.assets[x] == r.assets[x]
  {
  }

  lemma FreezeLeaves(r: R.Registry, sender: Address, now: nat, d: DisputeId, party: Address, x: R.AssetId)
    requires R.IndexInv(r) && x in r.assets && r.assets[x].owner != party
    ensures var r' := R.FreezeAssets(r, sender, now, d, party);
      r'.Some? ==> x in r'.value.assets && r'.value.assets[x] == r.assets[x]
  {
    R.ActiveAssetsOf(r, party);
    hide R.IndexInv, R.ActiveOnly;
  }

  lemma UnfreezeLeaves(r: R.Registry, sender: Address, now: nat, d: DisputeId, x: R.AssetId)
    requires x in r.assets && x !in R.FrozenList(r, d)
    ensures var r' := R.UnfreezeAssets(r, sender, now, d);
      r'.Some? ==> x in r'.value.assets && r'.value.assets[x] == r.assets[x]
  {
  }

  lemma RelicenseLeaves(r: R.Registry, sender: Address, now: nat, d: DisputeId, terms: nat, x: R.AssetId)
    requires x in r.assets && x !in R.FrozenList(r, d)
    ensures var r' := R.ApplyFallbackLicense(r, sender, now, d, terms);
      r'.Some? ==>
        && x in r'.value.assets && r'.value.assets[x] == r.assets[x]
        && R.FrozenList(r'.value, d) == R.FrozenList(r, d)
  {
  }

  // ----- one step -----

  /** An asset of an account that stays out is on no dispute's list. */
  lemma NotListed(cfg: Config, w: World, a: Address, x: R.AssetId, id: DisputeId)
    requires FreezesInv(cfg, w) && StaysOut(w.disputes, a) && x in w.registry.assets && w.registry.assets[x].owner == a
    ensures x !in R.FrozenList(w.registry, id)
  {
    hide R.IndexInv, R.FreezeInv;
    assert FrozenForDispute(w, id);
  }

  lemma TimeoutLeaves(cfg: Config, w: World, now: nat, id: DisputeId, a: Address, x: R.AssetId)
    requires FreezesInv(cfg, w) && StaysOut(w.disputes, a) && x in w.registry.assets && w.registry.assets[x].owner == a
    requires EnforceTimeout(cfg, w, now, id).Some?
    ensures var r' := EnforceTimeout(cfg, w, now, id).value.registry;
      x in r'.assets && r'.assets[x] == w.registry.assets[x]
  {
    hide FreezesInv, StaysOut, EnforceTimeout, R.UnfreezeAssets, R.ApplyFallbackLicense;
    TimeoutRegistry(cfg, w, now, id);
    NotListed(cfg, w, a, x, id);
    var terms := w.disputes[id].fallbackLicense.termsHash;
    RelicenseLeaves(w.registry, cfg.self, now, id, terms, x);
    UnfreezeLeaves(R.ApplyFallbackLicense(w.registry, cfg.self, now, id, terms).value, cfg.self, now, id, x);
  }

  lemma AcceptLeaves(cfg: Config, w: World, now: nat, sender: Address, id: DisputeId, a: Address, x: R.AssetId)
    requires FreezesInv(cfg, w) && StaysOut(w.disputes, a) && x in w.registry.assets && w.registry.assets[x].owner == a
    requires AcceptProposal(cfg, w, now, sender, id).Some?
    ensures var r' := AcceptProposal(cfg, w, now, sender, id).value.registry;
      x in r'.assets && r'.assets[x] == w.registry.assets[x]
  {
    hide FreezesInv, StaysOut, Transfer, R.UnfreezeAssets;
    NotListed(cfg, w, a, x, id);
    UnfreezeLeaves(w.registry, cfg.self, now, id, x);
  }

  lemma StepLeavesAsset(cfg: Config, w: World, c: Call, a: Address, x: R.AssetId)
    requires FreezesInv(cfg, w) && Step(cfg, w, c).Some? && c.sender != a
    requires StaysOut(w.disputes, a) && x in w.registry.assets && w.registry.assets[x].owner == a
    ensures var r' := Step(cfg, w, c).value.registry;
      x in r'.assets && r'.assets[x] == w.registry.assets[x]
  {
    hide R.IndexInv, R.FreezeInv, FrozenForDispute, StaysOut, Transfer, TransferFrom, EscalatedStake, Ilrm.Pow2;
    hide R.RegisterAsset, R.TransferAsset, R.FreezeAssets, AcceptProposal, EnforceTimeout;
    match c
    case RegisterAsset(sender, now, asset, owner, terms) =>
      RegisterLeaves(w.registry, sender, now, asset, owner, terms, x);
    case TransferAsset(sender, now, asset, newOwner) => TransferLeaves(w.registry, sender, now, asset, newOwner, x);
    case Initiate(sender, now, _, _, _, _, _) =>
      FreezeLeaves(w.registry, cfg.self, now, w.disputeCounter, sender, x);
    case Accept(sender, now, id) => AcceptLeaves(cfg, w, now, sender, id, a, x);
    case Enforce(_, now, id) => TimeoutLeaves(cfg, w, now, id, a, x);
    case _ =>
  }

  lemma AcceptKeepsInitiators(cfg: Config, w: World, now: nat, sender: Address, id: DisputeId, a: Address)
    requires AcceptProposal(cfg, w, now, sender, id).Some? && StaysOut(w.disputes, a)
    ensures StaysOut(AcceptProposal(cfg, w, now, sender, id).value.disputes, a)
  {
    hide Transfer, R.UnfreezeAssets;
    assert id in w.disputes;
  }

  lemma StepKeepsOut(cfg: Config, w: World, c: Call, a: Address)
    requires R.IndexInv(w.registry) && Step(cfg, w, c).Some? && c.sender != a && StaysOut(w.disputes, a)
    ensures StaysOut(Step(cfg, w, c).value.disputes, a)
  {
    hide R.IndexInv, Transfer, TransferFrom, EscalatedStake, Ilrm.Pow2, AcceptProposal, EnforceTimeout;
    hide R.RegisterAsset, R.TransferAsset, R.FreezeAssets;
    if c.Accept? {
      AcceptKeepsInitiators(cfg, w, c.now, c.sender, c.id, a);
    } else if c.Enforce? {
      TimeoutDisputes(cfg, w, c.now, c.id);
    }
  }

  lemma AfterLeavesAsset(cfg: Config, s: System, c: Call, a: Address, x: R.AssetId)
    requires Inv(cfg, s) && c.sender != a
    requires StaysOut(s.w.disputes, a) && x in s.w.registry.assets && s.w.registry.assets[x].owner == a
    ensures var w' := After(cfg, s, c).w;
      StaysOut(w'.disputes, a) && x in w'.registry.assets && w'.registry.assets[x] == s.w.registry.assets[x]
  {
    hide HistoryInv, R.IndexInv, R.FreezeInv, MoneyInv, FrozenForDispute, StaysOut;
    if Step(cfg, s.w, c).Some? {
      StepLeavesAsset(cfg, s.w, c, a, x);
      StepKeepsOut(cfg, s.w, c, a);
    }
    hide Step;
  }

  /**
   * Whatever others do: the assets of an account that has no open dispute of its own and sends no call
   * stay as they are, owner, licence terms, status and all.
   */
  lemma {:induction false} AssetsUntouched(cfg: Config, s: System, calls: seq<Call>, a: Address, x: R.AssetId)
    requires Inv(cfg, s) && StaysOut(s.w.disputes, a)
    requires x in s.w.registry.assets && s.w.registry.assets[x].owner == a
    requires forall i :: 0 <= i < |calls| ==> calls[i].sender != a
    ensures var w' := Run(cfg, s, calls).w;
      x in w'.registry.assets && w'.registry.assets[x] == s.w.registry.assets[x]
    decreases |calls|
  {
    hide Inv, After, StaysOut;
    if calls != [] {
      AfterLeavesAsset(cfg, s, calls[0], a, x);
      AssetsUntouched(cfg, After(cfg, s, calls[0]), calls[1..], a, x);
    }
  }

  /** In particular they are active before and after. */
  lemma AssetsActive(cfg: Config, s: System, calls: seq<Call>, a: Address, x: R.AssetId)
    requires Inv(cfg, s) && StaysOut(s.w.disputes, a)
    requires x in s.w.registry.assets && s.w.registry.assets[x].owner == a
    requires forall i :: 0 <= i < |calls| ==> calls[i].sender != a
    ensures s.w.registry.assets[x].status == R.Active
    ensures x in Run(cfg, s, calls).w.registry.assets
    ensures Run(cfg, s, calls).w.registry.assets[x].status == R.Active
  {
    AssetsUntouched(cfg, s, calls, a, x);
    hide Run, StaysOut;
    assert FreezesInv(cfg, s.w);
    FrozenForOneDispute(cfg, s, x);
    NotListed(cfg, s.w, a, x, s.w.registry.assets[x].disputeId);
    hide Inv;
  }
}
