/**
 * The asset registry (contracts/AssetRegistry.sol): who owns which asset, the per-owner index with
 * swap-and-pop removal, and the assets each dispute has frozen.
 */
module AssetRegistry {
  import opened Wrappers
  import opened Ledger

  const MAX_ASSETS_PER_OWNER: nat := 100

  type AssetId = nat
  type DisputeId = nat

  datatype FreezeStatus = Active | Frozen

  datatype Asset = Asset(
    owner: Address, licenseTermsHash: nat, status: FreezeStatus, disputeId: DisputeId, lastModified: nat)

  /** The storage of the contract. */
  datatype Registry = Registry(
    authorized: set<Address>,
    assets: map<AssetId, Asset>,
    ownerAssets: map<Address, seq<AssetId>>,
    ownerIndex: map<AssetId, nat>,
    frozenAssets: map<DisputeId, seq<AssetId>>,
    totalAssets: nat)

  function OwnerList(r: Registry, owner: Address): seq<AssetId> {
    ListIn(r.ownerAssets, owner)
  }

  function ListIn<K>(lists: map<K, seq<AssetId>>, key: K): seq<AssetId> {
    if key in lists then lists[key] else []
  }

  function FrozenList(r: Registry, disputeId: DisputeId): seq<AssetId> {
    ListIn(r.frozenAssets, disputeId)
  }

  // ----- what the external functions do; None is a revert -----

  function RegisterAsset(
      r: Registry, sender: Address, now: nat, assetId: AssetId, owner: Address, terms: nat): Option<Registry>
  {
    if owner == 0 || sender != owner then
      None
    else
      :- Require(assetId !in r.assets);
      :- Require(|OwnerList(r, owner)| < MAX_ASSETS_PER_OWNER);
      var created := r.(assets := r.assets[assetId := Asset(owner, terms, Active, 0, now)]);
      Some(AddToOwner(created, assetId, owner).(totalAssets := r.totalAssets + 1))
  }

  /** The asset is appended to the owner's list and its index recorded. */
  function AddToOwner(r: Registry, assetId: AssetId, owner: Address): Registry {
    r.(ownerIndex := r.ownerIndex[assetId := |OwnerList(r, owner)|],
       ownerAssets := r.ownerAssets[owner := OwnerList(r, owner) + [assetId]])
  }

  /** The list with its last element moved to position `i` and the end cut off. */
  function SwapAndPop(list: seq<AssetId>, i: nat): seq<AssetId>
    requires i < |list|
  {
    list[i := list[|list| - 1]][..|list| - 1]
  }

  /** The asset is taken off its owner's list; the last asset of the list takes its place. */
  function RemoveFromOwner(r: Registry, assetId: AssetId): Registry
    requires assetId in r.assets && Indexed(r, assetId)
  {
    var owner := r.assets[assetId].owner;
    var list, i := OwnerList(r, owner), r.ownerIndex[assetId];
    r.(ownerIndex := r.ownerIndex[list[|list| - 1] := i],
       ownerAssets := r.ownerAssets[owner := SwapAndPop(list, i)])
  }

  function TransferAsset(
      r: Registry, sender: Address, now: nat, assetId: AssetId, newOwner: Address): Option<Registry>
    requires IndexInv(r)
  {
    if assetId !in r.assets then
      None
    else
      var asset := r.assets[assetId];
      :- Require(asset.status == Active && sender == asset.owner && newOwner != 0);
      :- Require(|OwnerList(r, newOwner)| < MAX_ASSETS_PER_OWNER);
      assert Indexed(r, assetId);
      var moved := AddToOwner(RemoveFromOwner(r, assetId), assetId, newOwner);
      Some(moved.(assets := r.assets[assetId := asset.(owner := newOwner, lastModified := now)]))
  }

  /** The active assets in a list, in order. */
  function ActiveOnly(assets: map<AssetId, Asset>, list: seq<AssetId>): seq<AssetId> {
    if list == [] then []
    else
      var init, last := list[..|list| - 1], list[|list| - 1];
      ActiveOnly(assets, init) + (if last in assets && assets[last].status == Active then [last] else [])
  }

  function FreezeAssets(
      r: Registry, sender: Address, now: nat, disputeId: DisputeId, party: Address): Option<Registry>
  {
    if sender !in r.authorized then
      None
    else
      var freshlyFrozen := ActiveOnly(r.assets, OwnerList(r, party));
      Some(r.(assets := WithFrozen(r.assets, freshlyFrozen, now, disputeId),
              frozenAssets := r.frozenAssets[disputeId := FrozenList(r, disputeId) + freshlyFrozen]))
  }

  /** The assets in `frozen` marked as frozen for the dispute. */
  function WithFrozen(
      assets: map<AssetId, Asset>, frozen: seq<AssetId>, now: nat, disputeId: DisputeId): (r: map<AssetId, Asset>)
    ensures r.Keys == assets.Keys
  {
    map a | a in assets ::
      if a in frozen then assets[a].(status := Frozen, disputeId := disputeId, lastModified := now) else assets[a]
  }

  function UnfreezeAssets(r: Registry, sender: Address, now: nat, disputeId: DisputeId): Option<Registry> {
    if sender !in r.authorized then
      None
    else
      var frozen := FrozenList(r, disputeId);
      :- Require(|frozen| > 0);
      Some(r.(assets := WithReleased(r.assets, frozen, now, disputeId),
              frozenAssets := r.frozenAssets[disputeId := []]))
  }

  function ApplyFallbackLicense(
      r: Registry, sender: Address, now: nat, disputeId: DisputeId, terms: nat): Option<Registry>
  {
    if sender !in r.authorized then
      None
    else
      var frozen := FrozenList(r, disputeId);
      Some(r.(assets := WithTerms(r.assets, frozen, now, terms)))
  }

  /** The listed assets that belong to the dispute made active again. */
  function WithReleased(
      assets: map<AssetId, Asset>, frozen: seq<AssetId>, now: nat, disputeId: DisputeId): (r: map<AssetId, Asset>)
    ensures r.Keys == assets.Keys
  {
    map a | a in assets ::
      if a in frozen && assets[a].disputeId == disputeId then
        assets[a].(status := Active, disputeId := 0, lastModified := now)
      else assets[a]
  }

  function WithTerms(
      assets: map<AssetId, Asset>, frozen: seq<AssetId>, now: nat, terms: nat): (r: map<AssetId, Asset>)
    ensures r.Keys == assets.Keys
  {
    map a | a in assets ::
      if a in frozen then assets[a].(licenseTermsHash := terms, lastModified := now) else assets[a]
  }

  // ----- the owner index agrees with ownership -----

  /** The asset sits in its owner's list, at its stored index. */
  predicate Indexed(r: Registry, a: AssetId)
    requires a in r.assets
  {
    var owner := r.assets[a].owner;
    && owner != 0
    && a in r.ownerIndex
    && r.ownerIndex[a] < |OwnerList(r, owner)|
    && OwnerList(r, owner)[r.ownerIndex[a]] == a
  }

  /** The i-th entry of an owner's list is an asset of theirs whose stored index is i. */
  ghost predicate Listed(r: Registry, owner: Address, i: nat)
    requires i < |OwnerList(r, owner)|
  {
    var a := OwnerList(r, owner)[i];
    && a in r.assets
    && r.assets[a].owner == owner
    && a in r.ownerIndex
    && r.ownerIndex[a] == i
  }

  ghost predicate IndexInv(r: Registry) {
    && (forall a :: a in r.assets ==> Indexed(r, a))
    && (forall owner, i :: 0 <= i < |OwnerList(r, owner)| ==> Listed(r, owner, i))
    && (forall owner :: |OwnerList(r, owner)| <= MAX_ASSETS_PER_OWNER)
    && r.totalAssets == |r.assets|
  }

  /** Every asset but `x` is indexed, and `x` is on no list. */
  ghost predicate IndexedExcept(r: Registry, x: AssetId) {
    && (forall a :: a in r.assets && a != x ==> Indexed(r, a))
    && (forall owner, i :: 0 <= i < |OwnerList(r, owner)| ==> Listed(r, owner, i) && OwnerList(r, owner)[i] != x)
  }

  lemma RemoveUnlists(r: Registry, x: AssetId)
    requires IndexInv(r) && x in r.assets
    ensures Indexed(r, x) && IndexedExcept(RemoveFromOwner(r, x), x)
    ensures forall o :: |OwnerList(RemoveFromOwner(r, x), o)| <= |OwnerList(r, o)|
  {
    assert Indexed(r, x);
    var r' := RemoveFromOwner(r, x);
    var owner, k := r.assets[x].owner, r.ownerIndex[x];
    var list := OwnerList(r, owner);
    var n := |list| - 1;
    assert Listed(r, owner, n) && Listed(r, owner, k);
    assert OwnerList(r', owner) == SwapAndPop(list, k);
    forall a | a in r'.assets && a != x
      ensures Indexed(r', a)
    {
      assert Indexed(r, a);
    }
    forall o, i | 0 <= i < |OwnerList(r', o)|
      ensures Listed(r', o, i) && OwnerList(r', o)[i] != x
    {
      if o == owner && i == k {
        assert OwnerList(r', o)[i] == list[n];
      } else {
        assert OwnerList(r', o)[i] == OwnerList(r, o)[i];
        assert Listed(r, o, i);
      }
    }
  }

  ghost predicate Appended(r: Registry, x: AssetId, owner: Address, r': Registry) {
    && IndexedExcept(r, x) && owner != 0
    && r'.assets.Keys == r.assets.Keys + {x} && r'.assets[x].owner == owner
    && (forall a :: a in r.assets && a != x ==> r'.assets[a] == r.assets[a])
    && r'.ownerAssets == AddToOwner(r, x, owner).ownerAssets
    && r'.ownerIndex == AddToOwner(r, x, owner).ownerIndex
  }

  lemma AppendedLists(r: Registry, x: AssetId, owner: Address, r': Registry, o: Address)
    requires Appended(r, x, owner, r')
    ensures OwnerList(r', o) == OwnerList(r, o) + (if o == owner then [x] else [])
  {
  }

  lemma AppendedIndexed(r: Registry, x: AssetId, owner: Address, r': Registry, a: AssetId)
    requires Appended(r, x, owner, r') && a in r'.assets
    ensures Indexed(r', a)
  {
    AppendedLists(r, x, owner, r', r'.assets[a].owner);
    if a != x {
      assert Indexed(r, a);
    }
  }

  lemma AppendedListed(r: Registry, x: AssetId, owner: Address, r': Registry, o: Address, i: nat)
    requires Appended(r, x, owner, r') && i < |OwnerList(r', o)|
    ensures Listed(r', o, i)
  {
    AppendedLists(r, x, owner, r', o);
    if i < |OwnerList(r, o)| {
      assert Listed(r, o, i);
    }
  }

  lemma AddLists(r: Registry, x: AssetId, owner: Address, r': Registry)
    requires Appended(r, x, owner, r') && r'.totalAssets == |r'.assets|
    requires forall o :: |OwnerList(r, o)| <= MAX_ASSETS_PER_OWNER
    requires |OwnerList(r, owner)| < MAX_ASSETS_PER_OWNER
    ensures IndexInv(r')
  {
    hide Indexed, Listed, ListIn;
    forall a | a in r'.assets
      ensures Indexed(r', a)
    {
      AppendedIndexed(r, x, owner, r', a);
    }
    forall o, i | 0 <= i < |OwnerList(r', o)|
      ensures Listed(r', o, i)
    {
      AppendedListed(r, x, owner, r', o, i);
    }
    forall o
      ensures |OwnerList(r', o)| <= MAX_ASSETS_PER_OWNER
    {
      AppendedLists(r, x, owner, r', o);
    }
  }

  lemma UnknownIsUnlisted(r: Registry, x: AssetId)
    requires IndexInv(r) && x !in r.assets
    ensures IndexedExcept(r, x)
  {
    forall o, i | 0 <= i < |OwnerList(r, o)|
      ensures Listed(r, o, i) && OwnerList(r, o)[i] != x
    {
      assert Listed(r, o, i);
    }
  }

  lemma InsertSize<K, V>(m: map<K, V>, k: K, v: V)
    requires k !in m
    ensures |m[k := v]| == |m| + 1 && m[k := v].Keys == m.Keys + {k}
  {
  }

  lemma RegisterKeepsIndex(r: Registry, sender: Address, now: nat, assetId: AssetId, owner: Address, terms: nat)
    requires IndexInv(r) && RegisterAsset(r, sender, now, assetId, owner, terms).Some?
    ensures IndexInv(RegisterAsset(r, sender, now, assetId, owner, terms).value)
  {
    var r' := RegisterAsset(r, sender, now, assetId, owner, terms).value;
    UnknownIsUnlisted(r, assetId);
    RegisterAppends(r, sender, now, assetId, owner, terms);
    hide RegisterAsset, IndexedExcept, Appended;
    AddLists(r, assetId, owner, r');
  }

  lemma RegisterAppends(r: Registry, sender: Address, now: nat, assetId: AssetId, owner: Address, terms: nat)
    requires IndexedExcept(r, assetId) && r.totalAssets == |r.assets|
    requires RegisterAsset(r, sender, now, assetId, owner, terms).Some?
    ensures var r' := RegisterAsset(r, sender, now, assetId, owner, terms).value;
      && Appended(r, assetId, owner, r') && r'.totalAssets == |r'.assets|
      && |OwnerList(r, owner)| < MAX_ASSETS_PER_OWNER
  {
    hide Indexed, Listed, ListIn, IndexedExcept;
    var r' := RegisterAsset(r, sender, now, assetId, owner, terms).value;
    InsertSize(r.assets, assetId, r'.assets[assetId]);
  }

  lemma TransferKeepsIndex(r: Registry, sender: Address, now: nat, assetId: AssetId, newOwner: Address)
    requires IndexInv(r) && TransferAsset(r, sender, now, assetId, newOwner).Some?
    ensures IndexInv(TransferAsset(r, sender, now, assetId, newOwner).value)
  {
    var r' := TransferAsset(r, sender, now, assetId, newOwner).value;
    RemoveUnlists(r, assetId);
    hide Indexed, Listed;
    var removed := RemoveFromOwner(r, assetId);
    forall o
      ensures |OwnerList(removed, o)| <= MAX_ASSETS_PER_OWNER
    {
      assert |OwnerList(removed, o)| <= |OwnerList(r, o)|;
    }
    assert |OwnerList(removed, newOwner)| <= |OwnerList(r, newOwner)|;
    SameKeysSameSize(r'.assets, r.assets);
    hide ListIn;
    AddLists(removed, assetId, newOwner, r');
  }

  lemma SameKeysSameSize<K, V>(a: map<K, V>, b: map<K, V>)
    requires a.Keys == b.Keys
    ensures |a| == |b|
  {
    assert |a| == |a.Keys| && |b| == |b.Keys|;
  }

  // ----- the lists together hold as many entries as there are assets -----

  ghost function SumOfLengths(r: Registry, owners: seq<Address>): nat {
    if owners == [] then 0
    else SumOfLengths(r, owners[..|owners| - 1]) + |OwnerList(r, owners[|owners| - 1])|
  }

  ghost function OwnedBy(r: Registry, owners: seq<Address>): set<AssetId> {
    set a | a in r.assets && r.assets[a].owner in owners
  }

  ghost predicate NoRepeats(s: seq<nat>) {
    forall i, j :: 0 <= i < j < |s| ==> s[i] != s[j]
  }

  ghost function Members(s: seq<nat>): set<nat> {
    set x | x in s
  }

  lemma {:induction false} ListSetSize(list: seq<AssetId>)
    requires NoRepeats(list)
    ensures |Members(list)| == |list|
  {
    if list == [] {
      assert Members(list) == {};
    } else {
      var n := |list| - 1;
      var init, x := list[..n], list[n];
      ListSetSize(init);
      assert list == init + [x] && x !in Members(init);
      assert Members(list) == Members(init) + {x};
    }
  }

  lemma DisjointUnionSize<T>(whole: set<T>, a: set<T>, b: set<T>)
    requires whole == a + b && a !! b
    ensures |whole| == |a| + |b|
  {
  }

  lemma MembersAreOwned(r: Registry, o: Address)
    requires IndexInv(r)
    ensures Members(OwnerList(r, o)) == set a | a in r.assets && r.assets[a].owner == o
  {
    forall a
      ensures a in OwnerList(r, o) <==> a in r.assets && r.assets[a].owner == o
    {
      OwnerListMembers(r, o, a);
    }
  }

  lemma OneMoreOwner(r: Registry, owners: seq<Address>, o: Address)
    requires IndexInv(r) && o !in owners
    ensures |OwnedBy(r, owners + [o])| == |OwnedBy(r, owners)| + |OwnerList(r, o)|
  {
    OwnerListDistinct(r, o);
    ListSetSize(OwnerList(r, o));
    MembersAreOwned(r, o);
    hide IndexInv, NoRepeats;
    DisjointUnionSize(OwnedBy(r, owners + [o]), OwnedBy(r, owners), Members(OwnerList(r, o)));
  }

  lemma {:induction false} SumCountsOwned(r: Registry, owners: seq<Address>)
    requires IndexInv(r) && NoRepeats(owners)
    ensures SumOfLengths(r, owners) == |OwnedBy(r, owners)|
  {
    if owners == [] {
      assert OwnedBy(r, owners) == {};
    } else {
      var n := |owners| - 1;
      SumCountsOwned(r, owners[..n]);
      OneMoreOwner(r, owners[..n], owners[n]);
      assert owners == owners[..n] + [owners[n]];
    }
  }

  /** `totalAssets` is the sum of the lengths of the owners' lists, whichever way the owners are listed. */
  lemma TotalIsSumOfLengths(r: Registry, owners: seq<Address>)
    requires IndexInv(r) && NoRepeats(owners)
    requires forall a :: a in r.assets ==> r.assets[a].owner in owners
    ensures r.totalAssets == SumOfLengths(r, owners)
  {
    SumCountsOwned(r, owners);
    assert OwnedBy(r, owners) == r.assets.Keys;
  }

  // ----- frozen lists agree with asset status -----

  /** Position `i` of the dispute's list is an asset frozen for that dispute, and nowhere else on the list. */
  ghost predicate FrozenAt(r: Registry, d: DisputeId, i: nat)
    requires i < |FrozenList(r, d)|
  {
    var a := FrozenList(r, d)[i];
    && a in r.assets
    && r.assets[a].status == Frozen
    && r.assets[a].disputeId == d
    && forall j :: 0 <= j < i ==> FrozenList(r, d)[j] != a
  }

  ghost predicate FreezeInv(r: Registry) {
    && (forall a :: a in r.assets && r.assets[a].status == Frozen ==> a in FrozenList(r, r.assets[a].disputeId))
    && (forall d, i :: 0 <= i < |FrozenList(r, d)| ==> FrozenAt(r, d, i))
    && (forall d :: |FrozenList(r, d)| <= MAX_ASSETS_PER_OWNER)
  }

  /** An asset is frozen exactly when it is on some dispute's list, and then on that list only, once. */
  lemma FrozenExactlyOnce(r: Registry, a: AssetId, d: DisputeId)
    requires FreezeInv(r) && a in r.assets
    ensures a in FrozenList(r, d) <==> r.assets[a].status == Frozen && r.assets[a].disputeId == d
    ensures a in FrozenList(r, d) ==> multiset(FrozenList(r, d))[a] == 1
  {
    var list := FrozenList(r, d);
    if a in list {
      var i :| 0 <= i < |list| && list[i] == a;
      assert FrozenAt(r, d, i);
      forall j | 0 <= j < |list| && j != i
        ensures list[j] != a
      {
        assert FrozenAt(r, d, j);
      }
      CountOne(list, i);
    }
  }

  lemma CountOne(list: seq<AssetId>, i: nat)
    requires i < |list|
    requires forall j :: 0 <= j < |list| && j != i ==> list[j] != list[i]
    ensures multiset(list)[list[i]] == 1
  {
    assert list == list[..i] + [list[i]] + list[i + 1..];
    assert list[i] !in list[..i] && list[i] !in list[i + 1..];
  }

  lemma {:induction false} ActiveOnlyMembers(assets: map<AssetId, Asset>, list: seq<AssetId>)
    requires NoRepeats(list)
    ensures var fs := ActiveOnly(assets, list);
      && |fs| <= |list|
      && (forall a :: a in fs <==> a in list && a in assets && assets[a].status == Active)
      && NoRepeats(fs)
  {
    if list != [] {
      var n := |list| - 1;
      ActiveOnlyMembers(assets, list[..n]);
      assert list == list[..n] + [list[n]];
      assert list[n] !in list[..n];
    }
  }

  lemma OwnerListDistinct(r: Registry, o: Address)
    requires IndexInv(r)
    ensures NoRepeats(OwnerList(r, o))
  {
    forall i, j | 0 <= i < j < |OwnerList(r, o)|
      ensures OwnerList(r, o)[i] != OwnerList(r, o)[j]
    {
      assert Listed(r, o, i) && Listed(r, o, j);
    }
  }

  /** An owner's list holds exactly the assets they own. */
  lemma OwnerListMembers(r: Registry, o: Address, a: AssetId)
    requires IndexInv(r)
    ensures a in OwnerList(r, o) <==> a in r.assets && r.assets[a].owner == o
  {
    if a in OwnerList(r, o) {
      var i :| 0 <= i < |OwnerList(r, o)| && OwnerList(r, o)[i] == a;
      assert Listed(r, o, i);
    }
    if a in r.assets && r.assets[a].owner == o {
      assert Indexed(r, a);
    }
  }

  /** A registration puts the asset on its owner's list and changes no other entry. */
  lemma RegisterAdds(
      r: Registry, sender: Address, now: nat, assetId: AssetId, owner: Address, terms: nat, o: Address, a: AssetId)
    requires IndexInv(r) && RegisterAsset(r, sender, now, assetId, owner, terms).Some?
    ensures var r' := RegisterAsset(r, sender, now, assetId, owner, terms).value;
      a in OwnerList(r', o) <==> if a == assetId then o == owner else a in OwnerList(r, o)
  {
    RegisterKeepsIndex(r, sender, now, assetId, owner, terms);
    OwnerListMembers(r, o, a);
    OwnerListMembers(RegisterAsset(r, sender, now, assetId, owner, terms).value, o, a);
    hide IndexInv, OwnerList;
  }

  /** A transfer moves the asset from its owner's list to the new owner's and changes no other entry. */
  lemma TransferMoves(
      r: Registry, sender: Address, now: nat, assetId: AssetId, newOwner: Address, o: Address, a: AssetId)
    requires IndexInv(r) && TransferAsset(r, sender, now, assetId, newOwner).Some?
    ensures var r' := TransferAsset(r, sender, now, assetId, newOwner).value;
      a in OwnerList(r', o) <==> if a == assetId then o == newOwner else a in OwnerList(r, o)
  {
    TransferKeepsIndex(r, sender, now, assetId, newOwner);
    OwnerListMembers(r, o, a);
    OwnerListMembers(TransferAsset(r, sender, now, assetId, newOwner).value, o, a);
    hide IndexInv, OwnerList;
  }

  /** Ownership, lists and indices are untouched by freezing, unfreezing and re-licensing. */
  ghost predicate SameOwnership(r: Registry, r': Registry) {
    && r'.ownerAssets == r.ownerAssets && r'.ownerIndex == r.ownerIndex && r'.totalAssets == r.totalAssets
    && r'.authorized == r.authorized
    && r'.assets.Keys == r.assets.Keys
    && forall a :: a in r.assets ==> r'.assets[a].owner == r.assets[a].owner
  }

  lemma SameOwnershipKeepsIndex(r: Registry, r': Registry)
    requires IndexInv(r) && SameOwnership(r, r')
    ensures IndexInv(r')
  {
    SameKeysSameSize(r'.assets, r.assets);
    forall a | a in r'.assets
      ensures Indexed(r', a)
    {
      assert Indexed(r, a);
    }
    forall o, i | 0 <= i < |OwnerList(r', o)|
      ensures Listed(r', o, i)
    {
      assert OwnerList(r', o) == OwnerList(r, o);
      assert Listed(r, o, i);
    }
    forall o
      ensures |OwnerList(r', o)| <= MAX_ASSETS_PER_OWNER
    {
      assert OwnerList(r', o) == OwnerList(r, o);
    }
  }

  /** From `r` to `r'`, exactly the different active assets `fs` were frozen for dispute `d`. */
  ghost predicate Froze(r: Registry, r': Registry, d: DisputeId, fs: seq<AssetId>) {
    && r'.assets.Keys == r.assets.Keys
    && r'.frozenAssets == r.frozenAssets[d := fs]
    && (forall i :: 0 <= i < |fs| ==> fs[i] in r.assets && r.assets[fs[i]].status == Active)
    && NoRepeats(fs)
    && (forall a :: a in r.assets && a !in fs ==> r'.assets[a] == r.assets[a])
    && (forall a :: a in fs ==> a in r'.assets && r'.assets[a].status == Frozen && r'.assets[a].disputeId == d)
  }

  lemma FrozeKeepsFreeze(r: Registry, r': Registry, d: DisputeId, fs: seq<AssetId>)
    requires FreezeInv(r) && FrozenList(r, d) == [] && Froze(r, r', d, fs) && |fs| <= MAX_ASSETS_PER_OWNER
    ensures FreezeInv(r') && FrozenList(r', d) == fs
    ensures forall e :: e != d ==> FrozenList(r', e) == FrozenList(r, e)
  {
    forall e, i | 0 <= i < |FrozenList(r', e)|
      ensures FrozenAt(r', e, i)
    {
      if e != d {
        assert FrozenAt(r, e, i);
        assert FrozenList(r', e) == FrozenList(r, e);
      }
    }
    forall a | a in r'.assets && r'.assets[a].status == Frozen
      ensures a in FrozenList(r', r'.assets[a].disputeId)
    {
      if a !in fs {
        assert a in FrozenList(r, r.assets[a].disputeId);
      }
    }
    forall e
      ensures |FrozenList(r', e)| <= MAX_ASSETS_PER_OWNER
    {
      assert |FrozenList(r, e)| <= MAX_ASSETS_PER_OWNER;
    }
  }

  /** Freezing for a dispute with an empty list freezes exactly the party's active assets. */
  lemma FreezeKeeps(r: Registry, sender: Address, now: nat, d: DisputeId, party: Address)
    requires IndexInv(r) && FreezeInv(r) && FrozenList(r, d) == []
    requires FreezeAssets(r, sender, now, d, party).Some?
    ensures var r' := FreezeAssets(r, sender, now, d, party).value;
      && SameOwnership(r, r') && IndexInv(r') && FreezeInv(r')
      && (forall e :: e != d ==> FrozenList(r', e) == FrozenList(r, e))
      && (forall a :: a in FrozenList(r', d) <==>
            a in r.assets && r.assets[a].owner == party && r.assets[a].status == Active)
  {
    var r' := FreezeAssets(r, sender, now, d, party).value;
    var fs := ActiveOnly(r.assets, OwnerList(r, party));
    ActiveAssetsOf(r, party);
    FreezeIsFroze(r, sender, now, d, party);
    hide ActiveOnly, FreezeInv, IndexInv, FreezeAssets;
    SameOwnershipKeepsIndex(r, r');
    FrozeKeepsFreeze(r, r', d, fs);
  }

  lemma FreezeIsFroze(r: Registry, sender: Address, now: nat, d: DisputeId, party: Address)
    requires IndexInv(r) && FrozenList(r, d) == []
    requires FreezeAssets(r, sender, now, d, party).Some?
    ensures var r' := FreezeAssets(r, sender, now, d, party).value;
      SameOwnership(r, r') && Froze(r, r', d, ActiveOnly(r.assets, OwnerList(r, party)))
  {
    var fs := ActiveOnly(r.assets, OwnerList(r, party));
    ActiveAssetsOf(r, party);
    hide ActiveOnly, IndexInv;
    assert [] + fs == fs;
  }

  lemma ActiveAssetsOf(r: Registry, party: Address)
    requires IndexInv(r)
    ensures var fs := ActiveOnly(r.assets, OwnerList(r, party));
      && |fs| <= MAX_ASSETS_PER_OWNER
      && (forall a :: a in fs <==> a in r.assets && r.assets[a].owner == party && r.assets[a].status == Active)
      && NoRepeats(fs)
  {
    var list := OwnerList(r, party);
    OwnerListDistinct(r, party);
    ActiveOnlyMembers(r.assets, list);
    forall a
      ensures a in list <==> a in r.assets && r.assets[a].owner == party
    {
      OwnerListMembers(r, party, a);
    }
    assert |list| <= MAX_ASSETS_PER_OWNER;
  }

  /** Unfreezing releases every asset of the dispute's list and empties the list. */
  lemma UnfreezeKeeps(r: Registry, sender: Address, now: nat, d: DisputeId)
    requires IndexInv(r) && FreezeInv(r)
    requires UnfreezeAssets(r, sender, now, d).Some?
    ensures var r' := UnfreezeAssets(r, sender, now, d).value;
      && SameOwnership(r, r') && IndexInv(r') && FreezeInv(r')
      && FrozenList(r', d) == []
      && (forall e :: e != d ==> FrozenList(r', e) == FrozenList(r, e))
      && (forall a :: a in FrozenList(r, d) ==> a in r'.assets && r'.assets[a].status == Active)
  {
    var r' := UnfreezeAssets(r, sender, now, d).value;
    var list := FrozenList(r, d);
    SameOwnershipKeepsIndex(r, r');
    forall a | a in list
      ensures a in r.assets && r.assets[a].disputeId == d
    {
      var i :| 0 <= i < |list| && list[i] == a;
      assert FrozenAt(r, d, i);
    }
    forall e, i | 0 <= i < |FrozenList(r', e)|
      ensures FrozenAt(r', e, i)
    {
      assert FrozenAt(r, e, i);
    }
    forall a | a in r'.assets && r'.assets[a].status == Frozen
      ensures a in FrozenList(r', r'.assets[a].disputeId)
    {
      assert a in FrozenList(r, r.assets[a].disputeId);
    }
    forall e
      ensures |FrozenList(r', e)| <= MAX_ASSETS_PER_OWNER
    {
      assert |FrozenList(r, e)| <= MAX_ASSETS_PER_OWNER;
    }
  }

  /** Changes that keep status and dispute of every asset, and the lists, keep the freeze invariant. */
  lemma SameFreezesKeepsFreeze(r: Registry, r': Registry)
    requires FreezeInv(r)
    requires r'.frozenAssets == r.frozenAssets && r.assets.Keys <= r'.assets.Keys
    requires forall a :: a in r.assets ==>
      r'.assets[a].status == r.assets[a].status && r'.assets[a].disputeId == r.assets[a].disputeId
    requires forall a :: a in r'.assets && a !in r.assets ==> r'.assets[a].status == Active
    ensures FreezeInv(r')
    ensures forall d :: FrozenList(r', d) == FrozenList(r, d)
  {
    forall d
      ensures FrozenList(r', d) == FrozenList(r, d) && |FrozenList(r', d)| <= MAX_ASSETS_PER_OWNER
    {
      assert |FrozenList(r, d)| <= MAX_ASSETS_PER_OWNER;
    }
    forall d, i | 0 <= i < |FrozenList(r', d)|
      ensures FrozenAt(r', d, i)
    {
      assert FrozenAt(r, d, i);
    }
  }

  // ----- when a call succeeds, and the records after it -----

  /** The assets of an owner, whatever the lists say. */
  ghost function AssetsOf(r: Registry, owner: Address): set<AssetId> {
    set a | a in r.assets && r.assets[a].owner == owner
  }

  lemma ListCountsAssets(r: Registry, owner: Address)
    requires IndexInv(r)
    ensures |OwnerList(r, owner)| == |AssetsOf(r, owner)|
  {
    OwnerListDistinct(r, owner);
    ListSetSize(OwnerList(r, owner));
    MembersAreOwned(r, owner);
    assert AssetsOf(r, owner) == Members(OwnerList(r, owner));
  }

  /** An account registers an unknown asset for itself, up to 100 of them, with the terms it gives. */
  lemma RegisterExactly(r: Registry, sender: Address, now: nat, assetId: AssetId, owner: Address, terms: nat)
    requires IndexInv(r)
    ensures var r' := RegisterAsset(r, sender, now, assetId, owner, terms);
      && (r'.Some? <==> owner != 0 && sender == owner && assetId !in r.assets && |AssetsOf(r, owner)| < 100)
      && (r'.Some? ==>
            && r'.value.assets == r.assets[assetId := Asset(sender, terms, Active, 0, now)]
            && r'.value.totalAssets == r.totalAssets + 1
            && r'.value.frozenAssets == r.frozenAssets && r'.value.authorized == r.authorized)
  {
    ListCountsAssets(r, owner);
    hide IndexInv, ListIn, AssetsOf;
  }

  /** The owner of an active asset hands it to an account with fewer than 100; its terms go with it. */
  lemma TransferExactly(r: Registry, sender: Address, now: nat, assetId: AssetId, newOwner: Address)
    requires IndexInv(r)
    ensures var r' := TransferAsset(r, sender, now, assetId, newOwner);
      && (r'.Some? <==>
            && assetId in r.assets && r.assets[assetId].status == Active && r.assets[assetId].owner == sender
            && newOwner != 0 && |AssetsOf(r, newOwner)| < 100)
      && (r'.Some? ==>
            && r'.value.assets == r.assets[assetId :=
                 Asset(newOwner, r.assets[assetId].licenseTermsHash, Active, r.assets[assetId].disputeId, now)]
            && r'.value.totalAssets == r.totalAssets
            && r'.value.frozenAssets == r.frozenAssets && r'.value.authorized == r.authorized)
  {
    ListCountsAssets(r, newOwner);
    if assetId in r.assets {
      assert Indexed(r, assetId);
    }
    hide IndexInv, ListIn, AssetsOf, SwapAndPop;
  }

  /** Freezing touches exactly the party's active assets: they are frozen for the dispute, now. */
  lemma FreezeExactly(r: Registry, sender: Address, now: nat, d: DisputeId, party: Address)
    requires IndexInv(r)
    ensures var r' := FreezeAssets(r, sender, now, d, party);
      && (r'.Some? <==> sender in r.authorized)
      && (r'.Some? ==>
            && r'.value.assets.Keys == r.assets.Keys && SameOwnership(r, r'.value)
            && forall a :: a in r.assets ==>
                 r'.value.assets[a] ==
                   if r.assets[a].owner == party && r.assets[a].status == Active
                   then Asset(party, r.assets[a].licenseTermsHash, Frozen, d, now) else r.assets[a])
  {
    ActiveAssetsOf(r, party);
    hide IndexInv, ActiveOnly;
  }

  /** Unfreezing touches exactly the assets frozen for the dispute, of which there must be some: they are active. */
  lemma UnfreezeExactly(r: Registry, sender: Address, now: nat, d: DisputeId)
    requires FreezeInv(r)
    ensures var r' := UnfreezeAssets(r, sender, now, d);
      && (r'.Some? <==>
            sender in r.authorized
            && exists a :: a in r.assets && r.assets[a].status == Frozen && r.assets[a].disputeId == d)
      && (r'.Some? ==>
            && r'.value.assets.Keys == r.assets.Keys && SameOwnership(r, r'.value)
            && forall a :: a in r.assets ==>
                 r'.value.assets[a] ==
                   if r.assets[a].status == Frozen && r.assets[a].disputeId == d
                   then Asset(r.assets[a].owner, r.assets[a].licenseTermsHash, Active, 0, now) else r.assets[a])
  {
    forall a | a in r.assets
      ensures a in FrozenList(r, d) <==> r.assets[a].status == Frozen && r.assets[a].disputeId == d
    {
      FrozenExactlyOnce(r, a, d);
    }
    if FrozenList(r, d) != [] {
      FrozenEntry(r, d, 0);
      var a := FrozenList(r, d)[0];
      assert a in r.assets && a in FrozenList(r, d);
    }
    hide FreezeInv, ListIn;
  }

  /** The fallback terms are put on exactly the assets frozen for the dispute. */
  lemma FallbackExactly(r: Registry, sender: Address, now: nat, d: DisputeId, terms: nat)
    requires FreezeInv(r)
    ensures var r' := ApplyFallbackLicense(r, sender, now, d, terms);
      && (r'.Some? <==> sender in r.authorized)
      && (r'.Some? ==>
            && r'.value.assets.Keys == r.assets.Keys && SameOwnership(r, r'.value)
            && r'.value.frozenAssets == r.frozenAssets
            && forall a :: a in r.assets ==>
                 r'.value.assets[a] ==
                   if r.assets[a].status == Frozen && r.assets[a].disputeId == d
                   then Asset(r.assets[a].owner, terms, Frozen, d, now) else r.assets[a])
  {
    forall a | a in r.assets
      ensures a in FrozenList(r, d) <==> r.assets[a].status == Frozen && r.assets[a].disputeId == d
    {
      FrozenExactlyOnce(r, a, d);
    }
    hide FreezeInv;
  }

  // ----- one step of each loop -----

  lemma FreezeNone(assets: map<AssetId, Asset>, list: seq<AssetId>, now: nat, d: DisputeId)
    ensures ActiveOnly(assets, list[..0]) == [] && WithFrozen(assets, [], now, d) == assets
  {
  }

  lemma FreezeStep(assets: map<AssetId, Asset>, list: seq<AssetId>, i: nat, now: nat, d: DisputeId)
    requires NoRepeats(list) && i < |list| && list[i] in assets
    ensures var x, fs, gs := list[i], ActiveOnly(assets, list[..i]), ActiveOnly(assets, list[..i + 1]);
      && WithFrozen(assets, fs, now, d)[x] == assets[x]
      && (assets[x].status == Active ==>
            && gs == fs + [x]
            && WithFrozen(assets, gs, now, d) ==
                 WithFrozen(assets, fs, now, d)[x := assets[x].(status := Frozen, disputeId := d, lastModified := now)])
      && (assets[x].status != Active ==> gs == fs)
  {
    var x, init := list[i], list[..i];
    assert x !in init && list[..i + 1][..i] == init && list[..i + 1] == init + [x];
    assert NoRepeats(init);
    ActiveOnlyMembers(assets, init);
    var fs := ActiveOnly(assets, init);
    assert ActiveOnly(assets, init + [x]) == fs + (if assets[x].status == Active then [x] else []);
    hide ActiveOnly, NoRepeats;
  }

  lemma ReleaseStep(assets: map<AssetId, Asset>, list: seq<AssetId>, i: nat, now: nat, d: DisputeId)
    requires i < |list| && list[i] in assets && list[i] !in list[..i]
    ensures var x, m := list[i], WithReleased(assets, list[..i], now, d);
      && m[x] == assets[x]
      && WithReleased(assets, list[..i + 1], now, d)
         == if assets[x].disputeId == d then m[x := assets[x].(status := Active, disputeId := 0, lastModified := now)]
            else m
  {
    assert list[..i + 1] == list[..i] + [list[i]];
  }

  lemma TermsStep(assets: map<AssetId, Asset>, list: seq<AssetId>, i: nat, now: nat, terms: nat)
    requires i < |list| && list[i] in assets && list[i] !in list[..i]
    ensures var x, m := list[i], WithTerms(assets, list[..i], now, terms);
      && m[x] == assets[x]
      && WithTerms(assets, list[..i + 1], now, terms)
         == m[x := assets[x].(licenseTermsHash := terms, lastModified := now)]
  {
    assert list[..i + 1] == list[..i] + [list[i]];
  }

  lemma FrozenEntry(r: Registry, d: DisputeId, i: nat)
    requires FreezeInv(r) && i < |FrozenList(r, d)|
    ensures FrozenList(r, d)[i] in r.assets && FrozenList(r, d)[i] !in FrozenList(r, d)[..i]
  {
    assert FrozenAt(r, d, i);
  }

  lemma OwnedEntry(r: Registry, o: Address, i: nat)
    requires IndexInv(r) && i < |OwnerList(r, o)|
    ensures OwnerList(r, o)[i] in r.assets
  {
    assert Listed(r, o, i);
  }

  // ----- the contract -----

  class AssetRegistryContract {
    const contractOwner: Address

    var authorized: set<Address>
    var assets: map<AssetId, Asset>
    var ownerAssets: map<Address, seq<AssetId>>
    var ownerIndex: map<AssetId, nat>
    var frozenAssets: map<DisputeId, seq<AssetId>>
    var totalAssets: nat

    constructor (contractOwner: Address)
      ensures this.contractOwner == contractOwner
      ensures State() == Registry({}, map[], map[], map[], map[], 0)
      ensures IndexInv(State()) && FreezeInv(State())
    {
      this.contractOwner := contractOwner;
      authorized, assets, ownerAssets, ownerIndex, frozenAssets, totalAssets := {}, map[], map[], map[], map[], 0;
    }

    function State(): Registry
      reads this
    {
      Registry(authorized, assets, ownerAssets, ownerIndex, frozenAssets, totalAssets)
    }

    method Restore(r: Registry)
      modifies this
      ensures State() == r
    {
      authorized, assets, ownerAssets := r.authorized, r.assets, r.ownerAssets;
      ownerIndex, frozenAssets, totalAssets := r.ownerIndex, r.frozenAssets, r.totalAssets;
    }

    method DoAuthorizeILRM(sender: Address, ilrm: Address) returns (ok: bool)
      modifies `authorized
      ensures ok <==> sender == contractOwner && ilrm != 0
      ensures authorized == if ok then old(authorized) + {ilrm} else old(authorized)
    {
      ok := sender == contractOwner && ilrm != 0;
      if ok {
        authorized := authorized + {ilrm};
      }
    }

    method DoRegisterAsset(sender: Address, now: nat, assetId: AssetId, owner: Address, terms: nat) returns (ok: bool)
      requires IndexInv(State())
      modifies this
      ensures ok <==> RegisterAsset(old(State()), sender, now, assetId, owner, terms).Some?
      ensures State() == if ok then RegisterAsset(old(State()), sender, now, assetId, owner, terms).value
                         else old(State())
      ensures IndexInv(State())
    {
      ghost var r := State();
      if owner == 0 || sender != owner || assetId in assets
        || |ListIn(ownerAssets, owner)| >= MAX_ASSETS_PER_OWNER {
        return false;
      }
      assets := assets[assetId := Asset(owner, terms, Active, 0, now)];
      ownerIndex := ownerIndex[assetId := |ListIn(ownerAssets, owner)|];
      ownerAssets := ownerAssets[owner := ListIn(ownerAssets, owner) + [assetId]];
      totalAssets := totalAssets + 1;
      RegisterKeepsIndex(r, sender, now, assetId, owner, terms);
      return true;
    }

    method DoTransferAsset(sender: Address, now: nat, assetId: AssetId, newOwner: Address) returns (ok: bool)
      requires IndexInv(State())
      modifies this
      ensures ok <==> TransferAsset(old(State()), sender, now, assetId, newOwner).Some?
      ensures State() == if ok then TransferAsset(old(State()), sender, now, assetId, newOwner).value
                         else old(State())
      ensures IndexInv(State())
    {
      ghost var r := State();
      if assetId !in assets || assets[assetId].status == Frozen {
        return false;
      }
      var asset := assets[assetId];
      if sender != asset.owner || newOwner == 0 || |ListIn(ownerAssets, newOwner)| >= MAX_ASSETS_PER_OWNER {
        return false;
      }
      TransferKeepsIndex(r, sender, now, assetId, newOwner);
      TakeOffList(assetId, asset.owner);
      hide IndexInv, Indexed, RemoveFromOwner;
      ownerIndex := ownerIndex[assetId := |ListIn(ownerAssets, newOwner)|];
      ownerAssets := ownerAssets[newOwner := ListIn(ownerAssets, newOwner) + [assetId]];
      assets := assets[assetId := asset.(owner := newOwner, lastModified := now)];
      return true;
    }

    /** The swap-and-pop of `transferAsset`. */
    method TakeOffList(assetId: AssetId, oldOwner: Address)
      requires IndexInv(State()) && assetId in assets && assets[assetId].owner == oldOwner
      modifies `ownerAssets, `ownerIndex
      ensures Indexed(old(State()), assetId) && State() == RemoveFromOwner(old(State()), assetId)
    {
      assert Indexed(State(), assetId);
      hide IndexInv;
      var list := ListIn(ownerAssets, oldOwner);
      var index := ownerIndex[assetId];
      var lastIndex := |list| - 1;
      if index != lastIndex {
        var lastAssetId := list[lastIndex];
        ownerAssets := ownerAssets[oldOwner := list[index := lastAssetId]];
        ownerIndex := ownerIndex[lastAssetId := index];
      }
      ownerAssets := ownerAssets[oldOwner := ListIn(ownerAssets, oldOwner)[..lastIndex]];
      assert ListIn(ownerAssets, oldOwner) == SwapAndPop(list, index);
    }

    method DoFreezeAssets(sender: Address, now: nat, disputeId: DisputeId, party: Address) returns (ok: bool)
      requires IndexInv(State())
      modifies this
      ensures ok <==> FreezeAssets(old(State()), sender, now, disputeId, party).Some?
      ensures State() == if ok then FreezeAssets(old(State()), sender, now, disputeId, party).value
                         else old(State())
    {
      if sender !in authorized {
        return false;
      }
      ghost var r := State();
      var partyAssets := ListIn(ownerAssets, party);
      var frozen := ListIn(frozenAssets, disputeId);
      OwnerListDistinct(r, party);
      FreezeNone(r.assets, partyAssets, now, disputeId);
      frozen := FreezeLoop(now, disputeId, partyAssets, frozen, r, party);
      frozenAssets := frozenAssets[disputeId := frozen];
      return true;
    }

    /** The loop of `freezeAssets`; `frozen` is the dispute's list, which grows as assets are frozen. */
    method FreezeLoop(
        now: nat, disputeId: DisputeId, partyAssets: seq<AssetId>, frozen: seq<AssetId>,
        ghost r: Registry, ghost party: Address)
      returns (frozen': seq<AssetId>)
      requires State() == r && IndexInv(r) && partyAssets == OwnerList(r, party) && NoRepeats(partyAssets)
      requires ActiveOnly(r.assets, partyAssets[..0]) == [] && WithFrozen(r.assets, [], now, disputeId) == r.assets
      modifies `assets
      ensures State() == r.(assets := WithFrozen(r.assets, ActiveOnly(r.assets, partyAssets), now, disputeId))
      ensures frozen' == frozen + ActiveOnly(r.assets, partyAssets)
    {
      hide WithFrozen, ActiveOnly, NoRepeats, IndexInv;
      frozen' := frozen;
      for i := 0 to |partyAssets|
        invariant assets == WithFrozen(r.assets, ActiveOnly(r.assets, partyAssets[..i]), now, disputeId)
        invariant frozen' == frozen + ActiveOnly(r.assets, partyAssets[..i])
      {
        var assetId := partyAssets[i];
        OwnedEntry(r, party, i);
        FreezeStep(r.assets, partyAssets, i, now, disputeId);
        if assets[assetId].status == Active {
          assets := assets[assetId :=
            assets[assetId].(status := Frozen, disputeId := disputeId, lastModified := now)];
          frozen' := frozen' + [assetId];
        }
      }
      assert partyAssets[..|partyAssets|] == partyAssets;
    }

    method DoUnfreezeAssets(sender: Address, now: nat, disputeId: DisputeId) returns (ok: bool)
      requires FreezeInv(State())
      modifies this
      ensures ok <==> UnfreezeAssets(old(State()), sender, now, disputeId).Some?
      ensures State() == if ok then UnfreezeAssets(old(State()), sender, now, disputeId).value else old(State())
    {
      if sender !in authorized {
        return false;
      }
      ghost var r := State();
      var frozen := ListIn(frozenAssets, disputeId);
      if |frozen| == 0 {
        return false;
      }
      for i := 0 to |frozen|
        invariant State() == r.(assets := WithReleased(r.assets, frozen[..i], now, disputeId))
      {
        var assetId := frozen[i];
        FrozenEntry(r, disputeId, i);
        ReleaseStep(r.assets, frozen, i, now, disputeId);
        hide WithReleased, FreezeInv;
        if assets[assetId].disputeId == disputeId {
          assets := assets[assetId := assets[assetId].(status := Active, disputeId := 0, lastModified := now)];
        }
      }
      assert frozen[..|frozen|] == frozen;
      frozenAssets := frozenAssets[disputeId := []];
      return true;
    }

    method DoApplyFallbackLicense(sender: Address, now: nat, disputeId: DisputeId, terms: nat) returns (ok: bool)
      requires FreezeInv(State())
      modifies this
      ensures ok <==> ApplyFallbackLicense(old(State()), sender, now, disputeId, terms).Some?
      ensures State() == if ok then ApplyFallbackLicense(old(State()), sender, now, disputeId, terms).value
                         else old(State())
    {
      if sender !in authorized {
        return false;
      }
      ghost var r := State();
      var frozen := ListIn(frozenAssets, disputeId);
      for i := 0 to |frozen|
        invariant State() == r.(assets := WithTerms(r.assets, frozen[..i], now, terms))
      {
        var assetId := frozen[i];
        FrozenEntry(r, disputeId, i);
        TermsStep(r.assets, frozen, i, now, terms);
        hide WithTerms, FreezeInv;
        assets := assets[assetId := assets[assetId].(licenseTermsHash := terms, lastModified := now)];
      }
      assert frozen[..|frozen|] == frozen;
      return true;
    }
  }
}
