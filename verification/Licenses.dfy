/**
 * The licences of the asset registry (contracts/AssetRegistry.sol): grants by asset and licensee, and
 * the counter of active ones. The registry's assets are read and never changed. `None` is a revert.
 */
module Licenses {
  import opened Wrappers
  import opened Ledger
  import opened AssetRegistry

  datatype Grant = Grant(
    termsHash: nat, grantedAt: nat, expiresAt: nat, royaltyBps: nat, nonExclusive: bool, active: bool)

  type Key = (AssetId, Address)

  datatype Book = Book(grants: map<Key, Grant>, totalLicenses: nat)

  datatype Terms = Terms(termsHash: nat, duration: nat, royaltyBps: nat, nonExclusive: bool)

  predicate IsActive(b: Book, key: Key) {
    key in b.grants && b.grants[key].active
  }

  function GrantLicense(
      r: Registry, b: Book, now: nat, sender: Address, assetId: AssetId, licensee: Address, terms: Terms): Option<Book>
  {
    if assetId !in r.assets then
      None
    else
      :- Require(r.assets[assetId].status == Active && sender == r.assets[assetId].owner);
      :- Require(licensee != 0 && terms.duration != 0 && now + terms.duration <= MAX_UINT256);
      var grant := Grant(terms.termsHash, now, now + terms.duration, terms.royaltyBps, terms.nonExclusive, true);
      Some(Book(b.grants[(assetId, licensee) := grant],
                if IsActive(b, (assetId, licensee)) then b.totalLicenses else b.totalLicenses + 1))
  }

  function RevokeLicense(
      r: Registry, b: Book, now: nat, sender: Address, assetId: AssetId, licensee: Address): Option<Book>
  {
    if assetId !in r.assets then
      None
    else
      :- Require(sender == r.assets[assetId].owner || sender in r.authorized);
      :- Require(IsActive(b, (assetId, licensee)));
      :- Require(b.totalLicenses >= 1);
      var grant := b.grants[(assetId, licensee)];
      Some(Book(b.grants[(assetId, licensee) := grant.(active := false, expiresAt := now)], b.totalLicenses - 1))
  }

  predicate IsLicenseValid(b: Book, now: nat, assetId: AssetId, licensee: Address) {
    IsActive(b, (assetId, licensee)) && now < b.grants[(assetId, licensee)].expiresAt
  }

  // ----- the counter counts -----

  ghost function ActiveKeys(b: Book): set<Key> {
    set key | key in b.grants && b.grants[key].active
  }

  ghost predicate CountInv(b: Book) {
    b.totalLicenses == |ActiveKeys(b)|
  }

  lemma GrantKeepsCount(
      r: Registry, b: Book, now: nat, sender: Address, assetId: AssetId, licensee: Address, terms: Terms)
    requires CountInv(b) && GrantLicense(r, b, now, sender, assetId, licensee, terms).Some?
    ensures CountInv(GrantLicense(r, b, now, sender, assetId, licensee, terms).value)
  {
    var key := (assetId, licensee);
    assert ActiveKeys(GrantLicense(r, b, now, sender, assetId, licensee, terms).value) == ActiveKeys(b) + {key};
  }

  lemma RevokeKeepsCount(r: Registry, b: Book, now: nat, sender: Address, assetId: AssetId, licensee: Address)
    requires CountInv(b) && RevokeLicense(r, b, now, sender, assetId, licensee).Some?
    ensures CountInv(RevokeLicense(r, b, now, sender, assetId, licensee).value)
  {
    var key := (assetId, licensee);
    assert ActiveKeys(RevokeLicense(r, b, now, sender, assetId, licensee).value) == ActiveKeys(b) - {key};
  }

  datatype Call =
    | DoGrant(sender: Address, assetId: AssetId, licensee: Address, terms: Terms)
    | DoRevoke(sender: Address, assetId: AssetId, licensee: Address)

  /** A call at some time, with the registry as it is then; a revert changes nothing. */
  datatype Moment = Moment(registry: Registry, now: nat, call: Call)

  function After(b: Book, m: Moment): Book {
    var b' := match m.call
      case DoGrant(sender, assetId, licensee, terms) =>
        GrantLicense(m.registry, b, m.now, sender, assetId, licensee, terms)
      case DoRevoke(sender, assetId, licensee) =>
        RevokeLicense(m.registry, b, m.now, sender, assetId, licensee);
    if b'.Some? then b'.value else b
  }

  function Run(b: Book, moments: seq<Moment>): Book
    decreases |moments|
  {
    if moments == [] then b else Run(After(b, moments[0]), moments[1..])
  }

  /** Whatever happens to the assets meanwhile, the counter is the number of active licences. */
  lemma {:induction false} TotalIsActive(b: Book, moments: seq<Moment>)
    requires CountInv(b)
    ensures CountInv(Run(b, moments))
    decreases |moments|
  {
    if moments != [] {
      var m := moments[0];
      match m.call {
        case DoGrant(sender, assetId, licensee, terms) =>
          if GrantLicense(m.registry, b, m.now, sender, assetId, licensee, terms).Some? {
            GrantKeepsCount(m.registry, b, m.now, sender, assetId, licensee, terms);
          }
        case DoRevoke(sender, assetId, licensee) =>
          if RevokeLicense(m.registry, b, m.now, sender, assetId, licensee).Some? {
            RevokeKeepsCount(m.registry, b, m.now, sender, assetId, licensee);
          }
      }
      hide CountInv, GrantLicense, RevokeLicense;
      TotalIsActive(After(b, m), moments[1..]);
    }
  }

  /** Only its owner licenses an asset, while it is not frozen; the terms are stored as given, from now on. */
  lemma GrantExactly(
      r: Registry, b: Book, now: nat, sender: Address, assetId: AssetId, licensee: Address, terms: Terms)
    ensures var b', key := GrantLicense(r, b, now, sender, assetId, licensee, terms), (assetId, licensee);
      && (b'.Some? <==>
            && assetId in r.assets && r.assets[assetId].status == Active && sender == r.assets[assetId].owner
            && licensee != 0 && terms.duration > 0 && now + terms.duration <= MAX_UINT256)
      && (b'.Some? ==>
            && key in b'.value.grants && b'.value.grants == b.grants[key := b'.value.grants[key]]
            && var g := b'.value.grants[key];
               && g.termsHash == terms.termsHash && g.royaltyBps == terms.royaltyBps
               && g.nonExclusive == terms.nonExclusive && g.active
               && g.grantedAt == now && g.expiresAt == now + terms.duration)
  {
  }

  /** Revoking ends the one licence now and leaves its terms on record. */
  lemma RevokeEffect(r: Registry, b: Book, now: nat, sender: Address, assetId: AssetId, licensee: Address)
    requires RevokeLicense(r, b, now, sender, assetId, licensee).Some?
    ensures var b', key := RevokeLicense(r, b, now, sender, assetId, licensee).value, (assetId, licensee);
      && key in b.grants && b.grants[key].active
      && b'.grants == b.grants[key := b.grants[key].(active := false, expiresAt := now)]
      && b'.totalLicenses + 1 == b.totalLicenses
  {
  }

  /** The counter never underflows, so an active licence can always be revoked by those allowed to. */
  lemma RevokeExactly(r: Registry, b: Book, now: nat, sender: Address, assetId: AssetId, licensee: Address)
    requires CountInv(b)
    ensures RevokeLicense(r, b, now, sender, assetId, licensee).Some?
       <==> && assetId in r.assets && (sender == r.assets[assetId].owner || sender in r.authorized)
            && IsActive(b, (assetId, licensee))
  {
    if IsActive(b, (assetId, licensee)) {
      assert (assetId, licensee) in ActiveKeys(b);
    }
  }

  /** A licence is valid from its grant until it expires, and no longer once it is revoked. */
  lemma ValidUntil(
      r: Registry, b: Book, now: nat, sender: Address, assetId: AssetId, licensee: Address, terms: Terms, later: nat)
    requires GrantLicense(r, b, now, sender, assetId, licensee, terms).Some?
    ensures var b' := GrantLicense(r, b, now, sender, assetId, licensee, terms).value;
      && (IsLicenseValid(b', later, assetId, licensee) <==> later < now + terms.duration)
      && forall revoker, at :: RevokeLicense(r, b', at, revoker, assetId, licensee).Some? ==>
           !IsLicenseValid(RevokeLicense(r, b', at, revoker, assetId, licensee).value, later, assetId, licensee)
  {
  }

  class LicenseRegister {
    const registry: AssetRegistryContract

    var grants: map<Key, Grant>
    var totalLicenses: nat

    constructor (registry: AssetRegistryContract)
      ensures this.registry == registry && State() == Book(map[], 0) && CountInv(State())
    {
      this.registry, grants, totalLicenses := registry, map[], 0;
    }

    function State(): Book
      reads this
    {
      Book(grants, totalLicenses)
    }

    method DoGrantLicense(now: nat, sender: Address, assetId: AssetId, licensee: Address, terms: Terms)
      returns (ok: bool)
      modifies this
      ensures var r := GrantLicense(registry.State(), old(State()), now, sender, assetId, licensee, terms);
        && ok == r.Some?
        && State() == if ok then r.value else old(State())
      ensures ok <==>
                && assetId in registry.assets && registry.assets[assetId].status == Active
                && sender == registry.assets[assetId].owner
                && licensee != 0 && terms.duration > 0 && now + terms.duration <= MAX_UINT256
    {
      if assetId !in registry.assets || registry.assets[assetId].status == Frozen {
        return false;
      }
      if sender != registry.assets[assetId].owner || licensee == 0 || terms.duration == 0
        || now + terms.duration > MAX_UINT256 {
        return false;
      }
      var key := (assetId, licensee);
      var isNew := !(key in grants && grants[key].active);
      grants := grants[key :=
        Grant(terms.termsHash, now, now + terms.duration, terms.royaltyBps, terms.nonExclusive, true)];
      if isNew {
        totalLicenses := totalLicenses + 1;
      }
      return true;
    }

    /** The counter stays above zero because it counts the licence that is revoked. */
    method DoRevokeLicense(now: nat, sender: Address, assetId: AssetId, licensee: Address) returns (ok: bool)
      requires CountInv(State())
      modifies this
      ensures var r := RevokeLicense(registry.State(), old(State()), now, sender, assetId, licensee);
        && ok == r.Some?
        && State() == if ok then r.value else old(State())
      ensures CountInv(State())
      ensures ok <==>
                && assetId in registry.assets
                && (sender == registry.assets[assetId].owner || sender in registry.authorized)
                && old(IsActive(State(), (assetId, licensee)))
    {
      ghost var r, b := registry.State(), State();
      RevokeExactly(r, b, now, sender, assetId, licensee);
      if assetId !in registry.assets {
        return false;
      }
      if sender != registry.assets[assetId].owner && sender !in registry.authorized {
        return false;
      }
      var key := (assetId, licensee);
      if key !in grants || !grants[key].active {
        return false;
      }
      RevokeKeepsCount(r, b, now, sender, assetId, licensee);
      grants := grants[key := grants[key].(active := false, expiresAt := now)];
      totalLicenses := totalLicenses - 1;
      return true;
    }
  }
}
