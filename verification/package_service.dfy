/**
 * The metadata store: the package table behind the database context and the
 * service that inserts, queries, removes and updates its records.
 *
 * The database is an in-memory table keyed by `(Id, VersionString)`, the
 * columns of the unique constraint. `SaveChangesAsync` reports how many rows
 * it wrote; here that is the number of keys whose record differs between the
 * table before and after the tracked changes.
 */
module PackageServices {
  import opened Common
  import opened NuGet

  datatype PackageDependency = PackageDependency(id: string, versionRange: string)

  /** The dependencies of one target framework (`""` for any framework). */
  datatype PackageDependencyGroup = PackageDependencyGroup(
    targetFramework: string,
    dependencies: seq<PackageDependency>)

  /** A package row. The dependency groups are owned by the row and go with it. */
  datatype Package = Package(
    id: string,
    versionString: string,
    listed: bool,
    downloads: nat,
    dependencyGroups: seq<PackageDependencyGroup>)

  /** The columns of the unique constraint. */
  datatype PackageKey = PackageKey(id: string, versionString: string)

  function KeyOf(p: Package): PackageKey
  {
    PackageKey(p.id, p.versionString)
  }

  type PackageTable = map<PackageKey, Package>

  /** Every row is stored under its own key, so no two rows share one. */
  ghost predicate WellKeyed(t: PackageTable)
  {
    forall k :: k in t ==> KeyOf(t[k]) == k
  }

  /** The rows `SaveChangesAsync` writes: inserted, deleted or modified. */
  function ChangedRows(before: PackageTable, after: PackageTable): set<PackageKey>
  {
    set k | k in before.Keys + after.Keys && (k !in before || k !in after || before[k] != after[k])
  }

  /** The row count `SaveChangesAsync` returns. */
  function SaveChanges(before: PackageTable, after: PackageTable): nat
  {
    |ChangedRows(before, after)|
  }

  /** Deleting a stored row writes exactly that row. */
  lemma RemoveWritesOneRow(t: PackageTable, k: PackageKey)
    requires k in t
    ensures ChangedRows(t, t - {k}) == {k}
    ensures SaveChanges(t, t - {k}) == 1
  {
    assert k in ChangedRows(t, t - {k});
  }

  /** Setting `Listed` writes the row only when the flag actually changes. */
  lemma SetListedWrites(t: PackageTable, k: PackageKey, listed: bool)
    requires k in t
    ensures ChangedRows(t, t[k := t[k].(listed := listed)]) ==
            if t[k].listed == listed then {} else {k}
  {
    var after := t[k := t[k].(listed := listed)];
    if t[k].listed != listed {
      assert after[k] != t[k];
      assert k in ChangedRows(t, after);
    }
  }

  datatype PackageAddResult = Success | PackageAlreadyExists

  /** Exceptions the store lets escape to its caller. */
  datatype StoreFault =
    | DbUpdateFailed   // a DbUpdateException that is not a unique-constraint violation
    | NullReference    // a member access on a record the lookup did not find

  /** The database context: its `Packages` set, with the rows it holds. */
  class PackageContext {
    var packages: PackageTable

    /** The unique constraint on `(Id, Version)`: each row under its own key. */
    ghost predicate Valid()
      reads this
    {
      WellKeyed(packages)
    }

    constructor (packages: PackageTable)
      requires WellKeyed(packages)
      ensures this.packages == packages
      ensures Valid()
    {
      this.packages := packages;
    }
  }

  class PackageService {
    const context: PackageContext

    ghost predicate Valid()
      reads context
    {
      context.Valid()
    }

    constructor (context: PackageContext)
      ensures this.context == context
    {
      this.context := context;
    }

    /** The constructor's null check: a null context is refused. */
    static method Create(context: PackageContext?) returns (r: Result<PackageService, ArgumentNullException>)
      ensures context == null <==> r.Failure?
      ensures r.Failure? ==> r.error == ArgumentNull("context")
      ensures r.Success? ==> r.value.context == context
      ensures r.Success? && context.Valid() ==> r.value.Valid()
    {
      if context == null {
        return Failure(ArgumentNull("context"));
      }
      var service := new PackageService(context);
      r := Result.Success(service);
    }

    /**
     * Inserts `package`. A row with the same key violates the unique
     * constraint and is reported as `PackageAlreadyExists`; any other failure
     * of the save (`storeFault`) is not caught and reaches the caller.
     */
    method Add(package: Package, storeFault: bool) returns (r: Result<PackageAddResult, StoreFault>)
      requires Valid()
      modifies context
      ensures Valid()
      ensures KeyOf(package) in old(context.packages) ==>
                r == Result.Success(PackageAddResult.PackageAlreadyExists) && unchanged(context)
      ensures KeyOf(package) !in old(context.packages) && storeFault ==>
                r == Failure(DbUpdateFailed) && unchanged(context)
      ensures KeyOf(package) !in old(context.packages) && !storeFault ==>
                r == Result.Success(PackageAddResult.Success) &&
                context.packages == old(context.packages)[KeyOf(package) := package]
    {
      var key := KeyOf(package);
      if key in context.packages {
        return Result.Success(PackageAddResult.PackageAlreadyExists);
      }
      if storeFault {
        return Failure(DbUpdateFailed);
      }
      context.packages := context.packages[key := package];
      r := Result.Success(PackageAddResult.Success);
    }

    /** Whether some row has this id and the normalized form of this version. */
    function Exists(id: string, version: NuGetVersion): (r: bool)
      reads context
      requires Valid()
      ensures r <==> exists p :: p in context.packages.Values &&
                                 p.id == id && p.versionString == ToNormalizedString(version)
    {
      var key := PackageKey(id, ToNormalizedString(version));
      if key in context.packages then
        assert context.packages[key] in context.packages.Values;
        true
      else
        false
    }

    /** All rows of one id, whatever their version. */
    function Find(id: string): (r: set<Package>)
      reads context
      requires Valid()
      ensures forall p :: p in r <==> p in context.packages.Values && p.id == id
    {
      set k | k in context.packages && k.id == id :: context.packages[k]
    }

    /** The row with this id and version, or null when there is none. */
    function FindVersion(id: string, version: NuGetVersion): (r: Option<Package>)
      reads context
      requires Valid()
      ensures r.Some? <==> Exists(id, version)
      ensures r.Some? ==> r.value in context.packages.Values &&
                          r.value.id == id && r.value.versionString == ToNormalizedString(version)
    {
      var key := PackageKey(id, ToNormalizedString(version));
      if key in context.packages then Some(context.packages[key]) else None
    }

    /** Unlisting is, in this store, a removal of the row. */
    method Unlist(id: string, version: NuGetVersion) returns (result: bool)
      requires Valid()
      modifies context
      ensures Valid()
      ensures result == (PackageKey(id, ToNormalizedString(version)) in old(context.packages))
      ensures context.packages == old(context.packages) - {PackageKey(id, ToNormalizedString(version))}
      ensures !result ==> unchanged(context)
    {
      result := RemovePackage(id, version);
    }

    method Relist(id: string, version: NuGetVersion) returns (result: bool)
      requires Valid()
      modifies context
      ensures Valid()
      ensures var key := PackageKey(id, ToNormalizedString(version));
              if key in old(context.packages) then
                && context.packages == old(context.packages)[key := old(context.packages)[key].(listed := true)]
                && result == !old(context.packages)[key].listed
              else
                !result && unchanged(context)
    {
      result := TryUpdatePackage(id, version, true);
    }

    /**
     * Removes the row if there is one; the result is whether the save wrote
     * a row, which it does whenever the row was there.
     */
    method RemovePackage(id: string, version: NuGetVersion) returns (result: bool)
      requires Valid()
      modifies context
      ensures Valid()
      ensures result == (PackageKey(id, ToNormalizedString(version)) in old(context.packages))
      ensures context.packages == old(context.packages) - {PackageKey(id, ToNormalizedString(version))}
      ensures !result ==> unchanged(context)
    {
      result := false;
      var package := FindVersion(id, version);
      if package.Some? {
        var before := context.packages;
        var key := KeyOf(package.value);
        context.packages := context.packages - {key};
        RemoveWritesOneRow(before, key);
        result := SaveChanges(before, context.packages) > 0;
      }
    }

    /**
     * Sets `Listed` on the row if there is one; the result is whether the
     * save wrote a row, so it is false when the flag already had that value.
     */
    method TryUpdatePackage(id: string, version: NuGetVersion, listed: bool) returns (result: bool)
      requires Valid()
      modifies context
      ensures Valid()
      ensures var key := PackageKey(id, ToNormalizedString(version));
              if key in old(context.packages) then
                && context.packages == old(context.packages)[key := old(context.packages)[key].(listed := listed)]
                && result == (old(context.packages)[key].listed != listed)
              else
                !result && unchanged(context)
    {
      result := false;
      var package := FindVersion(id, version);
      if package.Some? {
        var before := context.packages;
        var key := KeyOf(package.value);
        context.packages := context.packages[key := package.value.(listed := listed)];
        SetListedWrites(before, key, listed);
        result := SaveChanges(before, context.packages) > 0;
      }
    }

    /**
     * Raises the download counter of the row by one. The source does not
     * check the lookup, so a missing row ends in a null dereference.
     */
    method AddDownload(id: string, version: NuGetVersion) returns (r: Outcome<StoreFault>)
      requires Valid()
      modifies context
      ensures Valid()
      ensures var key := PackageKey(id, ToNormalizedString(version));
              if key in old(context.packages) then
                && r == Pass
                && context.packages ==
                     old(context.packages)[key := old(context.packages)[key].(downloads := old(context.packages)[key].downloads + 1)]
              else
                r == Fail(NullReference) && unchanged(context)
    {
      var package := FindVersion(id, version);
      if package.None? {
        return Fail(NullReference);
      }
      var p := package.value;
      context.packages := context.packages[KeyOf(p) := p.(downloads := p.downloads + 1)];
      r := Pass;
    }
  }

  /** Unlisting twice: the second call finds nothing and returns false. */
  method UnlistTwice(service: PackageService, id: string, version: NuGetVersion)
    returns (first: bool, second: bool)
    requires service.Valid()
    modifies service.context
    ensures service.Valid()
    ensures first == (PackageKey(id, ToNormalizedString(version)) in old(service.context.packages))
    ensures !second
    ensures !service.Exists(id, version)
  {
    first := service.Unlist(id, version);
    second := service.Unlist(id, version);
  }

  /** Relisting twice: the second call writes nothing and returns false. */
  method RelistTwice(service: PackageService, id: string, version: NuGetVersion)
    returns (first: bool, second: bool)
    requires service.Valid()
    modifies service.context
    ensures service.Valid()
    ensures !second
    ensures first ==> service.FindVersion(id, version).Some? && service.FindVersion(id, version).value.listed
    ensures var key := PackageKey(id, ToNormalizedString(version));
            if key in old(service.context.packages) then
              service.context.packages ==
                old(service.context.packages)[key := old(service.context.packages)[key].(listed := true)]
            else
              !first && service.context.packages == old(service.context.packages)
  {
    first := service.Relist(id, version);
    ghost var afterFirst := service.context.packages;
    second := service.Relist(id, version);
    assert service.context.packages == afterFirst;
  }
}
