/**
 Both notions of "current version" agree, share links serve it, and the bytes add up: live bytes stay
 within the bytes charged, which stay within the quota.
 */
module RepositorySafety {
  import opened Basics
  import opened Sorting
  import opened RepositoryDb

  ghost predicate UniqueVersions(versions: seq<Version>) {
    forall i, j :: 0 <= i < j < |versions| ==>
      versions[i].id != versions[j].id
        && (versions[i].file != versions[j].file || versions[i].number != versions[j].number)
  }

  /** Every version belongs to a file of its tenant and is numbered within 1..total_versions. */
  ghost predicate VersionFits(db: Db, v: Version) {
    && v.id < db.nextId && v.file in db.files && db.files[v.file].tenant == v.tenant
    && 1 <= v.number <= db.files[v.file].totalVersions
  }

  /** The version that the file points at is live and carries the highest number. */
  ghost predicate CurrentIsLive(db: Db, file: nat)
    requires file in db.files
  {
    var f := db.files[file];
    exists v :: v in db.versions && v.id == f.current && v.file == file && v.number == f.totalVersions
  }

  ghost predicate BytesFit(db: Db, tenant: Id) {
    LiveBytes(db.versions, tenant) <= StorageOf(db, tenant).used <= StorageOf(db, tenant).quota
  }

  ghost predicate LinkFits(link: Link) {
    link.maxAccess.Some? && link.maxAccess.value != 0 ==> link.accessCount <= link.maxAccess.value
  }

  ghost predicate Consistent(db: Db) {
    && UniqueVersions(db.versions)
    && (forall v :: v in db.versions ==> VersionFits(db, v))
    && (forall f :: f in db.files ==> f < db.nextId && CurrentIsLive(db, f))
    && (forall t :: BytesFit(db, t))
    && (forall k :: k in db.links ==> LinkFits(db.links[k]))
  }

  // ---------- appending a version ----------

  lemma {:induction false} LiveBytesAppend(versions: seq<Version>, v: Version, tenant: Id)
    ensures LiveBytes(versions + [v], tenant) == LiveBytes(versions, tenant) + if v.tenant == tenant then v.size else 0
  {
    if versions == [] {
      assert [] + [v] == [v] && [v][1..] == [];
    } else {
      assert (versions + [v])[1..] == versions[1..] + [v];
      LiveBytesAppend(versions[1..], v, tenant);
    }
  }

  /** A tenant's bytes after storing a new version and charging for it. */
  lemma ChargedBytesFit(db: Db, after: Db, v: Version, t: Id)
    requires BytesFit(db, t) && Allowed(db, v.tenant, v.size)
    requires after.versions == db.versions + [v]
      && after.storage == Charged(Ensured(db, v.tenant), v.tenant, v.size).storage
    ensures BytesFit(after, t)
  {
    LiveBytesAppend(db.versions, v, t);
  }

  lemma AppendKeepsUnique(versions: seq<Version>, v: Version, nextId: nat)
    requires UniqueVersions(versions) && nextId <= v.id
    requires forall u :: u in versions ==> u.id < nextId && (u.file == v.file ==> u.number < v.number)
    ensures UniqueVersions(versions + [v])
  {
    var all := versions + [v];
    forall i, j | 0 <= i < j < |all|
      ensures all[i].id != all[j].id && (all[i].file != all[j].file || all[i].number != all[j].number)
    {
      if j == |versions| {
        assert all[i] in versions;
      }
    }
  }

  lemma CreateFileKeeps(db: Db, tenant: Id, scope: Id, size: Option<nat>)
    requires Consistent(db)
    ensures Consistent(AfterCreateFile(db, tenant, scope, size).0)
  {
    hide UniqueVersions, BytesFit, LinkFits;
    var (after, outcome) := AfterCreateFile(db, tenant, scope, size);
    if outcome == Done {
      var v := Version(db.nextId + 1, db.nextId, tenant, 1, size.value);
      assert after.versions == db.versions + [v] && v in after.versions;
      AppendKeepsUnique(db.versions, v, db.nextId);
      forall t ensures BytesFit(after, t) {
        ChargedBytesFit(db, after, v, t);
      }
      forall f | f in after.files ensures f < after.nextId && CurrentIsLive(after, f) {
        CurrentStaysLive(db, after, f, db.nextId);
      }
    } else {
      EnsuredKeeps(db, tenant);
    }
  }

  /** Files that a step does not touch keep their live current version when versions are only added. */
  lemma CurrentStaysLive(db: Db, after: Db, f: nat, touched: nat)
    requires forall v :: v in db.versions ==> v in after.versions
    requires f in db.files && f != touched ==> f in after.files && after.files[f] == db.files[f] && CurrentIsLive(db, f)
    ensures f in db.files && f != touched ==> CurrentIsLive(after, f)
  {
    if f in db.files && f != touched {
      var v :| v in db.versions && v.id == db.files[f].current && v.file == f && v.number == db.files[f].totalVersions;
      assert v in after.versions;
    }
  }

  lemma EnsuredKeeps(db: Db, tenant: Id)
    requires Consistent(db)
    ensures Consistent(Ensured(db, tenant))
  {
    var after := Ensured(db, tenant);
    forall t ensures BytesFit(after, t) {
      assert BytesFit(db, t);
    }
    forall f | f in after.files ensures CurrentIsLive(after, f) {
      assert CurrentIsLive(db, f);
    }
    forall v | v in after.versions ensures VersionFits(after, v) {
      assert VersionFits(db, v);
    }
  }

  lemma AddVersionKeeps(db: Db, tenant: Id, file: nat, size: Option<nat>)
    requires Consistent(db)
    ensures Consistent(AfterAddVersion(db, tenant, file, size).0)
  {
    hide UniqueVersions, BytesFit, LinkFits;
    var (after, outcome) := AfterAddVersion(db, tenant, file, size);
    if outcome == Done {
      var next := db.files[file].totalVersions + 1;
      var v := Version(db.nextId, file, tenant, next, size.value);
      assert after.versions == db.versions + [v] && v in after.versions;
      AppendKeepsUnique(db.versions, v, db.nextId);
      forall t ensures BytesFit(after, t) {
        ChargedBytesFit(db, after, v, t);
      }
      forall f | f in after.files ensures f < after.nextId && CurrentIsLive(after, f) {
        CurrentStaysLive(db, after, f, file);
      }
      forall u | u in after.versions ensures VersionFits(after, u) {
        assert u == v || VersionFits(db, u);
      }
    } else {
      EnsuredKeeps(db, tenant);
    }
  }

  // ---------- deleting a version ----------

  lemma {:induction false} LiveBytesWithout(versions: seq<Version>, id: nat, tenant: Id)
    ensures LiveBytes(WithoutVersion(versions, id), tenant) <= LiveBytes(versions, tenant)
  {
    if versions != [] {
      LiveBytesWithout(versions[1..], id, tenant);
      var rest := WithoutVersion(versions[1..], id);
      if versions[0].id == id {
        assert WithoutVersion(versions, id) == rest;
      } else {
        assert WithoutVersion(versions, id) == [versions[0]] + rest;
      }
    }
  }

  lemma {:induction false} WithoutKeepsUnique(versions: seq<Version>, id: nat)
    requires UniqueVersions(versions)
    ensures UniqueVersions(WithoutVersion(versions, id))
  {
    if versions != [] {
      WithoutKeepsUnique(versions[1..], id);
      forall v | v in versions[1..]
        ensures v.id != versions[0].id && (v.file != versions[0].file || v.number != versions[0].number)
      {
        var k :| 0 <= k < |versions[1..]| && versions[1..][k] == v;
        assert versions[k + 1] == v;
      }
    }
  }

  lemma SameIdSameVersion(versions: seq<Version>, a: Version, b: Version)
    requires UniqueVersions(versions) && a in versions && b in versions
    requires a.id == b.id || (a.file == b.file && a.number == b.number)
    ensures a == b
  {
    var i :| 0 <= i < |versions| && versions[i] == a;
    var j :| 0 <= j < |versions| && versions[j] == b;
    assert i < j || j < i || i == j;
  }

  lemma DeleteVersionKeeps(db: Db, tenant: Id, file: nat, version: nat)
    requires Consistent(db)
    ensures Consistent(AfterDeleteVersion(db, tenant, file, version).0)
  {
    var after := AfterDeleteVersion(db, tenant, file, version).0;
    if after != db {
      var gone := FindVersion(db.versions, version, file).value;
      WithoutKeepsUnique(db.versions, version);
      forall v | v in after.versions ensures VersionFits(after, v) {
        assert VersionFits(db, v);
      }
      forall f | f in after.files ensures CurrentIsLive(after, f) {
        assert CurrentIsLive(db, f);
        var v :| v in db.versions && v.id == db.files[f].current && v.file == f
          && v.number == db.files[f].totalVersions;
        if v.id == version {
          SameIdSameVersion(db.versions, v, gone);
        }
        assert v in after.versions;
      }
      forall t ensures BytesFit(after, t) {
        assert BytesFit(db, t);
        LiveBytesWithout(db.versions, version, t);
      }
    }
  }

  /**
   Deleting an old version never reports success: where it gets past its checks the version is gone,
   the file's row, the quota and all other versions are as before, and the call fails.
   */
  lemma DeleteVersionRemovesAndFails(db: Db, tenant: Id, file: nat, version: nat)
    requires Consistent(db)
    ensures var (after, outcome) := AfterDeleteVersion(db, tenant, file, version);
            && outcome != Done
            && after == db.(versions := after.versions)
            && (outcome == RowMissing ==> forall v :: v in after.versions <==> v in db.versions && v.id != version)
            && (outcome != RowMissing ==> after == db)
  {
    var (after, outcome) := AfterDeleteVersion(db, tenant, file, version);
    if outcome == RowMissing {
      var gone := FindVersion(db.versions, version, file).value;
      assert VersionFits(db, gone);
    }
  }

  const EMPTY: Db := Db(map[], [], map[], map[], 0)

  /** A file of two versions. */
  const TWO_VERSIONS: Db := Db(
    map[0 := File("school", "CLASS", 2, 2, ACTIVE)],
    [Version(1, 0, "school", 1, 10), Version(2, 0, "school", 2, 20)],
    map["school" := Storage(30, FREE_QUOTA)],
    map[],
    3)

  lemma TwoVersionsReached()
    ensures AfterAddVersion(AfterCreateFile(EMPTY, "school", "CLASS", Some(10)).0, "school", 0, Some(20))
         == (TWO_VERSIONS, Done)
  {
    var created := AfterCreateFile(EMPTY, "school", "CLASS", Some(10)).0;
    assert created.files == map[0 := File("school", "CLASS", 1, 1, ACTIVE)];
    assert created.versions == [Version(1, 0, "school", 1, 10)];
    assert created.storage == map["school" := Storage(10, FREE_QUOTA)];
    assert created.links == map[] && created.nextId == 2;
    var (after, outcome) := AfterAddVersion(created, "school", 0, Some(20));
    assert outcome == Done;
    assert after.nextId == 3 && after.links == map[];
    assert after.versions == TWO_VERSIONS.versions;
    assert after.files == map[0 := File("school", "CLASS", 2, 2, ACTIVE)];
    assert after.storage == map["school" := Storage(30, FREE_QUOTA)];
  }

  /** The file loses its first version: the call fails, and 30 bytes stay charged for 20. */
  lemma OldVersionIsDeletedAndFails()
    ensures var (after, outcome) := AfterDeleteVersion(TWO_VERSIONS, "school", 0, 1);
            && outcome == RowMissing && after.versions == [Version(2, 0, "school", 2, 20)]
            && StorageOf(after, "school").used == 30 && LiveBytes(after.versions, "school") == 20
  {
    var rows := TWO_VERSIONS.versions;
    assert rows[1..] == [Version(2, 0, "school", 2, 20)] && rows[1..][1..] == [];
    assert WithoutVersion(rows[1..], 1) == rows[1..];
  }

  /** Revoking a share link never reports success either: a link of the file is gone, and the call fails. */
  lemma RevokeRemovesAndFails(db: Db, tenant: Id, file: nat, token: string)
    ensures var (after, outcome) := AfterRevoke(db, tenant, file, token);
            && outcome != Done
            && (outcome == FileNotFound <==> !(file in db.files && db.files[file].tenant == tenant))
            && (outcome == FileArchived <==>
                file in db.files && db.files[file].tenant == tenant && db.files[file].status == ARCHIVED)
            && (outcome == FileNotFound || outcome == FileArchived || outcome == RowMissing)
            && after == db.(links := after.links)
            && (forall k :: k in after.links ==> k in db.links && after.links[k] == db.links[k])
            && (outcome == RowMissing ==> token !in after.links || after.links[token].file != file)
            && (forall k :: k in db.links && (k != token || outcome != RowMissing) ==> k in after.links)
  {}

  // ---------- the other steps ----------

  lemma FilesUnchangedKeeps(db: Db, after: Db)
    requires Consistent(db) && after == db.(links := after.links, files := after.files)
      && after.files.Keys == db.files.Keys
    requires forall f :: f in db.files ==> after.files[f] == db.files[f].(status := after.files[f].status)
    requires forall k :: k in after.links ==> LinkFits(after.links[k])
    ensures Consistent(after)
  {
    forall v | v in after.versions ensures VersionFits(after, v) {
      assert VersionFits(db, v);
    }
    forall f | f in after.files ensures CurrentIsLive(after, f) {
      assert CurrentIsLive(db, f);
    }
    forall t ensures BytesFit(after, t) {
      assert BytesFit(db, t);
    }
  }

  datatype Step =
    | CreateFile(tenant: Id, scope: Id, size: Option<nat>)
    | AddVersion(tenant: Id, file: nat, size: Option<nat>)
    | DeleteVersion(tenant: Id, file: nat, version: nat)
    | Archive(tenant: Id, file: nat, retained: bool)
    | Share(tenant: Id, file: nat, token: string, expiresAt: int, maxAccess: Option<nat>)
    | Revoke(tenant: Id, file: nat, token: string)
    | Access(token: string, now: int)

  function After(db: Db, step: Step): Db {
    match step
    case CreateFile(tenant, scope, size) => AfterCreateFile(db, tenant, scope, size).0
    case AddVersion(tenant, file, size) => AfterAddVersion(db, tenant, file, size).0
    case DeleteVersion(tenant, file, version) => AfterDeleteVersion(db, tenant, file, version).0
    case Archive(tenant, file, retained) => AfterArchive(db, tenant, file, retained).0
    case Share(tenant, file, token, expiresAt, maxAccess) => AfterShare(db, tenant, file, token, expiresAt, maxAccess).0
    case Revoke(tenant, file, token) => AfterRevoke(db, tenant, file, token).0
    case Access(token, now) => AfterAccess(db, token, now).0
  }

  lemma StepKeeps(db: Db, step: Step)
    requires Consistent(db)
    ensures Consistent(After(db, step))
  {
    hide Consistent, AfterCreateFile, AfterAddVersion, AfterDeleteVersion;
    match step
    case CreateFile(tenant, scope, size) => CreateFileKeeps(db, tenant, scope, size);
    case AddVersion(tenant, file, size) => AddVersionKeeps(db, tenant, file, size);
    case DeleteVersion(tenant, file, version) => DeleteVersionKeeps(db, tenant, file, version);
    case Archive(tenant, file, retained) =>
      LinksFit(db);
      FilesUnchangedKeeps(db, After(db, step));
    case Share(tenant, file, token, expiresAt, maxAccess) =>
      LinksFit(db);
      FilesUnchangedKeeps(db, After(db, step));
    case Revoke(tenant, file, token) =>
      LinksFit(db);
      FilesUnchangedKeeps(db, After(db, step));
    case Access(token, now) =>
      LinksFit(db);
      FilesUnchangedKeeps(db, After(db, step));
  }

  lemma LinksFit(db: Db)
    requires Consistent(db)
    ensures forall k :: k in db.links ==> LinkFits(db.links[k])
  {}

  function Run(db: Db, steps: seq<Step>): Db
    decreases |steps|
  {
    if steps == [] then db else Run(After(db, steps[0]), steps[1..])
  }

  /** Over every run of the operations. */
  lemma {:induction false} RunKeeps(db: Db, steps: seq<Step>)
    requires Consistent(db)
    ensures Consistent(Run(db, steps))
    decreases |steps|
  {
    if steps != [] {
      StepKeeps(db, steps[0]);
      RunKeeps(After(db, steps[0]), steps[1..]);
    }
  }

  // ---------- consequences ----------

  lemma HigherNumberIsPreorder()
    ensures TotalPreorder(HigherNumber)
  {}

  /** What a share link serves, the highest-numbered version, is the version the file points at. */
  lemma ServedIsCurrent(db: Db, file: nat)
    requires Consistent(db) && file in db.files
    ensures Served(db, file).Some?
    ensures Served(db, file).value.id == db.files[file].current
    ensures Served(db, file).value.number == db.files[file].totalVersions
  {
    hide UniqueVersions;
    assert CurrentIsLive(db, file);
    var v :| v in db.versions && v.id == db.files[file].current && v.file == file
      && v.number == db.files[file].totalVersions;
    ServedIsHighest(db, file, v);
    ServedFromFile(db, file);
    assert VersionFits(db, Served(db, file).value);
    SameIdSameVersion(db.versions, Served(db, file).value, v);
  }

  lemma ServedIsHighest(db: Db, file: nat, v: Version)
    requires v in db.versions && v.file == file
    ensures Served(db, file).Some? && Served(db, file).value.number >= v.number
  {
    var rows := VersionsOf(db.versions, file);
    var sorted := Sort(HigherNumber, rows);
    SameElements(sorted, rows);
    HigherNumberIsPreorder();
    SortOrdered(HigherNumber, rows);
    assert v in sorted;
    var k :| 0 <= k < |sorted| && sorted[k] == v;
    assert k == 0 || HigherNumber(sorted[0], sorted[k]);
  }

  lemma ServedFromFile(db: Db, file: nat)
    requires Served(db, file).Some?
    ensures Served(db, file).value in db.versions && Served(db, file).value.file == file
  {
    var rows := VersionsOf(db.versions, file);
    SameElements(Sort(HigherNumber, rows), rows);
    assert Served(db, file).value in rows;
  }

  // ---------- the breakdown per scope ----------

  /** A dictionary holds, for every scope, that scope's bytes, and nothing twice. */
  ghost predicate BreaksDown(files: map<nat, File>, versions: seq<Version>, tenant: Id, breakdown: seq<Usage>) {
    && FilesExist(files, versions)
    && DistinctScopes(breakdown)
    && (forall scope :: UsageOf(breakdown, scope) == ScopeBytes(files, versions, tenant, scope))
    && TotalUsage(breakdown) == LiveBytes(versions, tenant)
  }

  lemma {:induction false} AddedCounts(breakdown: seq<Usage>, scope: Id, bytes: nat, other: Id)
    ensures TotalUsage(Added(breakdown, scope, bytes)) == TotalUsage(breakdown) + bytes
    ensures UsageOf(Added(breakdown, scope, bytes), other)
      == UsageOf(breakdown, other) + if other == scope then bytes else 0
  {
    if breakdown != [] {
      AddedCounts(breakdown[1..], scope, bytes, other);
    }
  }

  /** The scopes of a dictionary. */
  function ScopesOf(breakdown: seq<Usage>): set<Id> {
    set u | u in breakdown :: u.scope
  }

  lemma ScopesOfCons(u: Usage, rest: seq<Usage>)
    ensures ScopesOf([u] + rest) == {u.scope} + ScopesOf(rest)
  {}

  lemma {:induction false} AddedScopes(breakdown: seq<Usage>, scope: Id, bytes: nat)
    ensures ScopesOf(Added(breakdown, scope, bytes)) == ScopesOf(breakdown) + {scope}
  {
    hide ScopesOf;
    if breakdown == [] {
      ScopesOfCons(Usage(scope, bytes), []);
      assert [Usage(scope, bytes)] + [] == [Usage(scope, bytes)];
      NoScopes();
    } else {
      var first, rest := breakdown[0], breakdown[1..];
      assert breakdown == [first] + rest;
      ScopesOfCons(first, rest);
      ScopesOfCons(Usage(scope, first.bytes + bytes), rest);
      ScopesOfCons(first, Added(rest, scope, bytes));
      AddedScopes(rest, scope, bytes);
    }
  }

  lemma NoScopes()
    ensures ScopesOf([]) == {}
  {}

  /** A first entry whose scope is not among the others. */
  lemma DistinctCons(u: Usage, rest: seq<Usage>)
    ensures DistinctScopes([u] + rest) <==> u.scope !in ScopesOf(rest) && DistinctScopes(rest)
  {
    var all := [u] + rest;
    forall k | 0 <= k < |rest| ensures all[k + 1] == rest[k] && rest[k].scope in ScopesOf(rest) {}
    if u.scope in ScopesOf(rest) {
      var w :| w in rest && w.scope == u.scope;
      var k :| 0 <= k < |rest| && rest[k] == w;
      assert all[0] == u && all[k + 1] == w;
    }
  }

  lemma {:induction false} AddedStaysDistinct(breakdown: seq<Usage>, scope: Id, bytes: nat)
    requires DistinctScopes(breakdown)
    ensures DistinctScopes(Added(breakdown, scope, bytes))
  {
    if breakdown != [] {
      hide DistinctScopes, ScopesOf;
      var first, rest := breakdown[0], breakdown[1..];
      assert breakdown == [first] + rest;
      DistinctCons(first, rest);
      DistinctCons(Usage(scope, first.bytes + bytes), rest);
      DistinctCons(first, Added(rest, scope, bytes));
      AddedScopes(rest, scope, bytes);
      AddedStaysDistinct(rest, scope, bytes);
    }
  }

  lemma BreaksDownOneMore(files: map<nat, File>, versions: seq<Version>, tenant: Id, breakdown: seq<Usage>, v: Version)
    requires BreaksDown(files, versions, tenant, breakdown) && v.file in files
    ensures BreaksDown(files, versions + [v], tenant,
                       if v.tenant == tenant then Added(breakdown, files[v.file].scope, v.size) else breakdown)
  {
    var longer := versions + [v];
    assert longer[..|longer| - 1] == versions;
    LiveBytesAppend(versions, v, tenant);
    if v.tenant == tenant {
      AddedStaysDistinct(breakdown, files[v.file].scope, v.size);
    }
    forall scope
      ensures ScopeBytes(files, longer, tenant, scope) ==
              UsageOf(if v.tenant == tenant then Added(breakdown, files[v.file].scope, v.size) else breakdown, scope)
    {
      AddedCounts(breakdown, files[v.file].scope, v.size, scope);
    }
    AddedCounts(breakdown, files[v.file].scope, v.size, "");
  }

  // ---------- bytes charged and never given back ----------

  /** The bytes a step removes from the live versions of a tenant. */
  function BytesDeleted(db: Db, step: Step, tenant: Id): nat {
    if step.DeleteVersion? && AfterDeleteVersion(db, step.tenant, step.file, step.version).0 != db then
      var gone := FindVersion(db.versions, step.version, step.file);
      if gone.Some? && gone.value.tenant == tenant then gone.value.size else 0
    else 0
  }

  function BytesDeletedIn(db: Db, steps: seq<Step>, tenant: Id): nat
    decreases |steps|
  {
    if steps == [] then 0
    else BytesDeleted(db, steps[0], tenant) + BytesDeletedIn(After(db, steps[0]), steps[1..], tenant)
  }

  lemma {:induction false} LiveBytesWithoutExactly(versions: seq<Version>, gone: Version, tenant: Id)
    requires UniqueVersions(versions) && gone in versions
    ensures LiveBytes(versions, tenant)
         == LiveBytes(WithoutVersion(versions, gone.id), tenant) + if gone.tenant == tenant then gone.size else 0
  {
    var rest := WithoutVersion(versions[1..], gone.id);
    if versions[0].id == gone.id {
      SameIdSameVersion(versions, versions[0], gone);
      NothingWithout(versions[1..], gone.id);
      assert WithoutVersion(versions, gone.id) == versions[1..];
    } else {
      assert WithoutVersion(versions, gone.id) == [versions[0]] + rest;
      LiveBytesWithoutExactly(versions[1..], gone, tenant);
    }
  }

  lemma {:induction false} NothingWithout(versions: seq<Version>, id: nat)
    requires forall v :: v in versions ==> v.id != id
    ensures WithoutVersion(versions, id) == versions
  {
    if versions != [] {
      NothingWithout(versions[1..], id);
    }
  }

  /** Bytes charged beyond those of live versions. */
  function Surplus(db: Db, tenant: Id): int {
    StorageOf(db, tenant).used - LiveBytes(db.versions, tenant)
  }

  /** Storing a version and charging for it leaves the surplus as it was. */
  lemma ChargedKeepsSurplus(db: Db, after: Db, v: Version, tenant: Id)
    requires after.versions == db.versions + [v]
      && after.storage == Charged(Ensured(db, v.tenant), v.tenant, v.size).storage
    ensures Surplus(after, tenant) == Surplus(db, tenant)
  {
    LiveBytesAppend(db.versions, v, tenant);
  }

  lemma CreateKeepsSurplus(db: Db, t: Id, scope: Id, size: Option<nat>, tenant: Id)
    ensures Surplus(AfterCreateFile(db, t, scope, size).0, tenant) == Surplus(db, tenant)
  {
    var (after, outcome) := AfterCreateFile(db, t, scope, size);
    if outcome == Done {
      ChargedKeepsSurplus(db, after, Version(db.nextId + 1, db.nextId, t, 1, size.value), tenant);
    }
  }

  lemma AddKeepsSurplus(db: Db, t: Id, file: nat, size: Option<nat>, tenant: Id)
    ensures Surplus(AfterAddVersion(db, t, file, size).0, tenant) == Surplus(db, tenant)
  {
    var (after, outcome) := AfterAddVersion(db, t, file, size);
    if outcome == Done {
      ChargedKeepsSurplus(db, after, Version(db.nextId, file, t, db.files[file].totalVersions + 1, size.value), tenant);
    }
  }

  lemma DeleteConservesBytes(db: Db, step: Step, tenant: Id)
    requires UniqueVersions(db.versions) && step.DeleteVersion?
    ensures Surplus(After(db, step), tenant) == Surplus(db, tenant) + BytesDeleted(db, step, tenant)
  {
    hide UniqueVersions;
    if After(db, step) != db {
      LiveBytesWithoutExactly(db.versions, FindVersion(db.versions, step.version, step.file).value, tenant);
    }
  }

  lemma StepConservesBytes(db: Db, step: Step, tenant: Id)
    requires Consistent(db)
    ensures Surplus(After(db, step), tenant) == Surplus(db, tenant) + BytesDeleted(db, step, tenant)
  {
    assert UniqueVersions(db.versions);
    hide Consistent, UniqueVersions, AfterCreateFile, AfterAddVersion, AfterDeleteVersion;
    match step
    case CreateFile(t, scope, size) => CreateKeepsSurplus(db, t, scope, size, tenant);
    case AddVersion(t, file, size) => AddKeepsSurplus(db, t, file, size, tenant);
    case DeleteVersion(t, file, version) =>
      DeleteConservesBytes(db, step, tenant);
    case Archive(_, _, _) =>
    case Share(_, _, _, _, _) =>
    case Revoke(_, _, _) =>
    case Access(_, _) =>
  }

  /** Deleting versions never lowers the bytes charged: used bytes exceed live bytes by all that was ever deleted. */
  lemma {:induction false} RunConservesBytes(db: Db, steps: seq<Step>, tenant: Id)
    requires Consistent(db)
    ensures Surplus(Run(db, steps), tenant) == Surplus(db, tenant) + BytesDeletedIn(db, steps, tenant)
    decreases |steps|
  {
    if steps != [] {
      StepConservesBytes(db, steps[0], tenant);
      StepKeeps(db, steps[0]);
      RunConservesBytes(After(db, steps[0]), steps[1..], tenant);
    }
  }
}
