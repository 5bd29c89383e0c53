/**
 Repository files, their versions, share links and storage quota
 (src/repository/repository-file.service.ts:72-230, 328-361, 385-415, 461-576;
 src/repository/repository-quota.service.ts).
 */
module RepositoryDb {
  import opened Basics
  import opened Sorting

  const FREE_QUOTA: nat := 2 * 1024 * 1024 * 1024

  datatype FileStatus = ACTIVE | ARCHIVED | DELETED

  datatype File = File(tenant: Id, scope: Id, totalVersions: nat, current: nat, status: FileStatus)

  datatype Version = Version(id: nat, file: nat, tenant: Id, number: nat, size: nat)

  datatype Storage = Storage(used: nat, quota: nat)

  datatype Link = Link(file: nat, expiresAt: Option<int>, accessCount: nat, maxAccess: Option<nat>)

  datatype Db = Db(
    files: map<nat, File>,
    versions: seq<Version>,
    storage: map<Id, Storage>,
    links: map<string, Link>,
    nextId: nat)

  datatype Outcome =
    | Done | NotInStorage | QuotaExceeded | FileNotFound | FileArchived | CurrentVersion | VersionNotFound
    | RowMissing | LinkNotFound | LinkExpired | LinkUsedUp | UnderRetention | NotShareable

  const NO_SHARE_LINK_SCOPES: seq<Id> := ["HEALTH_RECORDS", "COUNSELING_RECORDS", "STAFF_SALARY"]

  // ---------- quota ----------

  function StorageOf(db: Db, tenant: Id): Storage {
    if tenant in db.storage then db.storage[tenant] else Storage(0, FREE_QUOTA)
  }

  /** Reading the quota creates the row when it is missing. */
  function Ensured(db: Db, tenant: Id): Db {
    db.(storage := db.storage[tenant := StorageOf(db, tenant)])
  }

  predicate Allowed(db: Db, tenant: Id, size: nat) {
    StorageOf(db, tenant).used + size <= StorageOf(db, tenant).quota
  }

  function Charged(db: Db, tenant: Id, size: nat): Db {
    var s := StorageOf(db, tenant);
    db.(storage := db.storage[tenant := s.(used := s.used + size)])
  }

  // ---------- files and versions ----------

  predicate FileIn(db: Db, file: nat, tenant: Id) {
    file in db.files && db.files[file].tenant == tenant
  }

  function VersionsOf(versions: seq<Version>, file: nat): (r: seq<Version>)
    ensures forall v :: v in r <==> v in versions && v.file == file
  {
    if versions == [] then []
    else
      assert versions == [versions[0]] + versions[1..];
      (if versions[0].file == file then [versions[0]] else []) + VersionsOf(versions[1..], file)
  }

  function FindVersion(versions: seq<Version>, id: nat, file: nat): (r: Option<Version>)
    ensures r.Some? ==> r.value in versions && r.value.id == id && r.value.file == file
    ensures r.None? ==> forall v :: v in versions ==> v.id != id || v.file != file
  {
    if versions == [] then None
    else if versions[0].id == id && versions[0].file == file then Some(versions[0])
    else FindVersion(versions[1..], id, file)
  }

  function WithoutVersion(versions: seq<Version>, id: nat): (r: seq<Version>)
    ensures forall v :: v in r <==> v in versions && v.id != id
  {
    if versions == [] then []
    else
      assert versions == [versions[0]] + versions[1..];
      (if versions[0].id == id then [] else [versions[0]]) + WithoutVersion(versions[1..], id)
  }

  /** The size is what the object store reports for the uploaded key, if it has it. */
  function AfterCreateFile(db: Db, tenant: Id, scope: Id, size: Option<nat>): (Db, Outcome) {
    if size.None? then (db, NotInStorage)
    else if !Allowed(db, tenant, size.value) then (Ensured(db, tenant), QuotaExceeded)
    else
      var file, version := db.nextId, db.nextId + 1;
      var created := Ensured(db, tenant).(
        files := db.files[file := File(tenant, scope, 1, version, ACTIVE)],
        versions := db.versions + [Version(version, file, tenant, 1, size.value)],
        nextId := db.nextId + 2);
      (Charged(created, tenant, size.value), Done)
  }

  function AfterAddVersion(db: Db, tenant: Id, file: nat, size: Option<nat>): (Db, Outcome) {
    if !FileIn(db, file, tenant) then (db, FileNotFound)
    else if db.files[file].status == ARCHIVED then (db, FileArchived)
    else if size.None? then (db, NotInStorage)
    else if !Allowed(db, tenant, size.value) then (Ensured(db, tenant), QuotaExceeded)
    else
      var next, version := db.files[file].totalVersions + 1, db.nextId;
      var added := Ensured(db, tenant).(
        files := db.files[file := db.files[file].(totalVersions := next, current := version)],
        versions := db.versions + [Version(version, file, tenant, next, size.value)],
        nextId := db.nextId + 1);
      (Charged(added, tenant, size.value), Done)
  }

  /** The row is deleted, then deleted again: the second call finds nothing and throws. */
  function AfterDeleteVersion(db: Db, tenant: Id, file: nat, version: nat): (Db, Outcome) {
    if !FileIn(db, file, tenant) then (db, FileNotFound)
    else if db.files[file].status == ARCHIVED then (db, FileArchived)
    else if db.files[file].current == version then (db, CurrentVersion)
    else
      match FindVersion(db.versions, version, file)
      case None => (db, VersionNotFound)
      case Some(v) =>
        if v.tenant != tenant then (db, RowMissing)
        else (db.(versions := WithoutVersion(db.versions, version)), RowMissing)
  }

  function AfterArchive(db: Db, tenant: Id, file: nat, retained: bool): (Db, Outcome) {
    if !FileIn(db, file, tenant) then (db, FileNotFound)
    else if db.files[file].status == ARCHIVED then (db, FileArchived)
    else if retained then (db, UnderRetention)
    else (db.(files := db.files[file := db.files[file].(status := ARCHIVED)]), Done)
  }

  // ---------- share links ----------

  function AfterShare(db: Db, tenant: Id, file: nat, token: string, expiresAt: int,
      maxAccess: Option<nat>): (Db, Outcome) {
    if !FileIn(db, file, tenant) then (db, FileNotFound)
    else if db.files[file].status == ARCHIVED then (db, FileArchived)
    else if db.files[file].scope in NO_SHARE_LINK_SCOPES then (db, NotShareable)
    else if token in db.links then (db, RowMissing)
    else (db.(links := db.links[token := Link(file, Some(expiresAt), 0, maxAccess)]), Done)
  }

  /** As with versions, the row is deleted twice and the second call throws. */
  function AfterRevoke(db: Db, tenant: Id, file: nat, token: string): (Db, Outcome) {
    if !FileIn(db, file, tenant) then (db, FileNotFound)
    else if db.files[file].status == ARCHIVED then (db, FileArchived)
    else if token !in db.links || db.links[token].file != file then (db, RowMissing)
    else (db.(links := db.links - {token}), RowMissing)
  }

  predicate HigherNumber(a: Version, b: Version) {
    a.number >= b.number
  }

  /** versions ordered by number, descending, the first one. */
  function Served(db: Db, file: nat): Option<Version> {
    var sorted := Sort(HigherNumber, VersionsOf(db.versions, file));
    if sorted == [] then None else Some(sorted[0])
  }

  /** A limit of zero counts as no limit. */
  predicate UsedUp(link: Link) {
    link.maxAccess.Some? && link.maxAccess.value != 0 && link.accessCount >= link.maxAccess.value
  }

  function AfterAccess(db: Db, token: string, now: int): (Db, Outcome) {
    if token !in db.links || db.links[token].file !in db.files then (db, LinkNotFound)
    else
      var link := db.links[token];
      if link.expiresAt.Some? && link.expiresAt.value < now then (db, LinkExpired)
      else if UsedUp(link) then (db, LinkUsedUp)
      else if db.files[link.file].status != ACTIVE then (db, FileArchived)
      else (db.(links := db.links[token := link.(accessCount := link.accessCount + 1)]), Done)
  }

  // ---------- usage ----------

  function LiveBytes(versions: seq<Version>, tenant: Id): nat {
    if versions == [] then 0
    else (if versions[0].tenant == tenant then versions[0].size else 0) + LiveBytes(versions[1..], tenant)
  }

  /** Every version's file exists: a foreign key. */
  predicate FilesExist(files: map<nat, File>, versions: seq<Version>) {
    forall v :: v in versions ==> v.file in files
  }

  /** Live bytes of a tenant in one scope. */
  function ScopeBytes(files: map<nat, File>, versions: seq<Version>, tenant: Id, scope: Id): nat
    requires FilesExist(files, versions)
  {
    if versions == [] then 0
    else
      var v := versions[|versions| - 1];
      (if v.tenant == tenant && files[v.file].scope == scope then v.size else 0)
      + ScopeBytes(files, versions[..|versions| - 1], tenant, scope)
  }

  datatype Usage = Usage(scope: Id, bytes: nat)

  /** `breakdown[scope] = (breakdown[scope] ?? 0) + bytes`, in a dictionary that keeps insertion order. */
  function Added(breakdown: seq<Usage>, scope: Id, bytes: nat): seq<Usage> {
    if breakdown == [] then [Usage(scope, bytes)]
    else if breakdown[0].scope == scope then [Usage(scope, breakdown[0].bytes + bytes)] + breakdown[1..]
    else [breakdown[0]] + Added(breakdown[1..], scope, bytes)
  }

  function TotalUsage(breakdown: seq<Usage>): nat {
    if breakdown == [] then 0 else breakdown[0].bytes + TotalUsage(breakdown[1..])
  }

  function UsageOf(breakdown: seq<Usage>, scope: Id): nat {
    if breakdown == [] then 0
    else if breakdown[0].scope == scope then breakdown[0].bytes
    else UsageOf(breakdown[1..], scope)
  }

  ghost predicate DistinctScopes(breakdown: seq<Usage>) {
    forall i, j :: 0 <= i < j < |breakdown| ==> breakdown[i].scope != breakdown[j].scope
  }
}
