/** The repository services as they run: rows created, repointed, deleted and counted one after the other. */
module RepositoryService {
  import opened Basics
  import opened RepositoryDb
  import opened RepositorySafety

  class RepositoryService {
    var files: map<nat, File>
    var versions: seq<Version>
    var storage: map<Id, Storage>
    var links: map<string, Link>
    var nextId: nat

    function Tables(): Db
      reads this
    {
      Db(files, versions, storage, links, nextId)
    }

    constructor ()
      ensures Tables() == Db(map[], [], map[], map[], 0)
      ensures Consistent(Tables())
    {
      files, versions, storage, links, nextId := map[], [], map[], map[], 0;
    }

    // ---------- quota ----------

    method AssertUploadAllowed(tenant: Id, size: nat) returns (allowed: bool)
      modifies this`storage
      ensures Tables() == Ensured(old(Tables()), tenant)
      ensures allowed <==> old(StorageOf(Tables(), tenant).used) + size <= old(StorageOf(Tables(), tenant).quota)
      ensures old(Consistent(Tables())) ==> Consistent(Tables())
    {
      hide Consistent;
      if Consistent(Tables()) {
        EnsuredKeeps(Tables(), tenant);
      }
      if tenant !in storage {
        storage := storage[tenant := Storage(0, FREE_QUOTA)];
      }
      allowed := storage[tenant].used + size <= storage[tenant].quota;
    }

    method IncrementUsage(tenant: Id, size: nat)
      modifies this`storage
      ensures Tables() == Charged(old(Tables()), tenant, size)
    {
      if tenant in storage {
        storage := storage[tenant := storage[tenant].(used := storage[tenant].used + size)];
      } else {
        storage := storage[tenant := Storage(size, FREE_QUOTA)];
      }
    }

    method GetUsageBreakdown(tenant: Id) returns (breakdown: seq<Usage>)
      requires FilesExist(files, versions)
      ensures DistinctScopes(breakdown)
      ensures forall scope :: UsageOf(breakdown, scope) == ScopeBytes(files, versions, tenant, scope)
      ensures TotalUsage(breakdown) == LiveBytes(versions, tenant)
    {
      breakdown := [];
      var i := 0;
      while i < |versions|
        invariant 0 <= i <= |versions|
        invariant BreaksDown(files, versions[..i], tenant, breakdown)
      {
        var version := versions[i];
        assert versions[..i + 1] == versions[..i] + [version];
        BreaksDownOneMore(files, versions[..i], tenant, breakdown, version);
        if version.tenant == tenant {
          breakdown := Added(breakdown, files[version.file].scope, version.size);
        }
        i := i + 1;
      }
      assert versions[..i] == versions;
    }

    // ---------- files and versions ----------

    /** `size` is what the object store reports for the uploaded key, if it has it. */
    method CreateFileRecord(tenant: Id, scope: Id, size: Option<nat>) returns (outcome: Outcome)
      modifies this
      ensures (Tables(), outcome) == AfterCreateFile(old(Tables()), tenant, scope, size)
      ensures old(Consistent(Tables())) ==> Consistent(Tables())
    {
      hide Consistent;
      if Consistent(Tables()) {
        CreateFileKeeps(Tables(), tenant, scope, size);
      }
      if size.None? {
        return NotInStorage;
      }
      var allowed := AssertUploadAllowed(tenant, size.value);
      if !allowed {
        return QuotaExceeded;
      }
      var file := nextId;
      files := files[file := File(tenant, scope, 1, 0, ACTIVE)];
      var version := nextId + 1;
      versions := versions + [Version(version, file, tenant, 1, size.value)];
      files := files[file := files[file].(current := version)];
      nextId := nextId + 2;
      IncrementUsage(tenant, size.value);
      outcome := Done;
      assert files == old(files)[file := File(tenant, scope, 1, version, ACTIVE)];
    }

    method AddNewVersion(tenant: Id, file: nat, size: Option<nat>) returns (outcome: Outcome)
      modifies this
      ensures (Tables(), outcome) == AfterAddVersion(old(Tables()), tenant, file, size)
      ensures old(Consistent(Tables())) ==> Consistent(Tables())
    {
      hide Consistent;
      if Consistent(Tables()) {
        AddVersionKeeps(Tables(), tenant, file, size);
      }
      if file !in files || files[file].tenant != tenant {
        return FileNotFound;
      }
      if files[file].status == ARCHIVED {
        return FileArchived;
      }
      if size.None? {
        return NotInStorage;
      }
      var next := files[file].totalVersions + 1;
      var allowed := AssertUploadAllowed(tenant, size.value);
      if !allowed {
        return QuotaExceeded;
      }
      var version := nextId;
      versions := versions + [Version(version, file, tenant, next, size.value)];
      files := files[file := files[file].(totalVersions := next, current := version)];
      nextId := nextId + 1;
      IncrementUsage(tenant, size.value);
      outcome := Done;
    }

    method DeleteVersion(tenant: Id, file: nat, version: nat) returns (outcome: Outcome)
      modifies this`versions
      ensures (Tables(), outcome) == AfterDeleteVersion(old(Tables()), tenant, file, version)
      ensures old(Consistent(Tables())) ==> Consistent(Tables())
    {
      hide Consistent;
      if Consistent(Tables()) {
        DeleteVersionKeeps(Tables(), tenant, file, version);
      }
      if file !in files || files[file].tenant != tenant {
        return FileNotFound;
      }
      if files[file].status == ARCHIVED {
        return FileArchived;
      }
      if files[file].current == version {
        return CurrentVersion;
      }
      var found := FindVersion(versions, version, file);
      if found.None? {
        return VersionNotFound;
      }
      if found.value.tenant != tenant {
        return RowMissing;
      }
      versions := WithoutVersion(versions, version);
      // The second delete of the same row finds nothing.
      outcome := RowMissing;
    }

    method SoftDelete(tenant: Id, file: nat, retained: bool) returns (outcome: Outcome)
      modifies this`files
      ensures (Tables(), outcome) == AfterArchive(old(Tables()), tenant, file, retained)
      ensures old(Consistent(Tables())) ==> Consistent(Tables())
    {
      hide Consistent;
      if Consistent(Tables()) {
        StepKeeps(Tables(), RepositorySafety.Archive(tenant, file, retained));
      }
      if file !in files || files[file].tenant != tenant {
        return FileNotFound;
      }
      if files[file].status == ARCHIVED {
        return FileArchived;
      }
      if retained {
        return UnderRetention;
      }
      files := files[file := files[file].(status := ARCHIVED)];
      outcome := Done;
    }

    // ---------- share links ----------

    method GenerateShareLink(tenant: Id, file: nat, token: string, expiresAt: int, maxAccess: Option<nat>)
        returns (outcome: Outcome)
      modifies this`links
      ensures (Tables(), outcome) == AfterShare(old(Tables()), tenant, file, token, expiresAt, maxAccess)
      ensures old(Consistent(Tables())) ==> Consistent(Tables())
    {
      hide Consistent;
      if Consistent(Tables()) {
        StepKeeps(Tables(), RepositorySafety.Share(tenant, file, token, expiresAt, maxAccess));
      }
      if file !in files || files[file].tenant != tenant {
        return FileNotFound;
      }
      if files[file].status == ARCHIVED {
        return FileArchived;
      }
      if files[file].scope in NO_SHARE_LINK_SCOPES {
        return NotShareable;
      }
      if token in links {
        return RowMissing;
      }
      links := links[token := Link(file, Some(expiresAt), 0, maxAccess)];
      outcome := Done;
    }

    method RevokeShareLink(tenant: Id, file: nat, token: string) returns (outcome: Outcome)
      modifies this`links
      ensures (Tables(), outcome) == AfterRevoke(old(Tables()), tenant, file, token)
      ensures old(Consistent(Tables())) ==> Consistent(Tables())
    {
      hide Consistent;
      if Consistent(Tables()) {
        StepKeeps(Tables(), RepositorySafety.Revoke(tenant, file, token));
      }
      if file !in files || files[file].tenant != tenant {
        return FileNotFound;
      }
      if files[file].status == ARCHIVED {
        return FileArchived;
      }
      if token in links && links[token].file == file {
        links := links - {token};
      }
      outcome := RowMissing;
    }

    /** A link in working order serves the version its file points at, and counts the access. */
    method AccessShareLink(token: string, now: int) returns (outcome: Outcome, served: Option<Version>)
      requires Consistent(Tables())
      modifies this`links
      ensures (Tables(), outcome) == AfterAccess(old(Tables()), token, now)
      ensures outcome != Done ==> served == None
      ensures outcome == Done ==>
                && served.Some? && served.value in versions
                && served.value.file == old(links[token].file)
                && served.value.id == files[served.value.file].current
                && served.value.number == files[served.value.file].totalVersions
      ensures old(Consistent(Tables())) ==> Consistent(Tables())
    {
      hide Consistent, Served;
      if Consistent(Tables()) {
        StepKeeps(Tables(), RepositorySafety.Access(token, now));
      }
      served := None;
      if token !in links || links[token].file !in files {
        return LinkNotFound, None;
      }
      var link := links[token];
      if link.expiresAt.Some? && link.expiresAt.value < now {
        return LinkExpired, None;
      }
      if UsedUp(link) {
        return LinkUsedUp, None;
      }
      if files[link.file].status != ACTIVE {
        return FileArchived, None;
      }
      ServedIsCurrent(Tables(), link.file);
      served := Served(Tables(), link.file);
      ServedFromFile(Tables(), link.file);
      links := links[token := link.(accessCount := link.accessCount + 1)];
      outcome := Done;
    }
  }
}
