/** What each operation on files and links answers, and which rows it leaves. */
module RepositoryEffects {
  import opened Basics
  import opened RepositoryDb

  /** Bytes charged to a tenant so far; a tenant without a row has the free quota and is charged nothing. */
  function UsedBytes(db: Db, tenant: Id): nat {
    if tenant in db.storage then db.storage[tenant].used else 0
  }

  function QuotaOf(db: Db, tenant: Id): nat {
    if tenant in db.storage then db.storage[tenant].quota else 2147483648
  }

  /** Nothing but the tenant's storage row, which then exists. */
  ghost predicate OnlyCharged(db: Db, after: Db, tenant: Id, bytes: nat) {
    && after.storage == db.storage[tenant := Storage(UsedBytes(db, tenant) + bytes, QuotaOf(db, tenant))]
  }

  /** A file of one version that it points at, charged for, if the object exists and fits the quota. */
  lemma CreateFileEffects(db: Db, tenant: Id, scope: Id, size: Option<nat>)
    ensures var (after, outcome) := AfterCreateFile(db, tenant, scope, size);
            && outcome == (if size == None then NotInStorage
                           else if UsedBytes(db, tenant) + size.value > QuotaOf(db, tenant) then QuotaExceeded
                           else Done)
            && (outcome == NotInStorage ==> after == db)
            && (outcome == QuotaExceeded ==>
                after == db.(storage := after.storage) && OnlyCharged(db, after, tenant, 0))
            && (outcome == Done ==>
                && OnlyCharged(db, after, tenant, size.value) && after.links == db.links
                && after.nextId == db.nextId + 2
                && db.nextId in after.files && after.files == db.files[db.nextId := after.files[db.nextId]]
                && |after.versions| == |db.versions| + 1 && after.versions[..|db.versions|] == db.versions
                && var f, v := after.files[db.nextId], after.versions[|db.versions|];
                && f == File(tenant, scope, 1, v.id, ACTIVE)
                && v == Version(db.nextId + 1, db.nextId, tenant, 1, size.value))
  {}

  /** The file's next version, which it then points at, charged for, if the object exists and fits the quota. */
  lemma AddVersionEffects(db: Db, tenant: Id, file: nat, size: Option<nat>)
    ensures var (after, outcome) := AfterAddVersion(db, tenant, file, size);
            && outcome == (if !(file in db.files && db.files[file].tenant == tenant) then FileNotFound
                           else if db.files[file].status == ARCHIVED then FileArchived
                           else if size == None then NotInStorage
                           else if UsedBytes(db, tenant) + size.value > QuotaOf(db, tenant) then QuotaExceeded
                           else Done)
            && (outcome != Done && outcome != QuotaExceeded ==> after == db)
            && (outcome == QuotaExceeded ==>
                after == db.(storage := after.storage) && OnlyCharged(db, after, tenant, 0))
            && (outcome == Done ==>
                && OnlyCharged(db, after, tenant, size.value) && after.links == db.links && db.nextId < after.nextId
                && file in db.files
                && |after.versions| == |db.versions| + 1 && after.versions[..|db.versions|] == db.versions
                && var v := after.versions[|db.versions|];
                && v == Version(db.nextId, file, tenant, db.files[file].totalVersions + 1, size.value)
                && after.files == db.files[file := db.files[file].(totalVersions := v.number, current := v.id)])
  {}

  /** A version other than the current one goes, and the call fails all the same. */
  lemma DeleteVersionEffects(db: Db, tenant: Id, file: nat, version: nat)
    ensures var (after, outcome) := AfterDeleteVersion(db, tenant, file, version);
            && (outcome == FileNotFound <==> !(file in db.files && db.files[file].tenant == tenant))
            && (outcome != FileNotFound ==>
                && (outcome == FileArchived <==> db.files[file].status == ARCHIVED)
                && (outcome == CurrentVersion <==>
                    db.files[file].status != ARCHIVED && db.files[file].current == version)
                && (outcome == VersionNotFound <==>
                    && db.files[file].status != ARCHIVED && db.files[file].current != version
                    && forall v :: v in db.versions ==> v.id != version || v.file != file))
            && outcome != Done
            && after == db.(versions := after.versions)
            && (outcome != RowMissing ==> after == db)
  {}

  lemma ArchiveEffects(db: Db, tenant: Id, file: nat, retained: bool)
    ensures var (after, outcome) := AfterArchive(db, tenant, file, retained);
            && outcome == (if !(file in db.files && db.files[file].tenant == tenant) then FileNotFound
                           else if db.files[file].status == ARCHIVED then FileArchived
                           else if retained then UnderRetention else Done)
            && (outcome != Done ==> after == db)
            && (outcome == Done ==>
                file in db.files && after == db.(files := db.files[file := db.files[file].(status := ARCHIVED)]))
  {}

  // ---------- share links ----------

  lemma UnshareableScopes(scope: Id)
    ensures scope in NO_SHARE_LINK_SCOPES <==>
      scope == "HEALTH_RECORDS" || scope == "COUNSELING_RECORDS" || scope == "STAFF_SALARY"
  {
    assert NO_SHARE_LINK_SCOPES[0] == "HEALTH_RECORDS" && NO_SHARE_LINK_SCOPES[1] == "COUNSELING_RECORDS";
    assert NO_SHARE_LINK_SCOPES[2] == "STAFF_SALARY";
  }

  /** A link that has served nobody yet, for a file of a scope that may be shared. */
  lemma ShareEffects(db: Db, tenant: Id, file: nat, token: string, expiresAt: int, maxAccess: Option<nat>)
    ensures var (after, outcome) := AfterShare(db, tenant, file, token, expiresAt, maxAccess);
            && (outcome == FileNotFound <==> !(file in db.files && db.files[file].tenant == tenant))
            && (outcome != FileNotFound ==>
                var f := db.files[file];
                outcome == if f.status == ARCHIVED then FileArchived
                           else if f.scope == "HEALTH_RECORDS" || f.scope == "COUNSELING_RECORDS"
                                   || f.scope == "STAFF_SALARY" then NotShareable
                           else if token in db.links then RowMissing else Done)
            && (outcome != Done ==> after == db)
            && (outcome == Done ==> after == db.(links := db.links[token := Link(file, Some(expiresAt), 0, maxAccess)]))
  {
    if file in db.files {
      UnshareableScopes(db.files[file].scope);
    }
  }

  /** No access is left: a limit other than zero has been reached. */
  predicate Exhausted(link: Link) {
    link.maxAccess != None && link.maxAccess.value > 0 && link.accessCount >= link.maxAccess.value
  }

  /** A link in time, not exhausted, to an active file: the access is counted, and nothing else changes. */
  lemma AccessEffects(db: Db, token: string, now: int)
    ensures var (after, outcome) := AfterAccess(db, token, now);
            && (outcome == LinkNotFound <==> !(token in db.links && db.links[token].file in db.files))
            && (outcome != LinkNotFound ==>
                var link := db.links[token];
                && outcome == (if link.expiresAt != None && link.expiresAt.value < now then LinkExpired
                               else if Exhausted(link) then LinkUsedUp
                               else if db.files[link.file].status != ACTIVE then FileArchived
                               else Done)
                && (outcome == Done ==>
                    after == db.(links := db.links[token := link.(accessCount := link.accessCount + 1)])))
            && (outcome != Done ==> after == db)
  {}

  // ---------- a link serves exactly as often as it may ----------

  function Accessed(db: Db, token: string, times: seq<int>): Db {
    if times == [] then db else AfterAccess(Accessed(db, token, times[..|times| - 1]), token, times[|times| - 1]).0
  }

  /** A link in working order at these times. */
  ghost predicate Works(db: Db, token: string, times: seq<int>) {
    && token in db.links && db.links[token].file in db.files && db.files[db.links[token].file].status == ACTIVE
    && forall k :: 0 <= k < |times| ==> InTime(db.links[token], times[k])
  }

  predicate InTime(link: Link, now: int) {
    link.expiresAt == None || now <= link.expiresAt.value
  }

  lemma {:induction false} AccessesCounted(db: Db, token: string, times: seq<int>, n: nat)
    requires Works(db, token, times) && 0 < n
    requires db.links[token].accessCount == 0 && db.links[token].maxAccess == Some(n)
    ensures var after := Accessed(db, token, times);
            && after == db.(links :=
              db.links[token := db.links[token].(accessCount := if |times| < n then |times| else n)])
  {
    if times == [] {
      assert db.links[token := db.links[token]] == db.links;
    } else {
      var rest, last := times[..|times| - 1], times[|times| - 1];
      assert InTime(db.links[token], last);
      AccessesCounted(db, token, rest, n);
      var before := Accessed(db, token, rest);
      AccessEffects(before, token, last);
    }
  }

  /** A link limited to n accesses serves the first n and answers every later one that it is used up. */
  lemma LimitedLinkServes(db: Db, token: string, times: seq<int>, now: int, n: nat)
    requires Works(db, token, times + [now]) && 0 < n
    requires db.links[token].accessCount == 0 && db.links[token].maxAccess == Some(n)
    ensures AfterAccess(Accessed(db, token, times), token, now).1 == if |times| < n then Done else LinkUsedUp
  {
    hide AfterAccess, Accessed;
    var all := times + [now];
    assert InTime(db.links[token], all[|times|]);
    forall k | 0 <= k < |times| ensures InTime(db.links[token], times[k]) {
      assert InTime(db.links[token], all[k]);
    }
    AccessesCounted(db, token, times, n);
    AccessEffects(Accessed(db, token, times), token, now);
  }
}
