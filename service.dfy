/**
 * SysImageServiceImpl as an object over its two stores: the catalog table
 * (`rows`) and the Redis hash (`cache`). The Docker daemon's answers and
 * the Redis failures are parameters of each operation.
 */
module Service {
  import opened Wrappers
  import opened JavaLang
  import opened ImageTypes
  import opened Records
  import opened Reference
  import opened Authorization
  import opened Reconcile
  import opened CacheAside

  /** The ResultEnum codes these operations return. */
  datatype ErrorCode =
    | PARAM_ERROR
    | PERMISSION_ERROR
    | DELETE_IMAGE_PERMISSION_ERROR
    | DELETE_IMAGE_BY_CONTAINER_ERROR
    | DOCKER_EXCEPTION

  /** A ResultVo, or an exception that escapes the service method. */
  datatype Response = Success | Error(code: ErrorCode) | Raised(error: Exception)

  /** syncLocalImage's ResultVo: the three counts, or DOCKER_EXCEPTION. */
  datatype SyncReport = Synced(deleted: nat, added: nat, errors: nat) | DockerException

  class ImageService {
    var rows: seq<SysImage>
    var cache: Cache

    /** The table's primary key holds. */
    ghost predicate Valid()
      reads this
    {
      UniqueIds(rows)
    }

    constructor(rows0: seq<SysImage>, cache0: Cache)
      requires UniqueIds(rows0)
      ensures Valid() && rows == rows0 && cache == cache0
    {
      rows := rows0;
      cache := cache0;
    }

    /** getById: a cached read of the record with this id. */
    method GetById(id: string, redis: RedisFaults) returns (image: Option<SysImage>)
      modifies this`cache
      ensures var l := LookupById(rows, old(cache), id, redis); image == l.image && cache == l.cache
      ensures Coherent(rows, old(cache)) ==> image == SelectById(rows, id) && Coherent(rows, cache)
    {
      if Coherent(rows, cache) {
        LookupByIdCoherent(rows, cache, id, redis);
      }
      var field := IdField(id);
      if !redis.hget && field in cache && cache[field].Json? {
        return Some(cache[field].image);
      }
      image := SelectById(rows, id);
      if image.None? {
        return;
      }
      if !redis.hset {
        cache := cache[field := Json(image.value)];
      }
    }

    /** getByFullName: a cached read of the first record with this fullName. */
    method GetByFullName(fullName: string, redis: RedisFaults) returns (image: Option<SysImage>)
      modifies this`cache
      ensures var l := LookupByFullName(rows, old(cache), fullName, redis); image == l.image && cache == l.cache
      ensures Coherent(rows, old(cache)) ==> image == SelectByFullName(rows, fullName) && Coherent(rows, cache)
    {
      if Coherent(rows, cache) {
        LookupByFullNameCoherent(rows, cache, fullName, redis);
      }
      var field := FullNameField(fullName);
      if !redis.hget && field in cache && cache[field].Json? {
        return Some(cache[field].image);
      }
      image := SelectByFullName(rows, fullName);
      if image.None? {
        return;
      }
      if !redis.hset {
        cache := cache[field := Json(image.value)];
      }
    }

    /** cleanCache: delete the record's two fields, skipping blank arguments. */
    method CleanCache(id: Option<string>, fullName: Option<string>, redis: RedisFaults)
      modifies this`cache
      ensures cache == Clean(old(cache), id, fullName, redis)
      ensures Coherent(rows, old(cache)) ==> Coherent(rows, cache)
    {
      if Coherent(rows, cache) {
        CleanKeepsCoherent(rows, cache, id, fullName, redis);
      }
      if !IsBlank(id) {
        if redis.hdelId {
          return;
        }
        cache := cache - {IdField(id.value)};
      }
      if !IsBlank(fullName) && !redis.hdelFullName {
        cache := cache - {FullNameField(fullName.value)};
      }
    }

    /**
     * changOpenImage: only the owner of a user image may open or close it;
     * the flag is written, and the cache cleaned, only when it changes.
     */
    method ChangOpenImage(id: string, uid: string, code: bool, redis: RedisFaults) returns (resp: Response)
      requires Valid()
      modifies this
      ensures Valid()
      ensures var seen := LookupById(old(rows), old(cache), id, redis).image;
              && (seen.None? ==> resp == Error(PARAM_ERROR))
              && (seen.Some? && MayToggleOpen(uid, seen.value).Threw? ==> resp == Raised(NullPointer))
              && (seen.Some? && MayToggleOpen(uid, seen.value) == Returned(false) ==> resp == Error(PERMISSION_ERROR))
              && (seen.Some? && MayToggleOpen(uid, seen.value) == Returned(true) ==>
                    && (seen.value.hasOpen.None? ==> resp == Raised(NullPointer))
                    && (seen.value.hasOpen.Some? ==> resp == Success))
              && (resp == Success && seen.value.hasOpen != Some(code) ==>
                    var edited := seen.value.(hasOpen := Some(code));
                    rows == UpdateById(old(rows), edited)
                    && cache == Clean(LookupById(old(rows), old(cache), id, redis).cache, Some(edited.id), edited.fullName, redis))
              && (!(resp == Success && seen.value.hasOpen != Some(code)) ==>
                    rows == old(rows) && cache == LookupById(old(rows), old(cache), id, redis).cache)
      ensures redis == NoFaults && Coherent(old(rows), old(cache)) && LookupById(old(rows), old(cache), id, redis).image.Some?
              && Cleanable(LookupById(old(rows), old(cache), id, redis).image.value) ==>
                Coherent(rows, cache)
    {
      var found := GetById(id, redis);
      if found.None? {
        return Error(PARAM_ERROR);
      }
      var image := found.value;
      var allowed := MayToggleOpen(uid, image);
      if allowed.Threw? {
        return Raised(allowed.error);
      }
      if !allowed.value {
        return Error(PERMISSION_ERROR);
      }
      if image.hasOpen.None? {
        return Raised(NullPointer);
      }
      if image.hasOpen.value != code {
        var edited := image.(hasOpen := Some(code));
        ghost var rows0 := rows;
        ghost var cache0 := cache;
        rows := UpdateById(rows, edited);
        UpdateKeepsKey(rows0, edited);
        CleanCache(Some(edited.id), edited.fullName, redis);
        if redis == NoFaults && Coherent(old(rows), old(cache)) && Cleanable(image) {
          OverlayOfEdit(image, code);
          UpdateThenCleanCoherent(rows0, cache0, image, edited);
        }
      }
      return Success;
    }

    /**
     * removeImage: an ordinary user may delete only their own non-public
     * image; the daemon removes the image, then the record is deleted and
     * its cache fields cleaned. `roleName` is the caller's role and
     * `dockerRemoveFails` whether the daemon refuses the removal.
     */
    method RemoveImage(id: string, userId: string, roleName: Option<string>, dockerRemoveFails: bool, redis: RedisFaults)
      returns (resp: Response)
      requires Valid()
      modifies this
      ensures Valid()
      ensures var seen := LookupById(old(rows), old(cache), id, redis).image;
              && (seen.None? ==> resp == Error(PARAM_ERROR))
              && (seen.Some? && MayDelete(userId, roleName, seen.value).Threw? ==> resp == Raised(NullPointer))
              && (seen.Some? && MayDelete(userId, roleName, seen.value) == Returned(false) ==>
                    resp == Error(DELETE_IMAGE_PERMISSION_ERROR))
              && (seen.Some? && MayDelete(userId, roleName, seen.value) == Returned(true) ==>
                    resp == if dockerRemoveFails then Error(DELETE_IMAGE_BY_CONTAINER_ERROR) else Success)
              && (resp == Success ==>
                    rows == DeleteById(old(rows), seen.value.id)
                    && cache == Clean(LookupById(old(rows), old(cache), id, redis).cache, Some(seen.value.id), seen.value.fullName, redis))
              && (resp != Success ==> rows == old(rows) && cache == LookupById(old(rows), old(cache), id, redis).cache)
      ensures redis == NoFaults && Coherent(old(rows), old(cache)) && resp == Success
              && LookupById(old(rows), old(cache), id, redis).image.Some?
              && Cleanable(LookupById(old(rows), old(cache), id, redis).image.value) ==>
                Coherent(rows, cache)
    {
      var found := GetById(id, redis);
      if found.None? {
        return Error(PARAM_ERROR);
      }
      var image := found.value;
      var allowed := MayDelete(userId, roleName, image);
      if allowed.Threw? {
        return Raised(allowed.error);
      }
      if !allowed.value {
        return Error(DELETE_IMAGE_PERMISSION_ERROR);
      }
      if dockerRemoveFails {
        return Error(DELETE_IMAGE_BY_CONTAINER_ERROR);
      }
      ghost var rows0 := rows;
      ghost var cache0 := cache;
      rows := DeleteById(rows, image.id);
      DeleteKeepsKey(rows0, image.id);
      CleanCache(Some(image.id), image.fullName, redis);
      if redis == NoFaults && Coherent(old(rows), old(cache)) && Cleanable(image) {
        DeleteThenCleanCoherent(rows0, cache0, image);
      }
      return Success;
    }

    /**
     * syncLocalImage: reconcile the table with the daemon's listing
     * (`listing` is None when listImages fails). Unclaimed records are
     * deleted first, then each image not found is translated and inserted;
     * a translation that throws or an insert that hits the primary key ends
     * the sync with DOCKER_EXCEPTION, keeping what was already written.
     */
    method SyncLocalImage(listing: Option<seq<RuntimeImage>>) returns (report: SyncReport)
      requires Valid()
      modifies this`rows
      ensures Valid()
      ensures listing.None? ==> report == DockerException && rows == old(rows)
      ensures listing.Some? ==>
                var rt := listing.value;
                var ps := Pending(FoundFlags(rt, old(rows)), Translations(rt), |rt|);
                var kept := Kept(rt, old(rows));
                && (report.Synced? <==> !AnyThrows(ps) && UniqueIds(kept + Inserted(ps)))
                && (report.Synced? ==>
                      && rows == kept + Inserted(ps)
                      && report == Synced(|old(rows)| - |kept|, |Inserted(ps)|, Nulls(ps))
                      && report.deleted == multiset(ClaimFlags(rt, old(rows)))[false]
                      && report.added + report.errors == multiset(FoundFlags(rt, old(rows)))[false])
                && (!report.Synced? ==> kept <= rows <= kept + Inserted(ps))
    {
      var db := rows;
      if listing.None? {
        return DockerException;
      }
      var rt := listing.value;
      var dbFlag, serverFlag := MatchImages(rt, db);
      var deleted := DeleteUnclaimed(rt, db, dbFlag);
      var ok, added, errors := InsertPending(rt, serverFlag);
      if !ok {
        return DockerException;
      }
      KeptCount(rt, db);
      UnfoundCount(rt, db, Translations(rt));
      return Synced(deleted, added, errors);
    }

    /** The delete phase: every record whose flag is unset is deleted by id, in table order. */
    method DeleteUnclaimed(rt: seq<RuntimeImage>, db: seq<SysImage>, dbFlag: seq<bool>) returns (deleted: nat)
      requires rows == db && UniqueIds(db)
      requires |dbFlag| == |db| && forall j :: 0 <= j < |db| ==> (dbFlag[j] <==> Claimed(rt, db[j]))
      modifies this`rows
      ensures rows == Kept(rt, db) && UniqueIds(rows)
      ensures deleted == |db| - |Kept(rt, db)|
    {
      var current := db;
      deleted := 0;
      for j := 0 to |db|
        invariant current == Kept(rt, db[..j]) + db[j..]
        invariant deleted == j - |Kept(rt, db[..j])|
      {
        KeptStep(rt, db, j);
        if !dbFlag[j] {
          DeleteUnclaimedStep(rt, db, j);
          current := DeleteById(current, db[j].id);
          deleted := deleted + 1;
        } else {
          KeepClaimedStep(rt, db, j);
        }
      }
      assert db[..|db|] == db;
      KeptUnique(rt, db);
      rows := current;
    }

    /**
     * The insert phase: each image whose flag is unset is translated; a
     * null translation is counted as an error, a record is inserted unless
     * its id is already in the table; a translation that throws or a
     * duplicate key stops the phase.
     */
    method InsertPending(rt: seq<RuntimeImage>, serverFlag: seq<bool>)
      returns (ok: bool, added: nat, errors: nat)
      requires UniqueIds(rows)
      requires |serverFlag| == |rt|
      modifies this`rows
      ensures UniqueIds(rows)
      ensures var ps := Pending(serverFlag, Translations(rt), |rt|);
              && (ok <==> !AnyThrows(ps) && UniqueIds(old(rows) + Inserted(ps)))
              && (ok ==> rows == old(rows) + Inserted(ps) && added == |Inserted(ps)| && errors == Nulls(ps))
              && (!ok ==> old(rows) <= rows <= old(rows) + Inserted(ps))
    {
      var current;
      ok, current, added, errors := InsertAll(rt, serverFlag, rows);
      rows := current;
    }
  }

  method InsertAll(rt: seq<RuntimeImage>, serverFlag: seq<bool>, kept: seq<SysImage>)
    returns (ok: bool, current: seq<SysImage>, added: nat, errors: nat)
    requires UniqueIds(kept)
    requires |serverFlag| == |rt|
    ensures UniqueIds(current)
    ensures var ps := Pending(serverFlag, Translations(rt), |rt|);
            && (ok <==> !AnyThrows(ps) && UniqueIds(kept + Inserted(ps)))
            && (ok ==> current == kept + Inserted(ps) && added == |Inserted(ps)| && errors == Nulls(ps))
            && (!ok ==> kept <= current <= kept + Inserted(ps))
  {
    ghost var ts := Translations(rt);
    ghost var done: seq<Outcome<Option<SysImage>>> := [];
    current := kept;
    ok, added, errors := true, 0, 0;
    for i := 0 to |rt|
      invariant done == Pending(serverFlag, ts, i)
      invariant current == kept + Inserted(done)
      invariant !AnyThrows(done)
      invariant UniqueIds(current)
      invariant added == |Inserted(done)| && errors == Nulls(done)
    {
      PendingStep(serverFlag, ts, i);
      if serverFlag[i] {
        assert done + [] == done;
        continue;
      }
      var outcome := ImageToSysImage(rt[i]);
      var stop;
      stop, current, added, errors := InsertOne(kept, done, outcome, current, added, errors);
      if stop {
        StopsEarly(serverFlag, ts, i, kept);
        return false, current, added, errors;
      }
      done := done + [outcome];
    }
  }

  /**
   * One translation of the insert phase: it stops the phase when it threw
   * or its record's id is already in the table, and otherwise inserts the
   * record or counts the null.
   */
  method InsertOne(ghost kept: seq<SysImage>, ghost done: seq<Outcome<Option<SysImage>>>, outcome: Outcome<Option<SysImage>>,
                   current: seq<SysImage>, added: nat, errors: nat)
    returns (stop: bool, next: seq<SysImage>, added': nat, errors': nat)
    requires current == kept + Inserted(done) && UniqueIds(current) && !AnyThrows(done)
    requires added == |Inserted(done)| && errors == Nulls(done)
    ensures stop <==> outcome.Threw? || (outcome.value.Some? && HasId(current, outcome.value.value.id))
    ensures stop ==> next == current && added' == added && errors' == errors
    ensures !stop ==>
              && next == kept + Inserted(done + [outcome]) && UniqueIds(next) && !AnyThrows(done + [outcome])
              && added' == |Inserted(done + [outcome])| && errors' == Nulls(done + [outcome])
  {
    if outcome.Threw? || (outcome.value.Some? && HasId(current, outcome.value.value.id)) {
      return true, current, added, errors;
    }
    InsertStep(kept, done, outcome, current);
    if outcome.value.Some? {
      return false, current + [outcome.value.value], added + 1, errors;
    }
    return false, current, added, errors + 1;
  }

  /** The records inserted over the first i images are a prefix of those inserted over all of them. */
  lemma InsertedSoFar(found: seq<bool>, ts: seq<Outcome<Option<SysImage>>>, i: nat)
    requires i <= |found| == |ts|
    ensures Inserted(Pending(found, ts, i)) <= Inserted(Pending(found, ts, |found|))
  {
    PendingPrefix(found, ts, i, |found|);
    InsertedPrefix(Pending(found, ts, i), Pending(found, ts, |found|));
  }

  /** A translation that throws at image i makes the whole insert phase throw. */
  lemma StopsOnThrow(found: seq<bool>, ts: seq<Outcome<Option<SysImage>>>, i: nat)
    requires i < |found| == |ts| && ts[i].Threw? && !found[i]
    ensures AnyThrows(Pending(found, ts, |found|))
  {
    PendingExtends(found, ts, i);
    ThrowInPrefix(Pending(found, ts, i) + [ts[i]], Pending(found, ts, |found|), |Pending(found, ts, i)|);
  }

  /** The translation of an image not found follows what is pending before it, within all that is pending. */
  lemma PendingExtends(found: seq<bool>, ts: seq<Outcome<Option<SysImage>>>, i: nat)
    requires i < |found| == |ts| && !found[i]
    ensures Pending(found, ts, i) + [ts[i]] <= Pending(found, ts, |found|)
  {
    PendingStep(found, ts, i);
    PendingPrefix(found, ts, i + 1, |found|);
  }

  /** A record at image i whose id is already in the table breaks the key of the whole result. */
  lemma StopsOnDuplicate(found: seq<bool>, ts: seq<Outcome<Option<SysImage>>>, i: nat, kept: seq<SysImage>)
    requires i < |found| == |ts| && !found[i] && ts[i].Returned? && ts[i].value.Some?
    requires HasId(kept + Inserted(Pending(found, ts, i)), ts[i].value.value.id)
    ensures !UniqueIds(kept + Inserted(Pending(found, ts, |found|)))
  {
    PendingExtends(found, ts, i);
    DuplicateAfter(kept, Pending(found, ts, i), ts[i], Pending(found, ts, |found|));
  }

  /** A record whose id is already present, translated after before and within ps, breaks the key. */
  lemma DuplicateAfter(kept: seq<SysImage>, before: seq<Outcome<Option<SysImage>>>, p: Outcome<Option<SysImage>>,
                       ps: seq<Outcome<Option<SysImage>>>)
    requires before + [p] <= ps && p.Returned? && p.value.Some?
    requires HasId(kept + Inserted(before), p.value.value.id)
    ensures !UniqueIds(kept + Inserted(ps))
  {
    InsertedPrefix(before + [p], ps);
    InsertedSnoc(before, p);
    DuplicateBreaksKey(kept, Inserted(before), p.value.value, Inserted(ps));
  }

  /** Prefixes survive a common head. */
  lemma ConcatPrefix(head: seq<SysImage>, a: seq<SysImage>, b: seq<SysImage>)
    requires a <= b
    ensures head + a <= head + b
  {
    assert (head + b)[..|head + a|] == head + a;
  }

  /**
   * A translation at image i that throws, or whose record's id is already
   * in the table, leaves the whole insert phase failing; what was inserted
   * before it is a prefix of what the phase would insert.
   */
  lemma StopsEarly(found: seq<bool>, ts: seq<Outcome<Option<SysImage>>>, i: nat, kept: seq<SysImage>)
    requires i < |found| == |ts| && !found[i]
    requires ts[i].Threw? ||
             (ts[i].value.Some? && HasId(kept + Inserted(Pending(found, ts, i)), ts[i].value.value.id))
    ensures var ps := Pending(found, ts, |found|);
            && (AnyThrows(ps) || !UniqueIds(kept + Inserted(ps)))
            && kept <= kept + Inserted(Pending(found, ts, i)) <= kept + Inserted(ps)
  {
    var ins := Inserted(Pending(found, ts, i));
    var all := Inserted(Pending(found, ts, |found|));
    if ts[i].Threw? {
      StopsOnThrow(found, ts, i);
    } else {
      StopsOnDuplicate(found, ts, i, kept);
    }
    InsertedSoFar(found, ts, i);
    ConcatPrefix(kept, [], ins);
    ConcatPrefix(kept, ins, all);
    assert kept + [] == kept;
  }

  /** One more translation that neither throws nor clashes: the loop's bookkeeping carries over. */
  lemma InsertStep(kept: seq<SysImage>, done: seq<Outcome<Option<SysImage>>>, p: Outcome<Option<SysImage>>, current: seq<SysImage>)
    requires current == kept + Inserted(done) && UniqueIds(current) && !AnyThrows(done) && p.Returned?
    requires p.value.Some? ==> !HasId(current, p.value.value.id)
    ensures var next := if p.value.Some? then current + [p.value.value] else current;
            && next == kept + Inserted(done + [p])
            && UniqueIds(next)
            && !AnyThrows(done + [p])
            && |Inserted(done + [p])| == |Inserted(done)| + (if p.value.Some? then 1 else 0)
            && Nulls(done + [p]) == Nulls(done) + (if p.value.Some? then 0 else 1)
  {
    InsertedSnoc(done, p);
    CountsSnoc(done, p);
    if p.value.Some? {
      UniqueIdsSnoc(current, p.value.value);
      assert kept + Inserted(done) + [p.value.value] == kept + (Inserted(done) + [p.value.value]);
    } else {
      assert Inserted(done) + [] == Inserted(done);
    }
  }

  /** updateById keeps every id where it was, so the primary key still holds. */
  lemma UpdateKeepsKey(rows: seq<SysImage>, image: SysImage)
    requires UniqueIds(rows)
    ensures UniqueIds(UpdateById(rows, image))
  {
  }

  /** deleteById removes rows, so the primary key still holds. */
  lemma {:induction false} DeleteKeepsKey(rows: seq<SysImage>, id: string)
    requires UniqueIds(rows)
    ensures UniqueIds(DeleteById(rows, id))
  {
    if |rows| > 0 {
      var rest := rows[1..];
      UniqueIdsTail(rows);
      DeleteKeepsKey(rest, id);
      if rows[0].id != id {
        var r := DeleteById(rest, id);
        forall a | 0 <= a < |r| ensures r[a].id != rows[0].id {
          assert r[a] in rest;
          var b :| 0 <= b < |rest| && rest[b] == r[a];
          assert rows[b + 1] == r[a];
        }
        UniqueIdsCons(rows[0], r);
      }
    }
  }

  /** What one more translation adds to the insert phase's records. */
  lemma InsertedSnoc(ps: seq<Outcome<Option<SysImage>>>, p: Outcome<Option<SysImage>>)
    ensures Inserted(ps + [p]) == Inserted(ps) + if p.Returned? && p.value.Some? then [p.value.value] else []
  {
    assert (ps + [p])[..|ps|] == ps;
  }

  /** What one more translation adds to the insert phase's error count and failure. */
  lemma CountsSnoc(ps: seq<Outcome<Option<SysImage>>>, p: Outcome<Option<SysImage>>)
    ensures Nulls(ps + [p]) == Nulls(ps) + if p == Returned(None) then 1 else 0
    ensures AnyThrows(ps + [p]) <==> AnyThrows(ps) || p.Threw?
  {
    assert (ps + [p])[..|ps|] == ps;
    if AnyThrows(ps + [p]) && !p.Threw? {
      var k :| 0 <= k < |ps + [p]| && (ps + [p])[k].Threw?;
      assert ps[k] == (ps + [p])[k];
    }
    if AnyThrows(ps) {
      var k :| 0 <= k < |ps| && ps[k].Threw?;
      assert (ps + [p])[k] == ps[k];
    }
  }

  /** A throw in a prefix is a throw in the whole. */
  lemma ThrowInPrefix(ps: seq<Outcome<Option<SysImage>>>, qs: seq<Outcome<Option<SysImage>>>, k: nat)
    requires ps <= qs && k < |ps| && ps[k].Threw?
    ensures AnyThrows(qs)
  {
    assert qs[k] == ps[k];
  }

  /** Appending x, whose id is already present, to kept + ins breaks the key of anything extending the result. */
  lemma DuplicateBreaksKey(kept: seq<SysImage>, ins: seq<SysImage>, x: SysImage, all: seq<SysImage>)
    requires HasId(kept + ins, x.id) && ins + [x] <= all
    ensures !UniqueIds(kept + all)
  {
    var k :| 0 <= k < |kept + ins| && (kept + ins)[k].id == x.id;
    var whole := kept + all;
    assert whole[k] == (kept + ins)[k];
    assert whole[|kept + ins|] == all[|ins|] == x;
  }

  /**
   * changOpenImage called twice with the same arguments, Redis working and
   * the cache coherent: the second call answers as the first did and leaves
   * the records as the first left them (`between`).
   */
  method ToggleTwiceIsIdempotent(service: ImageService, id: string, uid: string, code: bool)
    returns (first: Response, second: Response, ghost between: seq<SysImage>)
    requires service.Valid() && Coherent(service.rows, service.cache)
    requires SelectById(service.rows, id).Some? ==> Cleanable(SelectById(service.rows, id).value)
    modifies service
    ensures second == first && service.rows == between
  {
    ghost var rows0 := service.rows;
    ghost var seen := SelectById(rows0, id);
    LookupByIdCoherent(rows0, service.cache, id, NoFaults);
    first := service.ChangOpenImage(id, uid, code, NoFaults);
    between := service.rows;
    if seen.Some? {
      var row := seen.value;
      if first == Success && row.hasOpen != Some(code) {
        var edited := row.(hasOpen := Some(code));
        SelectByIdAfterUpdateSame(rows0, edited, row);
        OverlayOfEdit(row, code);
        assert SelectById(between, id) == Some(edited);
      }
    }
    LookupByIdCoherent(between, service.cache, id, NoFaults);
    second := service.ChangOpenImage(id, uid, code, NoFaults);
  }

  /**
   * Without coherence the toggle is not idempotent: a cached user image
   * whose row is gone is toggled once (the update touches no row and the
   * clean removes the entry) and the second call no longer finds it.
   */
  method StaleCacheBreaksIdempotence(service: ImageService, id: string, uid: string, code: bool, image: SysImage)
    returns (first: Response, second: Response)
    requires service.Valid() && !HasId(service.rows, id) && !IsBlank(Some(id))
    requires IdField(id) in service.cache && service.cache[IdField(id)] == Json(image)
    requires image.id == id && image.imageType == Some(LOCAL_USER_IMAGE_CODE) && image.userId == Some(uid)
    requires image.hasOpen == Some(!code)
    modifies service
    ensures first == Success && second == Error(PARAM_ERROR)
  {
    ghost var rows0 := service.rows;
    first := service.ChangOpenImage(id, uid, code, NoFaults);
    UpdateMissesAbsentId(rows0, image.(hasOpen := Some(code)));
    second := service.ChangOpenImage(id, uid, code, NoFaults);
  }

  /**
   * Two syncs over the same listing, the second one reporting nothing to
   * delete, add or flag, when the listed images carry distinct well-formed
   * first repoTags.
   */
  method ResyncIsQuiet(service: ImageService, rt: seq<RuntimeImage>) returns (first: SyncReport, second: SyncReport)
    requires service.Valid()
    requires DistinctTags(rt) && Translatable(rt, Translations(rt))
    modifies service
    ensures first.Synced? ==> second == Synced(0, 0, 0)
  {
    ghost var db := service.rows;
    first := service.SyncLocalImage(Some(rt));
    ghost var after := service.rows;
    second := service.SyncLocalImage(Some(rt));
    if first.Synced? {
      TranslationsNameTheirImages(rt);
      RerunIsQuiet(rt, db, Translations(rt));
      assert Pending(FoundFlags(rt, after), Translations(rt), |rt|) == [];
      assert !AnyThrows([]);
      assert Kept(rt, after) + Inserted([]) == after;
    }
  }
}
