/**
 * The Redis hash in front of the catalog table. Records are cached under
 * two kinds of field, "ID:" + id and "FULL_NAME:" + fullName. A read tries
 * the cache first, falls back to the table on a miss, a blank value or a
 * Redis error, and writes what the table returned back into the cache.
 * cleanCache removes both fields of a record. Each Redis call that can fail
 * has a flag in RedisFaults; a call that fails is taken not to have landed,
 * and the service logs the failure and carries on.
 */
module CacheAside {
  import opened Wrappers
  import opened JavaLang
  import opened Records

  const ID_PREFIX: string := "ID:"
  const FULL_NAME_PREFIX: string := "FULL_NAME:"

  function IdField(id: string): (f: string) {
    ID_PREFIX + id
  }

  function FullNameField(fullName: string): (f: string) {
    FULL_NAME_PREFIX + fullName
  }

  /** What a hash field holds: a record's JSON, or a blank string the service treats as a miss. */
  datatype CacheValue = Json(image: SysImage) | Blank

  type Cache = map<string, CacheValue>

  /** Which Redis calls fail: the read, the write-back, and the two deletes of cleanCache. */
  datatype RedisFaults = RedisFaults(hget: bool, hset: bool, hdelId: bool, hdelFullName: bool)

  const NoFaults := RedisFaults(false, false, false, false)

  /** Which query a field caches, read back from its prefix. */
  datatype FieldKey = ById(id: string) | ByFullName(fullName: string) | Foreign

  function KeyOf(field: string): (k: FieldKey) {
    if |field| >= |ID_PREFIX| && field[..|ID_PREFIX|] == ID_PREFIX then ById(field[|ID_PREFIX|..])
    else if |field| >= |FULL_NAME_PREFIX| && field[..|FULL_NAME_PREFIX|] == FULL_NAME_PREFIX then ByFullName(field[|FULL_NAME_PREFIX|..])
    else Foreign
  }

  /** Reading a field's key back is the inverse of building the field, in both directions. */
  lemma KeyOfIdField(id: string, field: string)
    ensures KeyOf(field) == ById(id) <==> field == IdField(id)
  {
    if field == IdField(id) {
      assert field[..|ID_PREFIX|] == ID_PREFIX;
      assert field[|ID_PREFIX|..] == id;
    }
    if KeyOf(field) == ById(id) {
      assert field == field[..|ID_PREFIX|] + field[|ID_PREFIX|..];
    }
  }

  lemma KeyOfFullNameField(fullName: string, field: string)
    ensures KeyOf(field) == ByFullName(fullName) <==> field == FullNameField(fullName)
  {
    if field == FullNameField(fullName) {
      assert field[..|FULL_NAME_PREFIX|] == FULL_NAME_PREFIX;
      assert field[|FULL_NAME_PREFIX|..] == fullName;
      assert field[0] == 'F';
      assert |field| < |ID_PREFIX| || field[..|ID_PREFIX|] != ID_PREFIX by {
        if |field| >= |ID_PREFIX| {
          assert field[..|ID_PREFIX|][0] == 'F';
        }
      }
    }
    if KeyOf(field) == ByFullName(fullName) {
      assert field == field[..|FULL_NAME_PREFIX|] + field[|FULL_NAME_PREFIX|..];
    }
  }

  /** The two kinds of field never collide, so one record's entries cannot overwrite each other. */
  lemma FieldsNeverCollide(id: string, fullName: string)
    ensures IdField(id) != FullNameField(fullName)
  {
    KeyOfIdField(id, IdField(id));
    KeyOfFullNameField(fullName, IdField(id));
  }

  /** What the table answers for the query a field caches. */
  function StoreAnswer(rows: seq<SysImage>, key: FieldKey): (answer: Option<SysImage>) {
    match key
    case ById(id) => SelectById(rows, id)
    case ByFullName(n) => SelectByFullName(rows, n)
    case Foreign => None
  }

  /** Every record in the cache is what the table answers for its field. */
  ghost predicate Coherent(rows: seq<SysImage>, cache: Cache) {
    forall f :: f in cache && cache[f].Json? && !KeyOf(f).Foreign? ==> StoreAnswer(rows, KeyOf(f)) == Some(cache[f].image)
  }

  /** The result of a cached read and the cache it leaves. */
  datatype Lookup = Lookup(image: Option<SysImage>, cache: Cache)

  /**
   * The read-through of getById and getByFullName: a non-blank cached value
   * is returned with the cache untouched; otherwise the table's answer is
   * returned and, when there is one and the write-back succeeds, cached.
   */
  function ReadThrough(cache: Cache, field: string, stored: Option<SysImage>, redis: RedisFaults): (l: Lookup)
    ensures !redis.hget && field in cache && cache[field].Json? ==> l == Lookup(Some(cache[field].image), cache)
    ensures !(!redis.hget && field in cache && cache[field].Json?) ==> l.image == stored
    ensures l.cache == cache || (stored.Some? && !redis.hset && l.cache == cache[field := Json(stored.value)])
    ensures redis.hset ==> l.cache == cache
    ensures !(!redis.hget && field in cache && cache[field].Json?) && stored.None? ==> l.cache == cache
    ensures !(!redis.hget && field in cache && cache[field].Json?) && stored.Some? && !redis.hset ==>
              l.cache == cache[field := Json(stored.value)]
  {
    if !redis.hget && field in cache && cache[field].Json? then Lookup(Some(cache[field].image), cache)
    else if stored.None? then Lookup(None, cache)
    else if redis.hset then Lookup(stored, cache)
    else Lookup(stored, cache[field := Json(stored.value)])
  }

  function LookupById(rows: seq<SysImage>, cache: Cache, id: string, redis: RedisFaults): (l: Lookup) {
    ReadThrough(cache, IdField(id), SelectById(rows, id), redis)
  }

  function LookupByFullName(rows: seq<SysImage>, cache: Cache, fullName: string, redis: RedisFaults): (l: Lookup) {
    ReadThrough(cache, FullNameField(fullName), SelectByFullName(rows, fullName), redis)
  }

  /**
   * A read-through over a coherent cache, whatever Redis does, answers
   * what the table answers and leaves the cache coherent.
   */
  lemma ReadThroughCoherent(rows: seq<SysImage>, cache: Cache, field: string, redis: RedisFaults)
    requires Coherent(rows, cache) && !KeyOf(field).Foreign?
    ensures var l := ReadThrough(cache, field, StoreAnswer(rows, KeyOf(field)), redis);
            l.image == StoreAnswer(rows, KeyOf(field)) && Coherent(rows, l.cache)
  {
  }

  lemma LookupByIdCoherent(rows: seq<SysImage>, cache: Cache, id: string, redis: RedisFaults)
    requires Coherent(rows, cache)
    ensures LookupById(rows, cache, id, redis).image == SelectById(rows, id)
    ensures Coherent(rows, LookupById(rows, cache, id, redis).cache)
  {
    KeyOfIdField(id, IdField(id));
    ReadThroughCoherent(rows, cache, IdField(id), redis);
  }

  lemma LookupByFullNameCoherent(rows: seq<SysImage>, cache: Cache, fullName: string, redis: RedisFaults)
    requires Coherent(rows, cache)
    ensures LookupByFullName(rows, cache, fullName, redis).image == SelectByFullName(rows, fullName)
    ensures Coherent(rows, LookupByFullName(rows, cache, fullName, redis).cache)
  {
    KeyOfFullNameField(fullName, FullNameField(fullName));
    ReadThroughCoherent(rows, cache, FullNameField(fullName), redis);
  }

  /**
   * cleanCache: the id field is removed when the id is not blank, then the
   * fullName field when the fullName is not blank. A failing delete of the
   * id field skips the second delete.
   */
  function Clean(cache: Cache, id: Option<string>, fullName: Option<string>, redis: RedisFaults): (r: Cache)
    ensures forall f :: f in r ==> f in cache && r[f] == cache[f]
    ensures forall f :: f in cache && f !in r ==>
              || (!IsBlank(id) && !redis.hdelId && f == IdField(id.value))
              || (!IsBlank(fullName) && !redis.hdelFullName && (IsBlank(id) || !redis.hdelId)
                  && f == FullNameField(fullName.value))
    ensures !IsBlank(id) && !redis.hdelId ==> IdField(id.value) !in r
    ensures !IsBlank(fullName) && !redis.hdelFullName && (IsBlank(id) || !redis.hdelId) ==> FullNameField(fullName.value) !in r
    ensures !IsBlank(id) && redis.hdelId ==> r == cache
  {
    if !IsBlank(id) && redis.hdelId then cache
    else
      var afterId := if IsBlank(id) then cache else cache - {IdField(id.value)};
      if IsBlank(fullName) || redis.hdelFullName then afterId else afterId - {FullNameField(fullName.value)}
  }

  /** Removing entries never breaks coherence. */
  lemma CleanKeepsCoherent(rows: seq<SysImage>, cache: Cache, id: Option<string>, fullName: Option<string>, redis: RedisFaults)
    requires Coherent(rows, cache)
    ensures Coherent(rows, Clean(cache, id, fullName, redis))
  {
  }

  /** Whether a string can be a record's id and fullName without cleaning skipping a field. */
  predicate Cleanable(image: SysImage) {
    !IsBlank(Some(image.id)) && (image.fullName.None? || !IsBlank(image.fullName))
  }

  /**
   * The write performed by changOpenImage, updateById followed by a
   * fault-free cleanCache of the record's two fields, keeps a coherent
   * cache coherent.
   */
  lemma UpdateThenCleanCoherent(rows: seq<SysImage>, cache: Cache, row: SysImage, image: SysImage)
    requires UniqueIds(rows) && Coherent(rows, cache)
    requires SelectById(rows, image.id) == Some(row) && Overlay(row, image).fullName == row.fullName
    requires Cleanable(image) && image.fullName == row.fullName
    ensures Coherent(UpdateById(rows, image), Clean(cache, Some(image.id), image.fullName, NoFaults))
  {
    var rows' := UpdateById(rows, image);
    var cache' := Clean(cache, Some(image.id), image.fullName, NoFaults);
    forall f | f in cache' && cache'[f].Json? && !KeyOf(f).Foreign?
      ensures StoreAnswer(rows', KeyOf(f)) == Some(cache'[f].image)
    {
      match KeyOf(f)
      case ById(y) =>
        KeyOfIdField(y, f);
        assert y != image.id;
        SelectByIdAfterUpdate(rows, image, y);
      case ByFullName(n) =>
        KeyOfFullNameField(n, f);
        assert Some(n) != image.fullName;
        forall k | 0 <= k < |rows| && rows[k].id == image.id
          ensures rows[k].fullName != Some(n) && Overlay(rows[k], image).fullName != Some(n)
        {
          assert rows[k] == row;
        }
        SelectByFullNameAfterUpdate(rows, image, n);
    }
  }

  /**
   * The write performed by removeImage, deleteById followed by a
   * fault-free cleanCache of the record's two fields, keeps a coherent
   * cache coherent.
   */
  lemma DeleteThenCleanCoherent(rows: seq<SysImage>, cache: Cache, row: SysImage)
    requires UniqueIds(rows) && Coherent(rows, cache)
    requires SelectById(rows, row.id) == Some(row) && Cleanable(row)
    ensures Coherent(DeleteById(rows, row.id), Clean(cache, Some(row.id), row.fullName, NoFaults))
  {
    var rows' := DeleteById(rows, row.id);
    var cache' := Clean(cache, Some(row.id), row.fullName, NoFaults);
    forall f | f in cache' && cache'[f].Json? && !KeyOf(f).Foreign?
      ensures StoreAnswer(rows', KeyOf(f)) == Some(cache'[f].image)
    {
      match KeyOf(f)
      case ById(y) =>
        KeyOfIdField(y, f);
        SelectByIdAfterDelete(rows, row.id, y);
      case ByFullName(n) =>
        KeyOfFullNameField(n, f);
        forall k | 0 <= k < |rows| && rows[k].id == row.id ensures rows[k].fullName != Some(n) {
          assert rows[k] == row;
        }
        SelectByFullNameAfterDelete(rows, row.id, n);
    }
  }

  /**
   * A delete that is not followed by cleanCache, as in syncLocalImage,
   * leaves the deleted record readable: the next getById still returns it
   * although the table no longer has it.
   */
  lemma DeleteWithoutCleanIsStale(rows: seq<SysImage>, cache: Cache, id: string)
    requires IdField(id) in cache && cache[IdField(id)].Json?
    ensures SelectById(DeleteById(rows, id), id).None?
    ensures LookupById(DeleteById(rows, id), cache, id, NoFaults).image == Some(cache[IdField(id)].image)
  {
  }
}
