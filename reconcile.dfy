/**
 * syncLocalImage's reconciliation of the catalog with the images the
 * daemon lists. A listed image and a record match when the image's first
 * repoTag equals the record's fullName. The matching loop runs over every
 * (image, record) pair and skips records that an earlier image has already
 * matched, without stopping at the first match: a record ends up claimed
 * when any image matches it, and an image ends up found when it matches a
 * record that no earlier image matched. Unclaimed records are deleted;
 * every image that was not found is translated and, when the translation
 * yields a record, inserted.
 */
module Reconcile {
  import opened Wrappers
  import opened JavaLang
  import opened Records
  import opened Reference

  /** The first repoTag equals the record's fullName (a null fullName never matches). */
  predicate Matches(image: RuntimeImage, rec: SysImage) {
    FirstTag(image).Some? && rec.fullName == FirstTag(image)
  }

  /** One of the first `n` listed images matches the record. */
  predicate ClaimedBy(rt: seq<RuntimeImage>, rec: SysImage, n: nat)
    requires n <= |rt|
  {
    exists k :: 0 <= k < n && Matches(rt[k], rec)
  }

  /** The record's flag at the end of the matching: some listed image matches it. */
  predicate Claimed(rt: seq<RuntimeImage>, rec: SysImage) {
    ClaimedBy(rt, rec, |rt|)
  }

  /** Image i's flag at the end of the matching: it matches a record no earlier image matched. */
  predicate Found(rt: seq<RuntimeImage>, db: seq<SysImage>, i: nat)
    requires i < |rt|
  {
    exists j :: 0 <= j < |db| && Matches(rt[i], db[j]) && !ClaimedBy(rt, db[j], i)
  }

  /** The found flag of every listed image. */
  function FoundFlags(rt: seq<RuntimeImage>, db: seq<SysImage>): (f: seq<bool>)
    ensures |f| == |rt|
  {
    seq(|rt|, i requires 0 <= i < |rt| => Found(rt, db, i))
  }

  /** The claimed flag of every record. */
  function ClaimFlags(rt: seq<RuntimeImage>, db: seq<SysImage>): (f: seq<bool>)
    ensures |f| == |db|
  {
    seq(|db|, j requires 0 <= j < |db| => Claimed(rt, db[j]))
  }

  /** Listed images carry pairwise distinct first repoTags. */
  predicate DistinctTags(rt: seq<RuntimeImage>) {
    forall a, b :: 0 <= a < b < |rt| ==> FirstTag(rt[a]) != FirstTag(rt[b])
  }

  /**
   * Both flag arrays as the nested loops of syncLocalImage compute them:
   * for each image in turn, every record not yet flagged is compared with
   * it, and both flags are set on a match.
   */
  method MatchImages(rt: seq<RuntimeImage>, db: seq<SysImage>) returns (dbFlag: seq<bool>, serverFlag: seq<bool>)
    ensures |dbFlag| == |db| && |serverFlag| == |rt|
    ensures forall j :: 0 <= j < |db| ==> (dbFlag[j] <==> Claimed(rt, db[j]))
    ensures forall i :: 0 <= i < |rt| ==> (serverFlag[i] <==> Found(rt, db, i))
    ensures dbFlag == ClaimFlags(rt, db) && serverFlag == FoundFlags(rt, db)
  {
    var dbs := new bool[|db|](_ => false);
    var servers := new bool[|rt|](_ => false);
    for i := 0 to |rt|
      invariant forall j :: 0 <= j < |db| ==> (dbs[j] <==> ClaimedBy(rt, db[j], i))
      invariant forall k :: 0 <= k < i ==> (servers[k] <==> Found(rt, db, k))
      invariant forall k :: i <= k < |rt| ==> !servers[k]
    {
      MatchImage(rt, db, i, dbs, servers);
    }
    dbFlag := dbs[..];
    serverFlag := servers[..];
    assert dbFlag == ClaimFlags(rt, db);
    assert serverFlag == FoundFlags(rt, db);
  }

  /**
   * One pass of the outer loop: image i claims the first unclaimed record
   * carrying its tag and every later one, and is found when it claims any.
   */
  method MatchImage(rt: seq<RuntimeImage>, db: seq<SysImage>, i: nat, dbs: array<bool>, servers: array<bool>)
    requires i < |rt| && dbs.Length == |db| && servers.Length == |rt| && dbs != servers
    requires forall j :: 0 <= j < |db| ==> (dbs[j] <==> ClaimedBy(rt, db[j], i))
    requires !servers[i]
    modifies dbs, servers
    ensures forall j :: 0 <= j < |db| ==> (dbs[j] <==> ClaimedBy(rt, db[j], i + 1))
    ensures servers[i] <==> Found(rt, db, i)
    ensures forall k :: 0 <= k < |rt| && k != i ==> servers[k] == old(servers[k])
  {
    for j := 0 to |db|
      invariant forall j' :: 0 <= j' < j ==> (dbs[j'] <==> ClaimedBy(rt, db[j'], i + 1))
      invariant forall j' :: j <= j' < |db| ==> (dbs[j'] <==> ClaimedBy(rt, db[j'], i))
      invariant servers[i] <==> FoundWithin(rt, db, i, j)
      invariant forall k :: 0 <= k < |rt| && k != i ==> servers[k] == old(servers[k])
    {
      ClaimedByStep(rt, db[j], i);
      FoundWithinStep(rt, db, i, j);
      if dbs[j] {
        continue;
      }
      if Matches(rt[i], db[j]) {
        servers[i] := true;
        dbs[j] := true;
      }
    }
  }

  /** Some record before j matches image i and is not claimed by an earlier image. */
  predicate FoundWithin(rt: seq<RuntimeImage>, db: seq<SysImage>, i: nat, j: nat)
    requires i < |rt| && j <= |db|
  {
    exists j' :: 0 <= j' < j && Matches(rt[i], db[j']) && !ClaimedBy(rt, db[j'], i)
  }

  /** One more record for FoundWithin. */
  lemma FoundWithinStep(rt: seq<RuntimeImage>, db: seq<SysImage>, i: nat, j: nat)
    requires i < |rt| && j < |db|
    ensures FoundWithin(rt, db, i, j + 1) <==>
              FoundWithin(rt, db, i, j) || (Matches(rt[i], db[j]) && !ClaimedBy(rt, db[j], i))
  {
    if FoundWithin(rt, db, i, j + 1) && !(Matches(rt[i], db[j]) && !ClaimedBy(rt, db[j], i)) {
      var j' :| 0 <= j' < j + 1 && Matches(rt[i], db[j']) && !ClaimedBy(rt, db[j'], i);
      assert j' < j;
    }
  }

  /** Adding one more image to the window claims exactly what that image matches. */
  lemma ClaimedByStep(rt: seq<RuntimeImage>, rec: SysImage, n: nat)
    requires n < |rt|
    ensures ClaimedBy(rt, rec, n + 1) <==> ClaimedBy(rt, rec, n) || Matches(rt[n], rec)
  {
    if ClaimedBy(rt, rec, n + 1) && !Matches(rt[n], rec) {
      var k :| 0 <= k < n + 1 && Matches(rt[k], rec);
      assert k < n;
    }
  }

  /**
   * What the flags mean without the loops: a record is claimed exactly when
   * its fullName is the first repoTag of some listed image, and an image is
   * found exactly when it is tagged, some record carries its tag, and no
   * earlier image carries the same tag.
   */
  lemma ClaimedIff(rt: seq<RuntimeImage>, rec: SysImage)
    ensures Claimed(rt, rec) <==> rec.fullName.Some? && exists k :: 0 <= k < |rt| && FirstTag(rt[k]) == rec.fullName
  {
  }

  lemma FoundIff(rt: seq<RuntimeImage>, db: seq<SysImage>, i: nat)
    requires i < |rt|
    ensures Found(rt, db, i) <==>
              && FirstTag(rt[i]).Some?
              && (exists j :: 0 <= j < |db| && db[j].fullName == FirstTag(rt[i]))
              && (forall k :: 0 <= k < i ==> FirstTag(rt[k]) != FirstTag(rt[i]))
  {
    if Found(rt, db, i) {
      var j :| 0 <= j < |db| && Matches(rt[i], db[j]) && !ClaimedBy(rt, db[j], i);
      forall k | 0 <= k < i ensures FirstTag(rt[k]) != FirstTag(rt[i]) {
        assert !Matches(rt[k], db[j]);
      }
    }
    if && FirstTag(rt[i]).Some?
       && (exists j :: 0 <= j < |db| && db[j].fullName == FirstTag(rt[i]))
       && (forall k :: 0 <= k < i ==> FirstTag(rt[k]) != FirstTag(rt[i]))
    {
      var j :| 0 <= j < |db| && db[j].fullName == FirstTag(rt[i]);
      assert Matches(rt[i], db[j]) && !ClaimedBy(rt, db[j], i);
    }
  }

  /** With distinct tags, an image is found exactly when some record matches it. */
  lemma FoundWhenDistinct(rt: seq<RuntimeImage>, db: seq<SysImage>, i: nat)
    requires i < |rt| && DistinctTags(rt)
    ensures Found(rt, db, i) <==> exists j :: 0 <= j < |db| && Matches(rt[i], db[j])
  {
    FoundIff(rt, db, i);
  }

  /** The records that survive the delete phase, in table order. */
  function Kept(rt: seq<RuntimeImage>, db: seq<SysImage>): (r: seq<SysImage>)
    ensures |r| <= |db|
  {
    if |db| == 0 then []
    else
      var last := db[|db| - 1];
      Kept(rt, db[..|db| - 1]) + if Claimed(rt, last) then [last] else []
  }

  /** The survivors are exactly the claimed records. */
  lemma {:induction false} KeptMembers(rt: seq<RuntimeImage>, db: seq<SysImage>)
    ensures forall x :: x in Kept(rt, db) <==> x in db && Claimed(rt, x)
  {
    if |db| > 0 {
      var init := db[..|db| - 1];
      var last := db[|db| - 1];
      KeptMembers(rt, init);
      assert db == init + [last];
    }
  }

  /** What imageToSysImage yields for each listed image, in listing order. */
  function Translations(rt: seq<RuntimeImage>): (ts: seq<Outcome<Option<SysImage>>>)
    ensures |ts| == |rt|
  {
    seq(|rt|, i requires 0 <= i < |rt| => ImageToSysImage(rt[i]))
  }

  /** Each translation that yields a record names it after its image's first repoTag. */
  predicate NamesItsImage(rt: seq<RuntimeImage>, ts: seq<Outcome<Option<SysImage>>>) {
    && |ts| == |rt|
    && forall i :: 0 <= i < |rt| && ts[i].Returned? && ts[i].value.Some? ==>
         ts[i].value.value.fullName == FirstTag(rt[i])
  }

  lemma TranslationsNameTheirImages(rt: seq<RuntimeImage>)
    ensures NamesItsImage(rt, Translations(rt))
  {
    var ts := Translations(rt);
    forall i | 0 <= i < |rt| && ts[i].Returned? && ts[i].value.Some?
      ensures ts[i].value.value.fullName == FirstTag(rt[i])
    {
      assert ts[i] == ImageToSysImage(rt[i]);
    }
  }

  /**
   * The translations of the images that were not found among the first n,
   * in listing order: what the insert phase works through.
   */
  function Pending(found: seq<bool>, ts: seq<Outcome<Option<SysImage>>>, n: nat): (r: seq<Outcome<Option<SysImage>>>)
    requires n <= |found| == |ts|
    ensures |r| <= n
  {
    if n == 0 then []
    else
      var rest := Pending(found, ts, n - 1);
      if found[n - 1] then rest else rest + [ts[n - 1]]
  }

  /** Pending holds the translation of each image not found, and nothing else. */
  lemma {:induction false} PendingMembers(found: seq<bool>, ts: seq<Outcome<Option<SysImage>>>, n: nat)
    requires n <= |found| == |ts|
    ensures forall i :: 0 <= i < n && !found[i] ==> ts[i] in Pending(found, ts, n)
    ensures forall p :: p in Pending(found, ts, n) ==>
              exists i :: 0 <= i < n && !found[i] && p == ts[i]
  {
    if n > 0 {
      PendingMembers(found, ts, n - 1);
      var rest := Pending(found, ts, n - 1);
      var ps := Pending(found, ts, n);
      forall i | 0 <= i < n && !found[i] ensures ts[i] in ps {
        if i < n - 1 {
          assert ts[i] in rest;
        }
      }
      forall p | p in ps ensures exists i :: 0 <= i < n && !found[i] && p == ts[i] {
        if p in rest {
          var i :| 0 <= i < n - 1 && !found[i] && p == ts[i];
          assert 0 <= i < n;
        } else {
          assert !found[n - 1] && p == ts[n - 1];
        }
      }
    }
  }

  /** The records the insert phase adds: the translations that yielded one. */
  function Inserted(ps: seq<Outcome<Option<SysImage>>>): (r: seq<SysImage>)
    ensures |r| <= |ps|
  {
    if |ps| == 0 then []
    else
      var last := ps[|ps| - 1];
      Inserted(ps[..|ps| - 1]) + match last { case Returned(Some(x)) => [x] case _ => [] }
  }

  /** The inserted records are exactly the records the translations yielded. */
  lemma {:induction false} InsertedMembers(ps: seq<Outcome<Option<SysImage>>>)
    ensures forall x :: x in Inserted(ps) <==> Returned(Some(x)) in ps
  {
    if |ps| > 0 {
      var init := ps[..|ps| - 1];
      InsertedMembers(init);
      assert ps == init + [ps[|ps| - 1]];
    }
  }

  /** The error count: translations that yielded null. */
  function Nulls(ps: seq<Outcome<Option<SysImage>>>): (r: nat)
    ensures r <= |ps|
  {
    if |ps| == 0 then 0
    else
      var last := ps[|ps| - 1];
      Nulls(ps[..|ps| - 1]) + if last == Returned(None) then 1 else 0
  }

  /** Some translation threw, which aborts the insert phase. */
  predicate AnyThrows(ps: seq<Outcome<Option<SysImage>>>) {
    exists k :: 0 <= k < |ps| && ps[k].Threw?
  }

  /** One more image: its translation joins Pending exactly when it was not found. */
  lemma PendingStep(found: seq<bool>, ts: seq<Outcome<Option<SysImage>>>, i: nat)
    requires i < |found| == |ts|
    ensures Pending(found, ts, i + 1) == Pending(found, ts, i) + if found[i] then [] else [ts[i]]
  {
  }

  /** One more record: it joins Kept exactly when it is claimed. */
  lemma KeptStep(rt: seq<RuntimeImage>, db: seq<SysImage>, j: nat)
    requires j < |db|
    ensures Kept(rt, db[..j + 1]) == Kept(rt, db[..j]) + if Claimed(rt, db[j]) then [db[j]] else []
  {
    assert db[..j + 1][..j] == db[..j];
  }

  /** When nothing threw, the add and error counts together cover every image that was not found. */
  lemma {:induction false} CountsCoverPending(ps: seq<Outcome<Option<SysImage>>>)
    requires !AnyThrows(ps)
    ensures |Inserted(ps)| + Nulls(ps) == |ps|
  {
    if |ps| > 0 {
      var init := ps[..|ps| - 1];
      assert !AnyThrows(init) by {
        forall k | 0 <= k < |init| ensures !init[k].Threw? {
          assert init[k] == ps[k];
        }
      }
      CountsCoverPending(init);
      assert !ps[|ps| - 1].Threw?;
    }
  }

  /** As many translations are pending as images were not found. */
  lemma {:induction false} PendingCount(found: seq<bool>, ts: seq<Outcome<Option<SysImage>>>, n: nat)
    requires n <= |found| == |ts|
    ensures |Pending(found, ts, n)| == multiset(found[..n])[false]
  {
    if n > 0 {
      PendingCount(found, ts, n - 1);
      assert found[..n] == found[..n - 1] + [found[n - 1]];
    }
  }

  /** The delete phase removes as many records as are unclaimed. */
  lemma {:induction false} KeptCount(rt: seq<RuntimeImage>, db: seq<SysImage>)
    ensures |db| - |Kept(rt, db)| == multiset(ClaimFlags(rt, db))[false]
  {
    if |db| > 0 {
      var init := db[..|db| - 1];
      var last := db[|db| - 1];
      KeptCount(rt, init);
      ClaimFlagsSnoc(rt, db);
      var before := ClaimFlags(rt, init);
      assert multiset(before + [Claimed(rt, last)]) == multiset(before) + multiset{Claimed(rt, last)};
    }
  }

  /** The flags of all records are those of all but the last, then the last one's. */
  lemma ClaimFlagsSnoc(rt: seq<RuntimeImage>, db: seq<SysImage>)
    requires |db| > 0
    ensures ClaimFlags(rt, db) == ClaimFlags(rt, db[..|db| - 1]) + [Claimed(rt, db[|db| - 1])]
  {
    var init := db[..|db| - 1];
    var flags := ClaimFlags(rt, db);
    var before := ClaimFlags(rt, init);
    forall j | 0 <= j < |init| ensures flags[j] == before[j] {
      assert init[j] == db[j];
    }
  }

  /**
   * When no translation throws, the add and error counts together are the
   * number of listed images that were not found.
   */
  lemma UnfoundCount(rt: seq<RuntimeImage>, db: seq<SysImage>, ts: seq<Outcome<Option<SysImage>>>)
    requires |ts| == |rt| && !AnyThrows(Pending(FoundFlags(rt, db), ts, |rt|))
    ensures var ps := Pending(FoundFlags(rt, db), ts, |rt|);
            |Inserted(ps)| + Nulls(ps) == multiset(FoundFlags(rt, db))[false]
  {
    var found := FoundFlags(rt, db);
    CountsCoverPending(Pending(found, ts, |rt|));
    PendingCount(found, ts, |rt|);
    assert found[..|rt|] == found;
  }

  /** Pending over fewer images is a prefix of Pending over more. */
  lemma {:induction false} PendingPrefix(found: seq<bool>, ts: seq<Outcome<Option<SysImage>>>, m: nat, n: nat)
    requires m <= n <= |found| == |ts|
    ensures Pending(found, ts, m) <= Pending(found, ts, n)
    decreases n - m
  {
    if m < n {
      PendingPrefix(found, ts, m, n - 1);
    }
  }

  /** Inserted respects prefixes. */
  lemma {:induction false} InsertedPrefix(ps: seq<Outcome<Option<SysImage>>>, qs: seq<Outcome<Option<SysImage>>>)
    requires ps <= qs
    ensures Inserted(ps) <= Inserted(qs)
    decreases |qs|
  {
    if |ps| < |qs| {
      var init := qs[..|qs| - 1];
      assert ps <= init;
      InsertedPrefix(ps, init);
    } else {
      assert ps == qs;
    }
  }

  /** The delete phase keeps the surviving records' ids unique. */
  lemma {:induction false} KeptUnique(rt: seq<RuntimeImage>, db: seq<SysImage>)
    requires UniqueIds(db)
    ensures UniqueIds(Kept(rt, db))
  {
    if |db| > 0 {
      var init := db[..|db| - 1];
      var last := db[|db| - 1];
      assert UniqueIds(init) by {
        forall a, b | 0 <= a < b < |init| ensures init[a].id != init[b].id {
          assert init[a] == db[a] && init[b] == db[b];
        }
      }
      KeptUnique(rt, init);
      KeptMembers(rt, init);
      if Claimed(rt, last) {
        var k := Kept(rt, init);
        assert !HasId(k, last.id) by {
          forall a | 0 <= a < |k| ensures k[a].id != last.id {
            assert k[a] in init;
            var b :| 0 <= b < |init| && init[b] == k[a];
            assert db[b] == k[a];
          }
        }
        UniqueIdsSnoc(k, last);
      }
    }
  }

  /**
   * One step of the delete phase: deleting an unclaimed record by id from
   * the surviving prefix followed by the unprocessed rest removes exactly
   * that record.
   */
  lemma DeleteUnclaimedStep(rt: seq<RuntimeImage>, db: seq<SysImage>, j: nat)
    requires UniqueIds(db) && j < |db| && !Claimed(rt, db[j])
    ensures DeleteById(Kept(rt, db[..j]) + db[j..], db[j].id) == Kept(rt, db[..j + 1]) + db[j + 1..]
  {
    var k := Kept(rt, db[..j]);
    KeptStep(rt, db, j);
    assert Kept(rt, db[..j + 1]) == k + [] == k;
    assert k + db[j..] == k + [db[j]] + db[j + 1..];
    NotInKeptPrefix(rt, db, j);
    NotInSuffix(db, j);
    DeleteMiddle(k, db[j], db[j + 1..]);
  }

  /** Under the primary key, record j's id is not among the survivors of the records before it. */
  lemma NotInKeptPrefix(rt: seq<RuntimeImage>, db: seq<SysImage>, j: nat)
    requires UniqueIds(db) && j < |db|
    ensures !HasId(Kept(rt, db[..j]), db[j].id)
  {
    var k := Kept(rt, db[..j]);
    KeptMembers(rt, db[..j]);
    forall a | 0 <= a < |k| ensures k[a].id != db[j].id {
      assert k[a] in db[..j];
      var b :| 0 <= b < j && db[..j][b] == k[a];
      assert db[b] == k[a];
    }
  }

  /** Under the primary key, record j's id is not among the records after it. */
  lemma NotInSuffix(db: seq<SysImage>, j: nat)
    requires UniqueIds(db) && j < |db|
    ensures !HasId(db[j + 1..], db[j].id)
  {
    var rest := db[j + 1..];
    forall a | 0 <= a < |rest| ensures rest[a].id != db[j].id {
      assert rest[a] == db[j + 1 + a];
    }
  }

  /** The other step of the delete phase: a claimed record moves from the rest to the survivors. */
  lemma KeepClaimedStep(rt: seq<RuntimeImage>, db: seq<SysImage>, j: nat)
    requires j < |db| && Claimed(rt, db[j])
    ensures Kept(rt, db[..j]) + db[j..] == Kept(rt, db[..j + 1]) + db[j + 1..]
  {
    KeptStep(rt, db, j);
    assert db[j..] == [db[j]] + db[j + 1..];
  }

  /** A claimed prefix is kept whole, so records that all match survive unchanged. */
  lemma {:induction false} KeptAll(rt: seq<RuntimeImage>, db: seq<SysImage>)
    requires forall k :: 0 <= k < |db| ==> Claimed(rt, db[k])
    ensures Kept(rt, db) == db
  {
    if |db| > 0 {
      var init := db[..|db| - 1];
      assert forall k :: 0 <= k < |init| ==> Claimed(rt, init[k]) by {
        forall k | 0 <= k < |init| ensures Claimed(rt, init[k]) {
          assert init[k] == db[k];
        }
      }
      KeptAll(rt, init);
      assert db == init + [db[|db| - 1]];
    }
  }

  /** When every image is found, there is nothing to insert. */
  lemma {:induction false} PendingNone(found: seq<bool>, ts: seq<Outcome<Option<SysImage>>>, n: nat)
    requires n <= |found| == |ts|
    requires forall i :: 0 <= i < n ==> found[i]
    ensures Pending(found, ts, n) == []
  {
    if n > 0 {
      PendingNone(found, ts, n - 1);
    }
  }

  /** Every listed image has a first repoTag, and its translation yields a record. */
  predicate Translatable(rt: seq<RuntimeImage>, ts: seq<Outcome<Option<SysImage>>>) {
    && |ts| == |rt|
    && forall i :: 0 <= i < |rt| ==> FirstTag(rt[i]).Some? && ts[i].Returned? && ts[i].value.Some?
  }

  /** The catalog after a reconciliation that went through: the survivors, then the new records. */
  function After(rt: seq<RuntimeImage>, db: seq<SysImage>, ts: seq<Outcome<Option<SysImage>>>): seq<SysImage>
    requires |ts| == |rt|
  {
    Kept(rt, db) + Inserted(Pending(FoundFlags(rt, db), ts, |rt|))
  }

  /** After a reconciliation over tagged images, every record is claimed by the same listing. */
  lemma ClaimedAfter(rt: seq<RuntimeImage>, db: seq<SysImage>, ts: seq<Outcome<Option<SysImage>>>)
    requires NamesItsImage(rt, ts) && Translatable(rt, ts)
    ensures forall k :: 0 <= k < |After(rt, db, ts)| ==> Claimed(rt, After(rt, db, ts)[k])
  {
    var kept := Kept(rt, db);
    var ps := Pending(FoundFlags(rt, db), ts, |rt|);
    var ins := Inserted(ps);
    var after := kept + ins;
    PendingMembers(FoundFlags(rt, db), ts, |rt|);
    KeptMembers(rt, db);
    InsertedMembers(ps);
    forall k | 0 <= k < |after| ensures Claimed(rt, after[k]) {
      var x := after[k];
      if k < |kept| {
        assert x in kept;
      } else {
        assert x == ins[k - |kept|];
        assert Returned(Some(x)) in ps;
        var i :| 0 <= i < |rt| && !FoundFlags(rt, db)[i] && Returned(Some(x)) == ts[i];
        assert Matches(rt[i], x);
      }
    }
  }

  /** A record image i found survives the deletion phase. */
  lemma FoundSurvives(rt: seq<RuntimeImage>, db: seq<SysImage>, i: nat) returns (x: SysImage)
    requires i < |rt| && Found(rt, db, i)
    ensures x in Kept(rt, db) && Matches(rt[i], x)
  {
    var j :| 0 <= j < |db| && Matches(rt[i], db[j]) && !ClaimedBy(rt, db[j], i);
    x := db[j];
    assert ClaimedBy(rt, x, |rt|);
    KeptMembers(rt, db);
  }

  /** The translation of an image nobody found is among the inserted records. */
  lemma MissingInserted(found: seq<bool>, ts: seq<Outcome<Option<SysImage>>>, i: nat)
    requires i < |found| == |ts| && !found[i] && ts[i].Returned? && ts[i].value.Some?
    ensures ts[i].value.value in Inserted(Pending(found, ts, |found|))
  {
    PendingMembers(found, ts, |found|);
    InsertedMembers(Pending(found, ts, |found|));
  }

  /** One image after a reconciliation over tagged images with distinct tags is found. */
  lemma FoundAfterOne(rt: seq<RuntimeImage>, db: seq<SysImage>, ts: seq<Outcome<Option<SysImage>>>, i: nat)
    requires DistinctTags(rt) && NamesItsImage(rt, ts) && Translatable(rt, ts) && i < |rt|
    ensures Found(rt, After(rt, db, ts), i)
  {
    var flags := FoundFlags(rt, db);
    var kept := Kept(rt, db);
    var ins := Inserted(Pending(flags, ts, |rt|));
    var after := kept + ins;
    assert after == After(rt, db, ts);
    var x: SysImage;
    if flags[i] {
      x := FoundSurvives(rt, db, i);
    } else {
      MissingInserted(flags, ts, i);
      x := ts[i].value.value;
      assert Matches(rt[i], x);
    }
    assert x in after;
    var j :| 0 <= j < |after| && after[j] == x;
    FoundWhenDistinct(rt, after, i);
  }

  /** After a reconciliation over tagged images with distinct tags, every image is found. */
  lemma FoundAfter(rt: seq<RuntimeImage>, db: seq<SysImage>, ts: seq<Outcome<Option<SysImage>>>)
    requires DistinctTags(rt) && NamesItsImage(rt, ts) && Translatable(rt, ts)
    ensures forall i :: 0 <= i < |rt| ==> Found(rt, After(rt, db, ts), i)
  {
    forall i | 0 <= i < |rt| ensures Found(rt, After(rt, db, ts), i) {
      FoundAfterOne(rt, db, ts, i);
    }
  }

  /**
   * Running the reconciliation again over the same listing changes nothing
   * when the listed images carry distinct, well-formed first repoTags: the
   * catalog it produced lets every record be claimed (nothing deleted) and
   * lets every image be found (nothing added, no errors). The translations
   * ts are any that name their image, as Translations does.
   */
  lemma RerunIsQuiet(rt: seq<RuntimeImage>, db: seq<SysImage>, ts: seq<Outcome<Option<SysImage>>>)
    requires DistinctTags(rt) && NamesItsImage(rt, ts) && Translatable(rt, ts)
    ensures var after := After(rt, db, ts);
            && Kept(rt, after) == after
            && Pending(FoundFlags(rt, after), ts, |rt|) == []
  {
    var after := After(rt, db, ts);
    ClaimedAfter(rt, db, ts);
    KeptAll(rt, after);
    FoundAfter(rt, db, ts);
    var flags := FoundFlags(rt, after);
    assert forall i :: 0 <= i < |rt| ==> flags[i];
    PendingNone(flags, ts, |rt|);
  }

  /**
   * An untagged image is never found, and the bare record it translates to
   * is never claimed: every reconciliation deletes that record and inserts
   * it again.
   */
  lemma UntaggedImageChurns(rt: seq<RuntimeImage>, db: seq<SysImage>, i: nat)
    requires i < |rt| && FirstTag(rt[i]).None?
    ensures !Found(rt, db, i)
    ensures ImageToSysImage(rt[i]).Returned? ==>
              ImageToSysImage(rt[i]).value.Some? && !Claimed(rt, ImageToSysImage(rt[i]).value.value)
  {
  }
}
