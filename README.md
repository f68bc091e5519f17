# Image catalog service, modelled in Dafny

This project models the image service of a container-hosting platform (`SysImageServiceImpl`) and the image-type table it relies on (`ImageTypeEnum`). The service keeps a database catalog of container images (the `sys_image` table) in line with the images the Docker daemon lists. It puts a Redis hash in front of that catalog as a read cache.

The model covers these parts:

- **Reference parsing.**
  - `splitRepoTag` cuts `name:tag` at the last `:` and classifies the head by its number of `/` segments: one is an official image, two a public image, three a user image behind a registry, anything else is malformed.
  - `splitImageId` strips the `sha256:` prefix from an image id.
  - `imageToSysImage` turns a listed image into a catalog record.
  - The Java semantics these rely on are written out in `JavaLang`: `lastIndexOf`, `substring` throwing on a negative index, `String.split` dropping trailing empty pieces, and `isBlank`.
- **Reconciliation (`syncLocalImage`).**
  - The nested matching loop over the daemon's listing and the catalog sets two flag arrays. It is an imperative method with loop invariants that characterise both arrays.
  - The delete phase and the insert phase follow, with their three counters.
  - A second sync over the same listing is proved to report nothing to do.
- **Cache-aside reads and writes.**
  - `getById` and `getByFullName` read the fields `ID:<id>` and `FULL_NAME:<fullName>` of one Redis hash.
  - `cleanCache`, `changOpenImage` and `removeImage` change the table and the cache.
  - These are methods of a class `ImageService` holding the table (`rows`) and the hash (`cache`). Every Redis call that can fail has a failure flag, so the paths where the code swallows a Redis error are covered too.
  - The proofs show that the cache stays *coherent*, meaning every cached record is what the table answers for its field.
- **Authorization decisions.**
  - `hasAuthImage` decides who may view an image.
  - `removeImage` and `changOpenImage` each have their own check, for deleting and for opening or closing an image.
- **The default tag of `pullImageFromHub`.** The code appends `:latest` only when the name has no `:` at all.
- **`ImageTypeEnum`.** The two constants with their codes 1 and 2, and `getMessage(code)`.

Inputs from outside the service are parameters of the operations. They are:
- the image listing returned by the Docker daemon;
- whether the daemon refuses a removal;
- what inspecting an image yields for its command;
- the caller's role name, which the code gets from the login service;
- which Redis calls fail.

Java exceptions are an explicit `Outcome` (`Returned(value)` or `Threw(error)`). A Java reference that may be null is an `Option`.

Where the design intent and the code disagree, the model follows the code:
- **No `break` in matching.** The matching loop has no `break`. An image therefore claims *every* still-unclaimed record that carries its name, not just the first one (`Reconcile.MatchImage`).
- **No rollback.** `syncLocalImage` catches every exception and returns an error result without rethrowing. The `@Transactional(rollbackFor = Exception.class)` annotation therefore never sees an exception, and the rows written before a failure stay written (`Service.ImageService.SyncLocalImage`).
- **No cache cleaning in the sync.** `syncLocalImage` never calls `cleanCache`. A record it deletes stays readable through the cache (`CacheAside.DeleteWithoutCleanIsStale`).

## Model

| member | source | states |
|---|---|---|
| ImageTypes.CodesAreDistinct | paas/src/main/java/jit/edu/paas/domain/enums/ImageTypeEnum.java:12-13 | LOCAL_PUBLIC_IMAGE has code 1, LOCAL_USER_IMAGE has code 2, and distinct constants have distinct codes |
| ImageTypes.FindMessage | paas/src/main/java/jit/edu/paas/domain/enums/ImageTypeEnum.java:23-30 | the for-each search gives null exactly when no constant of the table has the code; otherwise it gives the message of a constant with that code before which no constant has it (the first match in declaration order) |
| ImageTypes.GetMessage | paas/src/main/java/jit/edu/paas/domain/enums/ImageTypeEnum.java:23-30 | getMessage gives a message exactly for the codes 1 and 2 |
| ImageTypes.MessageRoundTrip | paas/src/main/java/jit/edu/paas/domain/enums/ImageTypeEnum.java:18-27 | for every constant, looking up its own code gives back its own message |
| ImageTypes.MessageOfUnknownCode | paas/src/main/java/jit/edu/paas/domain/enums/ImageTypeEnum.java:29 | every code other than 1 and 2 gives null |
| JavaLang.LastIndexOf | paas/src/main/java/jit/edu/paas/service/impl/SysImageServiceImpl.java:680 | lastIndexOf gives -1 exactly when the character is absent; otherwise a position holding it, after which it does not occur again |
| JavaLang.SplitAll | paas/src/main/java/jit/edu/paas/service/impl/SysImageServiceImpl.java:687 | the pieces between separators contain no separator, there are at least two once the separator occurs, and joining them with the separator gives back the string |
| JavaLang.DropTrailingEmpty | paas/src/main/java/jit/edu/paas/service/impl/SysImageServiceImpl.java:687 | the result is a prefix of the pieces that does not end in an empty piece, and everything it drops is empty |
| JavaLang.Split | paas/src/main/java/jit/edu/paas/service/impl/SysImageServiceImpl.java:687 | String.split on a one-character separator: a string without the separator is its own single piece; otherwise the pieces with trailing empty ones dropped; no piece contains the separator |
| JavaLang.SplitAllWithout | paas/src/main/java/jit/edu/paas/service/impl/SysImageServiceImpl.java:687 | a string without the separator is a single piece |
| JavaLang.SplitAllAfter | paas/src/main/java/jit/edu/paas/service/impl/SysImageServiceImpl.java:687 | a separator after a separator-free prefix closes the first piece, and the rest splits on its own |
| JavaLang.SplitAllJoin | paas/src/main/java/jit/edu/paas/service/impl/SysImageServiceImpl.java:687 | splitting the join of separator-free pieces gives back exactly those pieces |
| JavaLang.SplitJoin | paas/src/main/java/jit/edu/paas/service/impl/SysImageServiceImpl.java:687 | split of the join of two or more separator-free pieces, the last non-empty, gives back exactly those pieces |
| JavaLang.SplitAllLastPiece | paas/src/main/java/jit/edu/paas/service/impl/SysImageServiceImpl.java:687 | a string that does not end with the separator has a non-empty last piece |
| JavaLang.SplitAllOnlySeparators | paas/src/main/java/jit/edu/paas/service/impl/SysImageServiceImpl.java:724 | a run of separators splits into empty pieces only |
| JavaLang.SplitAllOtherChar | paas/src/main/java/jit/edu/paas/service/impl/SysImageServiceImpl.java:724 | a string with a character other than the separator has a non-empty piece |
| JavaLang.SplitEmpty | paas/src/main/java/jit/edu/paas/service/impl/SysImageServiceImpl.java:724-729 | split yields no pieces at all exactly for a non-empty string made only of separators |
| Records.FirstTag | paas/src/main/java/jit/edu/paas/service/impl/SysImageServiceImpl.java:226-227 | the first repoTag exists exactly when the list is non-null and non-empty, and is then its head |
| Records.SelectById | paas/src/main/java/jit/edu/paas/service/impl/SysImageServiceImpl.java:119 | selectById gives null exactly when no row has the id; otherwise a row of the table with that id, and under the primary key the one row with it |
| Records.SelectByFullName | paas/src/main/java/jit/edu/paas/service/impl/SysImageServiceImpl.java:147-148 | selectList on full_name followed by getListFirst: null exactly when no row has the fullName, otherwise the first such row in table order |
| Records.DeleteById | paas/src/main/java/jit/edu/paas/service/impl/SysImageServiceImpl.java:242 | deleteById keeps exactly the rows whose id differs, and deleting an absent id changes nothing |
| Records.UpdateById | paas/src/main/java/jit/edu/paas/service/impl/SysImageServiceImpl.java:620 | updateById changes exactly the rows with the record's id, each into the record laid over it (null fields keep the row's value; the metadata, never null here, is always written), and keeps the length |
| Records.UpdateMissesAbsentId | paas/src/main/java/jit/edu/paas/service/impl/SysImageServiceImpl.java:620 | updateById of a record whose id no row holds leaves the table as it was |
| Records.OverlayOfEdit | paas/src/main/java/jit/edu/paas/service/impl/SysImageServiceImpl.java:618-620 | writing back a row with only its hasOpen flag edited stores exactly that edited row |
| Records.SelectByIdAfterUpdate | paas/src/main/java/jit/edu/paas/service/impl/SysImageServiceImpl.java:620 | an update leaves the lookup of every other id as it was |
| Records.SelectByIdAfterUpdateSame | paas/src/main/java/jit/edu/paas/service/impl/SysImageServiceImpl.java:620 | after an update, looking up the updated id gives the old row with the record laid over it |
| Records.SelectByFullNameAfterUpdate | paas/src/main/java/jit/edu/paas/service/impl/SysImageServiceImpl.java:620 | an update that neither removes nor introduces a fullName leaves the lookup of that fullName as it was |
| Records.SelectByIdAfterDelete | paas/src/main/java/jit/edu/paas/service/impl/SysImageServiceImpl.java:303 | a delete leaves the lookup of every other id as it was |
| Records.SelectByFullNameAfterDelete | paas/src/main/java/jit/edu/paas/service/impl/SysImageServiceImpl.java:303 | a delete of rows that do not carry a fullName leaves the lookup of that fullName as it was |
| Records.DeleteMiddle | paas/src/main/java/jit/edu/paas/service/impl/SysImageServiceImpl.java:242 | deleting the only row with an id removes just that row and keeps the rows around it in order |
| Records.UniqueIdsSnoc | paas/src/main/java/jit/edu/paas/service/impl/SysImageServiceImpl.java:254 | inserting a record whose id is new keeps the primary key |
| Reference.Classify | paas/src/main/java/jit/edu/paas/service/impl/SysImageServiceImpl.java:687-711 | every component of a classified head is free of '/'; the head is malformed exactly when split on '/' gives a count of segments other than 1, 2 and 3 |
| Reference.SplitRepoTag | paas/src/main/java/jit/edu/paas/service/impl/SysImageServiceImpl.java:676-714 | it throws StringIndexOutOfBounds exactly when there is no ':'; otherwise fullName is the input, the tag is a ':'-free suffix, the input is head + ':' + tag, and the head is classified by its '/' segments |
| Reference.SplitRepoTagAt | paas/src/main/java/jit/edu/paas/service/impl/SysImageServiceImpl.java:680-686 | any head followed by ':' and a ':'-free tag is cut at that ':' |
| Reference.ClassifyTwo | paas/src/main/java/jit/edu/paas/service/impl/SysImageServiceImpl.java:694-698 | repo/name with a non-empty name is a public image with that repo and name |
| Reference.ClassifyThree | paas/src/main/java/jit/edu/paas/service/impl/SysImageServiceImpl.java:699-704 | repo/userId/name with a non-empty name is a user image with those three fields |
| Reference.ClassifyFour | paas/src/main/java/jit/edu/paas/service/impl/SysImageServiceImpl.java:705-708 | a head of four segments with a non-empty last one is malformed |
| Reference.ClassifyMany | paas/src/main/java/jit/edu/paas/service/impl/SysImageServiceImpl.java:705-711 | a head of any number of segments from four up, free of '/' with a non-empty last one, is malformed |
| Reference.ClassifyOnlySlashes | paas/src/main/java/jit/edu/paas/service/impl/SysImageServiceImpl.java:705-711 | a head made only of '/' splits into no segments and is malformed |
| Reference.SplitRepoTagOfRender | paas/src/main/java/jit/edu/paas/service/impl/SysImageServiceImpl.java:676-714 | round trip: writing a well-formed tag and classified head out as a reference and parsing it gives them back |
| Reference.RenderHeadOfClassify | paas/src/main/java/jit/edu/paas/service/impl/SysImageServiceImpl.java:686-704 | round trip: a head that classifies and does not end in '/' is written back as itself |
| Reference.RenderOfSplitRepoTag | paas/src/main/java/jit/edu/paas/service/impl/SysImageServiceImpl.java:676-714 | round trip: a reference that parses with status true, and whose head does not end in '/', is written back as itself |
| Reference.SplitRepoTagOfficialExample | paas/src/main/java/jit/edu/paas/service/impl/SysImageServiceImpl.java:689-693 | nginx:latest is an official image named nginx with tag latest |
| Reference.SplitRepoTagPublicExample | paas/src/main/java/jit/edu/paas/service/impl/SysImageServiceImpl.java:694-698 | portainer/portainer:1.0 is a public image with repo portainer, name portainer and tag 1.0 |
| Reference.SplitRepoTagRegistryExample | paas/src/main/java/jit/edu/paas/service/impl/SysImageServiceImpl.java:699-704 | for the reference 192.168.30.169:5000/alice/hello:latest, the registry with its port stays whole as the repo of a user image owned by alice, named hello, with tag latest |
| Reference.SplitRepoTagFour | paas/src/main/java/jit/edu/paas/service/impl/SysImageServiceImpl.java:705-711 | any reference whose head has four segments parses with status false |
| Reference.SplitRepoTagMany | paas/src/main/java/jit/edu/paas/service/impl/SysImageServiceImpl.java:705-711 | any reference whose head has four or more segments parses with status false |
| Reference.SplitRepoTagOnlySlashes | paas/src/main/java/jit/edu/paas/service/impl/SysImageServiceImpl.java:705-711 | any reference whose head is only '/' parses with status false |
| Reference.SplitRepoTagNoSegments | paas/src/main/java/jit/edu/paas/service/impl/SysImageServiceImpl.java:705-711 | /:latest parses with status false |
| Reference.SplitRepoTagMalformedExample | paas/src/main/java/jit/edu/paas/service/impl/SysImageServiceImpl.java:705-711 | for the reference 192.168.30.169:5000/alice/hello/world:latest, the status is false |
| Reference.SplitImageId | paas/src/main/java/jit/edu/paas/service/impl/SysImageServiceImpl.java:723-730 | it throws ArrayIndexOutOfBounds exactly for a non-empty id made only of ':'; an id without ':' is returned unchanged; any result is the id itself or free of ':' |
| Reference.SplitImageIdStripsPrefix | paas/src/main/java/jit/edu/paas/service/impl/SysImageServiceImpl.java:716-730 | algorithm:digest gives the digest |
| Reference.SplitImageIdSecondPiece | paas/src/main/java/jit/edu/paas/service/impl/SysImageServiceImpl.java:723-730 | an id with two or more ':' and a non-empty second piece gives that second piece, not the last one |
| Reference.SplitImageIdKeepsBarePrefix | paas/src/main/java/jit/edu/paas/service/impl/SysImageServiceImpl.java:724-727 | algorithm: with an empty digest is returned whole, because split drops the trailing empty piece |
| Reference.ImageToSysImage | paas/src/main/java/jit/edu/paas/service/impl/SysImageServiceImpl.java:738-795 | it throws exactly when splitting the id throws or the first repoTag has no ':'; it gives null exactly when the first repoTag parses with status false; a record carries the stripped id and the daemon's metadata, and its fullName is the first repoTag; a user image has an owner and starts closed, any other has no owner and no flag; an untagged image gives a record with only the id and metadata; a tagged one has the inspected command and takes its tag, repo, name, type and owner from splitRepoTag of the first repoTag, and is a user image exactly when its head has three segments |
| Reference.ImageToSysImageOfUser | paas/src/main/java/jit/edu/paas/service/impl/SysImageServiceImpl.java:738-795 | an image whose id splits to a digest and whose first repoTag parses as registry, owner and name gives the record with that digest, that repoTag, tag, repo, name and owner, the user type, closed, and the daemon's command and metadata |
| Reference.ImageToSysImageRegistryExample | paas/src/main/java/jit/edu/paas/service/impl/SysImageServiceImpl.java:738-795 | the image sha256:4ab1 tagged 192.168.30.169:5000/alice/hello:latest gives the record 4ab1 with repo 192.168.30.169:5000, owner alice, name hello, tag latest, user type, closed |
| Reference.DefaultPullName | paas/src/main/java/jit/edu/paas/service/impl/SysImageServiceImpl.java:322-325 | the name pulled always contains ':'; a name with a ':' anywhere is kept unchanged, and one without is that name followed by :latest, whose tag parses as latest |
| Reference.DefaultPullNameSkipsPortedRegistry | paas/src/main/java/jit/edu/paas/service/impl/SysImageServiceImpl.java:322-325 | the name 192.168.30.169:5000/jitwxs/hello-world gets no default tag, so the name listed, looked up and pulled has none; read as a reference its last ':' is the port's |
| Reference.PortedPullMissesTaggedRecords | paas/src/main/java/jit/edu/paas/service/impl/SysImageServiceImpl.java:322-335 | getByFullName of that untagged name finds nothing in a catalog whose names all carry a tag in their last segment, as the records the sync stores from the daemon's repoTags do; the corrected default looks up name:latest |
| Reference.TagAfterLastSlash | paas/src/main/java/jit/edu/paas/service/impl/SysImageServiceImpl.java:680-681 | a name whose last '/' segment contains ':' parses to a tag without '/' |
| Reference.DefaultPullNameCorrectedHasTag | paas/src/main/java/jit/edu/paas/service/impl/SysImageServiceImpl.java:322-325 | with only a ':' in the last segment counting as a tag, every pulled name parses to a tag without '/'; a name whose last segment has a ':' is kept unchanged, and any other is that name followed by :latest |
| Authorization.HasAuthImage | paas/src/main/java/jit/edu/paas/service/impl/SysImageServiceImpl.java:647-667 | it throws exactly when the type is null, or when the type is 2 and the flag is null; type 1 is visible; type 2 when open is visible; it is false exactly for another type code, or for a closed type-2 image, an ordinary-user caller and a different owner |
| Authorization.MayDelete | paas/src/main/java/jit/edu/paas/service/impl/SysImageServiceImpl.java:288-297 | every role but the ordinary user passes; for an ordinary user it throws exactly on a null type, and otherwise passes exactly for a non-public image the caller owns |
| Authorization.MayToggleOpen | paas/src/main/java/jit/edu/paas/service/impl/SysImageServiceImpl.java:613 | it throws exactly on a null type, and passes exactly for a user image the caller owns |
| Authorization.DeletableIsVisible | paas/src/main/java/jit/edu/paas/service/impl/SysImageServiceImpl.java:288-297 | a user image a caller may delete is one that caller may view |
| Authorization.ToggleableIsVisible | paas/src/main/java/jit/edu/paas/service/impl/SysImageServiceImpl.java:613 | an image a caller may open or close is one that caller may view, whatever the role |
| Reconcile.MatchImages | paas/src/main/java/jit/edu/paas/service/impl/SysImageServiceImpl.java:212-235 | after the nested loops a record's flag is set exactly when some listed image's first repoTag is its fullName, and an image's flag exactly when it matches a record no earlier image matched |
| Reconcile.MatchImage | paas/src/main/java/jit/edu/paas/service/impl/SysImageServiceImpl.java:217-234 | one pass of the inner loop, without the break it lacks: the image claims every unclaimed record with its name, is found exactly when it claims one, and no other image's flag changes |
| Reconcile.ClaimedIff | paas/src/main/java/jit/edu/paas/service/impl/SysImageServiceImpl.java:226-231 | a record is claimed exactly when its fullName is the first repoTag of some listed image |
| Reconcile.FoundIff | paas/src/main/java/jit/edu/paas/service/impl/SysImageServiceImpl.java:216-231 | an image is found exactly when it is tagged, some record carries its tag, and no earlier image carries the same tag |
| Reconcile.FoundWhenDistinct | paas/src/main/java/jit/edu/paas/service/impl/SysImageServiceImpl.java:216-231 | with distinct first tags an image is found exactly when some record matches it |
| Reconcile.KeptMembers | paas/src/main/java/jit/edu/paas/service/impl/SysImageServiceImpl.java:238-244 | the records surviving the delete phase are exactly the claimed ones, so matched records are untouched |
| Reconcile.KeptCount | paas/src/main/java/jit/edu/paas/service/impl/SysImageServiceImpl.java:238-244 | the number of records deleted is the number of unset record flags |
| Reconcile.KeptUnique | paas/src/main/java/jit/edu/paas/service/impl/SysImageServiceImpl.java:238-244 | the delete phase keeps the primary key |
| Reconcile.DeleteUnclaimedStep | paas/src/main/java/jit/edu/paas/service/impl/SysImageServiceImpl.java:239-242 | deleting an unclaimed record by id removes that record and nothing else |
| Reconcile.TranslationsNameTheirImages | paas/src/main/java/jit/edu/paas/service/impl/SysImageServiceImpl.java:249 | every record the translation yields is named after its image's first repoTag |
| Reconcile.PendingMembers | paas/src/main/java/jit/edu/paas/service/impl/SysImageServiceImpl.java:247-249 | the insert phase works through the translation of each image not found, and nothing else |
| Reconcile.PendingCount | paas/src/main/java/jit/edu/paas/service/impl/SysImageServiceImpl.java:247-249 | as many translations are worked through as image flags are unset |
| Reconcile.InsertedMembers | paas/src/main/java/jit/edu/paas/service/impl/SysImageServiceImpl.java:250-255 | the inserted records are exactly those the translations yielded |
| Reconcile.CountsCoverPending | paas/src/main/java/jit/edu/paas/service/impl/SysImageServiceImpl.java:247-257 | when no translation throws, added plus errors is the number of translations worked through |
| Reconcile.UnfoundCount | paas/src/main/java/jit/edu/paas/service/impl/SysImageServiceImpl.java:247-257 | when no translation throws, added plus errors is the number of unset image flags |
| Reconcile.ClaimedAfter | paas/src/main/java/jit/edu/paas/service/impl/SysImageServiceImpl.java:237-257 | after a sync over tagged, translatable images every record of the catalog is claimed by the same listing |
| Reconcile.FoundAfter | paas/src/main/java/jit/edu/paas/service/impl/SysImageServiceImpl.java:237-257 | after such a sync with distinct first tags, every listed image is found in the catalog |
| Reconcile.RerunIsQuiet | paas/src/main/java/jit/edu/paas/service/impl/SysImageServiceImpl.java:212-257 | a second reconciliation over the same listing deletes nothing and has nothing to insert |
| Reconcile.UntaggedImageChurns | paas/src/main/java/jit/edu/paas/service/impl/SysImageServiceImpl.java:226-249 | an image without repoTags is never found and the record it translates to is never claimed, so every sync deletes and re-inserts that record |
| CacheAside.KeyOfIdField | paas/src/main/java/jit/edu/paas/service/impl/SysImageServiceImpl.java:66 | a field is read back as an id key exactly when it is "ID:" followed by that id |
| CacheAside.KeyOfFullNameField | paas/src/main/java/jit/edu/paas/service/impl/SysImageServiceImpl.java:67 | a field is read back as a fullName key exactly when it is "FULL_NAME:" followed by that fullName |
| CacheAside.FieldsNeverCollide | paas/src/main/java/jit/edu/paas/service/impl/SysImageServiceImpl.java:66-67 | no id field is ever a fullName field |
| CacheAside.ReadThrough | paas/src/main/java/jit/edu/paas/service/impl/SysImageServiceImpl.java:107-161 | a non-blank cached value that was read is returned with the cache untouched; otherwise the table's answer is returned; the cache changes only by writing back a table hit, and a failed write-back leaves it as it was; a table miss leaves it as it was, and a table hit whose write-back works is cached under the field |
| CacheAside.ReadThroughCoherent | paas/src/main/java/jit/edu/paas/service/impl/SysImageServiceImpl.java:107-161 | over a coherent cache, whatever Redis does, a read answers what the table answers and leaves the cache coherent |
| CacheAside.LookupByIdCoherent | paas/src/main/java/jit/edu/paas/service/impl/SysImageServiceImpl.java:107-132 | over a coherent cache getById answers selectById and leaves the cache coherent |
| CacheAside.LookupByFullNameCoherent | paas/src/main/java/jit/edu/paas/service/impl/SysImageServiceImpl.java:135-161 | over a coherent cache getByFullName answers the first row with that fullName and leaves the cache coherent |
| CacheAside.Clean | paas/src/main/java/jit/edu/paas/service/impl/SysImageServiceImpl.java:587-598 | cleanCache removes no field but the id field, only when the id is not blank and its delete works, and the fullName field, only when the fullName is not blank, its delete works and the first delete did not throw; each is gone under those same conditions; a failing first delete leaves the cache as it was |
| CacheAside.CleanKeepsCoherent | paas/src/main/java/jit/edu/paas/service/impl/SysImageServiceImpl.java:587-598 | cleaning never breaks coherence |
| CacheAside.UpdateThenCleanCoherent | paas/src/main/java/jit/edu/paas/service/impl/SysImageServiceImpl.java:618-623 | an update of a record followed by cleaning its two fields keeps the cache coherent |
| CacheAside.DeleteThenCleanCoherent | paas/src/main/java/jit/edu/paas/service/impl/SysImageServiceImpl.java:303-305 | a delete of a record followed by cleaning its two fields keeps the cache coherent |
| CacheAside.DeleteWithoutCleanIsStale | paas/src/main/java/jit/edu/paas/service/impl/SysImageServiceImpl.java:238-243 | a delete without cleaning, as in the sync, leaves getById returning the cached record although the table no longer has it |
| Service.ImageService.constructor | paas/src/main/java/jit/edu/paas/service/impl/SysImageServiceImpl.java:52-59 | the service starts over the given table and hash, with the primary key holding |
| Service.ImageService.GetById | paas/src/main/java/jit/edu/paas/service/impl/SysImageServiceImpl.java:107-132 | the result and the new cache are the read-through of the id field; over a coherent cache the result is selectById and the cache stays coherent |
| Service.ImageService.GetByFullName | paas/src/main/java/jit/edu/paas/service/impl/SysImageServiceImpl.java:135-161 | the result and the new cache are the read-through of the fullName field; over a coherent cache the result is the first row with that fullName and the cache stays coherent |
| Service.ImageService.CleanCache | paas/src/main/java/jit/edu/paas/service/impl/SysImageServiceImpl.java:587-598 | the new cache is the cleaned one, and coherence is kept |
| Service.ImageService.ChangOpenImage | paas/src/main/java/jit/edu/paas/service/impl/SysImageServiceImpl.java:607-625 | PARAM_ERROR for a missing record; PERMISSION_ERROR, with the table unchanged, for a non-user image or a caller who is not the owner; a null type or flag raises NullPointer; otherwise success, and the table gets the flipped flag and both fields are cleaned only when the flag changes; the primary key and, with Redis working, coherence are kept |
| Service.ToggleTwiceIsIdempotent | paas/src/main/java/jit/edu/paas/service/impl/SysImageServiceImpl.java:618-624 | with Redis working, over a cache coherent with the table, and when the stored record's id is not blank and its fullName is null or not blank, repeating changOpenImage with the same code answers as the first call did and changes no record |
| Service.StaleCacheBreaksIdempotence | paas/src/main/java/jit/edu/paas/service/impl/SysImageServiceImpl.java:607-625 | on an incoherent cache the repeat differs: a cached user image of this owner whose row is gone is toggled once with Success, the entry is cleaned, and the second call answers PARAM_ERROR |
| Service.ImageService.RemoveImage | paas/src/main/java/jit/edu/paas/service/impl/SysImageServiceImpl.java:281-311 | PARAM_ERROR for a missing record; DELETE_IMAGE_PERMISSION_ERROR, with the table unchanged, when the delete check fails; DELETE_IMAGE_BY_CONTAINER_ERROR, with the table unchanged, when the daemon refuses; otherwise the record is deleted and both its fields cleaned; the primary key and, with Redis working, coherence are kept |
| Service.ImageService.SyncLocalImage | paas/src/main/java/jit/edu/paas/service/impl/SysImageServiceImpl.java:203-269 | DOCKER_EXCEPTION with no change when listing fails; success exactly when no translation throws and no insert hits the key; on success the table is the claimed records followed by the inserted ones, and the counts are the unset record flags, the inserted records and the null translations, with added plus errors the unset image flags; on failure the writes made so far stay |
| Service.ImageService.DeleteUnclaimed | paas/src/main/java/jit/edu/paas/service/impl/SysImageServiceImpl.java:238-244 | the loop leaves exactly the claimed records, in order, and counts the others |
| Service.ImageService.InsertPending | paas/src/main/java/jit/edu/paas/service/impl/SysImageServiceImpl.java:247-257 | the insert phase succeeds exactly when no translation throws and no insert hits the key, and then appends the yielded records and counts the added records and the nulls; otherwise it stops with a prefix of those records written |
| Service.InsertAll | paas/src/main/java/jit/edu/paas/service/impl/SysImageServiceImpl.java:247-257 | the loop of the insert phase over a table value, with the same outcome |
| Service.InsertOne | paas/src/main/java/jit/edu/paas/service/impl/SysImageServiceImpl.java:248-255 | one translation stops the phase exactly when it threw or its id is taken; otherwise its record is appended or its null counted |
| Service.StopsEarly | paas/src/main/java/jit/edu/paas/service/impl/SysImageServiceImpl.java:249-254 | a throw or a duplicate key at one image makes the whole phase fail, with what was inserted before it a prefix of the full result |
| Service.UpdateKeepsKey | paas/src/main/java/jit/edu/paas/service/impl/SysImageServiceImpl.java:620 | updateById keeps the primary key |
| Service.DeleteKeepsKey | paas/src/main/java/jit/edu/paas/service/impl/SysImageServiceImpl.java:303 | deleteById keeps the primary key |
| Service.ResyncIsQuiet | paas/src/main/java/jit/edu/paas/service/impl/SysImageServiceImpl.java:203-264 | after a successful sync over images with distinct first tags, each of which translates to a record, an immediate second sync reports 0 deleted, 0 added, 0 errors |

## Left out

- Listing (`listLocalPublicImage`, `listLocalUserImage`, `listHubImage`): these are pagination passthroughs to the mapper and an HTTP search of Docker Hub.
- `inspectImage`, `getHistory`, `listExportPorts`, `pushImage` and `exportImage`: these forward to the Docker client. The `getById` and `hasAuthImage` gate in front of them is modelled as `GetById` and `HasAuthImage` separately, not composed into those operations.
- `importImage` has its body commented out. `uploadImages` and `buildImage` are multipart HTTP calls.
- `pullImageFromHub` apart from its default tag: the existence check, the pull and the re-listing are Docker calls.
- The command of `imageToSysImage`: the daemon's inspection is the parameter `inspectCmd`, taken as the stored string, with its JSON encoding not modelled. A failed inspection leaves it null.
- The `createDate` and `updateDate` timestamps are not modelled (`new Date()`).
- Null metadata: the daemon's size, virtual size, labels and parent id are never null in this model, so `Records.Overlay` always takes them from the written record. A null among them, which `updateById` would skip, is not modelled.
- JSON serialisation: a cached value is the record itself, and labels are kept as a map. `JsonUtils` is not part of this model, so what `getById` and `getByFullName` do with a cached string that does not parse is unknown and not modelled: an exception would be caught and answered from the table, and a null from `jsonToObject` would be returned as null.
- Failed Redis calls are taken not to have landed; a write that lands and still reports an error is not modelled.
- Unicode whitespace: `isBlank` is modelled over ASCII whitespace only.
- Null string arguments (`id`, `userId`, `uid`) are not modelled. A null `userId` or `uid` would throw on `equals`.
- The catalog table never fails except on the primary key of an insert. A mapper exception elsewhere (a failing `deleteById` in `removeImage`, a failing `updateById`) is not modelled.
- The login service: the caller's role name is an input. `RoleEnum` is not part of this model, so the ordinary-user role's message is the constant `USER_ROLE_NAME`.
- Concurrency: overlapping syncs, and the two `hdel` calls of `cleanCache` not being atomic together.
- Table order: `selectList` returns rows in stored order, and an insert appends at the end.
- The sync works on a copy of the table and stores it once per phase. It does not write row by row, but it ends in the same state as the code, including the writes kept before a failure.
- Service.ImageService.SyncLocalImage: when a sync fails, the contract states only that the table lies between the surviving records and the full result. It does not say which prefix of the inserts was written.
- The counters are unbounded naturals; Java's 32-bit `int` overflow is not modelled.

## Findings

| source | as written | input that shows it | evidently intended | confidence | as-written member | corrected member |
|---|---|---|---|---|---|---|
| paas/src/main/java/jit/edu/paas/service/impl/SysImageServiceImpl.java:322-325 | `:latest` is appended only when the name has no `:` anywhere, so the `:` of a registry port counts as a tag | `192.168.30.169:5000/jitwxs/hello-world`: no `:latest` is added, so the name passed to `listImages(byName)` (line 329), to `getByFullName` (line 333, which misses the `…:latest` record the sync stores) and to `pull` (line 346) has no tag | the comment says a name without a version gets the latest version; only a `:` in the last `/` segment is a version | medium, not executed | Reference.DefaultPullNameSkipsPortedRegistry | Reference.DefaultPullNameCorrectedHasTag |
