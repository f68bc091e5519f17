/**
 * Decoding the strings the Docker daemon reports: an image reference
 * `name:tag` (splitRepoTag), an image id with its digest prefix
 * (splitImageId), and the translation of a listed image into a catalog
 * record (imageToSysImage). Also the default tag that pullImageFromHub adds.
 */
module Reference {
  import opened Wrappers
  import opened JavaLang
  import opened ImageTypes
  import opened Records

  /** The part before the tag, classified by its number of '/' segments. */
  datatype Head =
    | Official(name: string)                            // one segment, e.g. nginx
    | Public(repo: string, name: string)                // two segments, e.g. portainer/portainer
    | User(repo: string, userId: string, name: string)  // three segments: registry/user/name
    | Malformed                                         // any other number of segments

  /**
   * The result map of splitRepoTag. Its "repo", "name", "type" and "userId"
   * entries are the functions below; "status" is Status().
   */
  datatype RepoTag = RepoTag(fullName: string, tag: string, head: Head) {

    predicate Status() {
      !head.Malformed?
    }

    function Repo(): Option<string> {
      match head
      case Official(_) => Some("library")
      case Public(repo, _) => Some(repo)
      case User(repo, _, _) => Some(repo)
      case Malformed => None
    }

    function Name(): Option<string> {
      match head
      case Official(name) => Some(name)
      case Public(_, name) => Some(name)
      case User(_, _, name) => Some(name)
      case Malformed => None
    }

    function ImageType(): Option<int> {
      match head
      case Official(_) => Some(LOCAL_PUBLIC_IMAGE_CODE)
      case Public(_, _) => Some(LOCAL_PUBLIC_IMAGE_CODE)
      case User(_, _, _) => Some(LOCAL_USER_IMAGE_CODE)
      case Malformed => None
    }

    function UserId(): Option<string> {
      if head.User? then Some(head.userId) else None
    }
  }

  /** The head split on '/' and classified by segment count. */
  function Classify(tagHead: string): (h: Head)
    ensures h.Official? ==> '/' !in h.name
    ensures h.Public? ==> '/' !in h.repo && '/' !in h.name
    ensures h.User? ==> '/' !in h.repo && '/' !in h.userId && '/' !in h.name
    ensures h.Malformed? <==> |Split(tagHead, '/')| !in {1, 2, 3}
  {
    var names := Split(tagHead, '/');
    if |names| == 1 then Official(names[0])
    else if |names| == 2 then Public(names[0], names[1])
    else if |names| == 3 then User(names[0], names[1], names[2])
    else Malformed
  }

  /**
   * splitRepoTag: the tag is everything after the last ':', the head
   * everything before it. Without a ':' the call to substring(0, -1) throws.
   */
  function SplitRepoTag(repoTag: string): (r: Outcome<RepoTag>)
    ensures r.Threw? <==> ':' !in repoTag
    ensures r.Threw? ==> r.error == StringIndexOutOfBounds
    ensures r.Returned? ==>
              && r.value.fullName == repoTag
              && ':' !in r.value.tag
              && |r.value.tag| < |repoTag|
              && repoTag == repoTag[..|repoTag| - |r.value.tag| - 1] + [':'] + r.value.tag
              && r.value.head == Classify(repoTag[..|repoTag| - |r.value.tag| - 1])
  {
    var tagIndex := LastIndexOf(repoTag, ':');
    var tag := repoTag[tagIndex + 1..];
    if tagIndex < 0 then Threw(StringIndexOutOfBounds)
    else
      var tagHead := repoTag[..tagIndex];
      assert |repoTag| - |tag| - 1 == tagIndex;
      assert repoTag == tagHead + [':'] + tag;
      Returned(RepoTag(repoTag, tag, Classify(tagHead)))
  }

  /** The head a classification is written as. */
  function RenderHead(head: Head): (s: string)
    requires !head.Malformed?
  {
    match head
    case Official(name) => name
    case Public(repo, name) => repo + "/" + name
    case User(repo, userId, name) => repo + "/" + userId + "/" + name
  }

  /** The reference a classified head and tag are written as. */
  function Render(tag: string, head: Head): (s: string)
    requires !head.Malformed?
  {
    RenderHead(head) + ":" + tag
  }

  /**
   * The shapes splitRepoTag can produce from a reference without redundant
   * '/': components free of '/', a tag free of ':', and a last component
   * that is not empty once there is a '/' before it.
   */
  predicate WellFormed(tag: string, head: Head) {
    && ':' !in tag
    && match head
       case Official(name) => '/' !in name
       case Public(repo, name) => '/' !in repo && '/' !in name && name != ""
       case User(repo, userId, name) => '/' !in repo && '/' !in userId && '/' !in name && name != ""
       case Malformed => false
  }

  /** The last ':' of `a + [c] + b` is the one after `a` when `b` has none. */
  lemma LastIndexOfAt(a: string, c: char, b: string)
    requires c !in b
    ensures LastIndexOf(a + [c] + b, c) == |a|
  {
    var s := a + [c] + b;
    assert s[|a|] == c;
    var r := LastIndexOf(s, c);
    assert r >= |a|;
  }

  /** Any reference with a ':'-free tag is cut at the ':' before that tag. */
  lemma SplitRepoTagAt(tagHead: string, tag: string)
    requires ':' !in tag
    ensures SplitRepoTag(tagHead + [':'] + tag) == Returned(RepoTag(tagHead + [':'] + tag, tag, Classify(tagHead)))
  {
    var s := tagHead + [':'] + tag;
    LastIndexOfAt(tagHead, ':', tag);
    assert s[..|tagHead|] == tagHead;
    assert s[|tagHead| + 1..] == tag;
  }

  /** A two-segment head with a non-empty name is a public image. */
  lemma ClassifyTwo(repo: string, name: string)
    requires '/' !in repo && '/' !in name && name != ""
    ensures Classify(repo + ['/'] + name) == Public(repo, name)
  {
    var h := repo + ['/'] + name;
    SplitAllAfter(repo, '/', name);
    SplitAllWithout(name, '/');
    assert h[|repo|] == '/';
  }

  /** A three-segment head with a non-empty name is a user image. */
  lemma ClassifyThree(repo: string, userId: string, name: string)
    requires '/' !in repo && '/' !in userId && '/' !in name && name != ""
    ensures Classify(repo + ['/'] + (userId + ['/'] + name)) == User(repo, userId, name)
  {
    var h := repo + ['/'] + (userId + ['/'] + name);
    SplitAllAfter(repo, '/', userId + ['/'] + name);
    SplitAllAfter(userId, '/', name);
    SplitAllWithout(name, '/');
    assert h[|repo|] == '/';
  }

  /** Parsing a rendered reference gives back its tag and classification. */
  lemma SplitRepoTagOfRender(tag: string, head: Head)
    requires WellFormed(tag, head)
    ensures SplitRepoTag(Render(tag, head)) == Returned(RepoTag(Render(tag, head), tag, head))
  {
    match head {
      case Official(name) =>
        assert Render(tag, head) == name + [':'] + tag;
        SplitRepoTagAt(name, tag);
      case Public(repo, name) =>
        var h := repo + ['/'] + name;
        assert Render(tag, head) == h + [':'] + tag;
        SplitRepoTagAt(h, tag);
        ClassifyTwo(repo, name);
      case User(repo, userId, name) =>
        var h := repo + ['/'] + (userId + ['/'] + name);
        assert Render(tag, head) == h + [':'] + tag;
        SplitRepoTagAt(h, tag);
        ClassifyThree(repo, userId, name);
    }
  }

  /** A head with a '/' that does not end in '/' splits into all its pieces. */
  lemma SplitWithoutTrailingSlash(tagHead: string)
    requires '/' in tagHead && tagHead[|tagHead| - 1] != '/'
    ensures Split(tagHead, '/') == SplitAll(tagHead, '/') && |SplitAll(tagHead, '/')| >= 2
  {
    SplitAllLastPiece(tagHead, '/');
  }

  /** A head that does not end in '/' and classifies is written back as itself. */
  lemma RenderHeadOfClassify(tagHead: string)
    requires !Classify(tagHead).Malformed?
    requires tagHead == "" || tagHead[|tagHead| - 1] != '/'
    ensures RenderHead(Classify(tagHead)) == tagHead
  {
    if '/' in tagHead {
      SplitWithoutTrailingSlash(tagHead);
      var pieces := SplitAll(tagHead, '/');
      if |pieces| == 2 {
        JoinTwo(pieces, '/');
      } else {
        JoinThree(pieces, '/');
      }
    }
  }

  /** A parsed reference whose head does not end in '/' is rendered back to itself. */
  lemma RenderOfSplitRepoTag(repoTag: string)
    requires SplitRepoTag(repoTag).Returned? && SplitRepoTag(repoTag).value.Status()
    requires var p := SplitRepoTag(repoTag).value;
             var h := repoTag[..|repoTag| - |p.tag| - 1];
             h == "" || h[|h| - 1] != '/'
    ensures var p := SplitRepoTag(repoTag).value; Render(p.tag, p.head) == repoTag
  {
    var p := SplitRepoTag(repoTag).value;
    var h := repoTag[..|repoTag| - |p.tag| - 1];
    assert p.head == Classify(h) && repoTag == h + [':'] + p.tag;
    RenderHeadOfClassify(h);
    assert RenderHead(p.head) == h;
  }

  /** An official image: one segment, repo "library". */
  lemma SplitRepoTagOfficialExample()
    ensures SplitRepoTag("nginx:latest") == Returned(RepoTag("nginx:latest", "latest", Official("nginx")))
  {
    assert Render("latest", Official("nginx")) == "nginx:latest";
    SplitRepoTagOfRender("latest", Official("nginx"));
  }

  /** A namespaced public image: two segments. */
  lemma SplitRepoTagPublicExample()
    ensures SplitRepoTag("portainer/portainer:1.0")
            == Returned(RepoTag("portainer/portainer:1.0", "1.0", Public("portainer", "portainer")))
  {
    assert Render("1.0", Public("portainer", "portainer")) == "portainer/portainer:1.0";
    SplitRepoTagOfRender("1.0", Public("portainer", "portainer"));
  }

  /** A user image behind a registry with a port: the port's ':' is not taken for the tag's. */
  lemma SplitRepoTagRegistryExample(repoTag: string)
    requires repoTag == "192.168.30.169:5000/alice/hello:latest"
    ensures SplitRepoTag(repoTag) == Returned(RepoTag(repoTag, "latest", User("192.168.30.169:5000", "alice", "hello")))
  {
    RegistryHasNoSlash();
    ClassifyThree("192.168.30.169:5000", "alice", "hello");
    SpellRegistryUser();
    SplitRepoTagAt("192.168.30.169:5000" + ['/'] + ("alice" + ['/'] + "hello"), "latest");
  }

  /** The example registry address is one segment. */
  lemma RegistryHasNoSlash()
    ensures '/' !in "192.168.30.169:5000"
  {
  }

  /** The registry example written as its pieces. */
  lemma SpellRegistryUser()
    ensures "192.168.30.169:5000/alice/hello:latest"
            == "192.168.30.169:5000" + ['/'] + ("alice" + ['/'] + "hello") + [':'] + "latest"
  {
  }

  /** A head of four segments with a non-empty last one is malformed. */
  lemma ClassifyFour(a: string, b: string, c: string, d: string)
    requires '/' !in a && '/' !in b && '/' !in c && '/' !in d && d != ""
    ensures Classify(a + ['/'] + (b + ['/'] + (c + ['/'] + d))) == Malformed
  {
    var h := a + ['/'] + (b + ['/'] + (c + ['/'] + d));
    SplitAllAfter(a, '/', b + ['/'] + (c + ['/'] + d));
    SplitAllAfter(b, '/', c + ['/'] + d);
    SplitAllAfter(c, '/', d);
    SplitAllWithout(d, '/');
    assert h[|a|] == '/';
    assert SplitAll(h, '/') == [a, b, c, d];
  }

  /** A head of four or more segments with a non-empty last one is malformed. */
  lemma ClassifyMany(pieces: seq<string>)
    requires |pieces| >= 4 && pieces[|pieces| - 1] != ""
    requires forall k :: 0 <= k < |pieces| ==> '/' !in pieces[k]
    ensures Classify(Join(pieces, '/')) == Malformed
  {
    SplitJoin(pieces, '/');
  }

  /** A head of nothing but '/' has no segments at all and is malformed. */
  lemma ClassifyOnlySlashes(tagHead: string)
    requires tagHead != "" && OnlyOf(tagHead, '/')
    ensures Classify(tagHead) == Malformed
  {
    SplitEmpty(tagHead, '/');
  }

  /** A reference whose head has four or more segments parses with status false. */
  lemma SplitRepoTagMany(pieces: seq<string>, tag: string)
    requires |pieces| >= 4 && pieces[|pieces| - 1] != "" && ':' !in tag
    requires forall k :: 0 <= k < |pieces| ==> '/' !in pieces[k]
    ensures var r := SplitRepoTag(Join(pieces, '/') + [':'] + tag);
            r.Returned? && !r.value.Status()
  {
    SplitRepoTagAt(Join(pieces, '/'), tag);
    ClassifyMany(pieces);
  }

  /** A reference whose head is nothing but '/' parses with status false. */
  lemma SplitRepoTagOnlySlashes(tagHead: string, tag: string)
    requires tagHead != "" && OnlyOf(tagHead, '/') && ':' !in tag
    ensures var r := SplitRepoTag(tagHead + [':'] + tag); r.Returned? && !r.value.Status()
  {
    SplitRepoTagAt(tagHead, tag);
    ClassifyOnlySlashes(tagHead);
  }

  /** "/:latest" has a head with no segments: it parses with status false. */
  lemma SplitRepoTagNoSegments()
    ensures var r := SplitRepoTag("/:latest"); r.Returned? && !r.value.Status()
  {
    SpellNoSegments();
    LatestIsPlain();
    SplitRepoTagOnlySlashes("/", "latest");
  }

  /** "/:latest" written as its pieces. */
  lemma SpellNoSegments()
    ensures "/:latest" == "/" + [':'] + "latest" && OnlyOf("/", '/')
  {
  }

  /** A reference whose head has four segments parses with status false. */
  lemma SplitRepoTagFour(a: string, b: string, c: string, d: string, tag: string)
    requires '/' !in a && '/' !in b && '/' !in c && '/' !in d && d != "" && ':' !in tag
    ensures var r := SplitRepoTag(a + ['/'] + (b + ['/'] + (c + ['/'] + d)) + [':'] + tag);
            r.Returned? && !r.value.Status()
  {
    SplitRepoTagAt(a + ['/'] + (b + ['/'] + (c + ['/'] + d)), tag);
    ClassifyFour(a, b, c, d);
  }

  /** Four segments are malformed: the status is false. */
  lemma SplitRepoTagMalformedExample(repoTag: string)
    requires repoTag == "192.168.30.169:5000/alice/hello/world:latest"
    ensures SplitRepoTag(repoTag).Returned? && !SplitRepoTag(repoTag).value.Status()
  {
    SpellFourSegments();
    RegistryHasNoSlash();
    SplitRepoTagFour("192.168.30.169:5000", "alice", "hello", "world", "latest");
  }

  /** The four-segment example written as its pieces. */
  lemma SpellFourSegments()
    ensures "192.168.30.169:5000/alice/hello/world:latest"
            == "192.168.30.169:5000" + ['/'] + ("alice" + ['/'] + ("hello" + ['/'] + "world")) + [':'] + "latest"
  {
  }

  /**
   * splitImageId: the second ':'-piece of the id, or the id itself when
   * split gives one piece. An id made of ':' only splits into no pieces at
   * all, and reading the second one throws.
   */
  function SplitImageId(imageId: string): (r: Outcome<string>)
    ensures r.Threw? <==> imageId != "" && OnlyOf(imageId, ':')
    ensures r.Threw? ==> r.error == ArrayIndexOutOfBounds
    ensures ':' !in imageId ==> r == Returned(imageId)
    ensures r.Returned? ==> r.value == imageId || ':' !in r.value
  {
    SplitEmpty(imageId, ':');
    var splits := Split(imageId, ':');
    if |splits| == 1 then Returned(imageId)
    else if |splits| < 2 then Threw(ArrayIndexOutOfBounds)
    else Returned(splits[1])
  }

  /** A digest prefix `algorithm:` is stripped, leaving the digest. */
  lemma SplitImageIdStripsPrefix(algorithm: string, digest: string)
    requires ':' !in algorithm && ':' !in digest && digest != ""
    ensures SplitImageId(algorithm + [':'] + digest) == Returned(digest)
  {
    var s := algorithm + [':'] + digest;
    SplitAllAfter(algorithm, ':', digest);
    SplitAllWithout(digest, ':');
    assert s[|algorithm|] == ':';
  }

  /** An id with two or more ':' gives its second ':'-piece, as splits[1] reads. */
  lemma SplitImageIdSecondPiece(a: string, b: string, rest: string)
    requires ':' !in a && ':' !in b && b != ""
    ensures SplitImageId(a + [':'] + b + [':'] + rest) == Returned(b)
  {
    var s := a + [':'] + b + [':'] + rest;
    assert s == a + [':'] + (b + [':'] + rest);
    SplitAllAfter(a, ':', b + [':'] + rest);
    SplitAllAfter(b, ':', rest);
    assert s[|a|] == ':';
    var pieces := SplitAll(s, ':');
    assert pieces[..2] == [a, b];
    var splits := DropTrailingEmpty(pieces);
    assert pieces[1] == b && b != "";
    assert |splits| >= 2;
    assert splits[1] == b;
  }

  /** With an empty digest the trailing empty piece is dropped and the id is kept whole. */
  lemma SplitImageIdKeepsBarePrefix(algorithm: string)
    requires ':' !in algorithm && algorithm != ""
    ensures SplitImageId(algorithm + [':']) == Returned(algorithm + [':'])
  {
    var s := algorithm + [':'];
    SplitAllAfter(algorithm, ':', "");
    assert s == algorithm + [':'] + "";
    assert s[|algorithm|] == ':';
    assert SplitAll(s, ':') == [algorithm, ""];
    assert DropTrailingEmpty([algorithm, ""]) == [algorithm];
  }

  /**
   * imageToSysImage: the catalog record for a listed image. The id has its
   * digest prefix stripped; the first repoTag, when there is one, gives the
   * name fields and the type; a user image gets its owner and starts closed.
   * The result is null when that first repoTag is malformed, and the call
   * throws when splitting the id or the repoTag does.
   */
  function ImageToSysImage(image: RuntimeImage): (r: Outcome<Option<SysImage>>)
    ensures r.Threw? <==> SplitImageId(image.id).Threw? || (FirstTag(image).Some? && ':' !in FirstTag(image).value)
    ensures r == Returned(None) <==>
              && SplitImageId(image.id).Returned?
              && FirstTag(image).Some?
              && SplitRepoTag(FirstTag(image).value).Returned?
              && !SplitRepoTag(FirstTag(image).value).value.Status()
    ensures r.Returned? && r.value.Some? ==>
              var rec := r.value.value;
              && Returned(rec.id) == SplitImageId(image.id)
              && rec.metadata == image.metadata
              && rec.fullName == FirstTag(image)
              && (rec.imageType == Some(LOCAL_USER_IMAGE_CODE) ==> rec.userId.Some? && rec.hasOpen == Some(false))
              && (rec.imageType != Some(LOCAL_USER_IMAGE_CODE) ==> rec.userId.None? && rec.hasOpen.None?)
              && (FirstTag(image).None? ==>
                    rec == SysImage(rec.id, None, None, None, None, None, None, None, None, image.metadata))
              && (FirstTag(image).Some? ==>
                    && rec.imageType.Some? && rec.tag.Some? && rec.cmd == image.inspectCmd
                    && (rec.imageType == Some(LOCAL_USER_IMAGE_CODE) <==> SplitRepoTag(FirstTag(image).value).value.head.User?)
                    && var parts := SplitRepoTag(FirstTag(image).value).value;
                       && rec.tag == Some(parts.tag)
                       && rec.repo == parts.Repo()
                       && rec.name == parts.Name()
                       && rec.imageType == parts.ImageType()
                       && rec.userId == parts.UserId())
  {
    match SplitImageId(image.id)
    case Threw(e) => Threw(e)
    case Returned(id) =>
      var bare := SysImage(id, None, None, None, None, None, None, None, None, image.metadata);
      match FirstTag(image)
      case None => Returned(Some(bare))
      case Some(repoTag) =>
        match SplitRepoTag(repoTag)
        case Threw(e) => Threw(e)
        case Returned(parts) =>
          if !parts.Status() then Returned(None)
          else
            var userImage := parts.ImageType() == Some(LOCAL_USER_IMAGE_CODE);
            Returned(Some(bare.(
              fullName := Some(parts.fullName),
              tag := Some(parts.tag),
              repo := parts.Repo(),
              name := parts.Name(),
              imageType := parts.ImageType(),
              userId := if userImage then parts.UserId() else None,
              hasOpen := if userImage then Some(false) else None,
              cmd := image.inspectCmd)))
  }

  /**
   * A user image pushed to a private registry: the digest prefix is
   * stripped from the id, the registry address becomes the repo, the middle
   * segment the owner, and the image starts closed.
   */
  lemma ImageToSysImageRegistryExample(image: RuntimeImage)
    requires image.id == "sha256:4ab1"
    requires image.repoTags == Some(["192.168.30.169:5000/alice/hello:latest"])
    ensures ImageToSysImage(image) == Returned(Some(SysImage(
              "4ab1", Some("192.168.30.169:5000/alice/hello:latest"), Some("latest"),
              Some("192.168.30.169:5000"), Some("hello"), Some(LOCAL_USER_IMAGE_CODE),
              Some("alice"), Some(false), image.inspectCmd, image.metadata)))
  {
    var repoTag := "192.168.30.169:5000/alice/hello:latest";
    SpellDigestId();
    SplitImageIdStripsPrefix("sha256", "4ab1");
    SplitRepoTagRegistryExample(repoTag);
    ImageToSysImageOfUser(image, "4ab1", repoTag, "latest", "192.168.30.169:5000", "alice", "hello");
  }

  /** The record of an image whose first repoTag names a user image. */
  lemma ImageToSysImageOfUser(image: RuntimeImage, id: string, repoTag: string, tag: string,
                              repo: string, userId: string, name: string)
    requires SplitImageId(image.id) == Returned(id)
    requires FirstTag(image) == Some(repoTag)
    requires SplitRepoTag(repoTag) == Returned(RepoTag(repoTag, tag, User(repo, userId, name)))
    ensures ImageToSysImage(image) == Returned(Some(SysImage(
              id, Some(repoTag), Some(tag), Some(repo), Some(name), Some(LOCAL_USER_IMAGE_CODE),
              Some(userId), Some(false), image.inspectCmd, image.metadata)))
  {
  }

  /** The example id written as its pieces. */
  lemma SpellDigestId()
    ensures "sha256:4ab1" == "sha256" + [':'] + "4ab1"
  {
  }

  /**
   * pullImageFromHub's default tag, as written: ":latest" is appended when
   * the name contains no ':' anywhere.
   */
  function DefaultPullName(name: string): (r: string)
    ensures ':' in r
    ensures ':' in name ==> r == name
    ensures ':' !in name ==> r == name + ":latest"
    ensures ':' !in name ==> SplitRepoTag(r).Returned? && SplitRepoTag(r).value.tag == "latest"
  {
    if ':' in name then name
    else
      var r := name + ":latest";
      assert r == name + [':'] + "latest";
      SplitRepoTagAt(name, "latest");
      r
  }

  /**
   * A registry with a port and no tag keeps its name: the port's ':' is
   * taken for a tag. Were this name parsed by splitRepoTag, its tag would contain '/'.
   */
  lemma DefaultPullNameSkipsPortedRegistry(name: string)
    requires name == "192.168.30.169:5000/jitwxs/hello-world"
    ensures DefaultPullName(name) == name
    ensures SplitRepoTag(DefaultPullName(name)).Returned?
    ensures SplitRepoTag(DefaultPullName(name)).value.tag == "5000/jitwxs/hello-world"
  {
    SpellPortedRegistry();
    assert name[14] == ':';
    SplitRepoTagAt("192.168.30.169", "5000/jitwxs/hello-world");
  }

  /**
   * What the missing tag costs pullImageFromHub: it looks the name up in
   * the catalog as pulled, and a catalog whose names all carry a tag in
   * their last segment, as the names the daemon lists do, has no record of
   * that name. The corrected default looks up the ":latest" name instead.
   */
  lemma PortedPullMissesTaggedRecords(name: string, rows: seq<SysImage>)
    requires name == "192.168.30.169:5000/jitwxs/hello-world"
    requires forall k :: 0 <= k < |rows| && rows[k].fullName.Some? ==> ':' in LastSegment(rows[k].fullName.value)
    ensures SelectByFullName(rows, DefaultPullName(name)) == None
    ensures DefaultPullNameCorrected(name) == name + ":latest"
  {
    DefaultPullNameSkipsPortedRegistry(name);
    PortedRegistryLastSegment(name);
  }

  /** The last segment of the ported-registry example. */
  lemma PortedRegistryLastSegment(name: string)
    requires name == "192.168.30.169:5000/jitwxs/hello-world"
    ensures LastSegment(name) == "hello-world" && ':' !in LastSegment(name)
  {
    SpellPortedSegments();
    LastIndexOfAt("192.168.30.169:5000/jitwxs", '/', "hello-world");
    assert name[|"192.168.30.169:5000/jitwxs"| + 1..] == "hello-world";
    HelloWorldIsPlain();
  }

  /** The ported-registry example cut at its last '/'. */
  lemma SpellPortedSegments()
    ensures "192.168.30.169:5000/jitwxs/hello-world" == "192.168.30.169:5000/jitwxs" + ['/'] + "hello-world"
  {
  }

  /** The example's last segment has no ':'. */
  lemma HelloWorldIsPlain()
    ensures ':' !in "hello-world"
  {
  }

  /** The ported-registry example written as its pieces. */
  lemma SpellPortedRegistry()
    ensures "192.168.30.169:5000/jitwxs/hello-world" == "192.168.30.169" + [':'] + "5000/jitwxs/hello-world"
  {
  }

  /** The default tag has neither separator in it. */
  lemma LatestIsPlain()
    ensures '/' !in "latest" && ':' !in "latest"
  {
  }

  /** The last '/'-segment of a name: the part in which a tag can appear. */
  function LastSegment(name: string): (r: string)
    ensures '/' !in r
  {
    name[LastIndexOf(name, '/') + 1..]
  }

  /** The default tag applied as intended: only a ':' in the last segment counts as a tag. */
  function DefaultPullNameCorrected(name: string): (r: string) {
    if ':' in LastSegment(name) then name else name + ":latest"
  }

  /** A name whose last segment has a ':' is cut at a ':' after every '/'. */
  lemma TagAfterLastSlash(name: string)
    requires ':' in LastSegment(name)
    ensures SplitRepoTag(name).Returned? && '/' !in SplitRepoTag(name).value.tag
  {
    ColonAfterLastSlash(name);
    var slash := LastIndexOf(name, '/');
    var colon := LastIndexOf(name, ':');
    var tag := name[colon + 1..];
    assert SplitRepoTag(name).value.tag == tag;
    forall i | 0 <= i < |tag| ensures tag[i] != '/' {
      assert tag[i] == name[colon + 1 + i];
    }
  }

  /** A ':' in the last segment puts the last ':' after the last '/'. */
  lemma ColonAfterLastSlash(name: string)
    requires ':' in LastSegment(name)
    ensures LastIndexOf(name, ':') > LastIndexOf(name, '/')
  {
    var k := ColonInLastSegment(name);
    assert name[k] == ':';
  }

  /** The position in name of a ':' of its last segment. */
  lemma ColonInLastSegment(name: string) returns (k: int)
    requires ':' in LastSegment(name)
    ensures LastIndexOf(name, '/') < k < |name| && name[k] == ':'
  {
    var segment := LastSegment(name);
    var p :| 0 <= p < |segment| && segment[p] == ':';
    k := LastIndexOf(name, '/') + 1 + p;
  }

  /**
   * With the correction every pulled reference has a real tag, one without
   * '/', and a name that had none gets "latest".
   */
  lemma DefaultPullNameCorrectedHasTag(name: string)
    ensures var r := SplitRepoTag(DefaultPullNameCorrected(name));
            && r.Returned?
            && '/' !in r.value.tag
            && (':' !in LastSegment(name) ==> r.value.tag == "latest")
    ensures ':' in LastSegment(name) ==> DefaultPullNameCorrected(name) == name
    ensures ':' !in LastSegment(name) ==> DefaultPullNameCorrected(name) == name + ":latest"
  {
    if ':' in LastSegment(name) {
      assert DefaultPullNameCorrected(name) == name;
      TagAfterLastSlash(name);
    } else {
      var r := name + ":latest";
      assert DefaultPullNameCorrected(name) == r;
      assert r == name + [':'] + "latest";
      SplitRepoTagAt(name, "latest");
      assert SplitRepoTag(r).value.tag == "latest";
      LatestIsPlain();
    }
  }
}
