/**
 * The two kinds of image description the service handles: the catalog
 * record (the sys_image row, SysImage) and the image as the Docker daemon
 * lists it; and the queries and updates the service makes of the catalog
 * table, modelled as a sequence of rows in the order the table returns them.
 */
module Records {
  import opened Wrappers

  /**
   * Descriptive metadata that is copied from the daemon unchanged: size,
   * virtual size, labels and parent id. None of them is null in this model.
   */
  datatype Metadata = Metadata(size: int, virtualSize: int, labels: map<string, string>, parentId: string)

  /** A catalog record; every field the translation may leave unset is an Option. */
  datatype SysImage = SysImage(
    id: string,
    fullName: Option<string>,
    tag: Option<string>,
    repo: Option<string>,
    name: Option<string>,
    imageType: Option<int>,
    userId: Option<string>,
    hasOpen: Option<bool>,
    cmd: Option<string>,
    metadata: Metadata)

  /**
   * An image as listImages reports it. `inspectCmd` is what inspecting the
   * image yields for its command, None when that inspection fails.
   */
  datatype RuntimeImage = RuntimeImage(
    id: string,
    repoTags: Option<seq<string>>,
    metadata: Metadata,
    inspectCmd: Option<string>)

  /** The first repoTag, or None when the list is null or empty. */
  function FirstTag(image: RuntimeImage): (r: Option<string>)
    ensures r.Some? <==> image.repoTags.Some? && |image.repoTags.value| > 0
    ensures r.Some? ==> r.value == image.repoTags.value[0]
  {
    if image.repoTags.Some? && |image.repoTags.value| > 0 then Some(image.repoTags.value[0]) else None
  }

  /** The primary key of the table: no two rows share an id. */
  ghost predicate UniqueIds(rows: seq<SysImage>) {
    forall a, b :: 0 <= a < b < |rows| ==> rows[a].id != rows[b].id
  }

  /** Some row has this id. */
  predicate HasId(rows: seq<SysImage>, id: string) {
    exists k :: 0 <= k < |rows| && rows[k].id == id
  }

  /** selectById: the row with this id, None when there is none. */
  function SelectById(rows: seq<SysImage>, id: string): (r: Option<SysImage>)
    ensures r.None? <==> !HasId(rows, id)
    ensures r.Some? ==> r.value in rows && r.value.id == id
    ensures UniqueIds(rows) ==> forall k :: 0 <= k < |rows| && rows[k].id == id ==> r == Some(rows[k])
  {
    if |rows| == 0 then None
    else if rows[0].id == id then Some(rows[0])
    else
      var r := SelectById(rows[1..], id);
      assert forall k :: 1 <= k < |rows| ==> rows[k] == rows[1..][k - 1];
      r
  }

  /** The first row whose fullName is `fullName`: selectList on full_name followed by getListFirst. */
  function SelectByFullName(rows: seq<SysImage>, fullName: string): (r: Option<SysImage>)
    ensures r.None? <==> forall k :: 0 <= k < |rows| ==> rows[k].fullName != Some(fullName)
    ensures r.Some? ==> exists k :: 0 <= k < |rows| && rows[k] == r.value && r.value.fullName == Some(fullName)
                                  && forall j :: 0 <= j < k ==> rows[j].fullName != Some(fullName)
  {
    if |rows| == 0 then None
    else if rows[0].fullName == Some(fullName) then Some(rows[0])
    else
      var r := SelectByFullName(rows[1..], fullName);
      assert forall k :: 1 <= k < |rows| ==> rows[k] == rows[1..][k - 1];
      if r.Some? then
        var k :| 0 <= k < |rows[1..]| && rows[1..][k] == r.value && r.value.fullName == Some(fullName)
                 && forall j :: 0 <= j < k ==> rows[1..][j].fullName != Some(fullName);
        assert forall j :: 0 <= j < k + 1 ==> rows[j].fullName != Some(fullName) by {
          forall j | 0 <= j < k + 1 ensures rows[j].fullName != Some(fullName) {
            if j > 0 { assert rows[j] == rows[1..][j - 1]; }
          }
        }
        r
      else r
  }

  /** deleteById: every row with this id removed, the others kept in order. */
  function DeleteById(rows: seq<SysImage>, id: string): (r: seq<SysImage>)
    ensures forall x :: x in r <==> x in rows && x.id != id
    ensures !HasId(rows, id) ==> r == rows
    ensures |r| <= |rows|
  {
    if |rows| == 0 then []
    else
      var rest := DeleteById(rows[1..], id);
      assert rows == [rows[0]] + rows[1..];
      if rows[0].id == id then rest else [rows[0]] + rest
  }

  /**
   * The row updateById leaves when it writes `image` over `row`: a field
   * that is null in `image` keeps the row's value, any other field takes
   * the image's value. The metadata is never null here, so it is always
   * taken from the image.
   */
  function Overlay(row: SysImage, image: SysImage): (r: SysImage) {
    row.(
      fullName := if image.fullName.Some? then image.fullName else row.fullName,
      tag := if image.tag.Some? then image.tag else row.tag,
      repo := if image.repo.Some? then image.repo else row.repo,
      name := if image.name.Some? then image.name else row.name,
      imageType := if image.imageType.Some? then image.imageType else row.imageType,
      userId := if image.userId.Some? then image.userId else row.userId,
      hasOpen := if image.hasOpen.Some? then image.hasOpen else row.hasOpen,
      cmd := if image.cmd.Some? then image.cmd else row.cmd,
      metadata := image.metadata)
  }

  /** Writing back an edited copy of a row sets the edited flag and leaves every other field as it was. */
  lemma OverlayOfEdit(row: SysImage, open: bool)
    ensures Overlay(row, row.(hasOpen := Some(open))) == row.(hasOpen := Some(open))
  {
  }

  /** updateById: every row with the record's id overlaid with the record, the others untouched. */
  function UpdateById(rows: seq<SysImage>, image: SysImage): (r: seq<SysImage>)
    ensures |r| == |rows|
    ensures forall k :: 0 <= k < |rows| ==> r[k] == if rows[k].id == image.id then Overlay(rows[k], image) else rows[k]
  {
    seq(|rows|, k requires 0 <= k < |rows| => if rows[k].id == image.id then Overlay(rows[k], image) else rows[k])
  }

  /** updateById of an id the table does not hold changes nothing. */
  lemma UpdateMissesAbsentId(rows: seq<SysImage>, image: SysImage)
    requires !HasId(rows, image.id)
    ensures UpdateById(rows, image) == rows
  {
    var r := UpdateById(rows, image);
    forall k | 0 <= k < |rows| ensures r[k] == rows[k] {
      assert rows[k].id != image.id;
    }
  }

  /** updateById on a table and on its tail agree after the first row. */
  lemma UpdateByIdTail(rows: seq<SysImage>, image: SysImage)
    requires |rows| > 0
    ensures UpdateById(rows, image)[1..] == UpdateById(rows[1..], image)
  {
    var u := UpdateById(rows, image);
    var t := UpdateById(rows[1..], image);
    forall k | 0 <= k < |t| ensures u[1..][k] == t[k] {
      assert rows[1..][k] == rows[k + 1];
    }
  }

  /** Looking up another id after an update gives what it gave before. */
  lemma {:induction false} SelectByIdAfterUpdate(rows: seq<SysImage>, image: SysImage, id: string)
    requires image.id != id
    ensures SelectById(UpdateById(rows, image), id) == SelectById(rows, id)
  {
    if |rows| > 0 {
      UpdateByIdTail(rows, image);
      SelectByIdAfterUpdate(rows[1..], image, id);
    }
  }

  /** Looking up the updated id gives the overlaid row. */
  lemma {:induction false} SelectByIdAfterUpdateSame(rows: seq<SysImage>, image: SysImage, row: SysImage)
    requires SelectById(rows, image.id) == Some(row)
    ensures SelectById(UpdateById(rows, image), image.id) == Some(Overlay(row, image))
  {
    var updated := UpdateById(rows, image);
    if rows[0].id == image.id {
      assert row == rows[0] && updated[0] == Overlay(row, image);
    } else {
      assert updated[0] == rows[0];
      UpdateByIdTail(rows, image);
      assert SelectById(rows[1..], image.id) == Some(row);
      SelectByIdAfterUpdateSame(rows[1..], image, row);
    }
  }

  /**
   * Looking up a fullName that the updated rows neither carry nor receive
   * gives what it gave before.
   */
  lemma {:induction false} SelectByFullNameAfterUpdate(rows: seq<SysImage>, image: SysImage, n: string)
    requires forall k :: 0 <= k < |rows| && rows[k].id == image.id ==>
               rows[k].fullName != Some(n) && Overlay(rows[k], image).fullName != Some(n)
    ensures SelectByFullName(UpdateById(rows, image), n) == SelectByFullName(rows, n)
  {
    if |rows| > 0 {
      var u := UpdateById(rows, image);
      UpdateByIdTail(rows, image);
      assert forall k :: 0 <= k < |rows[1..]| ==> rows[1..][k] == rows[k + 1];
      SelectByFullNameAfterUpdate(rows[1..], image, n);
      assert u[0].fullName == Some(n) <==> rows[0].fullName == Some(n);
    }
  }

  /** Looking up another id after a delete gives what it gave before. */
  lemma {:induction false} SelectByIdAfterDelete(rows: seq<SysImage>, deleted: string, id: string)
    requires deleted != id
    ensures SelectById(DeleteById(rows, deleted), id) == SelectById(rows, id)
  {
    if |rows| > 0 {
      SelectByIdAfterDelete(rows[1..], deleted, id);
    }
  }

  /** Looking up a fullName the deleted rows do not carry gives what it gave before. */
  lemma {:induction false} SelectByFullNameAfterDelete(rows: seq<SysImage>, deleted: string, n: string)
    requires forall k :: 0 <= k < |rows| && rows[k].id == deleted ==> rows[k].fullName != Some(n)
    ensures SelectByFullName(DeleteById(rows, deleted), n) == SelectByFullName(rows, n)
  {
    if |rows| > 0 {
      assert forall k :: 0 <= k < |rows[1..]| ==> rows[1..][k] == rows[k + 1];
      SelectByFullNameAfterDelete(rows[1..], deleted, n);
    }
  }

  /** Deleting from a concatenation deletes from each part. */
  lemma {:induction false} DeleteByIdConcat(a: seq<SysImage>, b: seq<SysImage>, id: string)
    ensures DeleteById(a + b, id) == DeleteById(a, id) + DeleteById(b, id)
  {
    if |a| > 0 {
      var head := if a[0].id == id then [] else [a[0]];
      assert (a + b)[0] == a[0];
      assert (a + b)[1..] == a[1..] + b;
      assert DeleteById(a + b, id) == head + DeleteById(a[1..] + b, id);
      assert DeleteById(a, id) == head + DeleteById(a[1..], id);
      DeleteByIdConcat(a[1..], b, id);
      assert head + (DeleteById(a[1..], id) + DeleteById(b, id)) == (head + DeleteById(a[1..], id)) + DeleteById(b, id);
    } else {
      assert a + b == b;
    }
  }

  /** Deleting the one row with its id from the middle leaves the rows around it. */
  lemma DeleteMiddle(before: seq<SysImage>, x: SysImage, after: seq<SysImage>)
    requires !HasId(before, x.id) && !HasId(after, x.id)
    ensures DeleteById(before + [x] + after, x.id) == before + after
  {
    DeleteByIdConcat(before + [x], after, x.id);
    DeleteByIdConcat(before, [x], x.id);
    assert DeleteById([x], x.id) == DeleteById([], x.id) == [];
    assert DeleteById(before, x.id) == before;
    assert DeleteById(after, x.id) == after;
    assert before + [] == before;
  }

  /** The tail of a table with unique ids has unique ids. */
  lemma UniqueIdsTail(rows: seq<SysImage>)
    requires |rows| > 0 && UniqueIds(rows)
    ensures UniqueIds(rows[1..])
  {
    var rest := rows[1..];
    forall a, b | 0 <= a < b < |rest| ensures rest[a].id != rest[b].id {
      assert rest[a] == rows[a + 1] && rest[b] == rows[b + 1];
    }
  }

  /** A row whose id the table lacks can go in front. */
  lemma UniqueIdsCons(x: SysImage, rows: seq<SysImage>)
    requires UniqueIds(rows) && forall a :: 0 <= a < |rows| ==> rows[a].id != x.id
    ensures UniqueIds([x] + rows)
  {
    var s := [x] + rows;
    forall a, b | 0 <= a < b < |s| ensures s[a].id != s[b].id {
      assert s[b] == rows[b - 1];
      if a > 0 {
        assert s[a] == rows[a - 1];
      }
    }
  }

  /** Appending a row whose id is new keeps the ids unique: the insert that does not hit the key. */
  lemma UniqueIdsSnoc(rows: seq<SysImage>, x: SysImage)
    requires UniqueIds(rows) && !HasId(rows, x.id)
    ensures UniqueIds(rows + [x])
  {
    var s := rows + [x];
    forall a, b | 0 <= a < b < |s| ensures s[a].id != s[b].id {
      if b == |rows| {
        assert s[a] == rows[a];
      } else {
        assert s[a] == rows[a] && s[b] == rows[b];
      }
    }
  }
}
