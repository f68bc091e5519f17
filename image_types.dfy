/**
 * The image-type table: two constants, each with a display message and an
 * integer code, and the reverse lookup from a code to its message.
 */
module ImageTypes {
  import opened Wrappers

  /** The constants, with their codes and messages. */
  datatype ImageType = LocalPublicImage | LocalUserImage {

    function Code(): int {
      match this
      case LocalPublicImage => 1
      case LocalUserImage => 2
    }

    function Message(): string {
      match this
      case LocalPublicImage => "本地公共镜像"
      case LocalUserImage => "本地用户镜像"
    }
  }

  /** The constants in declaration order, as values() returns them. */
  const Values: seq<ImageType> := [LocalPublicImage, LocalUserImage]

  const LOCAL_PUBLIC_IMAGE_CODE: int := LocalPublicImage.Code()
  const LOCAL_USER_IMAGE_CODE: int := LocalUserImage.Code()

  /**
   * The for-each search of getMessage over a table: the message of the
   * first constant, in table order, whose code is `code`; None where
   * getMessage returns null.
   */
  function FindMessage(table: seq<ImageType>, code: int): (r: Option<string>)
    ensures r.None? <==> forall k :: 0 <= k < |table| ==> table[k].Code() != code
    ensures r.Some? ==> exists k :: 0 <= k < |table| && table[k].Code() == code && r.value == table[k].Message()
                                  && forall j :: 0 <= j < k ==> table[j].Code() != code
  {
    if |table| == 0 then None
    else if table[0].Code() == code then Some(table[0].Message())
    else
      var r := FindMessage(table[1..], code);
      if r.Some? then
        var k :| 0 <= k < |table[1..]| && table[1..][k].Code() == code && r.value == table[1..][k].Message()
                 && forall j :: 0 <= j < k ==> table[1..][j].Code() != code;
        assert table[k + 1] == table[1..][k];
        assert forall j :: 0 <= j < k + 1 ==> table[j].Code() != code by {
          forall j | 0 <= j < k + 1 ensures table[j].Code() != code {
            if j > 0 { assert table[j] == table[1..][j - 1]; }
          }
        }
        r
      else
        assert forall j :: 1 <= j < |table| ==> table[j] == table[1..][j - 1];
        r
  }

  /** ImageTypeEnum.getMessage(code). */
  function GetMessage(code: int): (r: Option<string>)
    ensures r.Some? <==> code == 1 || code == 2
  {
    FindMessage(Values, code)
  }

  /** The two codes are 1 and 2, and they differ. */
  lemma CodesAreDistinct()
    ensures LOCAL_PUBLIC_IMAGE_CODE == 1 && LOCAL_USER_IMAGE_CODE == 2
    ensures forall a: ImageType, b: ImageType :: a != b ==> a.Code() != b.Code()
  {
  }

  /** Looking up a constant's own code gives back that constant's message. */
  lemma MessageRoundTrip(e: ImageType)
    ensures GetMessage(e.Code()) == Some(e.Message())
  {
    var k := if e == LocalPublicImage then 0 else 1;
    assert Values[k] == e;
  }

  /** Every code other than 1 and 2 gives null. */
  lemma MessageOfUnknownCode(code: int)
    requires code != 1 && code != 2
    ensures GetMessage(code) == None
  {
  }
}
