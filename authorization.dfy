/**
 * The access decisions of the image service: who may view an image
 * (hasAuthImage), who may delete one (the check in removeImage) and who
 * may open or close one (the check in changOpenImage). The caller's role
 * name is an input; comparing an Integer type code or a Boolean flag that
 * is null throws, as Java's unboxing does.
 */
module Authorization {
  import opened Wrappers
  import opened JavaLang
  import opened ImageTypes
  import opened Records

  /** The message of the ordinary-user role, the only role these checks single out. */
  const USER_ROLE_NAME: string := "ROLE_USER"

  /** The caller has the ordinary-user role; a null role name is not that role. */
  predicate IsUserRole(roleName: Option<string>) {
    roleName == Some(USER_ROLE_NAME)
  }

  /**
   * hasAuthImage: a public image is visible to all; a user image is visible
   * when it is open, and otherwise to everyone except an ordinary user who
   * does not own it; an image of any other type code is visible to no one.
   */
  function HasAuthImage(userId: string, roleName: Option<string>, image: SysImage): (r: Outcome<bool>)
    ensures r.Threw? <==> image.imageType.None? || (image.imageType == Some(LOCAL_USER_IMAGE_CODE) && image.hasOpen.None?)
    ensures r.Threw? ==> r.error == NullPointer
    ensures image.imageType == Some(LOCAL_PUBLIC_IMAGE_CODE) ==> r == Returned(true)
    ensures image.imageType == Some(LOCAL_USER_IMAGE_CODE) && image.hasOpen == Some(true) ==> r == Returned(true)
    ensures r == Returned(false) <==>
              || (image.imageType.Some? && image.imageType.value != LOCAL_PUBLIC_IMAGE_CODE
                  && image.imageType.value != LOCAL_USER_IMAGE_CODE)
              || (&& image.imageType == Some(LOCAL_USER_IMAGE_CODE) && image.hasOpen == Some(false)
                  && IsUserRole(roleName) && image.userId != Some(userId))
  {
    if image.imageType.None? then Threw(NullPointer)
    else if image.imageType.value == LOCAL_PUBLIC_IMAGE_CODE then Returned(true)
    else if image.imageType.value == LOCAL_USER_IMAGE_CODE then
      if image.hasOpen.None? then Threw(NullPointer)
      else if image.hasOpen.value then Returned(true)
      else if IsUserRole(roleName) && image.userId != Some(userId) then Returned(false)
      else Returned(true)
    else Returned(false)
  }

  /**
   * The check of removeImage: an ordinary user may delete only an image that
   * is not public and that they own; every other role passes.
   */
  function MayDelete(userId: string, roleName: Option<string>, image: SysImage): (r: Outcome<bool>)
    ensures !IsUserRole(roleName) ==> r == Returned(true)
    ensures r.Threw? <==> IsUserRole(roleName) && image.imageType.None?
    ensures IsUserRole(roleName) && image.imageType.Some? ==>
              (r == Returned(true) <==> image.imageType.value != LOCAL_PUBLIC_IMAGE_CODE && image.userId == Some(userId))
  {
    if IsUserRole(roleName) then
      if image.imageType.None? then Threw(NullPointer)
      else if image.imageType.value == LOCAL_PUBLIC_IMAGE_CODE then Returned(false)
      else Returned(image.userId == Some(userId))
    else Returned(true)
  }

  /** The check of changOpenImage: only the owner of a user image may open or close it. */
  function MayToggleOpen(userId: string, image: SysImage): (r: Outcome<bool>)
    ensures r.Threw? <==> image.imageType.None?
    ensures r == Returned(true) <==> image.imageType == Some(LOCAL_USER_IMAGE_CODE) && image.userId == Some(userId)
  {
    if image.imageType.None? then Threw(NullPointer)
    else Returned(image.imageType.value == LOCAL_USER_IMAGE_CODE && image.userId == Some(userId))
  }

  /** An ordinary user who may delete a user image may also view it. */
  lemma DeletableIsVisible(userId: string, roleName: Option<string>, image: SysImage)
    requires MayDelete(userId, roleName, image) == Returned(true)
    requires image.imageType == Some(LOCAL_USER_IMAGE_CODE) && image.hasOpen.Some?
    ensures HasAuthImage(userId, roleName, image) == Returned(true)
  {
  }

  /** Whoever may open or close an image may view it, whatever their role. */
  lemma ToggleableIsVisible(userId: string, roleName: Option<string>, image: SysImage)
    requires MayToggleOpen(userId, image) == Returned(true) && image.hasOpen.Some?
    ensures HasAuthImage(userId, roleName, image) == Returned(true)
  {
  }
}
