/**
 * Photo moderation: `upload_photo` (its metadata row only), the approved-only
 * listing `get_photos`, `approve_photo` and `get_photo_categories`.
 */
module Photos {
  import opened Wrappers
  import opened Records
  import opened Query
  import opened Accounts

  /** The fixed host and static mount the handler writes into every stored URL. */
  const StaticUrlBase := "http://localhost:8000/static/"
  const PhotoUploaded := "Photo uploaded successfully"

  /** The body `upload_photo` returns: `{message, photo_id}`. */
  datatype UploadReply = UploadReply(message: string, photoId: nat)

  /** `approve_photo` replies `{message}` on success and `{error}` (still with status 200) on an unknown id. */
  datatype ApproveReply = Approved(message: string) | NotApproved(error: string)

  predicate HasPhotoId(photos: seq<Photo>, photoId: int) {
    exists i :: 0 <= i < |photos| && photos[i].id == photoId
  }

  /** `upload_photo`: the caller must be authenticated; the new row points at the file's URL and starts unapproved. */
  function UploadPhoto(users: seq<User>, photos: seq<Photo>, token: AccessToken, filename: string, category: string)
    : (out: (Result<UploadReply, Error>, seq<Photo>))
    ensures CurrentUser(users, token).Err? ==> out == (Err(InvalidCredentials), photos)
    ensures CurrentUser(users, token).Ok? ==>
      && out.0 == Ok(UploadReply(PhotoUploaded, |photos| + 1))
      && out.1 == photos + [Photo(|photos| + 1, StaticUrlBase + filename, CurrentUser(users, token).value.id, category, false)]
  {
    match CurrentUser(users, token)
    case Err(e) => (Err(e), photos)
    case Ok(user) =>
      var photo := Photo(|photos| + 1, StaticUrlBase + filename, user.id, category, false);
      (Ok(UploadReply(PhotoUploaded, photo.id)), photos + [photo])
  }

  /** Shown by `get_photos`: approved, and in the category when one (non-empty) is given. */
  predicate Listed(photo: Photo, category: Option<string>) {
    && photo.approved
    && (category.Some? && category.value != "" ==> photo.category == category.value)
  }

  function ListedIn(category: Option<string>): Photo -> bool { (p: Photo) => Listed(p, category) }

  /** `get_photos`: exactly the approved photos (of the category, if one is given), in table order. */
  function ApprovedPhotos(photos: seq<Photo>, category: Option<string>): (r: seq<Photo>)
    ensures forall i :: 0 <= i < |r| ==> r[i] in photos && r[i].approved
    ensures category.Some? && category.value != "" ==> forall i :: 0 <= i < |r| ==> r[i].category == category.value
    ensures forall i :: 0 <= i < |photos| && Listed(photos[i], category) ==> photos[i] in r
  {
    Where(photos, ListedIn(category))
  }

  /** `approve_photo`: the first photo with that id becomes approved and nothing else changes; an unknown id changes nothing. */
  function ApprovePhoto(photos: seq<Photo>, photoId: int): (out: (ApproveReply, seq<Photo>))
    ensures !HasPhotoId(photos, photoId) ==> out == (NotApproved("Photo not found"), photos)
    ensures HasPhotoId(photos, photoId) ==>
      && out.0 == Approved("Photo approved")
      && exists k :: 0 <= k < |photos| && photos[k].id == photoId
           && (forall j :: 0 <= j < k ==> photos[j].id != photoId)
           && out.1 == photos[k := photos[k].(approved := true)]
  {
    match First(photos, PhotoIdIs(photoId))
    case None => (NotApproved("Photo not found"), photos)
    case Some(k) => (Approved("Photo approved"), photos[k := photos[k].(approved := true)])
  }

  /** `get_photo_categories`: each category some photo has, exactly once. */
  function Categories(photos: seq<Photo>): (r: seq<string>)
    ensures forall i :: 0 <= i < |photos| ==> photos[i].category in r
    ensures forall c :: c in r ==> exists i :: 0 <= i < |photos| && photos[i].category == c
    ensures forall i, j :: 0 <= i < j < |r| ==> r[i] != r[j]
  {
    var column := seq(|photos|, i requires 0 <= i < |photos| => photos[i].category);
    assert forall i :: 0 <= i < |photos| ==> column[i] == photos[i].category;
    Distinct(column)
  }

  /** A freshly uploaded photo stays out of every listing until it is approved. */
  lemma UploadedPhotoNotListed(users: seq<User>, photos: seq<Photo>, token: AccessToken, filename: string, category: string,
                               filter: Option<string>)
    ensures ApprovedPhotos(UploadPhoto(users, photos, token, filename, category).1, filter) == ApprovedPhotos(photos, filter)
  {
    var after := UploadPhoto(users, photos, token, filename, category).1;
    if after != photos {
      var added := after[|photos|];
      assert after == photos + [added];
      WhereAppend(photos, [added], ListedIn(filter));
      assert Where([added], ListedIn(filter)) == [] + Where([], ListedIn(filter));
    }
  }

  /** Once approved, a photo is listed, both unfiltered and under its own category. */
  lemma ApprovedPhotoListed(photos: seq<Photo>, photoId: int) returns (k: nat)
    requires HasPhotoId(photos, photoId)
    ensures var after := ApprovePhoto(photos, photoId).1;
      && k < |after| && after[k].id == photoId
      && after[k] in ApprovedPhotos(after, None)
      && after[k] in ApprovedPhotos(after, Some(after[k].category))
  {
    var after := ApprovePhoto(photos, photoId).1;
    k :| 0 <= k < |photos| && photos[k].id == photoId && after == photos[k := photos[k].(approved := true)];
    assert Listed(after[k], None);
    assert Listed(after[k], Some(after[k].category));
  }

  /** Approving twice is the same as approving once. */
  lemma ApproveIdempotent(photos: seq<Photo>, photoId: int)
    ensures var after := ApprovePhoto(photos, photoId).1;
      ApprovePhoto(after, photoId).1 == after
  {
    if HasPhotoId(photos, photoId) {
      var after := ApprovePhoto(photos, photoId).1;
      var k :| 0 <= k < |photos| && photos[k].id == photoId
        && (forall j :: 0 <= j < k ==> photos[j].id != photoId)
        && after == photos[k := photos[k].(approved := true)];
      assert PhotoIdIs(photoId)(after[k]);
      assert forall j :: 0 <= j < k ==> !PhotoIdIs(photoId)(after[j]);
      assert First(after, PhotoIdIs(photoId)) == Some(k);
      assert after[k := after[k].(approved := true)] == after;
    }
  }

  /** Moderation never changes the categories offered. */
  lemma ApproveKeepsCategories(photos: seq<Photo>, photoId: int)
    ensures Categories(ApprovePhoto(photos, photoId).1) == Categories(photos)
  {
    var after := ApprovePhoto(photos, photoId).1;
    assert |after| == |photos|;
    assert forall i :: 0 <= i < |photos| ==> after[i].category == photos[i].category;
    assert seq(|after|, i requires 0 <= i < |after| => after[i].category)
        == seq(|photos|, i requires 0 <= i < |photos| => photos[i].category);
  }
}
