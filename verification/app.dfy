/** The `/photos/<photo_id>` DELETE endpoint of src/photorank/app.py. Removing the file
    from disk is I/O: the model reports which file the endpoint removes. */
module App {
  import opened Wrappers
  import opened Web

  /** 404, or success with the file removed and the new `uploaded_photos`. */
  datatype DeleteOutcome<Img> = PhotoNotFound | Deleted(removedFile: string, remaining: seq<Photo<Img>>)

  /** `next((p for p in uploaded_photos if p['id'] == photo_id), None)`, as a position. */
  function FindById<Img>(photos: seq<Photo<Img>>, photoId: string): (r: Option<nat>)
    ensures r.Some? ==> r.value < |photos| && photos[r.value].id == photoId
    ensures r.Some? ==> forall j :: 0 <= j < r.value ==> photos[j].id != photoId
    ensures r.None? ==> forall j :: 0 <= j < |photos| ==> photos[j].id != photoId
  {
    if |photos| == 0 then None
    else if photos[0].id == photoId then Some(0)
    else match FindById(photos[1..], photoId)
      case None => None
      case Some(i) => Some(i + 1)
  }

  /** `delete_photo`: 404 exactly when no photo has the id; otherwise the file of the first
      photo with the id is removed and exactly the photos with that id leave the list. */
  function DeletePhoto<Img>(photos: seq<Photo<Img>>, photoId: string): (r: DeleteOutcome<Img>)
    ensures r.PhotoNotFound? <==> forall i :: 0 <= i < |photos| ==> photos[i].id != photoId
    ensures r.Deleted? ==> exists i :: 0 <= i < |photos| && photos[i].id == photoId
                             && (forall j :: 0 <= j < i ==> photos[j].id != photoId)
                             && r.removedFile == photos[i].filepath
    ensures r.Deleted? ==> r.remaining == WithoutId(photos, photoId)
  {
    match FindById(photos, photoId)
      case None => PhotoNotFound
      case Some(i) =>
        Deleted(photos[i].filepath, WithoutId(photos, photoId))
  }
}
