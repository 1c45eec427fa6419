/** The `/photos/<photo_id>` DELETE endpoint of src/app.py, as written: its lookup tests
    `p['id'] != photo_id` where src/photorank/app.py tests `==`. */
module LegacyApp {
  import opened Wrappers
  import opened Web
  import App

  /** `next((p for p in uploaded_photos if p['id'] != photo_id), None)`, as a position. */
  function FindOtherId<Img>(photos: seq<Photo<Img>>, photoId: string): (r: Option<nat>)
    ensures r.Some? ==> r.value < |photos| && photos[r.value].id != photoId
    ensures r.Some? ==> forall j :: 0 <= j < r.value ==> photos[j].id == photoId
    ensures r.None? ==> forall j :: 0 <= j < |photos| ==> photos[j].id == photoId
  {
    if |photos| == 0 then None
    else if photos[0].id != photoId then Some(0)
    else match FindOtherId(photos[1..], photoId)
      case None => None
      case Some(i) => Some(i + 1)
  }

  /** `delete_photo` as written: 404 exactly when every photo has the id (including an
      empty list); otherwise the file of the first photo with ANOTHER id is removed, while
      the list filter still drops exactly the photos with the id. */
  function DeletePhotoAsWritten<Img>(photos: seq<Photo<Img>>, photoId: string): (r: App.DeleteOutcome<Img>)
    ensures r.PhotoNotFound? <==> forall i :: 0 <= i < |photos| ==> photos[i].id == photoId
    ensures r.Deleted? ==> exists i :: 0 <= i < |photos| && photos[i].id != photoId
                             && (forall j :: 0 <= j < i ==> photos[j].id == photoId)
                             && r.removedFile == photos[i].filepath
    ensures r.Deleted? ==> r.remaining == WithoutId(photos, photoId)
  {
    match FindOtherId(photos, photoId)
      case None => App.PhotoNotFound
      case Some(i) => App.Deleted(photos[i].filepath, WithoutId(photos, photoId))
  }

  /** The only photo carries the id, yet the endpoint answers 404 and deletes nothing;
      the `==` lookup deletes it. */
  lemma RefusesExistingPhoto<Img>(p: Photo<Img>)
    ensures DeletePhotoAsWritten([p], p.id) == App.PhotoNotFound
    ensures App.DeletePhoto([p], p.id) == App.Deleted(p.filepath, [])
  {
    assert WithoutId([p], p.id) == [] by {
      Filtering.FilterIndices([p], OtherId(p.id));
    }
  }

  /** Deleting `a` removes the file of `b`, which stays listed, and leaves `a`'s file on
      disk; the `==` lookup removes `a`'s file. */
  lemma RemovesAnotherPhotosFile<Img>(a: Photo<Img>, b: Photo<Img>)
    requires a.id != b.id
    ensures DeletePhotoAsWritten([a, b], a.id) == App.Deleted(b.filepath, [b])
    ensures App.DeletePhoto([a, b], a.id) == App.Deleted(a.filepath, [b])
  {
    assert FindOtherId([a, b], a.id) == Some(1) by {
      assert [a, b][1..] == [b];
    }
    assert App.FindById([a, b], a.id) == Some(0);
    assert WithoutId([a, b], a.id) == [b] by {
      var keep := OtherId(a.id);
      assert [a, b][..1] == [a];
      assert [a][..0] == [];
      assert !keep(a) && keep(b);
      assert Filtering.Filter([a][..0], keep) == [];
      assert Filtering.Filter([a], keep) == [];
      assert Filtering.Filter([a, b], keep) == Filtering.Filter([a, b][..1], keep) + [b];
    }
  }

  /** An unknown id is reported as deleted, and the first photo's file is removed although
      the photo stays listed; the `==` lookup answers 404. */
  lemma AcceptsUnknownId<Img>(p: Photo<Img>, photoId: string)
    requires p.id != photoId
    ensures DeletePhotoAsWritten([p], photoId) == App.Deleted(p.filepath, [p])
    ensures App.DeletePhoto([p], photoId) == App.PhotoNotFound
  {
  }
}
