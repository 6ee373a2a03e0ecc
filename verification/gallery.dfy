/** The scan half of `load_known_faces` (app.py:23-45): walk the entries of the
    known-faces directory, and inside each person directory the image files, and
    build two parallel lists, encodings and names. The directory listings and the
    encodings the vision library finds in each image are inputs; an encoding is
    left abstract (type parameter E). */
module Gallery {

  /** One file in a person directory, with the encodings the vision library
      returns for it, in the library's order. */
  datatype Image<E> = Image(filename: string, faces: seq<E>)

  /** One entry of the known-faces directory: its name, whether it is a
      directory, and (for a directory) its files in listing order. */
  datatype Entry<E> = Entry(name: string, isDir: bool, images: seq<Image<E>>)

  /** One gallery slot: an encoding and the person it belongs to. */
  datatype Known<E> = Known(encoding: E, name: string)

  /** Where a gallery slot comes from: entry `person`, file `image` inside it. */
  datatype Origin = Origin(person: nat, image: nat)

  predicate EndsWith(s: string, suffix: string) {
    |suffix| <= |s| && s[|s| - |suffix|..] == suffix
  }

  /** The suffix filter; the test is case-sensitive. */
  predicate IsImageFile(filename: string) {
    EndsWith(filename, ".jpg") || EndsWith(filename, ".png")
  }

  /** A file adds a slot when its name passes the filter and a face is found in it. */
  predicate ImageCounts<E>(img: Image<E>) {
    IsImageFile(img.filename) && |img.faces| > 0
  }

  /** `o` names a file, inside a directory entry, that adds a slot. */
  predicate Contributes<E>(entries: seq<Entry<E>>, o: Origin) {
    o.person < |entries| && entries[o.person].isDir &&
    o.image < |entries[o.person].images| && ImageCounts(entries[o.person].images[o.image])
  }

  /** Walk order: entry by entry, and file by file inside an entry. */
  predicate Before(a: Origin, b: Origin) {
    a.person < b.person || (a.person == b.person && a.image < b.image)
  }

  /** The slot a contributing file adds: its first encoding, labelled with the
      name of the directory it sits in. */
  function KnownAt<E>(entries: seq<Entry<E>>, o: Origin): Known<E>
    requires Contributes(entries, o)
  {
    Known(entries[o.person].images[o.image].faces[0], entries[o.person].name)
  }

  /** The slots one person directory adds, file by file. */
  function ImagesGallery<E>(name: string, imgs: seq<Image<E>>): seq<Known<E>> {
    if imgs == [] then []
    else
      var last := imgs[|imgs| - 1];
      ImagesGallery(name, imgs[..|imgs| - 1]) +
        (if ImageCounts(last) then [Known(last.faces[0], name)] else [])
  }

  /** The gallery a scan of `entries` builds, entry by entry; entries that are
      not directories add nothing. */
  function BuildGallery<E>(entries: seq<Entry<E>>): seq<Known<E>> {
    if entries == [] then []
    else
      var last := entries[|entries| - 1];
      BuildGallery(entries[..|entries| - 1]) +
        (if last.isDir then ImagesGallery(last.name, last.images) else [])
  }

  /** The contributing files of person directory `i`, in listing order. */
  function ImageOrigins<E>(i: nat, imgs: seq<Image<E>>): (os: seq<Origin>)
    ensures forall k :: 0 <= k < |os| ==>
      os[k].person == i && os[k].image < |imgs| && ImageCounts(imgs[os[k].image])
    ensures forall a, b :: 0 <= a < b < |os| ==> os[a].image < os[b].image
    ensures forall j :: 0 <= j < |imgs| && ImageCounts(imgs[j]) ==> Origin(i, j) in os
  {
    if imgs == [] then []
    else
      var m := |imgs| - 1;
      var front := imgs[..m];
      var os := ImageOrigins(i, front) + (if ImageCounts(imgs[m]) then [Origin(i, m)] else []);
      assert forall j :: 0 <= j < m ==> front[j] == imgs[j];
      os
  }

  /** Every contributing file of the whole walk, each once, in walk order. */
  function Origins<E>(entries: seq<Entry<E>>): (os: seq<Origin>)
    ensures forall k :: 0 <= k < |os| ==> Contributes(entries, os[k])
    ensures forall a, b :: 0 <= a < b < |os| ==> Before(os[a], os[b])
    ensures forall o :: Contributes(entries, o) ==> o in os
  {
    if entries == [] then []
    else
      var n := |entries| - 1;
      var front := entries[..n];
      var last := entries[n];
      var tail := if last.isDir then ImageOrigins(n, last.images) else [];
      var earlier := Origins(front);
      assert forall j :: 0 <= j < n ==> front[j] == entries[j];
      assert forall k :: 0 <= k < |earlier| ==> earlier[k].person < n;
      earlier + tail
  }

  lemma {:induction false} ImagesGalleryFollowsOrigins<E>(name: string, i: nat, imgs: seq<Image<E>>)
    ensures |ImagesGallery(name, imgs)| == |ImageOrigins(i, imgs)|
    ensures forall k :: 0 <= k < |ImageOrigins(i, imgs)| ==>
      ImagesGallery(name, imgs)[k] == Known(imgs[ImageOrigins(i, imgs)[k].image].faces[0], name)
  {
    if imgs != [] {
      var m := |imgs| - 1;
      var front := imgs[..m];
      ImagesGalleryFollowsOrigins(name, i, front);
      var fg, fos := ImagesGallery(name, front), ImageOrigins(i, front);
      var g, os := ImagesGallery(name, imgs), ImageOrigins(i, imgs);
      if ImageCounts(imgs[m]) {
        assert g == fg + [Known(imgs[m].faces[0], name)];
        assert os == fos + [Origin(i, m)];
      } else {
        assert g == fg && os == fos;
      }
      forall k | 0 <= k < |os| ensures g[k] == Known(imgs[os[k].image].faces[0], name) {
        if k < |fos| {
          assert front[fos[k].image] == imgs[fos[k].image];
        }
      }
    }
  }

  /** The gallery is exactly one slot per contributing file, in walk order: slot
      `k` holds the first encoding of the file `Origins(entries)[k]` and the name
      of the directory that file sits in. */
  lemma {:induction false} GalleryFollowsOrigins<E>(entries: seq<Entry<E>>)
    ensures |BuildGallery(entries)| == |Origins(entries)|
    ensures forall k :: 0 <= k < |Origins(entries)| ==>
      BuildGallery(entries)[k] == KnownAt(entries, Origins(entries)[k])
  {
    if entries != [] {
      var n := |entries| - 1;
      var front := entries[..n];
      var last := entries[n];
      GalleryFollowsOrigins(front);
      ImagesGalleryFollowsOrigins(last.name, n, last.images);
      var g, os := BuildGallery(entries), Origins(entries);
      var fg, fos := BuildGallery(front), Origins(front);
      forall k | 0 <= k < |os| ensures g[k] == KnownAt(entries, os[k]) {
        if k < |fos| {
          assert front[fos[k].person] == entries[fos[k].person];
        }
      }
    }
  }

  /** The list-building loops of `load_known_faces`: for each directory entry,
      for each of its files with a ".jpg" or ".png" name and at least one face,
      append the first encoding and the directory's name. */
  method LoadKnownFaces<E>(listing: seq<Entry<E>>) returns (encodings: seq<E>, names: seq<string>)
    ensures |encodings| == |names| == |Origins(listing)|
    ensures forall k :: 0 <= k < |names| ==>
      Known(encodings[k], names[k]) == KnownAt(listing, Origins(listing)[k])
  {
    encodings, names := [], [];
    var i := 0;
    while i < |listing|
      invariant 0 <= i <= |listing|
      invariant |encodings| == |names| == |BuildGallery(listing[..i])|
      invariant forall k :: 0 <= k < |names| ==> Known(encodings[k], names[k]) == BuildGallery(listing[..i])[k]
    {
      var entry := listing[i];
      ghost var done := BuildGallery(listing[..i]);
      if entry.isDir {
        var j := 0;
        while j < |entry.images|
          invariant 0 <= j <= |entry.images|
          invariant |encodings| == |names| == |done + ImagesGallery(entry.name, entry.images[..j])|
          invariant forall k :: 0 <= k < |names| ==>
            Known(encodings[k], names[k]) == (done + ImagesGallery(entry.name, entry.images[..j]))[k]
        {
          var image := entry.images[j];
          assert entry.images[..j + 1][..j] == entry.images[..j];
          if IsImageFile(image.filename) {
            var faces := image.faces;
            if |faces| > 0 {
              encodings := encodings + [faces[0]];
              names := names + [entry.name];
            }
          }
          j := j + 1;
        }
        assert entry.images[..j] == entry.images;
      }
      assert listing[..i + 1][..i] == listing[..i];
      i := i + 1;
    }
    assert listing[..i] == listing;
    GalleryFollowsOrigins(listing);
  }
}
