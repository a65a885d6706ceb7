/** The batch gallery rebuild of encode_faces.py: the image folder's listing is scanned in the
    order `os.listdir` gives it; every file whose name ends in `.jpg`, `.jpeg` or `.png`
    (case-sensitive) and in which the face library finds a face contributes its first embedding
    and its name without extension, and the two lists, started empty, overwrite the snapshot.
    `detect` stands for reading the file and computing its face embeddings. */
module EncodeFaces {
  import opened PyText
  import Gallery

  /** `filename.endswith(('.jpg', '.jpeg', '.png'))`. */
  predicate HasImageSuffix(filename: string)
    ensures HasImageSuffix(filename) ==> 4 <= |filename| && filename[|filename| - 1] == 'g'
  {
    EndsWith(filename, ".jpg") || EndsWith(filename, ".jpeg") || EndsWith(filename, ".png")
  }

  /** The accepted names are exactly those whose last four characters are `.jpg` or `.png` or
      whose last five are `.jpeg`; the comparison is case-sensitive. */
  lemma AcceptedSuffixes(filename: string)
    ensures HasImageSuffix(filename) <==>
              || (4 <= |filename| && filename[|filename| - 4..] == ".jpg")
              || (5 <= |filename| && filename[|filename| - 5..] == ".jpeg")
              || (4 <= |filename| && filename[|filename| - 4..] == ".png")
  {
  }

  /** A file that adds an entry: an accepted suffix and at least one face. */
  predicate Contributes<E>(filename: string, detect: string -> seq<E>) {
    HasImageSuffix(filename) && |detect(filename)| > 0
  }

  /** The gallery the loop builds from a listing, one file after the other. */
  function Rebuild<E>(listing: seq<string>, detect: string -> seq<E>): (g: (seq<E>, seq<string>))
    ensures |g.0| == |g.1| <= |listing|
  {
    if listing == [] then ([], [])
    else
      var n := |listing| - 1;
      var prev := Rebuild(listing[..n], detect);
      var filename := listing[n];
      if HasImageSuffix(filename) then
        var encodings := detect(filename);
        if |encodings| > 0 then (prev.0 + [encodings[0]], prev.1 + [Stem(filename)]) else prev
      else prev
  }

  /** The positions in the listing of the files that contribute, in listing order, each once
      (`ContributingIsComplete`: and no contributing file is missed). */
  function Contributing<E>(listing: seq<string>, detect: string -> seq<E>): (ks: seq<nat>)
    ensures forall i :: 0 <= i < |ks| ==> ks[i] < |listing| && Contributes(listing[ks[i]], detect)
    ensures forall i, j :: 0 <= i < j < |ks| ==> ks[i] < ks[j]
  {
    if listing == [] then []
    else
      var n := |listing| - 1;
      var prev := Contributing(listing[..n], detect);
      assert forall i :: 0 <= i < |prev| ==> listing[..n][prev[i]] == listing[prev[i]];
      if Contributes(listing[n], detect) then prev + [n] else prev
  }

  /** Every contributing file of the listing has its position among `Contributing`. */
  lemma {:induction false} ContributingIsComplete<E>(listing: seq<string>, detect: string -> seq<E>, p: nat)
    requires p < |listing| && Contributes(listing[p], detect)
    ensures p in Contributing(listing, detect)
  {
    var n := |listing| - 1;
    if p < n {
      assert listing[..n][p] == listing[p];
      ContributingIsComplete(listing[..n], detect, p);
    }
  }

  /** The top-level loop of encode_faces.py:10-18, appending to both lists in lockstep. */
  method BuildGallery<E>(listing: seq<string>, detect: string -> seq<E>)
    returns (knownEncodings: seq<E>, knownNames: seq<string>)
    ensures (knownEncodings, knownNames) == Rebuild(listing, detect)
  {
    knownEncodings, knownNames := [], [];
    for i := 0 to |listing|
      invariant (knownEncodings, knownNames) == Rebuild(listing[..i], detect)
    {
      assert listing[..i + 1][..i] == listing[..i];
      var filename := listing[i];
      if EndsWith(filename, ".jpg") || EndsWith(filename, ".jpeg") || EndsWith(filename, ".png") {
        var encodings := detect(filename);
        if |encodings| > 0 {
          knownEncodings := knownEncodings + [encodings[0]];
          knownNames := knownNames + [Stem(filename)];
        }
      }
    }
    assert listing[..|listing|] == listing;
  }

  /** The whole script: rebuild from empty lists, then overwrite the snapshot, so no entry
      stored before survives unless its image is still in the folder. */
  method EncodeFolder<E>(listing: seq<string>, detect: string -> seq<E>, store: Gallery.Snapshot<E>)
    modifies store
    ensures store.stored.Some? && store.stored.value == Rebuild(listing, detect)
  {
    var knownEncodings, knownNames := BuildGallery(listing, detect);
    store.Save(knownEncodings, knownNames);
  }

  /** Entry i of both lists comes from the i-th contributing file of the listing: its first
      embedding and its name without the last extension. */
  lemma {:induction false} RebuildFollowsListing<E>(listing: seq<string>, detect: string -> seq<E>)
    ensures var g, ks := Rebuild(listing, detect), Contributing(listing, detect);
            && |g.0| == |ks| && |g.1| == |ks|
            && forall i :: 0 <= i < |ks| ==>
                 g.0[i] == detect(listing[ks[i]])[0] && g.1[i] == Stem(listing[ks[i]])
  {
    if listing != [] {
      var n := |listing| - 1;
      var prefix := listing[..n];
      RebuildFollowsListing(prefix, detect);
      var g, ks := Rebuild(listing, detect), Contributing(listing, detect);
      var prev, kp := Rebuild(prefix, detect), Contributing(prefix, detect);
      assert forall i :: 0 <= i < |kp| ==> prefix[kp[i]] == listing[kp[i]];
      if Contributes(listing[n], detect) {
        assert g == (prev.0 + [detect(listing[n])[0]], prev.1 + [Stem(listing[n])]);
        assert ks == kp + [n];
      } else {
        assert g == prev && ks == kp;
      }
    }
  }

  /** Every rebuilt name is the stem of a listed image file in which a face was found; `p`
      is that file's position in the listing. */
  lemma RebuiltNameSource<E>(listing: seq<string>, detect: string -> seq<E>, name: string)
    returns (p: nat)
    requires name in Rebuild(listing, detect).1
    ensures p < |listing| && Contributes(listing[p], detect) && Stem(listing[p]) == name
  {
    var g, ks := Rebuild(listing, detect), Contributing(listing, detect);
    RebuildFollowsListing(listing, detect);
    var i :| 0 <= i < |g.1| && g.1[i] == name;
    p := ks[i];
  }

  /** The suffix test is case-sensitive: `A.JPG` is skipped. */
  lemma UpperCaseSuffixSkipped()
    ensures !HasImageSuffix("A.JPG")
  {
    assert "A.JPG"[1..] != ".jpg";
    assert "A.JPG"[2..] != ".png";
  }

  /** The image archived on enrollment is picked up by a rebuild under the enrolled name,
      provided the name has no `/` and is not made of dots alone. */
  lemma ArchivedImageKeepsName(name: string)
    requires '/' !in name
    requires exists k :: 0 <= k < |name| && name[k] != '.'
    ensures HasImageSuffix(Gallery.ArchiveFileName(name))
    ensures Stem(Gallery.ArchiveFileName(name)) == name
  {
    StemOfAppendedExtension(name, ".jpg");
    assert Gallery.ArchiveFileName(name)[|name|..] == ".jpg";
  }

  /** A name made of dots alone does not come back: `.` is archived as `..jpg`, whose stem is
      the whole file name. */
  lemma DotOnlyNameNotRecovered()
    ensures Stem(Gallery.ArchiveFileName(".")) == "..jpg"
  {
    var p := Gallery.ArchiveFileName(".");
    assert p == "..jpg";
    RFindIsLast(p, '.', 1);
  }
}
