/** The gallery of known faces in app.py: two parallel lists, one embedding and one name per
    enrolled person, kept in the session and saved to a snapshot file (`load_encodings`,
    `save_encodings`), and the "Save New Face" handler that validates an enrollment and appends
    to both lists. Embeddings are of an abstract type `E`; the uploaded image is represented by
    the embeddings the face library finds in it. */
module Gallery {
  import opened Wrappers
  import PyText

  /** The snapshot file: the stored pair, or None while no file exists. */
  class Snapshot<E> {
    var stored: Option<(seq<E>, seq<string>)>

    /** Every pair the program writes has one name per embedding. */
    ghost predicate Aligned()
      reads this
    {
      stored.Some? ==> |stored.value.0| == |stored.value.1|
    }

    constructor ()
      ensures stored == None && Aligned()
    {
      stored := None;
    }

    /** `save_encodings`: the file is overwritten with the pair. */
    method Save(encodings: seq<E>, names: seq<string>)
      requires |encodings| == |names|
      modifies this
      ensures stored == Some((encodings, names)) && Aligned()
    {
      stored := Some((encodings, names));
    }

    /** `load_encodings`: the stored pair, or two empty lists when there is no file. */
    method Load() returns (encodings: seq<E>, names: seq<string>)
      ensures stored.Some? ==> (encodings, names) == stored.value
      ensures stored.None? ==> encodings == [] && names == []
      ensures Aligned() ==> |encodings| == |names|
    {
      match stored
      case Some(pair) =>
        encodings, names := pair.0, pair.1;
      case None =>
        encodings, names := [], [];
    }
  }

  /** How a "Save New Face" submission ends. */
  datatype Enrollment = MissingName | MissingImage | NoFaceDetected | Enrolled(archivedAs: string)

  /** The file name under the image folder that the enrollment image is archived as. */
  function ArchiveFileName(name: string): (filename: string)
    ensures |filename| == |name| + 4 && filename[..|name|] == name && filename[|name|..] == ".jpg"
  {
    name + ".jpg"
  }

  /** The checks of the handler, in the order app.py makes them: a name that is empty once
      stripped, then no uploaded image, then no face found in it. */
  function CheckEnrollment<E>(newName: string, upload: Option<seq<E>>): (r: Enrollment)
    ensures r == MissingName <==> PyText.Strip(newName) == []
    ensures r == MissingImage <==> PyText.Strip(newName) != [] && upload == None
    ensures r == NoFaceDetected <==> PyText.Strip(newName) != [] && upload.Some? && |upload.value| == 0
    ensures r.Enrolled? <==> PyText.Strip(newName) != [] && upload.Some? && |upload.value| > 0
    ensures r.Enrolled? ==> r.archivedAs == ArchiveFileName(newName)
  {
    if PyText.Strip(newName) == [] then MissingName
    else if upload.None? then MissingImage
    else if |upload.value| == 0 then NoFaceDetected
    else Enrolled(ArchiveFileName(newName))
  }

  /** A name made only of whitespace is refused, whatever was uploaded. */
  lemma BlankNameRefused<E>(newName: string, upload: Option<seq<E>>)
    requires forall i :: 0 <= i < |newName| ==> PyText.IsSpace(newName[i])
    ensures CheckEnrollment(newName, upload) == MissingName
  {
    PyText.StripEmptyIffAllSpace(newName);
  }

  /** A name with one visible character and an image with a face is accepted. */
  lemma VisibleNameWithFaceAccepted<E>(newName: string, encodings: seq<E>, k: nat)
    requires k < |newName| && !PyText.IsSpace(newName[k])
    requires |encodings| > 0
    ensures CheckEnrollment(newName, Some(encodings)) == Enrolled(ArchiveFileName(newName))
  {
    PyText.StripEmptyIffAllSpace(newName);
  }

  /** The session's gallery (`known_encodings`, `known_names`): index i of one list belongs to
      index i of the other. */
  class KnownFaces<E> {
    var encodings: seq<E>
    var names: seq<string>

    ghost predicate Valid()
      reads this
    {
      |encodings| == |names|
    }

    constructor (encodings: seq<E>, names: seq<string>)
      requires |encodings| == |names|
      ensures Valid() && this.encodings == encodings && this.names == names
    {
      this.encodings := encodings;
      this.names := names;
    }

    /** The "Save New Face" handler (app.py:108-126). On success the first embedding found and
        the name as typed (not stripped) are appended and the pair is saved; every refusal
        leaves both lists and the snapshot as they were. */
    method Enroll(newName: string, upload: Option<seq<E>>, store: Snapshot<E>) returns (r: Enrollment)
      requires Valid()
      modifies this, store
      ensures Valid()
      ensures r == CheckEnrollment(newName, upload)
      ensures r.Enrolled? ==> encodings == old(encodings) + [upload.value[0]]
      ensures r.Enrolled? ==> names == old(names) + [newName]
      ensures r.Enrolled? ==> store.stored == Some((encodings, names))
      ensures !r.Enrolled? ==> encodings == old(encodings) && names == old(names)
      ensures !r.Enrolled? ==> store.stored == old(store.stored)
    {
      if PyText.Strip(newName) == [] {
        r := MissingName;
      } else if upload.None? {
        r := MissingImage;
      } else {
        var found := upload.value;
        if |found| > 0 {
          r := Enrolled(ArchiveFileName(newName));
          encodings := encodings + [found[0]];
          names := names + [newName];
          store.Save(encodings, names);
        } else {
          r := NoFaceDetected;
        }
      }
    }
  }
}
