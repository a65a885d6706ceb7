# Face-recognition attendance: a Dafny model of its decision logic

The system takes attendance from photographs. A gallery of known faces is kept as two
parallel lists, one embedding and one name per enrolled person. For every face the face
library detects in an uploaded image, the gallery entry at the least distance is chosen. If
its within-tolerance flag is set, the person's name is marked present in an attendance
ledger. A name enters the ledger once, with the clock reading at that moment, and the ledger
file is rewritten on every new entry. New people are enrolled one at a time from the page.
Alternatively, a batch script rebuilds the whole gallery from a folder of images.

The model covers that logic and treats the rest as inputs:

- the face library's output is data: per image, the embeddings found; per face, one match
  flag and one distance per gallery entry;
- the clock is a sequence of timestamps, one per face;
- the directory listing is a sequence of file names;
- the CSV and pickle files are an abstract read outcome and an abstract cell.

Modules:

- `PyText`: `str.strip`, `str.endswith` and POSIX `os.path.splitext`, as the source uses them.
- `AttendanceLedger`: the ledger table and its operations. `LoadAttendance` is the column
  check with its fall-back. `MarkAttendance` is append-if-absent. Its `wrote` flag is the file
  write.
- `Matcher`: `np.argmin` as `ArgMin`, and the match decision, both as the source has it
  (`MatchAsWritten`) and corrected (`Match`; see Findings).
- `Gallery`: the snapshot file (`Snapshot`), the session's parallel lists (`KnownFaces`) and
  the enrollment handler (`KnownFaces.Enroll`, validated by `CheckEnrollment`).
- `AttendancePass`: the per-image loop (`TakeAttendance`), proved equal to the fold `Pass`.
  The lemmas about the fold state what the loop promises.
- `EncodeFaces`: the batch script's loop (`BuildGallery`), proved equal to `Rebuild`.
  `RebuildFollowsListing` ties `Rebuild` to an independent description: the filtered
  positions `Contributing`.

Where the code's evident intent and its behaviour differ, the model records both:

- On an empty gallery, the `matches and` guard at app.py:84 is there to report "Face not
  recognized", but `np.argmin` at app.py:82 fails first. This is recorded as a finding; the
  attendance pass uses the corrected decision.

On these points the model follows the code:

- The name check is `strip()`-based, so a name of spaces only is refused.
- The stored name is the unstripped one.
- The gallery stays two parallel lists rather than a list of records.

## Model

| member | source | states |
|---|---|---|
| PyText.Strip | app.py:109 | `str.strip()`: the result is no longer than the input, and is empty or neither starts nor ends with whitespace |
| PyText.EndsWith | encode_faces.py:11 | `str.endswith`: when it holds, the suffix fits and the string is its own prefix followed by the suffix |
| PyText.Stem | encode_faces.py:18 | `os.path.splitext(...)[0]`: the stem is a prefix of the path, and when shorter it stops right before a `.` |
| PyText.LStrip | app.py:109 | the leading-whitespace part of `strip()`: the result is a suffix, starts with no whitespace, and everything dropped is whitespace |
| PyText.RStrip | app.py:109 | the trailing-whitespace part of `strip()`: the result is a prefix, ends with no whitespace, and everything dropped is whitespace |
| PyText.StripEmptyIffAllSpace | app.py:109 | `new_name.strip() == ""` holds exactly when every character of the name is whitespace |
| PyText.SplitExt | encode_faces.py:18 | `splitext` splits a path into root and extension that concatenate back to it; the extension is empty or one `.` followed by no `.` and no `/` |
| PyText.StemOfDottedName | encode_faces.py:18 | only the last extension is removed: `bob.smith.jpg` gives `bob.smith` |
| PyText.StemOfAppendedExtension | encode_faces.py:18 | a name without `/` that is not all dots, followed by an extension, splits back into exactly that name and extension |
| AttendanceLedger.EmptyLedger | app.py:35 | the fall-back ledger has both required columns and no names |
| AttendanceLedger.NewRow | app.py:41 | the new row holds exactly the `Name` and `Time` cells, set to the name and the clock reading |
| AttendanceLedger.LoadAttendance | app.py:26-35 | the result always has both `Name` and `Time` columns; a parsed table is returned exactly when it has both; a missing file, a read exception or a missing column gives the empty `Name, Time` ledger, never an error |
| AttendanceLedger.Present | app.py:39 | some row's `Name` cell equals the name; rows with no `Name` cell never match |
| AttendanceLedger.MarkAttendance | app.py:38-44 | a write happens iff the name is absent; when present the table is returned unchanged; otherwise exactly the row (name, now) is appended after all old rows; afterwards the name is present and the `Name` column is the old one plus that name |
| AttendanceLedger.MarkIdempotent | app.py:39-44 | marking a name twice equals marking it once, and the second call writes nothing, whatever its clock reading |
| AttendanceLedger.MarkKeepsNamesDistinct | app.py:39-42 | a ledger with no repeated name keeps that property after a mark |
| AttendanceLedger.WrittenLedgerReloads | app.py:43 | if the CSV reader returns the table that `mark_attendance` wrote, it passes the column check of `load_attendance` and is kept as itself |
| Matcher.ArgMin | app.py:82 | `np.argmin` returns an index of a least distance, and the first such index |
| Matcher.FirstMinimumUnique | app.py:82 | the first least index is unique, so the index the decision uses is well defined |
| Matcher.MatchAsWritten | app.py:80-85 | as written, the decision fails (argmin of an empty sequence) exactly when the gallery is empty; otherwise it recognizes iff the flag at the argmin index is set |
| Matcher.Match | app.py:80-85 | a face is recognized iff the flag of the first nearest entry is set, and then it carries that entry's name; an empty gallery gives Unknown |
| Matcher.MatchAgreesWithSourceOnNonEmptyGallery | app.py:82-85 | on a non-empty gallery the corrected decision equals the source's decision |
| Matcher.EmptyGalleryFailsAsWritten | app.py:81-84 | on an empty gallery the source fails in `np.argmin` while the corrected decision is Unknown |
| Matcher.SelfMatch | app.py:80-85 | a face at distance 0 from entry i, with no earlier entry at distance 0 and a set flag, is recognized as entry i's name |
| Matcher.TieGoesToEarlierEntry | app.py:82 | of two entries at equal distance, the later one is never the one chosen |
| Gallery.Snapshot.constructor | app.py:17 | before any save there is no snapshot file, which is trivially aligned |
| Gallery.ArchiveFileName | app.py:121 | the archive name is the name followed by exactly `.jpg` |
| Gallery.Snapshot.Load | app.py:16-20 | the stored pair when the snapshot exists, otherwise two empty lists; a snapshot only ever written with aligned lists loads with one name per embedding |
| Gallery.Snapshot.Save | app.py:22-24 | called with one name per embedding, the snapshot afterwards holds exactly the given pair and stays aligned |
| Gallery.CheckEnrollment | app.py:109-130 | the checks come in order: a name blank after `strip()` is MissingName; then no image is MissingImage; then no face is NoFaceDetected; only if all pass is it Enrolled, archived as `<name>.jpg` |
| Gallery.BlankNameRefused | app.py:109-110 | a name made only of whitespace is refused as MissingName, whatever was uploaded |
| Gallery.VisibleNameWithFaceAccepted | app.py:109-125 | a name with a visible character and an image with a face is enrolled |
| Gallery.KnownFaces.constructor | app.py:51-52 | the session gallery starts from a pair of equal-length lists |
| Gallery.KnownFaces.Enroll | app.py:108-130 | on success exactly the first embedding and the unstripped name are appended, the lists stay equal in length, and the snapshot holds the new pair; every refusal leaves both lists and the snapshot unchanged |
| AttendancePass.Pass | app.py:79-87 | the fold over the faces keeps the `Name` column, gives one decision per face and writes at most once per face |
| AttendancePass.TakeAttendance | app.py:74-94 | the face-by-face loop computes exactly the fold `Pass`: per-face decisions (with the corrected decision, see Left out), the resulting ledger and the number of ledger writes |
| AttendancePass.DecisionsAsWrittenOnNonEmptyGallery | app.py:79-85 | on a non-empty gallery every decision of the pass is the one the code as written takes |
| AttendancePass.DecisionsArePerFace | app.py:79-94 | one decision per face, and decision i is the match of face i alone |
| AttendancePass.PassAppendsFreshRecognizedNames | app.py:79-87 | the ledger only grows, by one row per write; every added row carries a recognized face's name that no earlier row carries, so no name is added twice in one image |
| AttendancePass.RecognizedNamesArePresent | app.py:84-87 | every recognized face's name is in the ledger afterwards |
| AttendancePass.UnrecognizedFacesLeaveLedger | app.py:84-94 | when no face is recognized (including an image with no face) the ledger is unchanged and never written |
| AttendancePass.EmptyGalleryLeavesLedger | app.py:80-84 | with the corrected decision, an empty gallery leaves the ledger unchanged and unwritten |
| AttendancePass.DistinctNamesKept | app.py:79-87 | a ledger without repeated names keeps that property through a pass |
| AttendancePass.KnownAndUnknownFace | app.py:79-94 | one known face and one stranger give the decisions (Carol, Unknown) in detection order and add exactly the known person's row, in either order |
| AttendancePass.SamePersonTwice | app.py:79-87 | two faces of the same person in one image add one row and cause one write |
| EncodeFaces.HasImageSuffix | encode_faces.py:11 | true iff the name ends in one of the three suffixes (see `AcceptedSuffixes`); an accepted name has at least four characters and ends in `g` |
| EncodeFaces.AcceptedSuffixes | encode_faces.py:11 | a file is accepted iff its last four characters are `.jpg` or `.png` or its last five are `.jpeg`, compared case-sensitively |
| EncodeFaces.Rebuild | encode_faces.py:7-18 | the rebuilt lists have equal length, at most one entry per listed file |
| EncodeFaces.Contributing | encode_faces.py:10-16 | the kept positions are strictly increasing (listing order, each once) and each names a file with an accepted suffix and a face |
| EncodeFaces.ContributingIsComplete | encode_faces.py:10-16 | every listed file with an accepted suffix and a face is kept |
| EncodeFaces.BuildGallery | encode_faces.py:7-18 | the script's loop, starting from empty lists, builds exactly `Rebuild` of the listing |
| EncodeFaces.EncodeFolder | encode_faces.py:7-22 | on a run that reaches the write, the snapshot afterwards holds exactly the gallery rebuilt from the folder, so no entry stored before survives unless its image is listed (an unreadable file stops the script earlier, see Left out) |
| EncodeFaces.RebuildFollowsListing | encode_faces.py:10-18 | entry i of both lists comes from the i-th kept file: its first embedding and its name without the last extension, so the lists stay index-aligned |
| EncodeFaces.RebuiltNameSource | encode_faces.py:10-18 | every rebuilt name is the stem of a listed image file in which a face was found |
| EncodeFaces.UpperCaseSuffixSkipped | encode_faces.py:11 | the suffix test is case-sensitive: `A.JPG` is not accepted |
| EncodeFaces.ArchivedImageKeepsName | encode_faces.py:11-18 | an image archived on enrollment as `<name>.jpg` passes the suffix filter and is rebuilt under `name`, when `name` has no `/` and is not all dots |
| EncodeFaces.DotOnlyNameNotRecovered | encode_faces.py:18 | a name of dots alone is not recovered: `.` is archived as `..jpg`, whose stem is `..jpg` |

## Left out

- The Streamlit page and `st.session_state`: widgets, messages, images shown, tabs and
  reruns. The gallery and ledger are threaded explicitly. A recognized or unrecognized
  message is a `Decision`. The "no face detected" warning is an empty decision list.
- Face detection, embeddings, `compare_faces`/`face_distance` and their tolerance. These are
  a floating-point library. Their results are inputs: match flags, and distances as integers.
  NaN distances, whose argmin behaviour differs, are not modelled.
- OpenCV decoding, colour conversion, drawing of boxes and labels, and `cv2.imwrite` of the
  archived image. Only the archive file name is modelled. An upload that `cv2.imdecode` cannot
  decode makes `cv2.cvtColor` at app.py:116 raise: the handler stops with no archive, no
  append, no save and no message. The model can only give such an upload as no face, which is
  `NoFaceDetected`.
- EncodeFaces.EncodeFolder: an accepted file that `cv2.imread` cannot read (a corrupt image,
  or a sub-folder named like `old.jpg`) gives None at encode_faces.py:12, and `cv2.cvtColor`
  at line 13 raises. The script stops before the write at lines 21-22, and the old snapshot,
  with every entry stored before, survives. `detect` is total, so the model covers only runs
  that reach line 22.
- The CSV and pickle formats. A ledger read is given as a `CsvRead` outcome. Cell values are
  text; pandas' type inference (a numeric name column) is not modelled. The snapshot is an
  abstract cell holding the pair.
- Gallery.Snapshot.Load: a corrupt or wrongly shaped pickle makes the source fail; the cell
  always holds a well-formed pair.
- AttendancePass.TakeAttendance: uses the corrected decision `Match`, so on an empty gallery it
  differs from app.py:82. There one face makes `np.argmin` raise and the page stops; the model
  reports Unknown. The ledger is unchanged either way. On a non-empty gallery the decisions are
  the as-written ones (`DecisionsAsWrittenOnNonEmptyGallery`).
- AttendanceLedger.WrittenLedgerReloads: assumes the CSV reader returns the written table. It
  does not model pandas' reading back of the strings `NA`, `None`, `null` or `nan` as NaN, nor
  an all-digit `Name` column read back as integers. After a restart such a name is not found
  by the `in` test of app.py:39, and the person would be marked a second time.
- `datetime.now()` and its formatting: each face comes with a given timestamp string.
- File-system calls (`os.path.exists`, `os.makedirs`, `os.listdir`): the listing is an input
  sequence. The ledger write is the `wrote` flag and the file then holds the returned table.
- PyText.SplitExt: POSIX paths only; Windows separators are not modelled. A name containing
  `/` would archive outside the image folder (a leading `/` makes `os.path.join` drop it), or
  not be written at all (a sub-folder that was never created), while app.py:124-126 still
  enroll and save it. Such names are excluded by `ArchivedImageKeepsName`'s precondition.
- The commented-out second version of the batch script at encode_faces.py:26-62, which never
  runs.

## Findings

| source | as written | input that shows it | evidently intended | confidence | as-written member | corrected member |
|---|---|---|---|---|---|---|
| app.py:82-84 | `np.argmin(distances)` runs before the `matches and` guard, and argmin of an empty sequence raises | no enrolled faces and an uploaded image with one face: the distance and match lists are empty | an empty gallery reports "Face not recognized", which is what the `matches and` guard is there for | high; not executed | Matcher.MatchAsWritten | Matcher.Match |
