/** The per-image attendance pass of app.py (lines 74-94): every face detected in an uploaded
    image is matched against the gallery, and every recognized name goes through
    `mark_attendance`. The gallery is seen through its names, and the face library's output as
    one `Comparison` per face; `times[i]` is the clock reading `mark_attendance` takes if face i
    leads to a new row. No decisions at all is the "no face detected" warning. */
module AttendancePass {
  import opened Wrappers
  import opened AttendanceLedger
  import opened Matcher

  /** The ledger after the pass, the decision reported for each face, and the number of times
      the ledger file was written. */
  datatype PassResult = PassResult(table: Frame, decisions: seq<Decision>, writes: nat)

  /** One comparison and one clock reading per face, each comparison covering the gallery. */
  predicate WellFormedInput(names: seq<string>, faces: seq<Comparison>, times: seq<string>) {
    |times| == |faces| && forall i :: 0 <= i < |faces| ==> Fits(faces[i], |names|)
  }

  /** The pass as a fold over the faces in detection order. */
  function Pass(names: seq<string>, faces: seq<Comparison>, times: seq<string>, f: Frame): (r: PassResult)
    requires NameColumn in f.columns
    requires WellFormedInput(names, faces, times)
    ensures NameColumn in r.table.columns
    ensures |r.decisions| == |faces| && r.writes <= |faces|
    decreases |faces|
  {
    if faces == [] then PassResult(f, [], 0)
    else
      var n := |faces| - 1;
      var prev := Pass(names, faces[..n], times[..n], f);
      var d := Match(names, faces[n]);
      if d.Recognized? then
        var m := MarkAttendance(d.name, times[n], prev.table);
        PassResult(m.table, prev.decisions + [d], prev.writes + if m.wrote then 1 else 0)
      else
        PassResult(prev.table, prev.decisions + [d], prev.writes)
  }

  /** The loop of app.py:79-94, reassigning the session's ledger face by face. */
  method TakeAttendance(names: seq<string>, faces: seq<Comparison>, times: seq<string>, f: Frame)
    returns (r: PassResult)
    requires NameColumn in f.columns
    requires WellFormedInput(names, faces, times)
    ensures r == Pass(names, faces, times, f)
  {
    var table := f;
    var decisions: seq<Decision> := [];
    var writes := 0;
    for i := 0 to |faces|
      invariant NameColumn in table.columns
      invariant PassResult(table, decisions, writes) == Pass(names, faces[..i], times[..i], f)
    {
      assert faces[..i + 1][..i] == faces[..i] && times[..i + 1][..i] == times[..i];
      var d := Match(names, faces[i]);
      if d.Recognized? {
        var m := MarkAttendance(d.name, times[i], table);
        table := m.table;
        if m.wrote {
          writes := writes + 1;
        }
      }
      decisions := decisions + [d];
    }
    assert faces[..|faces|] == faces && times[..|times|] == times;
    r := PassResult(table, decisions, writes);
  }

  /** Each face is decided on its own: decision i is the match of face i. */
  lemma {:induction false} DecisionsArePerFace(names: seq<string>, faces: seq<Comparison>, times: seq<string>, f: Frame)
    requires NameColumn in f.columns
    requires WellFormedInput(names, faces, times)
    ensures |Pass(names, faces, times, f).decisions| == |faces|
    ensures forall i :: 0 <= i < |faces| ==> Pass(names, faces, times, f).decisions[i] == Match(names, faces[i])
  {
    if faces != [] {
      var n := |faces| - 1;
      DecisionsArePerFace(names, faces[..n], times[..n], f);
    }
  }

  /** On a non-empty gallery every decision of the pass is the one app.py itself makes; only on
      an empty gallery does the pass differ, where app.py fails in `np.argmin`. */
  lemma DecisionsAsWrittenOnNonEmptyGallery(names: seq<string>, faces: seq<Comparison>, times: seq<string>, f: Frame)
    requires NameColumn in f.columns
    requires WellFormedInput(names, faces, times)
    requires names != []
    ensures forall i :: 0 <= i < |faces| ==>
              MatchAsWritten(names, faces[i]) == Decided(Pass(names, faces, times, f).decisions[i])
  {
    DecisionsArePerFace(names, faces, times, f);
    forall i | 0 <= i < |faces|
      ensures MatchAsWritten(names, faces[i]) == Decided(Pass(names, faces, times, f).decisions[i])
    {
      MatchAgreesWithSourceOnNonEmptyGallery(names, faces[i]);
    }
  }

  /** The rows the pass adds to `f`: every one carries a recognized name that no earlier row of
      the ledger carries. */
  ghost predicate FreshRecognizedRows(f: Frame, g: Frame, decisions: seq<Decision>) {
    && |f.rows| <= |g.rows|
    && g.rows[..|f.rows|] == f.rows
    && forall k :: |f.rows| <= k < |g.rows| ==> FreshRecognizedRow(g, decisions, k)
  }

  /** Row `k` of `g` carries a recognized name that no earlier row carries. */
  ghost predicate FreshRecognizedRow(g: Frame, decisions: seq<Decision>, k: nat)
    requires k < |g.rows|
  {
    && (exists d :: d in decisions && d.Recognized? && Names(g)[k] == Some(d.name))
    && (forall j :: 0 <= j < k ==> Names(g)[j] != Names(g)[k])
  }

  lemma FreshRowsWithMoreDecisions(f: Frame, g: Frame, decisions: seq<Decision>, more: seq<Decision>)
    requires FreshRecognizedRows(f, g, decisions)
    requires forall e :: e in decisions ==> e in more
    ensures FreshRecognizedRows(f, g, more)
  {
    forall k | |f.rows| <= k < |g.rows| ensures FreshRecognizedRow(g, more, k) {
      assert FreshRecognizedRow(g, decisions, k);
      var e :| e in decisions && e.Recognized? && Names(g)[k] == Some(e.name);
      assert e in more;
    }
  }

  /** The ledger only grows, by exactly one row per write, and each added row is a recognized
      name not already in the ledger, so no name is added twice even when several faces in the
      image are the same person. */
  lemma {:induction false} PassAppendsFreshRecognizedNames(names: seq<string>, faces: seq<Comparison>, times: seq<string>, f: Frame)
    requires NameColumn in f.columns
    requires WellFormedInput(names, faces, times)
    ensures FreshRecognizedRows(f, Pass(names, faces, times, f).table, Pass(names, faces, times, f).decisions)
    ensures |Pass(names, faces, times, f).table.rows| == |f.rows| + Pass(names, faces, times, f).writes
  {
    if faces != [] {
      var n := |faces| - 1;
      var prev := Pass(names, faces[..n], times[..n], f);
      PassAppendsFreshRecognizedNames(names, faces[..n], times[..n], f);
      var r := Pass(names, faces, times, f);
      var d := Match(names, faces[n]);
      assert r.decisions == prev.decisions + [d];
      if !(d.Recognized? && MarkAttendance(d.name, times[n], prev.table).wrote) {
        assert r.table == prev.table;
        FreshRowsWithMoreDecisions(f, prev.table, prev.decisions, r.decisions);
      }
      if d.Recognized? {
        var m := MarkAttendance(d.name, times[n], prev.table);
        if m.wrote {
          var g := m.table;
          assert g.rows[..|prev.table.rows|] == prev.table.rows;
          forall k | |f.rows| <= k < |g.rows|
            ensures FreshRecognizedRow(g, r.decisions, k)
          {
            if k < |prev.table.rows| {
              assert Names(g)[k] == Names(prev.table)[k];
              assert FreshRecognizedRow(prev.table, prev.decisions, k);
              var e :| e in prev.decisions && e.Recognized? && Names(prev.table)[k] == Some(e.name);
              assert e in r.decisions;
              forall j | 0 <= j < k ensures Names(g)[j] != Names(g)[k] {
                assert Names(g)[j] == Names(prev.table)[j];
              }
            } else {
              assert Names(g)[k] == Some(d.name);
              assert d in r.decisions;
              forall j | 0 <= j < k ensures Names(g)[j] != Names(g)[k] {
                assert Names(g)[j] == Names(prev.table)[j];
              }
            }
          }
        }
      }
    }
  }

  /** Every recognized face's name is in the ledger afterwards. */
  lemma {:induction false} RecognizedNamesArePresent(names: seq<string>, faces: seq<Comparison>, times: seq<string>, f: Frame)
    requires NameColumn in f.columns
    requires WellFormedInput(names, faces, times)
    ensures forall d :: d in Pass(names, faces, times, f).decisions && d.Recognized? ==>
              Present(d.name, Pass(names, faces, times, f).table)
  {
    if faces != [] {
      var n := |faces| - 1;
      var prev := Pass(names, faces[..n], times[..n], f);
      RecognizedNamesArePresent(names, faces[..n], times[..n], f);
      var d := Match(names, faces[n]);
      if d.Recognized? {
        var m := MarkAttendance(d.name, times[n], prev.table);
        forall e | e in prev.decisions && e.Recognized? ensures Present(e.name, m.table) {
          assert Some(e.name) in Names(prev.table);
        }
      }
    }
  }

  /** Faces that are not recognized never touch the ledger: if no face is recognized, the
      ledger is unchanged and never written. */
  lemma {:induction false} UnrecognizedFacesLeaveLedger(names: seq<string>, faces: seq<Comparison>, times: seq<string>, f: Frame)
    requires NameColumn in f.columns
    requires WellFormedInput(names, faces, times)
    requires forall i :: 0 <= i < |faces| ==> Match(names, faces[i]) == Unknown
    ensures Pass(names, faces, times, f).table == f && Pass(names, faces, times, f).writes == 0
  {
    if faces != [] {
      var n := |faces| - 1;
      UnrecognizedFacesLeaveLedger(names, faces[..n], times[..n], f);
    }
  }

  /** An empty gallery recognizes nobody, so the pass leaves the ledger alone. */
  lemma EmptyGalleryLeavesLedger(faces: seq<Comparison>, times: seq<string>, f: Frame)
    requires NameColumn in f.columns
    requires WellFormedInput([], faces, times)
    ensures Pass([], faces, times, f).table == f && Pass([], faces, times, f).writes == 0
  {
    UnrecognizedFacesLeaveLedger([], faces, times, f);
  }

  /** A ledger with distinct names keeps them distinct through a pass. */
  lemma DistinctNamesKept(names: seq<string>, faces: seq<Comparison>, times: seq<string>, f: Frame)
    requires NameColumn in f.columns
    requires WellFormedInput(names, faces, times)
    requires DistinctNames(f)
    ensures DistinctNames(Pass(names, faces, times, f).table)
  {
    var g := Pass(names, faces, times, f).table;
    PassAppendsFreshRecognizedNames(names, faces, times, f);
    forall i, j | 0 <= i < j < |Names(g)| && Names(g)[i].Some? ensures Names(g)[i] != Names(g)[j] {
      if j < |f.rows| {
        assert Names(g)[i] == Names(f)[i] && Names(g)[j] == Names(f)[j];
      } else {
        assert FreshRecognizedRow(g, Pass(names, faces, times, f).decisions, j);
      }
    }
  }

  /** An image with one face of the only enrolled person and one stranger adds that person's
      row, and only it, in either detection order. */
  lemma KnownAndUnknownFace(now1: string, now2: string)
    ensures var known, stranger := Comparison([true], [0]), Comparison([false], [9]);
            && Pass(["Carol"], [known, stranger], [now1, now2], EmptyLedger()).table.rows == [NewRow("Carol", now1)]
            && Pass(["Carol"], [known, stranger], [now1, now2], EmptyLedger()).decisions == [Recognized("Carol"), Unknown]
            && Pass(["Carol"], [stranger, known], [now1, now2], EmptyLedger()).table.rows == [NewRow("Carol", now2)]
            && Pass(["Carol"], [stranger, known], [now1, now2], EmptyLedger()).decisions == [Unknown, Recognized("Carol")]
  {
    var known, stranger := Comparison([true], [0]), Comparison([false], [9]);
    assert IsFirstMinimum(known.distances, 0) && IsFirstMinimum(stranger.distances, 0);
    assert Match(["Carol"], known) == Recognized("Carol") && Match(["Carol"], stranger) == Unknown;
    assert [known, stranger][..1] == [known] && [stranger, known][..1] == [stranger];
    assert [now1, now2][..1] == [now1] && [now1][..0] == [] && [known][..0] == [] && [stranger][..0] == [];
    assert Names(EmptyLedger()) == [];
    assert Pass(["Carol"], [], [], EmptyLedger()) == PassResult(EmptyLedger(), [], 0);
    // known face first: its row is added at once, the stranger adds nothing
    var m1 := MarkAttendance("Carol", now1, EmptyLedger());
    assert Pass(["Carol"], [known], [now1], EmptyLedger()).table == m1.table;
    // stranger first: nothing, then the known face's row at the second reading
    assert Pass(["Carol"], [stranger], [now1], EmptyLedger()).table == EmptyLedger();
    var m2 := MarkAttendance("Carol", now2, EmptyLedger());
    assert m2.table.rows == [NewRow("Carol", now2)];
  }

  /** Two faces of the same person in one image give one row and one write. */
  lemma SamePersonTwice(now1: string, now2: string)
    ensures var face := Comparison([true], [0]);
            && Pass(["Carol"], [face, face], [now1, now2], EmptyLedger()).table.rows == [NewRow("Carol", now1)]
            && Pass(["Carol"], [face, face], [now1, now2], EmptyLedger()).writes == 1
  {
    var face := Comparison([true], [0]);
    assert IsFirstMinimum(face.distances, 0);
    assert [face, face][..1] == [face];
    assert [now1, now2][..1] == [now1];
    var first := Pass(["Carol"], [face], [now1], EmptyLedger());
    assert [face][..0] == [] && [now1][..0] == [];
    assert Match(["Carol"], face) == Recognized("Carol");
    assert Names(EmptyLedger()) == [];
    assert Pass(["Carol"], [], [], EmptyLedger()) == PassResult(EmptyLedger(), [], 0);
    var m := MarkAttendance("Carol", now1, EmptyLedger());
    assert m.wrote && m.table.rows == [NewRow("Carol", now1)];
    assert first.table.rows == [NewRow("Carol", now1)] && first.writes == 1;
    assert Present("Carol", first.table);
  }
}
