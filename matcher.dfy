/** The match decision of app.py for one detected face. The face library supplies, for the
    face against every gallery entry, a within-tolerance flag and a distance; the decision
    takes the first entry of least distance (`np.argmin`) and reports its name if that entry's
    flag is set. Distances are abstract integers: only their order matters. */
module Matcher {

  /** What `compare_faces` and `face_distance` return for one face, entry by entry. */
  datatype Comparison = Comparison(matches: seq<bool>, distances: seq<int>)

  datatype Decision = Recognized(name: string) | Unknown

  /** The decision exactly as app.py computes it, including its failure on an empty gallery. */
  datatype AsWritten = Decided(decision: Decision) | ArgMinOfEmpty

  /** The library returns one flag and one distance per gallery entry. */
  predicate Fits(c: Comparison, size: nat) {
    |c.matches| == size && |c.distances| == size
  }

  /** `k` is where `np.argmin(ds)` points: a least element, and the first one. */
  predicate IsFirstMinimum(ds: seq<int>, k: int) {
    && 0 <= k < |ds|
    && (forall j :: 0 <= j < |ds| ==> ds[k] <= ds[j])
    && (forall j :: 0 <= j < k ==> ds[k] < ds[j])
  }

  /** `np.argmin` on a non-empty sequence. */
  function ArgMin(ds: seq<int>): (k: nat)
    requires |ds| > 0
    ensures IsFirstMinimum(ds, k)
  {
    if |ds| == 1 then 0
    else
      var k := ArgMin(ds[..|ds| - 1]);
      if ds[|ds| - 1] < ds[k] then |ds| - 1 else k
  }

  /** At most one index is the first minimum. */
  lemma FirstMinimumUnique(ds: seq<int>, k1: int, k2: int)
    requires IsFirstMinimum(ds, k1) && IsFirstMinimum(ds, k2)
    ensures k1 == k2
  {
    assert ds[k1] == ds[k2];
  }

  /** app.py:80-85 as written: `np.argmin` runs before the `matches and` guard, so an empty
      gallery fails there instead of giving "not recognized". */
  function MatchAsWritten(names: seq<string>, c: Comparison): (r: AsWritten)
    requires Fits(c, |names|)
    ensures r.ArgMinOfEmpty? <==> names == []
    ensures r.Decided? ==> r.decision.Recognized? == c.matches[ArgMin(c.distances)]
  {
    if |c.distances| == 0 then ArgMinOfEmpty
    else
      var best := ArgMin(c.distances);
      if |c.matches| > 0 && c.matches[best] then Decided(Recognized(names[best]))
      else Decided(Unknown)
  }

  /** The match decision with the empty gallery handled by the guard as intended: the face is
      recognized exactly when the flag of the first nearest entry is set, and then carries that
      entry's name. */
  function Match(names: seq<string>, c: Comparison): (r: Decision)
    requires Fits(c, |names|)
    ensures names == [] ==> r == Unknown
    ensures forall k :: IsFirstMinimum(c.distances, k) ==>
              r == (if c.matches[k] then Recognized(names[k]) else Unknown)
  {
    if |c.matches| == 0 then Unknown
    else
      var best := ArgMin(c.distances);
      forall k | IsFirstMinimum(c.distances, k) ensures k == best {
        FirstMinimumUnique(c.distances, k, best);
      }
      if c.matches[best] then Recognized(names[best]) else Unknown
  }

  /** On a non-empty gallery the corrected decision is the one app.py makes. */
  lemma MatchAgreesWithSourceOnNonEmptyGallery(names: seq<string>, c: Comparison)
    requires Fits(c, |names|) && names != []
    ensures MatchAsWritten(names, c) == Decided(Match(names, c))
  {
  }

  /** On an empty gallery app.py fails in `np.argmin`, while its guard meant "not recognized". */
  lemma EmptyGalleryFailsAsWritten(c: Comparison)
    requires Fits(c, 0)
    ensures MatchAsWritten([], c) == ArgMinOfEmpty && Match([], c) == Unknown
  {
  }

  /** A face at distance 0 from entry `i`, with no earlier entry at distance 0 and no negative
      distances, is recognized as entry `i` when that entry's flag is set. */
  lemma SelfMatch(names: seq<string>, c: Comparison, i: nat)
    requires Fits(c, |names|) && i < |names|
    requires forall j :: 0 <= j < |names| ==> c.distances[j] >= 0
    requires c.distances[i] == 0 && forall j :: 0 <= j < i ==> c.distances[j] > 0
    requires c.matches[i]
    ensures Match(names, c) == Recognized(names[i])
  {
    assert IsFirstMinimum(c.distances, i);
  }

  /** Equal distances go to the earlier gallery entry: a later entry whose distance an earlier
      one ties is never the one reported. */
  lemma TieGoesToEarlierEntry(names: seq<string>, c: Comparison, i: nat, j: nat)
    requires Fits(c, |names|) && i < j < |names|
    requires c.distances[i] == c.distances[j]
    ensures ArgMin(c.distances) != j
  {
  }
}
