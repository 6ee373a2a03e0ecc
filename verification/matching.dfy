/** The per-face match decision of the recognition loop (app.py:92-98): the
    nearest gallery entry, first one on ties, is accepted only when its distance
    is strictly below the threshold. Distances are supplied by the vision
    library, one per gallery entry, in gallery order. */
module Matching {

  /** The acceptance threshold on face distance. */
  const MatchThreshold: real := 0.5

  /** What a detected face is labelled with. */
  datatype Verdict = Unknown | Recognized(name: string)

  /** `k` is where the minimum of `d` is first reached. */
  predicate IsFirstMinimum(d: seq<real>, k: nat) {
    k < |d| &&
    (forall j :: 0 <= j < |d| ==> d[k] <= d[j]) &&
    (forall j :: 0 <= j < k ==> d[k] < d[j])
  }

  /** `np.argmin`: the first index of the smallest distance. */
  function ArgMin(d: seq<real>): (k: nat)
    requires |d| > 0
    ensures IsFirstMinimum(d, k)
  {
    if |d| == 1 then 0
    else
      var k := ArgMin(d[..|d| - 1]);
      if d[|d| - 1] < d[k] then |d| - 1 else k
  }

  /** At most one index is the first minimum. */
  lemma FirstMinimumUnique(d: seq<real>, k1: nat, k2: nat)
    requires IsFirstMinimum(d, k1) && IsFirstMinimum(d, k2)
    ensures k1 == k2
  {
    assert d[k1] == d[k2];
  }

  /** The decision for one face, given its distances to the gallery entries and
      the gallery's names: Recognized exactly when some distance is strictly below
      the threshold, and then with the name at the first nearest entry. */
  function Classify(distances: seq<real>, names: seq<string>): (v: Verdict)
    requires |distances| == |names|
    ensures v.Recognized? <==> exists j :: 0 <= j < |distances| && distances[j] < MatchThreshold
    ensures v.Recognized? ==>
      forall k: nat :: IsFirstMinimum(distances, k) ==> k < |names| && v.name == names[k]
  {
    if |distances| == 0 then Unknown
    else
      var best := ArgMin(distances);
      if distances[best] < MatchThreshold then
        assert forall k: nat :: IsFirstMinimum(distances, k) ==> k == best by {
          forall k: nat | IsFirstMinimum(distances, k) ensures k == best {
            FirstMinimumUnique(distances, k, best);
          }
        }
        Recognized(names[best])
      else Unknown
  }

  /** The text drawn under a face's box. */
  function Label(v: Verdict): string {
    match v
    case Unknown => "Unknown"
    case Recognized(name) => name
  }

  /** A nearest distance equal to the threshold is not a match; only strictly
      smaller ones are, and they match the first nearest entry. */
  lemma ThresholdIsStrict(d: seq<real>, names: seq<string>)
    requires |d| == |names| > 0
    ensures d[ArgMin(d)] == MatchThreshold ==> Classify(d, names) == Unknown
    ensures d[ArgMin(d)] < MatchThreshold ==> Classify(d, names) == Recognized(names[ArgMin(d)])
  {
  }

  /** Ties go to the earlier gallery entry. */
  lemma TieGoesToFirst(d: seq<real>, names: seq<string>, i: nat, j: nat)
    requires |d| == |names| && i < j < |d|
    requires d[i] == d[j] < MatchThreshold
    requires forall k :: 0 <= k < |d| ==> d[i] <= d[k]
    ensures Classify(d, names) == Recognized(names[ArgMin(d)])
    ensures ArgMin(d) <= i
  {
    var k := ArgMin(d);
    assert d[k] <= d[i];
  }
}
