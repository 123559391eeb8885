/** The argmax loops of the single-match routes. A loop visits candidates in
    fetched order, keeps `best` (index) and `bestScore`, and replaces them only
    when a candidate's score is strictly greater. A candidate the loop skips
    (`continue`, or a NaN score that no comparison accepts) has score `None`. */
module BestMatch {
  import opened Common

  /** The loop state: the index of the best candidate so far (None while no
      candidate has beaten the initial score) and the best score. */
  datatype Best = Best(index: Option<nat>, score: real)

  /** `best = null; bestScore = init; for each candidate: if (s > bestScore) { best = i; bestScore = s }` */
  function Scan(scores: seq<Option<real>>, init: real): (b: Best)
    ensures b.score >= init
    ensures b.index.None? <==> b.score == init
    ensures b.index.Some? ==> b.index.value < |scores| && scores[b.index.value] == Some(b.score)
    ensures forall i :: 0 <= i < |scores| && scores[i].Some? ==> scores[i].value <= b.score
    ensures b.index.Some? ==>
              forall i :: 0 <= i < b.index.value && scores[i].Some? ==> scores[i].value < b.score
    decreases |scores|
  {
    if scores == [] then Best(None, init)
    else
      var prev := Scan(scores[..|scores| - 1], init);
      var last := scores[|scores| - 1];
      if last.Some? && last.value > prev.score then Best(Some(|scores| - 1), last.value) else prev
  }

  /** The auth face-login loop: a candidate replaces the best only when its
      score is strictly greater AND reaches the threshold. */
  function GatedScan(scores: seq<Option<real>>, init: real, threshold: real): (b: Best)
    ensures b.index.None? ==> b.score == init
    ensures b.index.Some? ==> b.index.value < |scores| && scores[b.index.value] == Some(b.score)
    decreases |scores|
  {
    if scores == [] then Best(None, init)
    else
      var prev := GatedScan(scores[..|scores| - 1], init, threshold);
      var last := scores[|scores| - 1];
      if last.Some? && last.value > prev.score && last.value >= threshold
      then Best(Some(|scores| - 1), last.value)
      else prev
  }

  /** Argmax followed by the threshold test. */
  function Thresholded(b: Best, init: real, threshold: real): Best
  {
    if b.score >= threshold then b else Best(None, init)
  }

  /** Gating every comparison by the threshold (auth face-login) selects the
      same candidate, with the same score, as a plain argmax followed by one
      threshold test (every other route), provided the start value lies below
      the threshold. */
  lemma {:induction false} GatedScanIsThresholdedScan(scores: seq<Option<real>>, init: real, threshold: real)
    requires init < threshold
    ensures GatedScan(scores, init, threshold) == Thresholded(Scan(scores, init), init, threshold)
    decreases |scores|
  {
    if scores != [] {
      GatedScanIsThresholdedScan(scores[..|scores| - 1], init, threshold);
    }
  }

  /** An argmax over a concatenation keeps an element of the first part unless
      the second part has a strictly greater score: on a tie the earlier part wins. */
  lemma ScanConcatTie(first: seq<Option<real>>, second: seq<Option<real>>, init: real)
    ensures var b := Scan(first + second, init);
            b.index.Some? && b.index.value >= |first| ==>
              forall i :: 0 <= i < |first| && first[i].Some? ==> first[i].value < b.score
  {
    var all := first + second;
    var b := Scan(all, init);
    if b.index.Some? && b.index.value >= |first| {
      forall i | 0 <= i < |first| && first[i].Some?
        ensures first[i].value < b.score
      {
        assert all[i] == first[i];
      }
    }
  }

  /** Conversely, a considered candidate above the start value that no
      candidate beats and no earlier candidate ties is the one the scan picks. */
  lemma ScanFirstMax(scores: seq<Option<real>>, init: real, k: nat)
    requires k < |scores| && scores[k].Some? && scores[k].value > init
    requires forall i :: 0 <= i < |scores| && scores[i].Some? ==> scores[i].value <= scores[k].value
    requires forall i :: 0 <= i < k && scores[i].Some? ==> scores[i].value < scores[k].value
    ensures Scan(scores, init) == Best(Some(k), scores[k].value)
  {
  }

  /** The best score reaches a threshold above the start value exactly when
      some considered candidate reaches it. */
  lemma ScanReaches(scores: seq<Option<real>>, init: real, threshold: real)
    requires init < threshold
    ensures Scan(scores, init).score >= threshold <==>
              exists i :: 0 <= i < |scores| && scores[i].Some? && scores[i].value >= threshold
  {
    var b := Scan(scores, init);
    if b.score >= threshold {
      var k := b.index.value;
      assert scores[k].Some? && scores[k].value >= threshold;
    }
  }
}
