/**
 * The dominant class: the key of the training counts with the largest count,
 * chosen the way the language's `max` with a key function chooses it. The keys
 * are scanned in the table's insertion order, `order`, and the best key so far
 * is replaced only by a strictly larger count, so on a tie the first key that
 * reaches the maximum wins. An empty table has no maximum and is an error.
 */
module Dominant {
  import opened SurveyTypes

  /** Every position of `order` names a key of `counts`. */
  predicate KeysIn(counts: map<string, nat>, order: seq<string>) {
    forall i :: 0 <= i < |order| ==> order[i] in counts
  }

  /** Position `k` holds a largest count, and every position before it a strictly smaller one. */
  ghost predicate IsFirstMaximum(counts: map<string, nat>, order: seq<string>, k: int)
    requires KeysIn(counts, order)
  {
    && 0 <= k < |order|
    && (forall i :: 0 <= i < |order| ==> counts[order[i]] <= counts[order[k]])
    && (forall i :: 0 <= i < k ==> counts[order[i]] < counts[order[k]])
  }

  /** The scan from position `i` on, with `best` the position kept so far. */
  function MaxFrom(counts: map<string, nat>, order: seq<string>, best: nat, i: nat): (k: nat)
    requires KeysIn(counts, order)
    requires best < i <= |order|
    requires forall j :: 0 <= j < i ==> counts[order[j]] <= counts[order[best]]
    requires forall j :: 0 <= j < best ==> counts[order[j]] < counts[order[best]]
    ensures IsFirstMaximum(counts, order, k)
    decreases |order| - i
  {
    if i == |order| then best
    else if counts[order[i]] > counts[order[best]] then MaxFrom(counts, order, i, i + 1)
    else MaxFrom(counts, order, best, i + 1)
  }

  /** The position of the dominant key in a non-empty insertion order. */
  function DominantIndex(counts: map<string, nat>, order: seq<string>): (k: nat)
    requires KeysIn(counts, order) && |order| > 0
    ensures IsFirstMaximum(counts, order, k)
  {
    MaxFrom(counts, order, 0, 1)
  }

  /** The dominant class, or None for an empty table, where the maximum is undefined.
      `order` is the table's insertion order, so its entries are exactly the table's keys. */
  function DominantClass(counts: map<string, nat>, order: seq<string>): (r: Option<string>)
    requires counts.Keys == set c | c in order
    ensures r.None? <==> |counts| == 0
    ensures r.Some? ==> r.value in counts && r.value in order
    ensures r.Some? ==> forall c :: c in counts ==> counts[c] <= counts[r.value]
    ensures r.Some? ==> exists k :: IsFirstMaximum(counts, order, k) && order[k] == r.value
  {
    assert KeysIn(counts, order) by {
      forall i | 0 <= i < |order| ensures order[i] in counts {
        assert order[i] in order;
      }
    }
    if |order| == 0 then None
    else
      var k := DominantIndex(counts, order);
      assert order[k] in counts;
      assert forall c :: c in counts ==> exists i :: 0 <= i < |order| && order[i] == c;
      Some(order[k])
  }

  /** The first-maximum property pins down one position: the scan's answer is the only one. */
  lemma FirstMaximumIsUnique(counts: map<string, nat>, order: seq<string>, k: int)
    requires KeysIn(counts, order)
    requires IsFirstMaximum(counts, order, k)
    ensures DominantIndex(counts, order) == k
  {
  }

  /** On a tie between two classes the one listed first is dominant. */
  lemma TieGoesToFirst()
    ensures DominantClass(map["glioma" := 3, "meningioma" := 5, "notumor" := 5],
                          ["glioma", "meningioma", "notumor"]) == Some("meningioma")
  {
  }
}
