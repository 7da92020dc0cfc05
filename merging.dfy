/** `mergeResults`: the label-lookup list has priority; the top entry of the
    probability lookup only lends its probability to the label-lookup
    entries that name the same article. */
module Merging {
  import opened Articles

  /** One label-lookup entry after enrichment by the probability pick. */
  function Enrich(a: ArticleData, pick: ArticleData): ArticleData
  {
    if pick.canonLabel == a.name then a.(prob := pick.prob) else a
  }

  /** The merged list, as values: the probability list itself when the
      label-lookup list is empty, otherwise the label-lookup list with every
      entry enriched by the first probability entry, if there is one. */
  function Merged(fuzzy: seq<ArticleData>, sqlite: seq<ArticleData>): seq<ArticleData>
  {
    if fuzzy == [] then sqlite
    else if sqlite == [] then fuzzy
    else seq(|fuzzy|, k requires 0 <= k < |fuzzy| => Enrich(fuzzy[k], sqlite[0]))
  }

  /** With a non-empty label-lookup list the merge keeps its length, its
      order and every field except `prob`, which changes exactly on the
      entries whose name is the probability pick's canonical label. */
  lemma MergedChangesOnlyProb(fuzzy: seq<ArticleData>, sqlite: seq<ArticleData>)
    requires fuzzy != []
    ensures |Merged(fuzzy, sqlite)| == |fuzzy|
    ensures forall k :: 0 <= k < |fuzzy| ==>
      Merged(fuzzy, sqlite)[k] == fuzzy[k].(prob := Merged(fuzzy, sqlite)[k].prob) &&
      Merged(fuzzy, sqlite)[k].prob ==
        (if sqlite != [] && fuzzy[k].name == sqlite[0].canonLabel then sqlite[0].prob else fuzzy[k].prob)
  {
  }

  /** Merging the merged list with the same probability list again changes nothing. */
  lemma MergedIdempotent(fuzzy: seq<ArticleData>, sqlite: seq<ArticleData>)
    requires fuzzy != []
    ensures Merged(Merged(fuzzy, sqlite), sqlite) == Merged(fuzzy, sqlite)
  {
    if sqlite != [] {
      var m := Merged(fuzzy, sqlite);
      assert forall k :: 0 <= k < |m| ==> Enrich(m[k], sqlite[0]) == m[k];
    }
  }

  /** `mergeResults`: returns the probability list when the label-lookup
      list is empty, otherwise the label-lookup list itself after
      overwriting `prob` in place on the objects whose name is the
      canonical label of the first probability entry. The probability
      entry is read afresh on every step, as in the source; this is
      harmless even when it is one of the objects being updated. */
  method MergeResults(fuzzy: seq<Article>, sqlite: seq<Article>) returns (r: seq<Article>)
    modifies set a | a in fuzzy
    ensures r == (if fuzzy == [] then sqlite else fuzzy)
    ensures Values(r) == Merged(old(Values(fuzzy)), old(Values(sqlite)))
    ensures forall a :: a in fuzzy ==> a.Value() == old(a.Value()).(prob := a.prob)
  {
    if fuzzy == [] {
      return sqlite;
    }
    ghost var before := Values(fuzzy);
    ghost var probList := Values(sqlite);
    ghost var pick := if sqlite == [] then before[0] else probList[0];
    var i := 0;
    while i < |fuzzy|
      invariant 0 <= i <= |fuzzy|
      invariant sqlite == [] ==> i == 0
      invariant sqlite != [] ==> sqlite[0].Value() == pick
      invariant forall k :: 0 <= k < i ==> fuzzy[k].Value() == Enrich(before[k], pick)
      invariant forall k :: i <= k < |fuzzy| ==>
        fuzzy[k].Value() == before[k] || (sqlite != [] && fuzzy[k].Value() == Enrich(before[k], pick))
    {
      if sqlite == [] {
        break;
      }
      if sqlite[0].canonLabel == fuzzy[i].name {
        fuzzy[i].prob := sqlite[0].prob;
      }
      i := i + 1;
    }
    r := fuzzy;
    if sqlite == [] {
      assert Values(fuzzy) == before;
    } else {
      assert i == |fuzzy| && probList[0] == pick;
      assert Values(fuzzy) == Merged(before, probList);
    }
    forall a | a in fuzzy
      ensures a.Value() == old(a.Value()).(prob := a.prob)
    {
      var k :| 0 <= k < |fuzzy| && fuzzy[k] == a;
      assert before[k] == old(a.Value());
    }
  }
}
