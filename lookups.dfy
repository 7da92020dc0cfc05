/** The two lookup clients: the fuzzy label-lookup service, whose answer is
    filtered down to the exact matches (or a single fuzzy fallback), and the
    probability lookup service, of whose answer only the top entry is kept.
    The HTTP request and the JSON stream are replaced by the decoded
    `results` array, given as a sequence of records. */
module Lookups {
  import opened Sequences
  import opened Articles

  /** The label-lookup list after looking at one more response entry `o`:
      an exact match is appended unless it repeats the name of the last kept
      entry; a fuzzy match is appended only to an empty list. */
  function LabelStep(kept: seq<ArticleData>, o: ArticleData): seq<ArticleData>
  {
    if o.dist == 0.0 then
      if kept == [] || kept[|kept| - 1].name != o.name then kept + [o] else kept
    else if kept == [] then kept + [o]
    else kept
  }

  /** The entries the label-lookup loop keeps from a whole response. */
  function LabelKept(response: seq<ArticleData>): (r: seq<ArticleData>)
    ensures |r| <= |response|
    ensures response != [] ==> r != [] && r[0] == response[0]
    ensures forall k :: 0 < k < |r| ==> r[k].dist == 0.0
    ensures forall k :: 0 < k < |r| ==> r[k - 1].name != r[k].name
  {
    if response == [] then []
    else LabelStep(LabelKept(response[..|response| - 1]), response[|response| - 1])
  }

  /** The kept entries are taken from the response in their original order. */
  lemma {:induction false} LabelKeptIsSubsequence(response: seq<ArticleData>)
    ensures IsSubsequence(LabelKept(response), response)
  {
    if response != [] {
      var init := response[..|response| - 1];
      LabelKeptIsSubsequence(init);
      var kept := LabelKept(init);
      var r := LabelKept(response);
      if r != kept {
        assert r == kept + [response[|response| - 1]];
        assert r[..|r| - 1] == kept;
      }
    }
  }

  /** Looking at one more entry never removes what was already kept. */
  lemma LabelStepExtends(kept: seq<ArticleData>, o: ArticleData)
    ensures |LabelStep(kept, o)| >= |kept| && LabelStep(kept, o)[..|kept|] == kept
  {
  }

  /** No exact match is lost, only a repeat of the name kept just before it:
      the name of every exact match of the response is among the kept names. */
  lemma {:induction false} LabelKeptCoversExactNames(response: seq<ArticleData>, i: nat)
    requires i < |response| && response[i].dist == 0.0
    ensures exists k :: 0 <= k < |LabelKept(response)| && LabelKept(response)[k].name == response[i].name
  {
    var init := response[..|response| - 1];
    var kept := LabelKept(init);
    var r := LabelKept(response);
    LabelStepExtends(kept, response[|response| - 1]);
    if i == |response| - 1 {
      if |r| > |kept| {
        assert r[|r| - 1] == response[i];
      } else {
        assert r[|kept| - 1].name == response[i].name;
      }
    } else {
      LabelKeptCoversExactNames(init, i);
      var k :| 0 <= k < |kept| && kept[k].name == response[i].name;
      assert r[k] == kept[k];
    }
  }

  /** A response without any exact match yields exactly its first entry. */
  lemma {:induction false} LabelKeptSingleFallback(response: seq<ArticleData>)
    requires response != []
    requires forall i :: 0 <= i < |response| ==> response[i].dist != 0.0
    ensures LabelKept(response) == [response[0]]
  {
    if |response| > 1 {
      LabelKeptSingleFallback(response[..|response| - 1]);
    }
  }

  /** The entries of a response that start a run of equal names: the first
      entry, and every later one whose name differs from the name of the
      entry just before it in the response. */
  function RunHeads(response: seq<ArticleData>): seq<ArticleData>
  {
    if response == [] then []
    else
      var n := |response|;
      RunHeads(response[..n - 1]) +
        (if n == 1 || response[n - 2].name != response[n - 1].name then [response[n - 1]] else [])
  }

  /** The entries of a response that can be kept at all: the first entry,
      whatever its distance, and every later exact match, in order. */
  function Contenders(response: seq<ArticleData>): seq<ArticleData>
  {
    if response == [] then []
    else
      var n := |response|;
      Contenders(response[..n - 1]) +
        (if n == 1 || response[n - 1].dist == 0.0 then [response[n - 1]] else [])
  }

  /** The duplicate suppression only compares neighbours among the
      contenders: a fuzzy entry after the first is always dropped, and an
      exact one is dropped exactly when its name repeats that of the
      contender just before it, so a name that comes back after a different
      one is kept again. The last kept name is the last contender's name. */
  lemma {:induction false} LabelKeptCollapsesRuns(response: seq<ArticleData>)
    ensures LabelKept(response) == RunHeads(Contenders(response))
    ensures response != [] ==>
      Contenders(response) != [] &&
      LabelKept(response)[|LabelKept(response)| - 1].name ==
        Contenders(response)[|Contenders(response)| - 1].name
  {
    var n := |response|;
    if n > 1 {
      var init := response[..n - 1];
      var last := response[n - 1];
      LabelKeptCollapsesRuns(init);
      var c := Contenders(init);
      if last.dist == 0.0 {
        assert Contenders(response) == c + [last];
        assert (c + [last])[..|c|] == c;
      } else {
        assert Contenders(response) == c;
      }
    }
  }

  /** An instance: with two different names alternating, nothing is dropped,
      and a trailing fuzzy entry is dropped. */
  lemma LabelKeptKeepsReturningName(x: ArticleData, y: ArticleData, x': ArticleData, f: ArticleData)
    requires x.dist == 0.0 && y.dist == 0.0 && x'.dist == 0.0 && f.dist != 0.0
    requires x.name == x'.name && x.name != y.name
    ensures LabelKept([x, y, x', f]) == [x, y, x']
  {
    LabelKeptCollapsesRuns([x, y, x', f]);
    assert [x, y, x', f][..3] == [x, y, x'];
    assert [x, y, x'][..2] == [x, y];
    assert [x, y][..1] == [x];
    assert [x][..0] == [];
    assert Contenders([x]) == [x];
    assert Contenders([x, y]) == [x, y];
    assert Contenders([x, y, x']) == [x, y, x'];
  }

  /** `queryLabelLookup`: decodes every element of the response and keeps
      the exact matches without adjacent repeats, or the first fuzzy match
      while nothing is kept yet. The kept objects are new. */
  method LabelLookup(response: seq<ArticleData>) returns (results: seq<Article>)
    ensures Values(results) == LabelKept(response)
    ensures forall a :: a in results ==> fresh(a)
  {
    results := [];
    var i := 0;
    while i < |response|
      invariant 0 <= i <= |response|
      invariant Values(results) == LabelKept(response[..i])
      invariant forall a :: a in results ==> fresh(a)
    {
      ghost var kept := Values(results);
      var o := new Article.Decoded(response[i]);
      assert Values(results) == kept;
      if o.dist == 0.0 {
        if results == [] || results[|results| - 1].name != o.name {
          ValuesAppend(results, [o]);
          results := results + [o];
        }
      } else if results == [] {
        ValuesAppend(results, [o]);
        results := results + [o];
      }
      assert Values(results) == LabelStep(kept, response[i]);
      assert response[..i + 1][..i] == response[..i] && response[..i + 1][i] == response[i];
      i := i + 1;
    }
    assert response[..i] == response;
  }

  /** The entries the probability lookup keeps: the first one, if any. */
  function ProbKept(response: seq<ArticleData>): seq<ArticleData>
  {
    if response == [] then [] else [response[0]]
  }

  /** `queryProbLookup`: decodes every element of the response and keeps
      only the first, which the service ranks most probable. */
  method ProbLookup(response: seq<ArticleData>) returns (results: seq<Article>)
    ensures response == [] ==> results == []
    ensures response != [] ==> |results| == 1 && results[0].Value() == response[0]
    ensures Values(results) == ProbKept(response)
  {
    results := [];
    var i := 0;
    while i < |response|
      invariant 0 <= i <= |response|
      invariant Values(results) == ProbKept(response[..i])
    {
      var o := new Article.Decoded(response[i]);
      if results == [] {
        results := results + [o];
      }
      i := i + 1;
    }
    assert response[..i] == response;
  }
}
