/** `DBpediaTitles.query`: tries the title forms of a title in order, for
    each one looks the form up in both lookup services, merges the two
    answers, resolves every merged candidate in the knowledge graph and
    returns the first non-empty collection of resolved articles. */
module Titles {
  import opened Articles
  import opened Quoting
  import opened Lookups
  import opened Merging
  import opened Resolution

  /** The outside world the resolution talks to, as total functions: the
      decoded `results` array each lookup service returns for a title form,
      the rows the resolution query returns for an escaped article name, and
      the logarithm of an IRI's relation count. */
  datatype Services = Services(
    labelLookup: string -> seq<ArticleData>,
    probLookup: string -> seq<ArticleData>,
    rawQuery: string -> seq<Row>,
    logCount: string -> real)

  /** The merged candidate list for one title form. */
  function FormCandidates(titleForm: string, svc: Services): seq<ArticleData>
  {
    Merged(LabelKept(svc.labelLookup(titleForm)), ProbKept(svc.probLookup(titleForm)))
  }

  /** The resolved articles of one candidate. */
  function ResolveCandidate(c: ArticleData, svc: Services): Result<seq<ArticleData>>
  {
    ResolveRows(c, svc.rawQuery(EscapeQuotes(c.name)), svc.logCount)
  }

  /** The concatenated resolutions of a candidate list, in order; the first
      exception stops it. */
  function ResolveAll(cands: seq<ArticleData>, svc: Services): Result<seq<ArticleData>>
  {
    if cands == [] then Success([])
    else
      match ResolveAll(cands[..|cands| - 1], svc)
      case Failure(e) => Failure(e)
      case Success(done) =>
        match ResolveCandidate(cands[|cands| - 1], svc)
        case Failure(e) => Failure(e)
        case Success(more) => Success(done + more)
  }

  /** What one title form yields. */
  function FormResult(titleForm: string, svc: Services): Result<seq<ArticleData>>
  {
    ResolveAll(FormCandidates(titleForm, svc), svc)
  }

  /** The answer of `query`: the yield of the first title form that yields
      a non-empty list (or raises), the empty list when none does. */
  function QueryResult(titleForms: seq<string>, svc: Services): Result<seq<ArticleData>>
  {
    if titleForms == [] then Success([])
    else
      match FormResult(titleForms[0], svc)
      case Failure(e) => Failure(e)
      case Success(r) => if r != [] then Success(r) else QueryResult(titleForms[1..], svc)
  }

  /** Every resolved article inherits its matched label, edit distance and
      probability from one of the candidates it was resolved from. */
  lemma {:induction false} ResolveAllInherits(cands: seq<ArticleData>, svc: Services)
    requires ResolveAll(cands, svc).Success?
    ensures forall k :: 0 <= k < |ResolveAll(cands, svc).value| ==>
      exists c :: c in cands &&
        ResolveAll(cands, svc).value[k].matchedLabel == c.matchedLabel &&
        ResolveAll(cands, svc).value[k].dist == c.dist &&
        ResolveAll(cands, svc).value[k].prob == c.prob
  {
    if cands != [] {
      var init := cands[..|cands| - 1];
      var c := cands[|cands| - 1];
      ResolveAllInherits(init, svc);
      var done := ResolveAll(init, svc).value;
      var more := ResolveCandidate(c, svc).value;
      ResolveRowsCharacterized(c, svc.rawQuery(EscapeQuotes(c.name)), svc.logCount);
      var r := ResolveAll(cands, svc).value;
      assert r == done + more;
      forall k | 0 <= k < |r|
        ensures exists c' :: (c' in cands && r[k].matchedLabel == c'.matchedLabel &&
          r[k].dist == c'.dist && r[k].prob == c'.prob)
      {
        if k < |done| {
          var c' :| c' in init && done[k].matchedLabel == c'.matchedLabel &&
            done[k].dist == c'.dist && done[k].prob == c'.prob;
          assert c' in cands;
        } else {
          assert r[k] == more[k - |done|];
          assert c in cands;
        }
      }
    }
  }

  /** `query` answers with the yield of the first title form whose yield is
      non-empty, after every earlier form yielded nothing. */
  lemma {:induction false} QueryFirstNonEmpty(titleForms: seq<string>, svc: Services)
    requires QueryResult(titleForms, svc).Success? && QueryResult(titleForms, svc).value != []
    ensures exists j :: (0 <= j < |titleForms| &&
      FormResult(titleForms[j], svc) == QueryResult(titleForms, svc) &&
      forall i :: 0 <= i < j ==> FormResult(titleForms[i], svc) == Success([]))
  {
    var r := FormResult(titleForms[0], svc);
    if r.Success? && r.value == [] {
      QueryFirstNonEmpty(titleForms[1..], svc);
      var j :| 0 <= j < |titleForms[1..]| &&
        FormResult(titleForms[1..][j], svc) == QueryResult(titleForms[1..], svc) &&
        forall i :: 0 <= i < j ==> FormResult(titleForms[1..][i], svc) == Success([]);
      assert FormResult(titleForms[j + 1], svc) == QueryResult(titleForms, svc);
      forall i | 0 <= i < j + 1
        ensures FormResult(titleForms[i], svc) == Success([])
      {
        if i > 0 {
          assert titleForms[i] == titleForms[1..][i - 1];
        }
      }
    }
  }

  /** `query` answers the empty list exactly when every title form yields
      the empty list. */
  lemma {:induction false} QueryEmptyIff(titleForms: seq<string>, svc: Services)
    ensures QueryResult(titleForms, svc) == Success([]) <==>
      forall i :: 0 <= i < |titleForms| ==> FormResult(titleForms[i], svc) == Success([])
  {
    if titleForms != [] {
      QueryEmptyIff(titleForms[1..], svc);
      if FormResult(titleForms[0], svc) == Success([]) {
        forall i | 0 < i < |titleForms|
          ensures titleForms[i] == titleForms[1..][i - 1]
        {
        }
      }
    }
  }

  /** Once a title form has yielded something (or raised), the forms after
      it are never consulted: appending more forms changes nothing. */
  lemma {:induction false} QueryIgnoresLaterForms(titleForms: seq<string>, later: seq<string>, svc: Services)
    requires QueryResult(titleForms, svc) != Success([])
    ensures QueryResult(titleForms + later, svc) == QueryResult(titleForms, svc)
  {
    assert titleForms != [];
    assert (titleForms + later)[0] == titleForms[0];
    var r := FormResult(titleForms[0], svc);
    if r.Success? && r.value == [] {
      assert (titleForms + later)[1..] == titleForms[1..] + later;
      QueryIgnoresLaterForms(titleForms[1..], later, svc);
    }
  }

  /** The lookup-and-merge step for one title form, the unit `query`
      retries until neither lookup fails; its successful attempt. */
  method LookupAndMerge(titleForm: string, svc: Services) returns (result: seq<Article>)
    ensures Values(result) == FormCandidates(titleForm, svc)
  {
    var entities := LabelLookup(svc.labelLookup(titleForm));
    var probs := ProbLookup(svc.probLookup(titleForm));
    result := MergeResults(entities, probs);
  }

  /** Resolves every merged candidate with `queryArticle` and concatenates
      the results in order; an exception of `queryArticle` propagates. */
  method ResolveMerged(result: seq<Article>, svc: Services) returns (r: Result<seq<Article>>)
    ensures r.Success? <==> ResolveAll(Values(result), svc).Success?
    ensures r.Success? ==> Values(r.value) == ResolveAll(Values(result), svc).value
    ensures r.Failure? ==> r == Failure(ResolveAll(Values(result), svc).error)
  {
    ghost var cands := Values(result);
    var results: seq<Article> := [];
    var j := 0;
    while j < |result|
      invariant 0 <= j <= |result|
      invariant Values(result) == cands
      invariant ResolveAll(cands[..j], svc) == Success(Values(results))
    {
      var a := result[j];
      assert cands[..j + 1][..j] == cands[..j] && cands[..j + 1][j] == a.Value();
      var part := QueryArticle(a, svc.rawQuery, svc.logCount);
      if part.Failure? {
        ResolveAllFailureSticks(cands, j + 1, svc);
        return part;
      }
      ValuesAppend(results, part.value);
      results := results + part.value;
      j := j + 1;
    }
    assert cands[..j] == cands;
    r := Success(results);
  }

  /** `query` for the title forms of one title (the title-form generator
      itself is outside the model). */
  method Query(titleForms: seq<string>, svc: Services) returns (r: Result<seq<Article>>)
    ensures r.Success? <==> QueryResult(titleForms, svc).Success?
    ensures r.Success? ==> Values(r.value) == QueryResult(titleForms, svc).value
    ensures r.Failure? ==> r == Failure(QueryResult(titleForms, svc).error)
  {
    var f := 0;
    while f < |titleForms|
      invariant 0 <= f <= |titleForms|
      invariant QueryResult(titleForms, svc) == QueryResult(titleForms[f..], svc)
    {
      var titleForm := titleForms[f];
      assert titleForms[f..][0] == titleForm && titleForms[f..][1..] == titleForms[f + 1..];
      var result := LookupAndMerge(titleForm, svc);
      var results := ResolveMerged(result, svc);
      if results.Failure? || results.value != [] {
        return results;
      }
      f := f + 1;
    }
    r := Success([]);
  }

  /** Once the resolution of a prefix of the candidates has raised, the
      resolution of all of them raises the same exception. */
  lemma {:induction false} ResolveAllFailureSticks(cands: seq<ArticleData>, j: nat, svc: Services)
    requires j <= |cands| && ResolveAll(cands[..j], svc).Failure?
    ensures ResolveAll(cands, svc) == ResolveAll(cands[..j], svc)
    decreases |cands| - j
  {
    if j < |cands| {
      assert cands[..j + 1][..j] == cands[..j];
      ResolveAllFailureSticks(cands, j + 1, svc);
    } else {
      assert cands[..j] == cands;
    }
  }
}
