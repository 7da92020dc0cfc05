/** `queryArticle`: the rows the knowledge graph returns for one candidate
    (page id, English label and resource IRI of every article the candidate
    names directly, redirects to or disambiguates to) become resolved
    articles. Building and running the query is outside the model: the rows
    are an input. */
module Resolution {
  import opened Sequences
  import opened Articles
  import opened Quoting

  /** The namespace every DBpedia resource IRI starts with. */
  const ResourcePrefix: string := "http://dbpedia.org/resource/"

  /** One answer row of the resolution query: `?pageID`, `?label`, `?res`. */
  datatype Row = Row(pageID: int, lbl: string, res: string)

  /** The unchecked exception `substring` raises on an IRI shorter than the prefix. */
  datatype Fault = StringIndexOutOfBounds(iri: string)

  datatype Result<T> = Success(value: T) | Failure(error: Fault)

  /** `pattern` occurs in `s` starting at index `i`. */
  predicate OccursAt(s: string, pattern: string, i: nat)
  {
    i + |pattern| <= |s| && s[i..i + |pattern|] == pattern
  }

  /** `s.contains(pattern)`. */
  predicate Contains(s: string, pattern: string)
  {
    exists i: nat :: i <= |s| && OccursAt(s, pattern, i)
  }

  /** A row whose IRI the graph store client cannot quote back correctly;
      it is dropped. */
  predicate Skipped(row: Row)
  {
    Contains(row.res, "/-")
  }

  /** The resolved article built from a candidate and one row: name, page
      id and canonical label from the row, matched label, edit distance and
      probability from the candidate, score from the row's IRI. */
  function ResolvedFrom(base: ArticleData, row: Row, logCount: string -> real): ArticleData
    requires |row.res| >= |ResourcePrefix|
  {
    ArticleData(row.res[|ResourcePrefix|..], row.pageID, base.matchedLabel, row.lbl,
                base.dist, logCount(row.res), base.prob)
  }

  /** What the row loop of `queryArticle` produces from its rows, in order:
      skipped rows contribute nothing, the first row whose IRI is too short
      raises, every other row contributes one resolved article. */
  function ResolveRows(base: ArticleData, rows: seq<Row>, logCount: string -> real): Result<seq<ArticleData>>
  {
    if rows == [] then Success([])
    else
      match ResolveRows(base, rows[..|rows| - 1], logCount)
      case Failure(e) => Failure(e)
      case Success(done) =>
        var row := rows[|rows| - 1];
        if Skipped(row) then Success(done)
        else if |row.res| < |ResourcePrefix| then Failure(StringIndexOutOfBounds(row.res))
        else Success(done + [ResolvedFrom(base, row, logCount)])
  }

  /** The rows that are not skipped, in their original order. */
  function KeptRows(rows: seq<Row>): (r: seq<Row>)
    ensures |r| <= |rows|
    ensures forall k :: 0 <= k < |r| ==> !Skipped(r[k])
  {
    if rows == [] then []
    else KeptRows(rows[..|rows| - 1]) + (if Skipped(rows[|rows| - 1]) then [] else [rows[|rows| - 1]])
  }

  /** The kept rows are taken from the rows in their original order. */
  lemma {:induction false} KeptRowsSubsequence(rows: seq<Row>)
    ensures IsSubsequence(KeptRows(rows), rows)
  {
    if rows != [] {
      var init := rows[..|rows| - 1];
      KeptRowsSubsequence(init);
      var r := KeptRows(rows);
      if Skipped(rows[|rows| - 1]) {
        assert r == KeptRows(init);
      } else {
        assert r[..|r| - 1] == KeptRows(init) && r[|r| - 1] == rows[|rows| - 1];
      }
    }
  }

  /** Every row that is not skipped is kept. */
  lemma {:induction false} KeptRowsComplete(rows: seq<Row>, i: nat)
    requires i < |rows| && !Skipped(rows[i])
    ensures rows[i] in KeptRows(rows)
  {
    var init := rows[..|rows| - 1];
    if i < |rows| - 1 {
      KeptRowsComplete(init, i);
      assert rows[i] == init[i];
    }
  }

  /** Once the row loop has raised on a prefix of the rows, it raises the
      same exception on all of them. */
  lemma {:induction false} ResolveRowsFailureSticks(base: ArticleData, rows: seq<Row>, i: nat, logCount: string -> real)
    requires i <= |rows| && ResolveRows(base, rows[..i], logCount).Failure?
    ensures ResolveRows(base, rows, logCount) == ResolveRows(base, rows[..i], logCount)
    decreases |rows| - i
  {
    if i < |rows| {
      assert rows[..i + 1][..i] == rows[..i];
      ResolveRowsFailureSticks(base, rows, i + 1, logCount);
    } else {
      assert rows[..i] == rows;
    }
  }

  /** The row loop raises exactly when some row that is not skipped has an
      IRI shorter than the resource prefix; otherwise its output is the kept
      rows, each turned into a resolved article, in order. */
  lemma {:induction false} ResolveRowsCharacterized(base: ArticleData, rows: seq<Row>, logCount: string -> real)
    ensures ResolveRows(base, rows, logCount).Failure? <==>
      exists i :: 0 <= i < |rows| && !Skipped(rows[i]) && |rows[i].res| < |ResourcePrefix|
    ensures ResolveRows(base, rows, logCount).Success? ==>
      var r := ResolveRows(base, rows, logCount).value;
      |r| == |KeptRows(rows)| &&
      forall k :: 0 <= k < |r| ==>
        |KeptRows(rows)[k].res| >= |ResourcePrefix| && r[k] == ResolvedFrom(base, KeptRows(rows)[k], logCount)
  {
    if rows != [] {
      var init := rows[..|rows| - 1];
      var last := rows[|rows| - 1];
      ResolveRowsCharacterized(base, init, logCount);
      assert forall i :: 0 <= i < |init| ==> init[i] == rows[i];
      if ResolveRows(base, init, logCount).Failure? {
        var i :| 0 <= i < |init| && !Skipped(init[i]) && |init[i].res| < |ResourcePrefix|;
        assert rows[i] == init[i];
      } else if !Skipped(last) && |last.res| < |ResourcePrefix| {
        assert rows[|rows| - 1] == last;
      } else {
        forall i | 0 <= i < |rows| && !Skipped(rows[i])
          ensures |rows[i].res| >= |ResourcePrefix|
        {
          if i < |init| {
            assert rows[i] == init[i];
          }
        }
      }
    }
  }

  /** A pattern that does not occur in a string does not occur in any suffix of it. */
  lemma SuffixAvoids(s: string, n: nat, pattern: string)
    requires n <= |s| && !Contains(s, pattern)
    ensures !Contains(s[n..], pattern)
  {
    if Contains(s[n..], pattern) {
        var i: nat :| i <= |s[n..]| && OccursAt(s[n..], pattern, i);
      assert s[n + i..n + i + |pattern|] == s[n..][i..i + |pattern|];
      assert OccursAt(s, pattern, n + i);
    }
  }

  /** Every resolved article's name is its row's IRI with its first
      |ResourcePrefix| characters dropped, and no name contains "/-". */
  lemma ResolvedNames(base: ArticleData, rows: seq<Row>, logCount: string -> real)
    requires ResolveRows(base, rows, logCount).Success?
    ensures var r := ResolveRows(base, rows, logCount).value;
      |r| == |KeptRows(rows)| &&
      forall k :: 0 <= k < |r| ==>
        !Contains(r[k].name, "/-") &&
        |KeptRows(rows)[k].res| >= |ResourcePrefix| &&
        r[k].name == KeptRows(rows)[k].res[|ResourcePrefix|..]
  {
    ResolveRowsCharacterized(base, rows, logCount);
    var r := ResolveRows(base, rows, logCount).value;
    forall k | 0 <= k < |r|
      ensures !Contains(r[k].name, "/-")
    {
      SuffixAvoids(KeptRows(rows)[k].res, |ResourcePrefix|, "/-");
    }
  }

  /** `queryArticle`: escapes the candidate's name for the resolution
      query, takes the rows `rawQuery` returns for it, drops rows whose IRI
      contains "/-", drops the first |ResourcePrefix| characters of the others and builds a
      resolved article for each with the copy constructor, passing on
      `baseA`'s probability. `logCount` stands for the natural logarithm of
      `queryCount` of an IRI. */
  method QueryArticle(baseA: Article, rawQuery: string -> seq<Row>, logCount: string -> real)
    returns (r: Result<seq<Article>>)
    ensures var expected := ResolveRows(baseA.Value(), rawQuery(EscapeQuotes(baseA.name)), logCount);
      (r.Success? <==> expected.Success?) &&
      (r.Success? ==> Values(r.value) == expected.value) &&
      (r.Failure? ==> r == Failure(expected.error))
    ensures r.Success? ==> forall a :: a in r.value ==> fresh(a)
  {
    var name := EscapeQuotes(baseA.name);
    var prob := baseA.prob;
    var rawResults := rawQuery(name);
    var results: seq<Article> := [];
    var i := 0;
    while i < |rawResults|
      invariant 0 <= i <= |rawResults|
      invariant ResolveRows(baseA.Value(), rawResults[..i], logCount) == Success(Values(results))
      invariant forall a :: a in results ==> fresh(a)
    {
      assert rawResults[..i + 1][..i] == rawResults[..i] && rawResults[..i + 1][i] == rawResults[i];
      var pageID := rawResults[i].pageID;
      var lbl := rawResults[i].lbl;
      var tgRes := rawResults[i].res;
      if Contains(tgRes, "/-") {
        assert ResolveRows(baseA.Value(), rawResults[..i + 1], logCount) == Success(Values(results));
        i := i + 1;
        continue;
      }
      if |tgRes| < |ResourcePrefix| {
        ResolveRowsFailureSticks(baseA.Value(), rawResults, i + 1, logCount);
        return Failure(StringIndexOutOfBounds(tgRes));
      }
      var tgName := tgRes[|ResourcePrefix|..];
      var score := logCount(tgRes);
      ghost var done := Values(results);
      var a := new Article.Resolved(baseA, lbl, pageID, tgName, score, prob);
      assert Values(results) == done;
      assert a.Value() == ResolvedFrom(baseA.Value(), rawResults[i], logCount);
      ValuesAppend(results, [a]);
      results := results + [a];
      assert Values(results) == done + [ResolvedFrom(baseA.Value(), rawResults[i], logCount)];
      i := i + 1;
    }
    assert rawResults[..i] == rawResults;
    r := Success(results);
  }
}
