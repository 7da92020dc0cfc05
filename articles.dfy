/** The article record of the DBpedia title lookup (the inner class
    `DBpediaTitles.Article`): an object whose fields the lookup services
    fill in and whose match probability the merge step overwrites. */
module Articles {

  /** The contents of one Article object, field by field. A Java `null`
      string is represented by the empty string; the Java doubles `dist`,
      `score` and `prob` are reals. */
  datatype ArticleData = ArticleData(
    name: string,
    pageID: int,
    matchedLabel: string,
    canonLabel: string,
    dist: real,
    score: real,
    prob: real)

  class Article {
    var name: string
    var pageID: int
    var matchedLabel: string
    var canonLabel: string
    var dist: real   // edit distance of the match, 0 for an exact match
    var score: real  // prominence of the concept
    var prob: real   // probability of the article given the looked-up string

    /** The current field values of this object. */
    function Value(): ArticleData
      reads this
    {
      ArticleData(name, pageID, matchedLabel, canonLabel, dist, score, prob)
    }

    /** `Article(label, pageID)`: both labels are `lbl`; the name is left null. */
    constructor OfLabel(lbl: string, pageID: int)
      ensures Value() == ArticleData("", pageID, lbl, lbl, 0.0, 0.0, 0.0)
    {
      this.name := "";
      this.pageID := pageID;
      this.matchedLabel := lbl;
      this.canonLabel := lbl;
      this.dist := 0.0;
      this.score := 0.0;
      this.prob := 0.0;
    }

    /** `Article(label, pageID, name, dist)`. */
    constructor OfMatch(lbl: string, pageID: int, name: string, dist: real)
      ensures Value() == ArticleData(name, pageID, lbl, lbl, dist, 0.0, 0.0)
    {
      this.name := name;
      this.pageID := pageID;
      this.matchedLabel := lbl;
      this.canonLabel := lbl;
      this.dist := dist;
      this.score := 0.0;
      this.prob := 0.0;
    }

    /** `Article(label, pageID, name, dist, prob)`. */
    constructor OfMatchWithProb(lbl: string, pageID: int, name: string, dist: real, prob: real)
      ensures Value() == ArticleData(name, pageID, lbl, lbl, dist, 0.0, prob)
    {
      this.name := name;
      this.pageID := pageID;
      this.matchedLabel := lbl;
      this.canonLabel := lbl;
      this.dist := dist;
      this.score := 0.0;
      this.prob := prob;
    }

    /** `Article(baseA, label, pageID, name, score, prob)`: a resolved article.
        The matched label and the edit distance come from `baseA`; the
        canonical label is the given `lbl`, not `baseA`'s. */
    constructor Resolved(baseA: Article, lbl: string, pageID: int, name: string, score: real, prob: real)
      ensures Value() == ArticleData(name, pageID, baseA.matchedLabel, lbl, baseA.dist, score, prob)
    {
      this.name := name;
      this.pageID := pageID;
      this.matchedLabel := baseA.matchedLabel;
      this.canonLabel := lbl;
      this.dist := baseA.dist;
      this.score := score;
      this.prob := prob;
    }

    /** An object decoded from one element of a lookup service's JSON
        `results` array: every field is taken from the element. */
    constructor Decoded(d: ArticleData)
      ensures Value() == d
    {
      this.name := d.name;
      this.pageID := d.pageID;
      this.matchedLabel := d.matchedLabel;
      this.canonLabel := d.canonLabel;
      this.dist := d.dist;
      this.score := d.score;
      this.prob := d.prob;
    }
  }

  /** The current values of a list of Article objects, position by position. */
  function Values(s: seq<Article>): (r: seq<ArticleData>)
    reads s
    ensures |r| == |s|
    ensures forall k :: 0 <= k < |s| ==> r[k] == s[k].Value()
  {
    seq(|s|, k requires 0 <= k < |s| reads s => s[k].Value())
  }

  lemma ValuesAppend(a: seq<Article>, b: seq<Article>)
    ensures Values(a + b) == Values(a) + Values(b)
  {
  }
}
