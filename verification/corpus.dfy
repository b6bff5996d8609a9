/**
 * The law corpus and its flattening into a passage index.
 *
 * A corpus is an ordered sequence of laws; a law holds articles, an article
 * holds paragraphs.  Flattening walks this tree depth-first, in input order,
 * and emits one passage per paragraph into two lists that are joined only by
 * position: the passage texts (what gets embedded, row by row, into the
 * vector index) and the metadata records shown for a hit.  `Flatten` is the
 * specification of that walk; the lemmas below state what it promises.
 */
module Corpus {

  /** A paragraph: its identifier as the reference string prints it, and its text. */
  datatype Paragraph = Paragraph(number: string, text: string)

  /** An article: its identifier as the reference string prints it, and its paragraphs in order. */
  datatype Article = Article(article: string, paragraphs: seq<Paragraph>)

  /** A law: its title, the URL of its full text, and its articles in order. */
  datatype Law = Law(title: string, url: string, articles: seq<Article>)

  /** The record kept for one passage: its text, its citation and its law's URL. */
  datatype Meta = Meta(text: string, ref: string, url: string)

  /**
   * The two parallel lists a flattening produces: the passage texts and the
   * metadata records, meant to line up entry by entry.
   */
  datatype Passages = Passages(texts: seq<string>, meta: seq<Meta>) {

    /** Both lists have the same length and entry i of each is the same paragraph's text. */
    predicate Aligned() {
      && |texts| == |meta|
      && forall i :: 0 <= i < |texts| ==> texts[i] == meta[i].text
    }

    /** The lists of `this` followed by those of `other`. */
    function Then(other: Passages): (r: Passages)
      ensures Aligned() && other.Aligned() ==> r.Aligned()
    {
      Passages(texts + other.texts, meta + other.meta)
    }
  }

  const Empty := Passages([], [])

  /** The citation of a paragraph: "<title>, Article <article>, Paragraph <number>". */
  function Reference(title: string, article: string, number: string): string
  {
    title + ", Article " + article + ", Paragraph " + number
  }

  /** The metadata record for paragraph `para` of article `art` of law `law`. */
  function Entry(law: Law, art: Article, para: Paragraph): Meta
  {
    Meta(para.text, Reference(law.title, art.article, para.number), law.url)
  }

  // ----- specification of the depth-first walk -----

  function FlattenParagraphs(law: Law, art: Article, paras: seq<Paragraph>): (r: Passages)
    ensures r.Aligned() && |r.texts| == |paras|
  {
    if paras == [] then Empty
    else
      var p := paras[0];
      Passages([p.text], [Entry(law, art, p)]).Then(FlattenParagraphs(law, art, paras[1..]))
  }

  function FlattenArticles(law: Law, arts: seq<Article>): (r: Passages)
    ensures r.Aligned() && |r.texts| == ParagraphCount(arts)
  {
    if arts == [] then Empty
    else FlattenParagraphs(law, arts[0], arts[0].paragraphs).Then(FlattenArticles(law, arts[1..]))
  }

  /**
   * The passages of a whole corpus.  Its contract is the positional invariant
   * the lookup relies on: the two lists have equal length, agree on every
   * text, and hold exactly one entry per paragraph of the corpus.
   */
  function Flatten(laws: seq<Law>): (r: Passages)
    ensures r.Aligned() && |r.texts| == CorpusCount(laws)
  {
    if laws == [] then Empty
    else FlattenArticles(laws[0], laws[0].articles).Then(Flatten(laws[1..]))
  }

  /** The number of paragraphs in a sequence of articles. */
  function ParagraphCount(arts: seq<Article>): nat
  {
    if arts == [] then 0 else |arts[0].paragraphs| + ParagraphCount(arts[1..])
  }

  /** The number of paragraphs, over all articles, of a sequence of laws. */
  function CorpusCount(laws: seq<Law>): nat
  {
    if laws == [] then 0 else ParagraphCount(laws[0].articles) + CorpusCount(laws[1..])
  }

  // ----- decomposition over concatenation -----

  lemma ThenAssociative(a: Passages, b: Passages, c: Passages)
    ensures a.Then(b.Then(c)) == a.Then(b).Then(c)
  {
  }

  lemma {:induction false} FlattenParagraphsConcat(law: Law, art: Article, x: seq<Paragraph>, y: seq<Paragraph>)
    ensures FlattenParagraphs(law, art, x + y)
         == FlattenParagraphs(law, art, x).Then(FlattenParagraphs(law, art, y))
  {
    if x == [] {
      assert x + y == y;
    } else {
      assert (x + y)[0] == x[0] && (x + y)[1..] == x[1..] + y;
      FlattenParagraphsConcat(law, art, x[1..], y);
      ThenAssociative(Passages([x[0].text], [Entry(law, art, x[0])]),
                      FlattenParagraphs(law, art, x[1..]), FlattenParagraphs(law, art, y));
    }
  }

  lemma {:induction false} FlattenArticlesConcat(law: Law, x: seq<Article>, y: seq<Article>)
    ensures FlattenArticles(law, x + y) == FlattenArticles(law, x).Then(FlattenArticles(law, y))
  {
    if x == [] {
      assert x + y == y;
    } else {
      assert (x + y)[0] == x[0] && (x + y)[1..] == x[1..] + y;
      FlattenArticlesConcat(law, x[1..], y);
      ThenAssociative(FlattenParagraphs(law, x[0], x[0].paragraphs),
                      FlattenArticles(law, x[1..]), FlattenArticles(law, y));
    }
  }

  /** Flattening a concatenation of corpora yields the concatenation of their flattenings. */
  lemma {:induction false} FlattenConcat(x: seq<Law>, y: seq<Law>)
    ensures Flatten(x + y) == Flatten(x).Then(Flatten(y))
  {
    if x == [] {
      assert x + y == y;
    } else {
      assert (x + y)[0] == x[0] && (x + y)[1..] == x[1..] + y;
      FlattenConcat(x[1..], y);
      ThenAssociative(FlattenArticles(x[0], x[0].articles), Flatten(x[1..]), Flatten(y));
    }
  }

  /** One more paragraph extends the flattening of an article by one entry. */
  lemma ParagraphStep(law: Law, art: Article, k: nat)
    requires k < |art.paragraphs|
    ensures FlattenParagraphs(law, art, art.paragraphs[..k + 1])
         == FlattenParagraphs(law, art, art.paragraphs[..k]).Then(
              Passages([art.paragraphs[k].text], [Entry(law, art, art.paragraphs[k])]))
  {
    var para := art.paragraphs[k];
    assert art.paragraphs[..k + 1] == art.paragraphs[..k] + [para];
    FlattenParagraphsConcat(law, art, art.paragraphs[..k], [para]);
  }

  /** One more article extends the flattening of a law by that article's paragraphs. */
  lemma ArticleStep(law: Law, j: nat)
    requires j < |law.articles|
    ensures FlattenArticles(law, law.articles[..j + 1])
         == FlattenArticles(law, law.articles[..j]).Then(
              FlattenParagraphs(law, law.articles[j], law.articles[j].paragraphs))
  {
    var art := law.articles[j];
    assert law.articles[..j + 1] == law.articles[..j] + [art];
    FlattenArticlesConcat(law, law.articles[..j], [art]);
    assert [art][1..] == [];
  }

  /** One more law extends the flattening of a corpus by that law's passages. */
  lemma LawStep(laws: seq<Law>, i: nat)
    requires i < |laws|
    ensures Flatten(laws[..i + 1]) == Flatten(laws[..i]).Then(FlattenArticles(laws[i], laws[i].articles))
  {
    assert laws[..i + 1] == laws[..i] + [laws[i]];
    FlattenConcat(laws[..i], [laws[i]]);
    assert [laws[i]][1..] == [];
  }

  lemma {:induction false} ParagraphCountConcat(x: seq<Article>, y: seq<Article>)
    ensures ParagraphCount(x + y) == ParagraphCount(x) + ParagraphCount(y)
  {
    if x != [] {
      assert (x + y)[1..] == x[1..] + y;
      ParagraphCountConcat(x[1..], y);
    } else {
      assert x + y == y;
    }
  }

  lemma {:induction false} CorpusCountConcat(x: seq<Law>, y: seq<Law>)
    ensures CorpusCount(x + y) == CorpusCount(x) + CorpusCount(y)
  {
    if x != [] {
      assert (x + y)[1..] == x[1..] + y;
      CorpusCountConcat(x[1..], y);
    } else {
      assert x + y == y;
    }
  }

  // ----- edge cases -----

  /**
   * A law contributes nothing exactly when none of its articles has a
   * paragraph; in particular a law without articles, or whose articles are
   * all empty, adds no passage (and no error).
   */
  lemma {:induction false} LawContributesNothing(laws: seq<Law>, law: Law)
    ensures Flatten(laws + [law]) == Flatten(laws)
        <==> forall a :: 0 <= a < |law.articles| ==> law.articles[a].paragraphs == []
  {
    FlattenConcat(laws, [law]);
    assert [law][1..] == [];
    var ls := Flatten(laws);
    var f := FlattenArticles(law, law.articles);
    assert Flatten([law]) == f.Then(Empty);
    assert Flatten(laws + [law]) == Passages(ls.texts + f.texts, ls.meta + f.meta);
    assert |f.texts| == 0 ==> f.texts == [] && f.meta == [];
    assert f.texts == [] && f.meta == [] <==> Flatten(laws + [law]) == ls by {
      if Flatten(laws + [law]) == ls {
        assert |ls.texts + f.texts| == |ls.texts|;
      }
    }
    AllEmptyIffNoParagraphs(law.articles);
  }

  lemma {:induction false} AllEmptyIffNoParagraphs(arts: seq<Article>)
    ensures ParagraphCount(arts) == 0 <==> forall a :: 0 <= a < |arts| ==> arts[a].paragraphs == []
  {
    if arts != [] {
      AllEmptyIffNoParagraphs(arts[1..]);
      assert forall a :: 1 <= a < |arts| ==> arts[a] == arts[1..][a - 1];
    }
  }

  // ----- where each paragraph lands -----

  /** Paragraph `p` of article `a` of law `l` exists in `laws`. */
  predicate ValidPosition(laws: seq<Law>, l: int, a: int, p: int)
  {
    && 0 <= l < |laws|
    && 0 <= a < |laws[l].articles|
    && 0 <= p < |laws[l].articles[a].paragraphs|
  }

  /**
   * The row a depth-first walk gives paragraph `p` of article `a` of law `l`:
   * every paragraph of the earlier laws, then of the earlier articles of law
   * `l`, then the earlier paragraphs of article `a`.
   */
  function Row(laws: seq<Law>, l: nat, a: nat, p: nat): nat
    requires l < |laws| && a <= |laws[l].articles|
  {
    CorpusCount(laws[..l]) + ParagraphCount(laws[l].articles[..a]) + p
  }

  lemma {:induction false} ParagraphLands(law: Law, art: Article, paras: seq<Paragraph>, p: nat)
    requires p < |paras|
    ensures FlattenParagraphs(law, art, paras).meta[p] == Entry(law, art, paras[p])
  {
    if p > 0 {
      ParagraphLands(law, art, paras[1..], p - 1);
    }
  }

  lemma {:induction false} ArticleParagraphLands(law: Law, arts: seq<Article>, a: nat, p: nat)
    requires a < |arts| && p < |arts[a].paragraphs|
    ensures ParagraphCount(arts[..a]) + p < |FlattenArticles(law, arts).meta|
    ensures FlattenArticles(law, arts).meta[ParagraphCount(arts[..a]) + p]
         == Entry(law, arts[a], arts[a].paragraphs[p])
  {
    if a == 0 {
      assert arts[..0] == [];
      ParagraphLands(law, arts[0], arts[0].paragraphs, p);
    } else {
      ArticleParagraphLands(law, arts[1..], a - 1, p);
      assert arts[..a][1..] == arts[1..][..a - 1];
    }
  }

  /**
   * Every paragraph of the corpus appears at its depth-first row, with its
   * own text, the citation built from its law, article and paragraph, and its
   * law's URL.
   */
  lemma {:induction false} EveryParagraphLands(laws: seq<Law>, l: nat, a: nat, p: nat)
    requires ValidPosition(laws, l, a, p)
    ensures Row(laws, l, a, p) < |Flatten(laws).meta|
    ensures Flatten(laws).texts[Row(laws, l, a, p)] == laws[l].articles[a].paragraphs[p].text
    ensures Flatten(laws).meta[Row(laws, l, a, p)]
         == Meta(laws[l].articles[a].paragraphs[p].text,
                 Reference(laws[l].title, laws[l].articles[a].article, laws[l].articles[a].paragraphs[p].number),
                 laws[l].url)
  {
    if l == 0 {
      assert laws[..0] == [];
      ArticleParagraphLands(laws[0], laws[0].articles, a, p);
    } else {
      EveryParagraphLands(laws[1..], l - 1, a, p);
      assert laws[..l][1..] == laws[1..][..l - 1];
    }
  }

  /**
   * The article and paragraph of `arts` that row `i` of its flattening comes from.
   */
  function LocateInArticles(arts: seq<Article>, i: nat): (r: (nat, nat))
    requires i < ParagraphCount(arts)
    ensures r.0 < |arts| && r.1 < |arts[r.0].paragraphs|
    ensures ParagraphCount(arts[..r.0]) + r.1 == i
  {
    if i < |arts[0].paragraphs| then
      assert arts[..0] == [];
      (0, i)
    else
      var r' := LocateInArticles(arts[1..], i - |arts[0].paragraphs|);
      assert arts[..r'.0 + 1][1..] == arts[1..][..r'.0];
      (r'.0 + 1, r'.1)
  }

  /**
   * The law, article and paragraph that row `i` of the flattening comes
   * from: the inverse of `Row`.
   */
  function Locate(laws: seq<Law>, i: nat): (r: (nat, nat, nat))
    requires i < CorpusCount(laws)
    ensures ValidPosition(laws, r.0, r.1, r.2)
    ensures Row(laws, r.0, r.1, r.2) == i
  {
    if i < ParagraphCount(laws[0].articles) then
      var (a, p) := LocateInArticles(laws[0].articles, i);
      assert laws[..0] == [];
      (0, a, p)
    else
      var r' := Locate(laws[1..], i - ParagraphCount(laws[0].articles));
      assert laws[..r'.0 + 1][1..] == laws[1..][..r'.0];
      (r'.0 + 1, r'.1, r'.2)
  }

  /**
   * Every row of the flattening is some paragraph of the corpus: nothing is
   * invented, and each record cites the law, article and paragraph it came
   * from and carries that law's URL.
   */
  lemma EveryRowHasOrigin(laws: seq<Law>, i: nat)
    requires i < |Flatten(laws).meta|
    ensures exists l, a, p :: ValidPosition(laws, l, a, p) && Row(laws, l, a, p) == i
              && Flatten(laws).meta[i] == Entry(laws[l], laws[l].articles[a], laws[l].articles[a].paragraphs[p])
  {
    var (l, a, p) := Locate(laws, i);
    EveryParagraphLands(laws, l, a, p);
  }

  /**
   * Depth-first order: a paragraph that comes earlier in law, article,
   * paragraph order lands on an earlier row.  Together with
   * `EveryParagraphLands` and `EveryRowHasOrigin` this says the flattening
   * neither reorders, drops nor repeats paragraphs.
   */
  lemma {:induction false} RowsFollowDocumentOrder(laws: seq<Law>, l: nat, a: nat, p: nat, l': nat, a': nat, p': nat)
    requires ValidPosition(laws, l, a, p) && ValidPosition(laws, l', a', p')
    requires l < l' || (l == l' && a < a') || (l == l' && a == a' && p < p')
    ensures Row(laws, l, a, p) < Row(laws, l', a', p')
  {
    var arts := laws[l].articles;
    // the paragraphs of article `a` end at the row after the ones before it
    assert arts[..a + 1] == arts[..a] + [arts[a]];
    ParagraphCountConcat(arts[..a], [arts[a]]);
    assert [arts[a]][1..] == [];
    if l < l' {
      assert arts == arts[..a + 1] + arts[a + 1..];
      ParagraphCountConcat(arts[..a + 1], arts[a + 1..]);
      assert laws[..l + 1] == laws[..l] + [laws[l]];
      CorpusCountConcat(laws[..l], [laws[l]]);
      assert [laws[l]][1..] == [];
      assert laws[..l'] == laws[..l + 1] + laws[l + 1..l'];
      CorpusCountConcat(laws[..l + 1], laws[l + 1..l']);
    } else if a < a' {
      assert arts[..a'] == arts[..a + 1] + arts[a + 1..a'];
      ParagraphCountConcat(arts[..a + 1], arts[a + 1..a']);
    }
  }
}
