/**
 * The corpus flattener as the application runs it: two lists that start
 * empty and grow by one entry per paragraph inside three nested loops over
 * laws, articles and paragraphs.
 */
module Flattener {
  import opened Corpus

  /**
   * Builds the passage texts and their metadata records.  The result is the
   * depth-first flattening `Flatten(laws)`, so every property proved about
   * `Flatten` holds of it; the alignment of the two lists, entry by entry, is
   * restated here because the search results are joined to `meta` by row.
   */
  method FlattenLaws(laws: seq<Law>) returns (passages: seq<string>, meta: seq<Meta>)
    ensures Passages(passages, meta) == Flatten(laws)
    ensures |passages| == |meta| == CorpusCount(laws)
    ensures forall i :: 0 <= i < |passages| ==> passages[i] == meta[i].text
  {
    passages, meta := [], [];
    for i := 0 to |laws|
      invariant Passages(passages, meta) == Flatten(laws[..i])
    {
      var law := laws[i];
      ghost var before := Passages(passages, meta);
      for j := 0 to |law.articles|
        invariant Passages(passages, meta) == before.Then(FlattenArticles(law, law.articles[..j]))
      {
        var art := law.articles[j];
        ghost var done := Passages(passages, meta);
        for k := 0 to |art.paragraphs|
          invariant Passages(passages, meta) == done.Then(FlattenParagraphs(law, art, art.paragraphs[..k]))
        {
          var para := art.paragraphs[k];
          var ref := law.title + ", Article " + art.article + ", Paragraph " + para.number;
          passages := passages + [para.text];
          meta := meta + [Meta(para.text, ref, law.url)];
          ParagraphStep(law, art, k);
          ThenAssociative(done, FlattenParagraphs(law, art, art.paragraphs[..k]),
                          Passages([para.text], [Entry(law, art, para)]));
        }
        assert art.paragraphs[..|art.paragraphs|] == art.paragraphs;
        ArticleStep(law, j);
        ThenAssociative(before, FlattenArticles(law, law.articles[..j]),
                        FlattenParagraphs(law, art, art.paragraphs));
      }
      assert law.articles[..|law.articles|] == law.articles;
      LawStep(laws, i);
    }
    assert laws[..|laws|] == laws;
  }
}
