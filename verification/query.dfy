/**
 * Resolving search hits to passages.  The vector index is built from the
 * passage texts in order, so the search answers with row numbers; each row
 * number is turned back into the metadata record at that position.  The
 * embedding model and the nearest-neighbour search are not modelled: the row
 * numbers the search returns are an input here.
 */
module Query {
  import opened Corpus

  datatype Option<+T> = None | Some(value: T)

  datatype Result<+T, +E> = Ok(value: T) | Err(error: E)

  /** A search result at `position` carried the row number `row`, which names no passage. */
  datatype LookupError = IndexOutOfRange(position: nat, row: int)

  /** The row number the index puts in place of a hit it does not have. */
  const Padding := -1

  /** Row number `i` names one of `n` stored passages. */
  predicate IsRow(i: int, n: nat)
  {
    0 <= i < n
  }

  /** Every row number in `labels` is padding or names one of `n` stored passages. */
  predicate ValidRows(labels: seq<int>, n: nat)
  {
    forall x :: x in labels ==> x == Padding || IsRow(x, n)
  }

  // ----- the lookup as the application writes it -----

  /**
   * Python's list subscript `s[i]`: a negative `i` counts back from the end,
   * and anything outside `-|s| .. |s| - 1` raises IndexError (`None` here).
   */
  function PySubscript<T>(s: seq<T>, i: int): Option<T>
  {
    if 0 <= i < |s| then Some(s[i])
    else if -|s| <= i < 0 then Some(s[|s| + i])
    else None
  }

  /**
   * The loop over the search's row numbers as written, with Python's
   * subscript: `None` when some subscript raises IndexError.  A negative row
   * number, such as the padding the index puts in a result when it holds
   * fewer passages than were asked for, is not caught and selects a passage
   * counted from the end.
   */
  function ResolveAsWritten(labels: seq<int>, metadata: seq<Meta>): (r: Option<seq<Meta>>)
    ensures r.Some? <==> forall j :: 0 <= j < |labels| ==> -|metadata| <= labels[j] < |metadata|
    ensures r.Some? ==> |r.value| == |labels|
    ensures r.Some? ==> forall j :: 0 <= j < |labels| ==>
              r.value[j] == if labels[j] >= 0 then metadata[labels[j]] else metadata[|metadata| + labels[j]]
  {
    if labels == [] then Some([])
    else
      match PySubscript(metadata, labels[0])
      case None => None
      case Some(m) =>
        match ResolveAsWritten(labels[1..], metadata)
        case None => None
        case Some(rest) => Some([m] + rest)
  }

  /**
   * With a one-passage corpus the index pads a three-hit search with -1, and
   * the loop as written shows the only passage three times; the corrected
   * lookup shows it once.
   */
  lemma PaddingRepeatsLastPassage(only: Meta)
    ensures ResolveAsWritten([0, Padding, Padding], [only]) == Some([only, only, only])
    ensures Resolve([0, Padding, Padding], [only]) == Ok([only])
  {
    var labels := [0, Padding, Padding];
    assert labels[1..] == [Padding, Padding];
    assert labels[1..][1..] == [Padding];
    assert labels[1..][1..][1..] == [];
    assert RealRows([Padding]) == [];
    assert RealRows([Padding, Padding]) == [];
    assert RealRows(labels) == [0];
    var a := ResolveAsWritten(labels, [only]);
    assert a.Some? && |a.value| == 3;
    assert a.value == [only, only, only];
    var c := Resolve(labels, [only]);
    assert ValidRows(labels, 1);
    assert c.Ok? && |c.value| == 1 && c.value[0] == only;
    assert c.value == [only];
  }

  // ----- the corrected lookup -----

  /** The row numbers of `labels` that are not padding, in order. */
  function RealRows(labels: seq<int>): (r: seq<int>)
    ensures |r| <= |labels|
    ensures forall x :: x in r <==> x in labels && x != Padding
  {
    if labels == [] then []
    else (if labels[0] == Padding then [] else [labels[0]]) + RealRows(labels[1..])
  }

  /**
   * The index pads only the tail of a short answer: the real hits of such an
   * answer are exactly the ones before the padding.
   */
  lemma {:induction false} RealRowsOfPaddedAnswer(hits: seq<int>, pad: seq<int>)
    requires Padding !in hits
    requires forall x :: x in pad ==> x == Padding
    ensures RealRows(hits + pad) == hits
  {
    if hits == [] && pad != [] {
      assert hits + pad == pad && pad[0] in pad;
      assert forall x :: x in pad[1..] ==> x in pad;
      RealRowsOfPaddedAnswer(hits, pad[1..]);
      assert hits + pad[1..] == pad[1..];
    } else if hits != [] {
      assert (hits + pad)[0] == hits[0] && (hits + pad)[1..] == hits[1..] + pad;
      RealRowsOfPaddedAnswer(hits[1..], pad);
    }
  }

  /**
   * The metadata records for the row numbers a search returned, in the
   * search's order, leaving out the padding; a row number that is neither
   * padding nor a passage is reported, with its position, instead of being
   * resolved.
   */
  function Resolve(labels: seq<int>, metadata: seq<Meta>): (r: Result<seq<Meta>, LookupError>)
    ensures r.Ok? <==> ValidRows(labels, |metadata|)
    ensures r.Ok? ==> |r.value| == |RealRows(labels)|
    ensures r.Ok? ==> forall j :: 0 <= j < |r.value| ==>
              IsRow(RealRows(labels)[j], |metadata|) && r.value[j] == metadata[RealRows(labels)[j]]
    ensures r.Err? ==> && r.error.position < |labels|
                       && r.error.row == labels[r.error.position]
                       && r.error.row != Padding && !IsRow(r.error.row, |metadata|)
                       && ValidRows(labels[..r.error.position], |metadata|)
  {
    if labels == [] then Ok([])
    else if labels[0] != Padding && !IsRow(labels[0], |metadata|) then Err(IndexOutOfRange(0, labels[0]))
    else
      match Resolve(labels[1..], metadata)
      case Ok(rest) =>
        assert labels == [labels[0]] + labels[1..];
        Ok((if labels[0] == Padding then [] else [metadata[labels[0]]]) + rest)
      case Err(e) =>
        assert labels[..e.position + 1] == [labels[0]] + labels[1..][..e.position];
        Err(IndexOutOfRange(e.position + 1, e.row))
  }

  /**
   * A search over fewer passages than were asked for answers with its real
   * hits followed by padding; the lookup shows exactly those hits, in order.
   */
  lemma PaddedAnswerShowsItsHits(hits: seq<int>, pad: seq<int>, metadata: seq<Meta>)
    requires forall j :: 0 <= j < |hits| ==> 0 <= hits[j] < |metadata|
    requires forall x :: x in pad ==> x == Padding
    ensures Resolve(hits + pad, metadata).Ok?
    ensures |Resolve(hits + pad, metadata).value| == |hits|
    ensures forall j :: 0 <= j < |hits| ==> Resolve(hits + pad, metadata).value[j] == metadata[hits[j]]
  {
    assert Padding !in hits;
    RealRowsOfPaddedAnswer(hits, pad);
    assert ValidRows(hits + pad, |metadata|);
  }

  /** Where every row number names a passage, the loop as written and the corrected lookup agree. */
  lemma {:induction false} AsWrittenAgreesOnRows(labels: seq<int>, metadata: seq<Meta>)
    requires forall x :: x in labels ==> IsRow(x, |metadata|)
    ensures ResolveAsWritten(labels, metadata) == Some(Resolve(labels, metadata).value)
  {
    if labels != [] {
      assert labels[0] in labels;
      AsWrittenAgreesOnRows(labels[1..], metadata);
    }
  }

  /** Resolving one more row number extends a successful lookup by that row's record, if any. */
  lemma {:induction false} ResolveSnoc(s: seq<int>, x: int, metadata: seq<Meta>)
    requires Resolve(s, metadata).Ok?
    ensures Resolve(s + [x], metadata)
         == if x == Padding then Resolve(s, metadata)
            else if IsRow(x, |metadata|) then Ok(Resolve(s, metadata).value + [metadata[x]])
            else Err(IndexOutOfRange(|s|, x))
  {
    if s == [] {
      assert s + [x] == [x];
      assert [x][1..] == [];
      assert Resolve([], metadata) == Ok([]);
      if x != Padding && IsRow(x, |metadata|) {
        assert [x][1..] == [] && Resolve([x][1..], metadata) == Ok([]);
        assert [metadata[x]] + [] == [] + [metadata[x]];
      }
    } else {
      assert (s + [x])[0] == s[0] && (s + [x])[1..] == s[1..] + [x];
      var head: seq<Meta> := if s[0] == Padding then [] else [metadata[s[0]]];
      var rest := Resolve(s[1..], metadata);
      assert rest.Ok? && Resolve(s, metadata) == Ok(head + rest.value);
      ResolveSnoc(s[1..], x, metadata);
      if x != Padding && IsRow(x, |metadata|) {
        assert head + (rest.value + [metadata[x]]) == (head + rest.value) + [metadata[x]];
      }
    }
  }

  /** Once a lookup has failed, more row numbers after it do not change the error. */
  lemma {:induction false} ResolveErrorStays(s: seq<int>, t: seq<int>, metadata: seq<Meta>)
    requires Resolve(s, metadata).Err?
    ensures Resolve(s + t, metadata) == Resolve(s, metadata)
  {
    assert (s + t)[0] == s[0];
    if s[0] == Padding || IsRow(s[0], |metadata|) {
      assert (s + t)[1..] == s[1..] + t;
      ResolveErrorStays(s[1..], t, metadata);
    }
  }

  /**
   * The loop over the search's row numbers: looks each one up in `metadata`,
   * keeping the search's order, skips padding, and stops at the first row
   * number that names no passage.
   */
  method Lookup(labels: seq<int>, metadata: seq<Meta>) returns (r: Result<seq<Meta>, LookupError>)
    ensures r == Resolve(labels, metadata)
  {
    var shown: seq<Meta> := [];
    for j := 0 to |labels|
      invariant Resolve(labels[..j], metadata) == Ok(shown)
    {
      var idx := labels[j];
      assert labels[..j + 1] == labels[..j] + [idx];
      ResolveSnoc(labels[..j], idx, metadata);
      if idx == Padding {
        continue;
      }
      if !(0 <= idx < |metadata|) {
        assert labels == labels[..j + 1] + labels[j + 1..];
        ResolveErrorStays(labels[..j + 1], labels[j + 1..], metadata);
        return Err(IndexOutOfRange(j, idx));
      }
      shown := shown + [metadata[idx]];
    }
    assert labels[..|labels|] == labels;
    return Ok(shown);
  }

  /**
   * Answering a query: an empty query shows nothing; otherwise the row
   * numbers the search returned for it are resolved to passages.  `labels`
   * stands for that search result.
   */
  method Answer(query: string, labels: seq<int>, metadata: seq<Meta>) returns (r: Result<seq<Meta>, LookupError>)
    ensures query == [] ==> r == Ok([])
    ensures query != [] ==> r == Resolve(labels, metadata)
  {
    if query == [] {
      return Ok([]);
    }
    r := Lookup(labels, metadata);
  }

  /**
   * The positional invariant end to end: the index is built from the
   * flattened passage texts, one row per text, so a search answers with row
   * numbers below their count, or padding.  Resolving against the metadata
   * built beside those texts always succeeds; it shows one record per real
   * hit, in the search's order, and each carries the very text that was
   * embedded at its row and cites the law, article and paragraph that text
   * came from.
   */
  lemma HitsCiteTheirPassages(laws: seq<Law>, labels: seq<int>)
    requires forall j :: 0 <= j < |labels| ==> Padding <= labels[j] < |Flatten(laws).texts|
    ensures Resolve(labels, Flatten(laws).meta).Ok?
    ensures |Resolve(labels, Flatten(laws).meta).value| == |RealRows(labels)|
    ensures forall j :: 0 <= j < |RealRows(labels)| ==>
              var hit := Resolve(labels, Flatten(laws).meta).value[j];
              var row := RealRows(labels)[j];
              && 0 <= row < |Flatten(laws).texts|
              && hit.text == Flatten(laws).texts[row]
              && var (l, a, p) := Locate(laws, row);
                 hit == Entry(laws[l], laws[l].articles[a], laws[l].articles[a].paragraphs[p])
  {
    var c := Flatten(laws);
    assert ValidRows(labels, |c.meta|);
    var rows := RealRows(labels);
    forall j | 0 <= j < |rows|
      ensures 0 <= rows[j] < |c.texts|
      ensures var (l, a, p) := Locate(laws, rows[j]);
              c.meta[rows[j]] == Entry(laws[l], laws[l].articles[a], laws[l].articles[a].paragraphs[p])
    {
      assert rows[j] in rows;
      var (l, a, p) := Locate(laws, rows[j]);
      EveryParagraphLands(laws, l, a, p);
    }
  }
}
