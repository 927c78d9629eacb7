/** Merging wildcard queries into one string with lengths, and splitting them with a cursor. */
module WildcardQuery {
  import opened Base

  datatype Query = Query(text: Bytes, caseSensitive: bool)

  datatype MergedQuery = MergedQuery(text: Bytes, lengths: seq<nat>, caseSensitivity: seq<bool>)

  function Concat(queries: seq<Query>): Bytes {
    if queries == [] then [] else Concat(queries[..|queries| - 1]) + queries[|queries| - 1].text
  }

  function Sum(lengths: seq<nat>): nat {
    if lengths == [] then 0 else Sum(lengths[..|lengths| - 1]) + lengths[|lengths| - 1]
  }

  /** What every merged query satisfies; the fields cannot be set from outside the package. */
  predicate Consistent(merged: MergedQuery) {
    && |merged.caseSensitivity| == |merged.lengths|
    && Sum(merged.lengths) == |merged.text|
  }

  /** The union of `queries`: their texts one after the other, with lengths and case flags. */
  function Merge(queries: seq<Query>): MergedQuery {
    if queries == [] then MergedQuery([], [], [])
    else
      var front, last := Merge(queries[..|queries| - 1]), queries[|queries| - 1];
      MergedQuery(front.text + last.text, front.lengths + [|last.text|],
                  front.caseSensitivity + [last.caseSensitive])
  }

  predicate AreLengths(lengths: seq<nat>, queries: seq<Query>) {
    |lengths| == |queries| && forall i | 0 <= i < |queries| :: lengths[i] == |queries[i].text|
  }

  /** `merged` stands for exactly these queries, in this order. */
  predicate Represents(merged: MergedQuery, queries: seq<Query>) {
    && merged.text == Concat(queries)
    && AreLengths(merged.lengths, queries)
    && |merged.caseSensitivity| == |queries|
    && forall i | 0 <= i < |queries| :: merged.caseSensitivity[i] == queries[i].caseSensitive
  }

  /** The query at index `i`: the stored number of bytes, found after the lengths before it. */
  function Piece(merged: MergedQuery, i: nat): Query
    requires Consistent(merged) && i < |merged.lengths|
  {
    SumMonotone(merged.lengths, i + 1);
    assert merged.lengths[..i + 1][..i] == merged.lengths[..i];
    Query(merged.text[Sum(merged.lengths[..i])..Sum(merged.lengths[..i + 1])], merged.caseSensitivity[i])
  }

  function Pieces(merged: MergedQuery): seq<Query>
    requires Consistent(merged)
  {
    seq(|merged.lengths|, i requires 0 <= i < |merged.lengths| => Piece(merged, i))
  }

  lemma {:induction false} SumMonotone(lengths: seq<nat>, n: nat)
    requires n <= |lengths|
    ensures Sum(lengths[..n]) <= Sum(lengths)
    decreases |lengths|
  {
    if n == |lengths| {
      assert lengths[..n] == lengths;
    } else {
      SumMonotone(lengths[..|lengths| - 1], n);
      assert lengths[..|lengths| - 1][..n] == lengths[..n];
    }
  }

  /** The cursor after `n` queries is where the `n`th query's text begins. */
  lemma {:induction false} CursorIsConcatLength(lengths: seq<nat>, queries: seq<Query>, n: nat)
    requires AreLengths(lengths, queries) && n <= |queries|
    ensures Sum(lengths[..n]) == |Concat(queries[..n])|
  {
    if n > 0 {
      CursorIsConcatLength(lengths, queries, n - 1);
      assert lengths[..n][..n - 1] == lengths[..n - 1];
      assert queries[..n][..n - 1] == queries[..n - 1];
    }
  }

  lemma {:induction false} ConcatPrefix(queries: seq<Query>, n: nat)
    requires n <= |queries|
    ensures |Concat(queries[..n])| <= |Concat(queries)|
    ensures Concat(queries)[..|Concat(queries[..n])|] == Concat(queries[..n])
    decreases |queries|
  {
    if n == |queries| {
      assert queries[..n] == queries;
    } else {
      ConcatPrefix(queries[..|queries| - 1], n);
      assert queries[..|queries| - 1][..n] == queries[..n];
    }
  }

  lemma RepresentedPieces(merged: MergedQuery, queries: seq<Query>)
    requires Represents(merged, queries)
    ensures Consistent(merged) && Pieces(merged) == queries
  {
    CursorIsConcatLength(merged.lengths, queries, |queries|);
    assert merged.lengths[..|queries|] == merged.lengths && queries[..|queries|] == queries;
    forall i | 0 <= i < |queries|
      ensures Piece(merged, i) == queries[i]
    {
      CursorIsConcatLength(merged.lengths, queries, i);
      CursorIsConcatLength(merged.lengths, queries, i + 1);
      ConcatPrefix(queries, i + 1);
      assert queries[..i + 1][..i] == queries[..i];
      assert Concat(queries[..i + 1]) == Concat(queries[..i]) + queries[i].text;
    }
  }

  lemma {:induction false} MergeRepresents(queries: seq<Query>)
    ensures Represents(Merge(queries), queries)
  {
    if queries != [] {
      MergeRepresents(queries[..|queries| - 1]);
    }
  }

  /** Splitting what was merged gives back the queries and their case flags in order. */
  lemma SplitUndoesMerge(queries: seq<Query>)
    ensures Consistent(Merge(queries)) && Pieces(Merge(queries)) == queries
  {
    MergeRepresents(queries);
    RepresentedPieces(Merge(queries), queries);
  }

  /** All but the last query's share of a merged query. */
  function Front(merged: MergedQuery): (front: MergedQuery)
    requires Consistent(merged) && merged.lengths != []
    ensures Consistent(front)
  {
    var n := |merged.lengths| - 1;
    MergedQuery(merged.text[..Sum(merged.lengths[..n])], merged.lengths[..n], merged.caseSensitivity[..n])
  }

  lemma FrontPiece(merged: MergedQuery, i: nat)
    requires Consistent(merged) && i + 1 < |merged.lengths|
    ensures Piece(Front(merged), i) == Piece(merged, i)
  {
    var front := Front(merged);
    SumMonotone(front.lengths, i + 1);
    assert front.lengths[..i + 1][..i] == front.lengths[..i];
    assert front.lengths[..i] == merged.lengths[..i] && front.lengths[..i + 1] == merged.lengths[..i + 1];
  }

  lemma LastPiece(merged: MergedQuery)
    requires Consistent(merged) && merged.lengths != []
    ensures var front, last := Front(merged), Piece(merged, |merged.lengths| - 1);
            && merged.text == front.text + last.text
            && merged.lengths == front.lengths + [|last.text|]
            && merged.caseSensitivity == front.caseSensitivity + [last.caseSensitive]
  {
    assert merged.lengths[..|merged.lengths|] == merged.lengths;
  }

  /** Merging undoes splitting: every consistent triple is the merge of its pieces. */
  lemma {:induction false} MergeUndoesSplit(merged: MergedQuery)
    requires Consistent(merged)
    ensures Merge(Pieces(merged)) == merged
    decreases |merged.lengths|
  {
    var n := |merged.lengths|;
    if n > 0 {
      forall i | 0 <= i < n - 1
        ensures Piece(Front(merged), i) == Piece(merged, i)
      {
        FrontPiece(merged, i);
      }
      assert Pieces(merged)[..n - 1] == Pieces(Front(merged));
      MergeUndoesSplit(Front(merged));
      LastPiece(merged);
    }
  }

  method MergeWildcardQueries(queries: seq<Query>) returns (merged: MergedQuery)
    ensures merged == Merge(queries)
  {
    var text: Bytes := [];
    var offsets := new nat[|queries|];
    var caseSensitivity := new bool[|queries|];
    for i := 0 to |queries|
      invariant MergedQuery(text, offsets[..i], caseSensitivity[..i]) == Merge(queries[..i])
    {
      text := text + queries[i].text;
      offsets[i] := |queries[i].text|;
      caseSensitivity[i] := queries[i].caseSensitive;
      assert queries[..i + 1][..i] == queries[..i];
    }
    assert queries[..|queries|] == queries;
    merged := MergedQuery(text, offsets[..], caseSensitivity[..]);
  }

  /** `std::string_view::substr`: the start must lie in the string, the count is cut at its end. */
  function Substr(s: Bytes, pos: nat, count: nat): Bytes
    requires pos <= |s|
  {
    if count <= |s| - pos then s[pos..pos + count] else s[pos..]
  }

  method SplitMergedQuery(merged: MergedQuery) returns (queries: seq<Query>)
    requires Consistent(merged)
    ensures queries == Pieces(merged)
  {
    var pieces := new Query[|merged.lengths|](_ => Query([], false));
    var pos := 0;
    for i := 0 to |merged.lengths|
      invariant pos == Sum(merged.lengths[..i]) <= |merged.text|
      invariant forall j | 0 <= j < i :: pieces[j] == Piece(merged, j)
    {
      SumMonotone(merged.lengths, i + 1);
      assert merged.lengths[..i + 1][..i] == merged.lengths[..i];
      pieces[i] := Query(Substr(merged.text, pos, merged.lengths[i]), merged.caseSensitivity[i]);
      pos := pos + merged.lengths[i];
    }
    queries := pieces[..];
  }
}
