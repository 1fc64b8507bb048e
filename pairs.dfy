/**
 * Loading the replacement table. The table file's bytes are decoded with the
 * detected encoding and tokenised as CSV, which gives a sequence of rows of fields.
 * Only rows of exactly two fields are kept; in each of their two fields every
 * doubled quote `""` is collapsed to a single `"`; row order is preserved.
 *
 * CSV tokenisation is not modelled: `parse(e)` stands for the rows the tokeniser
 * yields from the table decoded under encoding `e`.
 */
module PairLoader {
  import opened Wrappers
  import opened Literal
  import opened Encodings

  /** One parsed CSV row. */
  type Row = seq<string>

  /** A (find, replace) pair, applied to every selected file. */
  datatype Pair = Pair(find: string, replace: string)

  datatype LoadError = EncodingUndetected

  const DoubledQuote: string := "\"\""
  const Quote: string := "\""

  /** Collapses every leftmost, non-overlapping `""` of a field to `"`. */
  function CollapseQuotes(field: string): string
  {
    ReplaceAll(field, DoubledQuote, Quote)
  }

  /** The pair a two-field row yields. */
  function PairOf(row: Row): Pair
    requires |row| == 2
  {
    Pair(CollapseQuotes(row[0]), CollapseQuotes(row[1]))
  }

  /** The pairs of a table, in row order; rows of any length but two yield nothing. */
  function LoadPairs(rows: seq<Row>): seq<Pair>
    decreases |rows|
  {
    if rows == [] then []
    else
      var last := rows[|rows| - 1];
      LoadPairs(rows[..|rows| - 1]) + (if |last| == 2 then [PairOf(last)] else [])
  }

  /** The indices of the two-field rows, in increasing order. */
  function TwoFieldRows(rows: seq<Row>): seq<nat>
    decreases |rows|
  {
    if rows == [] then []
    else
      var n := |rows| - 1;
      TwoFieldRows(rows[..n]) + (if |rows[n]| == 2 then [n] else [])
  }

  /** The whole loader as a value: fails when no candidate encoding decodes the table,
      otherwise yields the pairs of the rows parsed under the detected encoding. */
  function LoadTable(bytes: Bytes, decodes: (Bytes, Encoding) -> bool, parse: Encoding -> seq<Row>)
    : Result<seq<Pair>, LoadError>
  {
    match Detect(bytes, decodes)
    case None => Failure(EncodingUndetected)
    case Some(e) => Success(LoadPairs(parse(e)))
  }

  /** Detects the table's encoding (failing when there is none), then walks the parsed
      rows and appends one pair per two-field row. */
  method ReadReplacePairs(bytes: Bytes, decodes: (Bytes, Encoding) -> bool, parse: Encoding -> seq<Row>)
    returns (r: Result<seq<Pair>, LoadError>)
    ensures r.Failure? <==> forall k :: 0 <= k < |Candidates| ==> !decodes(bytes, Candidates[k])
    ensures r.Success? ==> r.value == LoadPairs(parse(Detect(bytes, decodes).value))
    ensures r == LoadTable(bytes, decodes, parse)
  {
    var encoding := DetectEncoding(bytes, decodes);
    if encoding.None? {
      return Failure(EncodingUndetected);
    }
    var rows := parse(encoding.value);
    var pairs: seq<Pair> := [];
    for i := 0 to |rows|
      invariant pairs == LoadPairs(rows[..i])
    {
      var row := rows[i];
      if |row| == 2 {
        var before := CollapseQuotes(row[0]);
        var after := CollapseQuotes(row[1]);
        pairs := pairs + [Pair(before, after)];
      }
      assert rows[..i + 1][..i] == rows[..i];
    }
    assert rows[..|rows|] == rows;
    return Success(pairs);
  }

  /** Loading distributes over concatenation of tables: order is preserved. */
  lemma {:induction false} LoadPairsAppend(a: seq<Row>, b: seq<Row>)
    ensures LoadPairs(a + b) == LoadPairs(a) + LoadPairs(b)
    decreases |b|
  {
    if b == [] {
      assert a + b == a;
    } else {
      var n := |b| - 1;
      assert (a + b)[..|a + b| - 1] == a + b[..n];
      LoadPairsAppend(a, b[..n]);
    }
  }

  /** A row of any length but two contributes nothing, wherever it stands. */
  lemma OtherRowContributesNothing(a: seq<Row>, row: Row, b: seq<Row>)
    requires |row| != 2
    ensures LoadPairs(a + [row] + b) == LoadPairs(a + b)
  {
    LoadPairsAppend(a + [row], b);
    LoadPairsAppend(a, [row]);
    LoadPairsAppend(a, b);
    assert LoadPairs([row]) == LoadPairs([]) + [] by {
      assert [row][..0] == [];
    }
  }

  /** TwoFieldRows lists exactly the two-field rows, in strictly increasing order. */
  lemma {:induction false} TwoFieldRowsExact(rows: seq<Row>)
    ensures forall k :: 0 <= k < |TwoFieldRows(rows)| ==> TwoFieldRows(rows)[k] < |rows|
    ensures forall k, l :: 0 <= k < l < |TwoFieldRows(rows)| ==> TwoFieldRows(rows)[k] < TwoFieldRows(rows)[l]
    ensures forall i :: 0 <= i < |rows| ==> (|rows[i]| == 2 <==> i in TwoFieldRows(rows))
    decreases |rows|
  {
    if rows != [] {
      var n := |rows| - 1;
      TwoFieldRowsExact(rows[..n]);
      assert forall i :: 0 <= i < n ==> rows[..n][i] == rows[i];
    }
  }

  /** One pair per two-field row, in row order: the k-th loaded pair is the pair of the
      k-th two-field row. */
  lemma {:induction false} LoadPairsIndexed(rows: seq<Row>)
    ensures |LoadPairs(rows)| == |TwoFieldRows(rows)|
    ensures forall k :: 0 <= k < |LoadPairs(rows)| ==>
      TwoFieldRows(rows)[k] < |rows| && |rows[TwoFieldRows(rows)[k]]| == 2 &&
      LoadPairs(rows)[k] == PairOf(rows[TwoFieldRows(rows)[k]])
    decreases |rows|
  {
    if rows != [] {
      var n := |rows| - 1;
      LoadPairsIndexed(rows[..n]);
      TwoFieldRowsExact(rows[..n]);
      assert forall i :: 0 <= i < n ==> rows[..n][i] == rows[i];
    }
  }

  /** A field changes under the collapse exactly when it contains a doubled quote. */
  lemma CollapseChangesIff(field: string)
    ensures CollapseQuotes(field) == field <==> !Occurs(DoubledQuote, field)
  {
    ReplaceUnchangedIff(field, DoubledQuote, Quote);
  }

  /** The collapse undoes quote doubling: doubling every quote of a text and collapsing
      gives the text back. The CSV tokeniser has already undone the table's own `""`
      escape inside quoted fields, so this collapse is a second one, applied to the
      tokenised field. */
  lemma {:induction false} CollapseUndoesDoubling(t: string)
    ensures CollapseQuotes(ReplaceAll(t, Quote, DoubledQuote)) == t
    decreases |t|
  {
    if t != [] {
      var rest := t[1..];
      CollapseUndoesDoubling(rest);
      var d := ReplaceAll(rest, Quote, DoubledQuote);
      if t[0] == '"' {
        assert t[..1] == Quote;
        assert ReplaceAll(t, Quote, DoubledQuote) == DoubledQuote + d;
        assert (DoubledQuote + d)[..2] == DoubledQuote;
        assert (DoubledQuote + d)[2..] == d;
      } else {
        assert t[..1] != Quote;
        assert ReplaceAll(t, Quote, DoubledQuote) == [t[0]] + d;
        var s := [t[0]] + d;
        if |s| >= 2 {
          assert s[0] == t[0] && DoubledQuote[0] == '"';
          assert s[..2] != DoubledQuote;
          assert s[1..] == d;
        }
        assert [t[0]] + rest == t;
      }
    }
  }

  /** A doubled quote inside a field is read as one literal quote. */
  lemma CollapseExample()
    ensures CollapseQuotes("x\"\"y") == "x\"y"
    ensures CollapseQuotes("\"\"\"") == "\"\""
  {
    var f := "x\"\"y";
    assert f[..2] != DoubledQuote && f[1..] == "\"\"y";
    assert f[1..][..2] == DoubledQuote && f[1..][2..] == "y";
    var s := "\"\"\"";
    assert s[..2] == DoubledQuote && s[2..] == Quote;
  }
}
