/** What the claim searcher promises, proved about the model in ClaimSearch. */
module ClaimSearchProperties {
  import opened Cells
  import opened Text
  import opened Subsequence
  import opened ClaimSearch

  /** A header row whose every cell is the given label. */
  function LabelRow(labels: seq<string>): (row: Row)
    ensures |row| == |labels|
    ensures forall i :: 0 <= i < |row| ==> row[i] == Str(labels[i])
  {
    seq(|labels|, i requires 0 <= i < |labels| => Str(labels[i]))
  }

  /** Splitting a worksheet whose first row is all text gives back exactly those
      labels as headers and every other row, in order, as data. */
  lemma SplitRoundTrip(labels: seq<string>, rows: seq<Row>)
    ensures Split([LabelRow(labels)] + rows) == Dataset(labels, rows)
  {
    var d := Split([LabelRow(labels)] + rows);
    assert d.rows == rows;
    assert d.headers == labels by {
      forall i | 0 <= i < |labels| ensures d.headers[i] == labels[i] {
        assert HeaderText(Str(labels[i])) == labels[i];
      }
    }
  }

  /** A worksheet with no data rows (no rows at all, or a header row only) has
      nothing to find, whatever the complaint and threshold. */
  lemma NoDataRowsFindNothing(loaded: seq<Row>, score: Scorer, complaint: string, threshold: real)
    requires |loaded| <= 1
    ensures Split(loaded).rows == []
    ensures loaded == [] ==> Split(loaded).headers == []
    ensures Search(Split(loaded).headers, Split(loaded).rows, Matcher(score, complaint, threshold)) == Ok([])
  {
  }

  /** A searcher built from an empty worksheet returns no records. */
  method EmptySheetSearch(score: Scorer, complaint: string, threshold: real)
    returns (r: Result<seq<Record>>)
    ensures r == Ok([])
  {
    var searcher := new ClaimSearcher([], score);
    assert searcher.rows == [];
    r := searcher.FindSimilar(complaint, threshold);
  }

  /** The scan succeeds exactly when every matching row has at least as many
      cells as there are headers. */
  lemma {:induction false} SearchSucceedsIff(headers: seq<string>, rows: seq<Row>, matches: RowTest)
    ensures Search(headers, rows, matches).Ok? <==>
      forall j :: 0 <= j < |rows| && matches(rows[j]) ==> |headers| <= |rows[j]|
  {
    if rows != [] {
      var n := |rows| - 1;
      var front := rows[..n];
      SearchSucceedsIff(headers, front, matches);
      assert forall j :: 0 <= j < n ==> front[j] == rows[j];
    }
  }

  /** When the scan fails, the error names the first matching row that has
      fewer cells than there are headers. */
  lemma {:induction false} SearchErrorIsFirst(headers: seq<string>, rows: seq<Row>, matches: RowTest)
    requires Search(headers, rows, matches).Err?
    ensures var p := Search(headers, rows, matches).error.position;
      && p < |rows|
      && matches(rows[p])
      && |rows[p]| < |headers|
      && forall j :: 0 <= j < p && matches(rows[j]) ==> |headers| <= |rows[j]|
  {
    var n := |rows| - 1;
    var front := rows[..n];
    assert forall j :: 0 <= j < n ==> front[j] == rows[j];
    if Search(headers, front, matches).Err? {
      SearchErrorIsFirst(headers, front, matches);
    } else {
      SearchSucceedsIff(headers, front, matches);
    }
  }

  /** A successful scan returns one record per matching row, in row order: the
      k-th record is built from the k-th matching row. */
  lemma {:induction false} SearchReturnsMatches(headers: seq<string>, rows: seq<Row>, matches: RowTest)
    requires Search(headers, rows, matches).Ok?
    ensures forall k :: 0 <= k < |MatchPositions(matches, rows)| ==> MatchPositions(matches, rows)[k] < |rows|
    ensures var ps := MatchPositions(matches, rows);
            var records := Search(headers, rows, matches).value;
            && |records| == |ps|
            && forall k :: 0 <= k < |ps| ==>
                 |headers| <= |rows[ps[k]]| && records[k] == RowRecord(headers, rows[ps[k]])
  {
    if rows != [] {
      var n := |rows| - 1;
      var front := rows[..n];
      assert Search(headers, front, matches).Ok?;
      SearchReturnsMatches(headers, front, matches);
      var ps := MatchPositions(matches, front);
      assert forall k :: 0 <= k < |ps| ==> front[ps[k]] == rows[ps[k]];
    }
    MatchPositionsSound(matches, rows);
  }

  /** A stricter row test can only drop records: if the scan with the looser
      test succeeds, so does the scan with the stricter one, and its records
      are a subsequence of the looser one's. */
  lemma {:induction false} SearchStricterTest(headers: seq<string>, rows: seq<Row>, loose: RowTest, strict: RowTest)
    requires forall row :: strict(row) ==> loose(row)
    ensures Search(headers, rows, loose).Ok? ==>
      && Search(headers, rows, strict).Ok?
      && IsSubseq(Search(headers, rows, strict).value, Search(headers, rows, loose).value)
  {
    if rows != [] {
      var n := |rows| - 1;
      var front := rows[..n];
      var row := rows[n];
      SearchStricterTest(headers, front, loose, strict);
      var a := Search(headers, front, loose);
      var b := Search(headers, front, strict);
      if Search(headers, rows, loose).Ok? {
        assert a.Ok?;
        if strict(row) {
          SubseqAppendBoth(b.value, a.value, RowRecord(headers, row));
        } else if loose(row) {
          SubseqExtendRight(b.value, a.value, RowRecord(headers, row));
        }
      }
    }
  }

  /** The positions passing a stricter row test are a subsequence of those
      passing a looser one. */
  lemma {:induction false} PositionsStricterTest(rows: seq<Row>, loose: RowTest, strict: RowTest)
    requires forall row :: strict(row) ==> loose(row)
    ensures IsSubseq(MatchPositions(strict, rows), MatchPositions(loose, rows))
  {
    if rows != [] {
      var n := |rows| - 1;
      var front := rows[..n];
      PositionsStricterTest(front, loose, strict);
      var a := MatchPositions(loose, front);
      var b := MatchPositions(strict, front);
      if strict(rows[n]) {
        SubseqAppendBoth<nat>(b, a, n);
      } else if loose(rows[n]) {
        SubseqExtendRight<nat>(b, a, n);
      }
    }
  }

  /** Raising the threshold can only drop records. The rows matched at the
      higher threshold are a subsequence of those matched at the lower one; if
      the query at the lower threshold succeeds, so does the one at the higher
      threshold, and its records are a subsequence of the lower one's. */
  lemma ThresholdMonotone(headers: seq<string>, rows: seq<Row>, score: Scorer,
                          complaint: string, low: real, high: real)
    requires low <= high
    ensures IsSubseq(MatchPositions(Matcher(score, complaint, high), rows),
                     MatchPositions(Matcher(score, complaint, low), rows))
    ensures Search(headers, rows, Matcher(score, complaint, low)).Ok? ==>
      && Search(headers, rows, Matcher(score, complaint, high)).Ok?
      && IsSubseq(Search(headers, rows, Matcher(score, complaint, high)).value,
                  Search(headers, rows, Matcher(score, complaint, low)).value)
  {
    var loose, strict := Matcher(score, complaint, low), Matcher(score, complaint, high);
    assert forall row :: strict(row) ==> loose(row);
    PositionsStricterTest(rows, loose, strict);
    SearchStricterTest(headers, rows, loose, strict);
  }

  /** Two row tests that agree on every row give the same outcome. */
  lemma {:induction false} SearchSameTest(headers: seq<string>, rows: seq<Row>, m1: RowTest, m2: RowTest)
    requires forall row :: m1(row) == m2(row)
    ensures Search(headers, rows, m1) == Search(headers, rows, m2)
  {
    if rows != [] {
      SearchSameTest(headers, rows[..|rows| - 1], m1, m2);
    }
  }

  /** Complaints that differ only in the case of their ASCII letters give the
      same outcome. */
  lemma CaseInsensitive(headers: seq<string>, rows: seq<Row>, score: Scorer,
                        c1: string, c2: string, threshold: real)
    requires EqualIgnoringCase(c1, c2)
    ensures Search(headers, rows, Matcher(score, c1, threshold)) == Search(headers, rows, Matcher(score, c2, threshold))
  {
    LowerAgrees(c1, c2);
    var m1, m2 := Matcher(score, c1, threshold), Matcher(score, c2, threshold);
    assert forall row :: m1(row) == m2(row);
    SearchSameTest(headers, rows, m1, m2);
  }

  /** Lower-casing the complaint beforehand changes nothing. */
  lemma LowerComplaint(headers: seq<string>, rows: seq<Row>, score: Scorer, complaint: string, threshold: real)
    ensures Search(headers, rows, Matcher(score, Lower(complaint), threshold))
         == Search(headers, rows, Matcher(score, complaint, threshold))
  {
    LowerIdempotent(complaint);
    LowerAgrees(Lower(complaint), complaint);
    CaseInsensitive(headers, rows, score, Lower(complaint), complaint, threshold);
  }

  /** For a ratio that scores every string as identical to itself (1.0), a row
      whose first cell equals the complaint up to case matches at any threshold
      up to 1.0. */
  lemma ExactMatchFound(score: Scorer, complaint: string, threshold: real, rows: seq<Row>, j: nat)
    requires forall x :: score(x, x) == 1.0
    requires threshold <= 1.0
    requires j < |rows| && EqualIgnoringCase(complaint, FirstCellText(rows[j]))
    ensures j in MatchPositions(Matcher(score, complaint, threshold), rows)
  {
    LowerAgrees(complaint, FirstCellText(rows[j]));
    MatchPositionsComplete(Matcher(score, complaint, threshold), rows);
    assert IsMatch(score, complaint, threshold, rows[j]);
  }
}
