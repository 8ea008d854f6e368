/** The claim searcher: a worksheet split into a header row and data rows, and a
    threshold filter over the data rows by similarity of their first cell to a
    new complaint. */
module ClaimSearch {
  import opened Cells
  import opened Text

  /** A string-similarity ratio. The searcher uses the ratio of a sequence
      matcher; the model takes it as a parameter and assumes nothing about it. */
  type Scorer = (string, string) -> real

  /** A matching row as a mapping from header to cell value. */
  type Record = map<string, Cell>

  /** The error raised while building a record: the matching data row at
      `position` has fewer cells than there are headers (an index error). */
  datatype SearchError = RowTooShort(position: nat)

  datatype Result<T> = Ok(value: T) | Err(error: SearchError)

  /** The threshold `find_similar` uses when none is given. */
  const DefaultThreshold: real := 0.6

  /** The worksheet as the searcher holds it. */
  datatype Dataset = Dataset(headers: seq<string>, rows: seq<Row>)

  /** A header cell's label: the cell's string form, or "" for an empty cell. */
  function HeaderText(c: Cell): (h: string)
    ensures h == "" <==> c == Null || c == Str("")
    ensures c.Str? ==> h == c.text
  {
    if c.Null? then "" else ToStr(c)
  }

  /** Splits the rows read from a worksheet into labelled headers and data rows. */
  function Split(loaded: seq<Row>): (d: Dataset)
    ensures loaded == [] ==> d.headers == [] && d.rows == []
    ensures loaded != [] ==> [loaded[0]] + d.rows == loaded && |d.rows| == |loaded| - 1
    ensures loaded != [] ==> |d.headers| == |loaded[0]|
    ensures loaded != [] ==>
      forall i :: 0 <= i < |d.headers| ==> d.headers[i] == HeaderText(loaded[0][i])
  {
    if loaded == [] then Dataset([], [])
    else
      var first := loaded[0];
      Dataset(seq(|first|, i requires 0 <= i < |first| => HeaderText(first[i])), loaded[1..])
  }

  /** The text a data row is scored by: its first cell's string form, or ""
      when the row is empty or its first cell is empty. */
  function FirstCellText(row: Row): (t: string)
    ensures t == "" <==> row == [] || row[0] == Null || row[0] == Str("")
    ensures row != [] && row[0].Str? ==> t == row[0].text
    ensures row != [] && row[0] != Null ==> t == ToStr(row[0])
  {
    if row != [] && !row[0].Null? then ToStr(row[0]) else ""
  }

  /** The case-insensitive similarity of two strings. */
  function Similarity(score: Scorer, a: string, b: string): (r: real)
    ensures Lower(a) == a && Lower(b) == b ==> r == score(a, b)
  {
    score(Lower(a), Lower(b))
  }

  /** A row matches when its first cell's text is similar enough to the
      complaint; a row with no first cell, or an empty one, is scored by "". */
  predicate IsMatch(score: Scorer, complaint: string, threshold: real, row: Row): (m: bool)
    ensures row == [] || row[0] == Null ==> (m <==> Similarity(score, complaint, "") >= threshold)
  {
    Similarity(score, complaint, FirstCellText(row)) >= threshold
  }

  /** No header after position `i` repeats the header at `i`. */
  predicate LastWith(headers: seq<string>, i: int)
    requires 0 <= i < |headers|
  {
    forall j :: i < j < |headers| ==> headers[j] != headers[i]
  }

  /** The record of a row, built as the dictionary comprehension builds it:
      header by header in order, each entry overwriting any earlier one with
      the same header. */
  function RowRecord(headers: seq<string>, row: Row): (m: Record)
    requires |headers| <= |row|
    ensures |m| <= |headers|
  {
    if headers == [] then map[]
    else
      var n := |headers| - 1;
      RowRecord(headers[..n], row)[headers[n] := row[n]]
  }

  /** A record has exactly the headers as keys. */
  lemma {:induction false} RecordKeys(headers: seq<string>, row: Row)
    requires |headers| <= |row|
    ensures RowRecord(headers, row).Keys == set h | h in headers
  {
    if headers != [] {
      var n := |headers| - 1;
      var front := headers[..n];
      RecordKeys(front, row);
      assert headers == front + [headers[n]];
      assert (set h | h in headers) == (set h | h in front) + {headers[n]};
    }
  }

  /** Header `i` maps to cell `i` unless the same header appears again later,
      in which case the later cell wins. */
  lemma {:induction false} RecordValues(headers: seq<string>, row: Row, i: nat)
    requires |headers| <= |row|
    requires i < |headers| && LastWith(headers, i)
    ensures headers[i] in RowRecord(headers, row) && RowRecord(headers, row)[headers[i]] == row[i]
  {
    var n := |headers| - 1;
    if i < n {
      var front := headers[..n];
      assert front[i] == headers[i];
      assert headers[n] != headers[i];
      RecordValues(front, row, i);
    }
  }

  /** The test a data row must pass to be reported. */
  type RowTest = Row -> bool

  /** The row test of a query: the first cell's text is similar enough to the complaint. */
  function Matcher(score: Scorer, complaint: string, threshold: real): RowTest {
    row => IsMatch(score, complaint, threshold, row)
  }

  /** The positions of the data rows that pass `matches`, in increasing order. */
  function MatchPositions(matches: RowTest, rows: seq<Row>): (ps: seq<nat>)
    ensures |ps| <= |rows|
  {
    if rows == [] then []
    else
      var n := |rows| - 1;
      var prev := MatchPositions(matches, rows[..n]);
      if matches(rows[n]) then prev + [n] else prev
  }

  /** Each matching position names a data row that matches. */
  lemma {:induction false} MatchPositionsSound(matches: RowTest, rows: seq<Row>)
    ensures forall k :: 0 <= k < |MatchPositions(matches, rows)| ==>
      var j := MatchPositions(matches, rows)[k];
      j < |rows| && matches(rows[j])
  {
    if rows != [] {
      var n := |rows| - 1;
      var front := rows[..n];
      MatchPositionsSound(matches, front);
      var prev := MatchPositions(matches, front);
      forall k | 0 <= k < |prev| ensures prev[k] < n && rows[prev[k]] == front[prev[k]] {
      }
    }
  }

  /** The matching positions are strictly increasing: rows are reported in order. */
  lemma {:induction false} MatchPositionsIncreasing(matches: RowTest, rows: seq<Row>)
    ensures forall k, l :: 0 <= k < l < |MatchPositions(matches, rows)| ==>
      MatchPositions(matches, rows)[k] < MatchPositions(matches, rows)[l]
  {
    if rows != [] {
      var n := |rows| - 1;
      var front := rows[..n];
      var prev := MatchPositions(matches, front);
      var ps := MatchPositions(matches, rows);
      MatchPositionsIncreasing(matches, front);
      MatchPositionsSound(matches, front);
      forall k, l | 0 <= k < l < |ps| ensures ps[k] < ps[l] {
        assert ps[k] == prev[k];
        if l < |prev| {
          assert ps[l] == prev[l];
        } else {
          assert prev[k] < n;
        }
      }
    }
  }

  /** Every data row that matches is named among the matching positions. */
  lemma {:induction false} MatchPositionsComplete(matches: RowTest, rows: seq<Row>)
    ensures forall j :: 0 <= j < |rows| && matches(rows[j]) ==>
      j in MatchPositions(matches, rows)
  {
    if rows != [] {
      var n := |rows| - 1;
      var front := rows[..n];
      MatchPositionsComplete(matches, front);
      forall j | 0 <= j < n ensures front[j] == rows[j] {
      }
    }
  }

  /** Once the scan has failed on a prefix of the rows, the rows after it do
      not change the outcome: the error is raised and the scan stops. */
  lemma {:induction false} SearchErrorStops(headers: seq<string>, rows: seq<Row>, matches: RowTest, k: nat)
    requires k <= |rows|
    requires Search(headers, rows[..k], matches).Err?
    ensures Search(headers, rows, matches)
            == Search(headers, rows[..k], matches)
    decreases |rows| - k
  {
    if k < |rows| {
      var n := |rows| - 1;
      var front := rows[..n];
      assert front[..k] == rows[..k];
      SearchErrorStops(headers, front, matches, k);
      assert Search(headers, front, matches).Err?;
    } else {
      assert rows[..k] == rows;
    }
  }

  /** What `find_similar` yields: the records of the matching rows in row order,
      or the error raised at the first matching row that is too short. */
  function Search(headers: seq<string>, rows: seq<Row>, matches: RowTest)
    : (r: Result<seq<Record>>)
    ensures r.Ok? ==> |r.value| <= |rows|
    ensures r.Err? ==> r.error.position < |rows| && |rows[r.error.position]| < |headers|
  {
    if rows == [] then Ok([])
    else
      var n := |rows| - 1;
      var prev := Search(headers, rows[..n], matches);
      var row := rows[n];
      if prev.Err? || !matches(row) then prev
      else if |row| < |headers| then Err(RowTooShort(n))
      else Ok(prev.value + [RowRecord(headers, row)])
  }

  /** Holds the worksheet read at construction; nothing changes it afterwards. */
  class ClaimSearcher {
    const headers: seq<string>
    const rows: seq<Row>
    const score: Scorer

    /** Builds the searcher from the rows already read from the worksheet. */
    constructor (loaded: seq<Row>, score: Scorer)
      ensures Dataset(headers, rows) == Split(loaded)
      ensures this.score == score
    {
      var d := Split(loaded);
      headers := d.headers;
      rows := d.rows;
      this.score := score;
    }

    /** Collects the records of the rows whose first cell is similar enough to
        `complaint`, scanning the rows in order. */
    method FindSimilar(complaint: string, threshold: real := DefaultThreshold)
      returns (r: Result<seq<Record>>)
      ensures r == Search(headers, rows, Matcher(score, complaint, threshold))
    {
      var matches: seq<Record> := [];
      ghost var test := Matcher(score, complaint, threshold);
      for i := 0 to |rows|
        invariant Search(headers, rows[..i], test) == Ok(matches)
      {
        var row := rows[i];
        assert rows[..i + 1][..i] == rows[..i];
        var firstCell := if row != [] && !row[0].Null? then ToStr(row[0]) else "";
        assert firstCell == FirstCellText(row);
        if Similarity(score, complaint, firstCell) >= threshold {
          assert test(row);
          if |row| < |headers| {
            SearchErrorStops(headers, rows, test, i + 1);
            return Err(RowTooShort(i));
          }
          matches := matches + [RowRecord(headers, row)];
        } else {
          assert !test(row);
        }
      }
      assert rows[..|rows|] == rows;
      r := Ok(matches);
    }
  }
}
