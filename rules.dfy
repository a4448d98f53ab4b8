/**
 * The rule loader: one completeness rule per row of the rules file, taken
 * from the row's first field. Rows arrive already tokenised by the CSV
 * reader, each a sequence of field strings.
 */
module RuleLoader {
  import opened Text

  type Row = seq<string>

  /** `row and row[0].strip()`: the row has a first field that is not blank. */
  predicate Keeps(row: Row) {
    row != [] && !AllSpace(row[0])
  }

  /** The rules the loader returns for `rows`, one per kept row, in row order. */
  function Rules(rows: seq<Row>): (rules: seq<string>)
    ensures |rules| <= |rows|
    ensures forall k :: 0 <= k < |rules| ==> rules[k] != [] && IsTrimmed(rules[k])
  {
    if rows == [] then []
    else
      var last := rows[|rows| - 1];
      StripFramed(if last == [] then [] else last[0]);
      Rules(rows[..|rows| - 1]) + (if Keeps(last) then [Strip(last[0])] else [])
  }

  /** The loader's loop: appends the stripped first field of every kept row. */
  method ReadRules(rows: seq<Row>) returns (rules: seq<string>)
    ensures rules == Rules(rows)
    ensures forall k :: 0 <= k < |rules| ==> rules[k] != [] && IsTrimmed(rules[k])
  {
    rules := [];
    var i := 0;
    while i < |rows|
      invariant 0 <= i <= |rows|
      invariant rules == Rules(rows[..i])
    {
      var row := rows[i];
      assert rows[..i + 1][..i] == rows[..i];
      if row != [] {
        StripFramed(row[0]);
      }
      if row != [] && Strip(row[0]) != [] {
        rules := rules + [Strip(row[0])];
      }
      i := i + 1;
    }
    assert rows[..i] == rows;
  }

  /** Loading two runs of rows one after the other loads their rules one after the other. */
  lemma {:induction false} RulesAppend(a: seq<Row>, b: seq<Row>)
    ensures Rules(a + b) == Rules(a) + Rules(b)
    decreases |b|
  {
    if b == [] {
      assert a + b == a;
    } else {
      var n := |b| - 1;
      assert (a + b)[..|a + b| - 1] == a + b[..n];
      assert (a + b)[|a + b| - 1] == b[n];
      RulesAppend(a, b[..n]);
    }
  }

  /**
   * The indices of the rows that keep, in increasing order: every index names
   * a kept row, and every kept row is named.
   */
  ghost function KeptRows(rows: seq<Row>): (idx: seq<nat>)
    ensures forall k :: 0 <= k < |idx| ==> idx[k] < |rows| && Keeps(rows[idx[k]])
    ensures forall k, m :: 0 <= k < m < |idx| ==> idx[k] < idx[m]
    ensures forall i :: 0 <= i < |rows| && Keeps(rows[i]) ==> i in idx
  {
    if rows == [] then []
    else
      var n := |rows| - 1;
      var front := KeptRows(rows[..n]);
      assert forall i :: 0 <= i < n ==> rows[..n][i] == rows[i];
      front + (if Keeps(rows[n]) then [n] else [])
  }

  /**
   * What the loader returns, rule by rule: the k-th rule is the stripped first
   * field of the k-th kept row. With the contract of KeptRows this says the
   * rules follow row order, their count is the count of rows with a non-blank
   * first field, and no other row and no other column contributes.
   */
  lemma {:induction false} RulesFromKeptRows(rows: seq<Row>)
    ensures |Rules(rows)| == |KeptRows(rows)|
    ensures forall k :: 0 <= k < |Rules(rows)| ==> Rules(rows)[k] == Strip(rows[KeptRows(rows)[k]][0])
  {
    if rows != [] {
      var n := |rows| - 1;
      var front := rows[..n];
      RulesFromKeptRows(front);
      var r, f := Rules(rows), Rules(front);
      var idx, jdx := KeptRows(rows), KeptRows(front);
      forall k | 0 <= k < |r| ensures r[k] == Strip(rows[idx[k]][0]) {
        if k < |f| {
          assert r[k] == f[k] && idx[k] == jdx[k];
          assert front[jdx[k]] == rows[jdx[k]];
        }
      }
    }
  }
}
