/**
 * The tabular half of the report writer: every verdict object of the parsed
 * reply becomes one row of six cells in a fixed column order, with absent keys
 * defaulted and `missing_fields` joined by ", ", under a single header row.
 * Cells are the values handed to the CSV writer; turning them into text and
 * quoting them is the CSV writer's business.
 */
module ReportWriter {
  import opened Wrappers
  import opened Text

  /** A value as the JSON parser returns it; object members keep their textual order. */
  datatype Value =
    | Null
    | Bool(b: bool)
    | Num(n: int)
    | Str(s: string)
    | Arr(items: seq<Value>)
    | Obj(members: seq<(string, Value)>)

  /** One verdict object of the parsed reply: a partial map from key to value. */
  type Verdict = map<string, Value>

  /** The cells of one CSV row, in column order. */
  type Row = seq<Value>

  /** `", ".join(...)` raised a TypeError on this `missing_fields` value. */
  datatype RowError = NotJoinable(value: Value)

  const Columns: seq<string> :=
    ["ticket_id", "ticket_number", "type", "completeness", "missing_fields", "remarks"]

  /** The row `writeheader()` writes: the column names. */
  const Header: Row := Names(Columns)

  /** Names as string cells. */
  function Names(names: seq<string>): Row {
    seq(|names|, k requires 0 <= k < |names| => Str(names[k]))
  }

  const ListSeparator: string := ", "

  /** Python's `item.get(key, default)`. */
  function Get(item: Verdict, key: string, default: Value): Value {
    if key in item then item[key] else default
  }

  /**
   * The strings `", ".join` iterates over in `v`: the characters of a string,
   * the elements of an array whose elements are all strings, the keys of an
   * object. Anything else makes the join raise.
   */
  function JoinPieces(v: Value): Option<seq<string>> {
    match v
    case Str(s) => Some(seq(|s|, k requires 0 <= k < |s| => [s[k]]))
    case Arr(items) =>
      if forall k :: 0 <= k < |items| ==> items[k].Str? then
        Some(seq(|items|, k requires 0 <= k < |items| && items[k].Str? => items[k].s))
      else None
    case Obj(members) => Some(seq(|members|, k requires 0 <= k < |members| => members[k].0))
    case _ => None
  }

  /** `", ".join(item.get("missing_fields", []))` */
  function MissingFieldsCell(item: Verdict): Result<string, RowError> {
    if "missing_fields" !in item then Ok([])
    else
      match JoinPieces(item["missing_fields"])
      case None => Err(NotJoinable(item["missing_fields"]))
      case Some(pieces) => Ok(Join(ListSeparator, pieces))
  }

  /**
   * The row written for one verdict. Absent keys take their defaults; present
   * values are copied through, except `missing_fields`, which is joined; a
   * `missing_fields` value the join cannot iterate is the only failure.
   */
  function ProjectRow(item: Verdict): (r: Result<Row, RowError>)
    ensures r.Ok? <==> ("missing_fields" !in item || JoinPieces(item["missing_fields"]).Some?)
    ensures r.Err? ==> r.error == NotJoinable(item["missing_fields"])
    ensures r.Ok? ==> |r.value| == |Columns|
    ensures r.Ok? ==> forall c :: 0 <= c < |Columns| && c != 4 && Columns[c] in item ==>
      r.value[c] == item[Columns[c]]
    ensures r.Ok? && "ticket_id" !in item ==> r.value[0] == Str("unknown")
    ensures r.Ok? && "ticket_number" !in item ==> r.value[1] == Str("")
    ensures r.Ok? && "type" !in item ==> r.value[2] == Str("")
    ensures r.Ok? && "completeness" !in item ==> r.value[3] == Bool(false)
    ensures r.Ok? && "missing_fields" !in item ==> r.value[4] == Str("")
    ensures r.Ok? && "missing_fields" in item ==>
      r.value[4] == Str(Join(ListSeparator, JoinPieces(item["missing_fields"]).value))
    ensures r.Ok? && "remarks" !in item ==> r.value[5] == Str("")
  {
    match MissingFieldsCell(item)
    case Err(e) => Err(e)
    case Ok(missing) =>
      Ok([Get(item, "ticket_id", Str("unknown")),
          Get(item, "ticket_number", Str("")),
          Get(item, "type", Str("")),
          Get(item, "completeness", Bool(false)),
          Str(missing),
          Get(item, "remarks", Str(""))])
  }

  /** The data rows for `report`, in order, or the error of the first verdict that fails. */
  function Rows(report: seq<Verdict>): Result<seq<Row>, RowError> {
    if report == [] then Ok([])
    else
      match Rows(report[..|report| - 1])
      case Err(e) => Err(e)
      case Ok(rows) =>
        match ProjectRow(report[|report| - 1])
        case Err(e) => Err(e)
        case Ok(row) => Ok(rows + [row])
  }

  /** The whole table: the header, then the data rows. */
  function Table(report: seq<Verdict>): Result<seq<Row>, RowError> {
    match Rows(report)
    case Err(e) => Err(e)
    case Ok(rows) => Ok([Header] + rows)
  }

  /**
   * The writer's loop: the header first, then one row per verdict. When a
   * verdict's `missing_fields` cannot be joined the loop stops there; what was
   * written so far is the header and the rows of the verdicts before it.
   */
  method WriteCsv(report: seq<Verdict>) returns (written: seq<Row>, failure: Option<RowError>)
    ensures failure.None? <==> Table(report).Ok?
    ensures failure.None? ==> Table(report) == Ok(written)
    ensures failure.Some? ==> Table(report) == Err(failure.value)
    ensures failure.Some? ==>
      && 1 <= |written| <= |report|
      && written[0] == Header
      && Rows(report[..|written| - 1]) == Ok(written[1..])
      && ProjectRow(report[|written| - 1]) == Err(failure.value)
  {
    written := [Header];
    var i := 0;
    assert report[..0] == [] && written[1..] == [];
    while i < |report|
      invariant 0 <= i <= |report|
      invariant |written| == i + 1 && written[0] == Header
      invariant Rows(report[..i]) == Ok(written[1..])
    {
      assert report[..i + 1][..i] == report[..i];
      var row := ProjectRow(report[i]);
      if row.Err? {
        failure := Some(row.error);
        RowsStopAtFailure(report, i);
        return;
      }
      assert (written + [row.value])[1..] == written[1..] + [row.value];
      written := written + [row.value];
      i := i + 1;
    }
    failure := None;
    assert report[..i] == report;
    assert written == [Header] + written[1..];
  }

  /** A failing verdict fails the whole table with its own error, whatever follows it. */
  lemma {:induction false} RowsStopAtFailure(report: seq<Verdict>, i: nat)
    requires i < |report|
    requires Rows(report[..i]).Ok? && ProjectRow(report[i]).Err?
    ensures Rows(report) == Err(ProjectRow(report[i]).error)
    decreases |report|
  {
    var n := |report| - 1;
    if i < n {
      assert report[..n][..i] == report[..i];
      RowsStopAtFailure(report[..n], i);
    } else {
      assert report[..n] == report[..i];
    }
  }

  /**
   * A successful table has exactly one header row and then one row per
   * verdict, in input order, each the projection of its verdict.
   */
  lemma {:induction false} TableShape(report: seq<Verdict>)
    requires Table(report).Ok?
    ensures |Table(report).value| == |report| + 1
    ensures Table(report).value[0] == Header
    ensures forall i :: 0 <= i < |report| ==> ProjectRow(report[i]) == Ok(Table(report).value[i + 1])
  {
    RowsShape(report);
  }

  lemma {:induction false} RowsShape(report: seq<Verdict>)
    requires Rows(report).Ok?
    ensures |Rows(report).value| == |report|
    ensures forall i :: 0 <= i < |report| ==> ProjectRow(report[i]) == Ok(Rows(report).value[i])
    decreases |report|
  {
    if report != [] {
      var n := |report| - 1;
      RowsShape(report[..n]);
      forall i | 0 <= i < n ensures report[..n][i] == report[i] { }
    }
  }

  /**
   * The table is written in full exactly when every verdict's row can be
   * built; otherwise it fails with the error of the first verdict that cannot.
   */
  lemma {:induction false} TableFailsAtFirstBadVerdict(report: seq<Verdict>)
    ensures Table(report).Ok? <==> forall i :: 0 <= i < |report| ==> ProjectRow(report[i]).Ok?
    ensures Table(report).Err? ==> exists i :: (0 <= i < |report|
      && ProjectRow(report[i]) == Err(Table(report).error)
      && forall j :: 0 <= j < i ==> ProjectRow(report[j]).Ok?)
    decreases |report|
  {
    if report != [] {
      var n := |report| - 1;
      TableFailsAtFirstBadVerdict(report[..n]);
      forall i | 0 <= i < n ensures report[..n][i] == report[i] { }
      if Table(report[..n]).Err? {
        var i :| 0 <= i < n && ProjectRow(report[..n][i]) == Err(Table(report[..n]).error)
          && forall j :: 0 <= j < i ==> ProjectRow(report[..n][j]).Ok?;
        assert ProjectRow(report[i]) == Err(Table(report).error);
      } else if ProjectRow(report[n]).Err? {
        assert ProjectRow(report[n]) == Err(Table(report).error);
      }
    }
  }

  /** A verdict as the system instruction asks the model to produce it. */
  datatype TicketVerdict = TicketVerdict(
    ticketId: string,
    ticketNumber: string,
    kind: string,
    completeness: bool,
    missingFields: seq<string>,
    remarks: string)

  /** The JSON object for a well-formed verdict, every key present. */
  function ToObject(v: TicketVerdict): Verdict {
    map["ticket_id" := Str(v.ticketId),
        "ticket_number" := Str(v.ticketNumber),
        "type" := Str(v.kind),
        "completeness" := Bool(v.completeness),
        "missing_fields" := Arr(Names(v.missingFields)),
        "remarks" := Str(v.remarks)]
  }

  /**
   * A well-formed verdict loses nothing in its row: every field lands in its
   * column, and its `missing_fields` entries are joined by ", ".
   */
  lemma WellFormedVerdictRow(v: TicketVerdict)
    ensures ProjectRow(ToObject(v)).Ok?
    ensures var row := ProjectRow(ToObject(v)).value;
      && row[0] == Str(v.ticketId) && row[1] == Str(v.ticketNumber) && row[2] == Str(v.kind)
      && row[3] == Bool(v.completeness) && row[5] == Str(v.remarks)
      && row[4] == Str(Join(ListSeparator, v.missingFields))
  {
    ArrayMissingFields(ToObject(v), v.missingFields);
  }

  /** An array of strings is joined over exactly its entries. */
  lemma NamesJoinPieces(names: seq<string>)
    ensures JoinPieces(Arr(Names(names))) == Some(names)
  {
    var items := Names(names);
    assert forall k :: 0 <= k < |items| ==> items[k] == Str(names[k]);
    assert JoinPieces(Arr(items)).Some?;
    var got := JoinPieces(Arr(items)).value;
    assert |got| == |names|;
    assert forall k :: 0 <= k < |got| ==> got[k] == names[k];
    assert got == names;
  }

  /**
   * Whatever else the verdict holds, a `missing_fields` array of strings lands
   * in its column as its entries joined by ", ".
   */
  lemma ArrayMissingFields(item: Verdict, names: seq<string>)
    requires "missing_fields" in item && item["missing_fields"] == Arr(Names(names))
    ensures ProjectRow(item).Ok?
    ensures ProjectRow(item).value[4] == Str(Join(ListSeparator, names))
  {
    NamesJoinPieces(names);
  }

  /** ", " has no border: a join point can never hide an extra separator. */
  lemma ListSeparatorUnbordered()
    ensures Unbordered(ListSeparator)
  {
    assert ListSeparator[1..][0] != ListSeparator[..1][0];
  }

  /**
   * Splitting the `missing_fields` cell of a well-formed verdict on ", " gives
   * the list back, when it is non-empty and no entry holds ", ".
   */
  lemma MissingFieldsRoundTrip(v: TicketVerdict)
    requires v.missingFields != []
    requires forall k :: 0 <= k < |v.missingFields| ==> !Contains(v.missingFields[k], ListSeparator)
    ensures ProjectRow(ToObject(v)).Ok?
    ensures Split(ProjectRow(ToObject(v)).value[4].s, ListSeparator) == v.missingFields
  {
    WellFormedVerdictRow(v);
    ListSeparatorUnbordered();
    SplitJoin(ListSeparator, v.missingFields);
  }

  /**
   * A string `missing_fields` is joined character by character (a Python
   * string iterates over its characters): the cell splits back into the
   * string's characters, one per piece.
   */
  lemma StringMissingFields(item: Verdict, s: string)
    requires "missing_fields" in item && item["missing_fields"] == Str(s) && s != []
    ensures ProjectRow(item).Ok?
    ensures Split(ProjectRow(item).value[4].s, ListSeparator) == seq(|s|, k requires 0 <= k < |s| => [s[k]])
  {
    var chars := seq(|s|, k requires 0 <= k < |s| => [s[k]]);
    assert JoinPieces(Str(s)) == Some(chars);
    ListSeparatorUnbordered();
    forall k | 0 <= k < |chars| ensures !Contains(chars[k], ListSeparator) { }
    SplitJoin(ListSeparator, chars);
  }
}
