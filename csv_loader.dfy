/**
 * `loadCSV`: turns the body of a fetched CSV resource into a sequence of
 * records. The body is trimmed and split into lines; the first line is the
 * header. A load fails when the fetch failed, when there are fewer than two
 * lines, when a required column is absent from the header, or when no data
 * row survives. A data row is skipped, without failing the load, when its
 * field count differs from the header's or when the caller's transform
 * returns a falsy value or throws.
 */
module CsvLoader {
  import opened Wrappers
  import opened JsStrings
  import opened CsvLine

  /** A data row as the transform sees it: trimmed header name to trimmed value. */
  type RawRow = map<string, string>

  /**
   * What the caller's transform does with one row: it returns a truthy
   * record, it returns a falsy value (`null`, `undefined`, `false`, `0`,
   * `NaN`, `""`), or it throws.
   */
  datatype TransformResult<+R> = Keep(record: R) | Falsy | Throws

  /** The part of the fetch response the loader reads. */
  datatype Response = Response(status: int, statusText: string, body: string) {
    /** `response.ok`: the status is in the 2xx range. */
    predicate Ok() {
      200 <= status <= 299
    }
  }

  /** The errors that abort a load. */
  datatype LoadError =
    | FetchFailed(path: string, status: int, statusText: string)
    | InsufficientData(path: string)
    | MissingColumns(columns: seq<string>)
    | NoValidRows(path: string)

  /** The transform used when the caller gives none: the row object itself, which is always truthy. */
  function NoTransform(row: RawRow): TransformResult<RawRow> {
    Keep(row)
  }

  /** `text.trim().split('\n')`. */
  function Lines(body: string): seq<string> {
    Split(Trim(body), '\n')
  }

  /** `requiredColumns.filter(col => !headers.includes(col))`. */
  function Missing(required: seq<string>, headers: seq<string>): seq<string> {
    if required == [] then []
    else (if required[0] in headers then [] else [required[0]]) + Missing(required[1..], headers)
  }

  /**
   * The object obtained by setting property `keys[k]` to `values[k]` for
   * k = 0, 1, ... in turn: a later assignment to the same key overwrites an
   * earlier one.
   */
  function Assign<K, V>(keys: seq<K>, values: seq<V>): map<K, V>
    requires |keys| == |values|
  {
    if keys == [] then map[]
    else
      var n := |keys| - 1;
      Assign(keys[..n], values[..n])[keys[n] := values[n]]
  }

  /** Every string of `ss`, trimmed. */
  function TrimAll(ss: seq<string>): (r: seq<string>)
    ensures |r| == |ss|
  {
    if ss == [] then [] else TrimAll(ss[..|ss| - 1]) + [Trim(ss[|ss| - 1])]
  }

  /** The k-th string of `TrimAll(ss)` is the k-th string of `ss`, trimmed. */
  lemma {:induction false} TrimAllAt(ss: seq<string>, k: nat)
    requires k < |ss|
    ensures TrimAll(ss)[k] == Trim(ss[k])
  {
    if k < |ss| - 1 {
      TrimAllAt(ss[..|ss| - 1], k);
    }
  }

  /** The row object built by `headers.forEach`: each trimmed header name set to the trimmed value at its index. */
  function RowOf(headers: seq<string>, values: seq<string>): RawRow
    requires |headers| == |values|
  {
    Assign(TrimAll(headers), TrimAll(values))
  }

  /** What one data line contributes: nothing if its field count is wrong or the transform drops it. */
  function RowRecord<R>(headers: seq<string>, line: string, transform: RawRow -> TransformResult<R>): Option<R> {
    var values := ParseLine(line);
    if |values| != |headers| then None
    else
      match transform(RowOf(headers, values))
      case Keep(r) => Some(r)
      case Falsy => None
      case Throws => None
  }

  /** The records that survive from `rows`, in line order. */
  function Survivors<R>(headers: seq<string>, rows: seq<string>, transform: RawRow -> TransformResult<R>): seq<R> {
    if rows == [] then []
    else
      var init := Survivors(headers, rows[..|rows| - 1], transform);
      match RowRecord(headers, rows[|rows| - 1], transform)
      case Some(r) => init + [r]
      case None => init
  }

  /** The result of `loadCSV` for a path, its fetch response, the required columns and the transform. */
  function Load<R>(path: string, response: Response, required: seq<string>,
                   transform: RawRow -> TransformResult<R>): (r: Result<seq<R>, LoadError>)
    ensures r.Ok? ==> |r.value| > 0
  {
    if !response.Ok() then Err(FetchFailed(path, response.status, response.statusText))
    else
      var lines := Lines(response.body);
      if |lines| < 2 then Err(InsufficientData(path))
      else
        var headers := ParseLine(lines[0]);
        var missing := Missing(required, headers);
        if |missing| > 0 then Err(MissingColumns(missing))
        else
          var data := Survivors(headers, lines[1..], transform);
          if |data| == 0 then Err(NoValidRows(path)) else Ok(data)
  }

  /** Reading one more line adds that line's record, if it has one. */
  lemma SurvivorsExtend<R>(headers: seq<string>, rows: seq<string>, line: string,
                           transform: RawRow -> TransformResult<R>)
    ensures RowRecord(headers, line, transform).None?
            ==> Survivors(headers, rows + [line], transform) == Survivors(headers, rows, transform)
    ensures RowRecord(headers, line, transform).Some?
            ==> Survivors(headers, rows + [line], transform)
                == Survivors(headers, rows, transform) + [RowRecord(headers, line, transform).value]
  {
    assert (rows + [line])[..|rows|] == rows;
  }

  /** A slice grows by the element at its end. */
  lemma SliceExtend<T>(s: seq<T>, lo: nat, hi: nat)
    requires lo <= hi < |s|
    ensures s[lo..hi] + [s[hi]] == s[lo..hi + 1]
  {
  }

  /** The prefix one longer, cut back, is the shorter prefix. */
  lemma PrefixExtend<T>(s: seq<T>, n: nat)
    requires n < |s|
    ensures s[..n + 1][..n] == s[..n] && s[..n + 1][n] == s[n]
  {
  }

  /** The prefix of full length is the sequence. */
  lemma PrefixWhole<T>(s: seq<T>)
    ensures s[..|s|] == s
  {
  }

  /** A slice up to the length is the suffix. */
  lemma SliceToEnd<T>(s: seq<T>, lo: nat)
    requires lo <= |s|
    ensures s[lo..|s|] == s[lo..]
  {
  }

  // ---------------------------------------------------------------------------
  // The source's loops

  /** The `headers.forEach` loop that fills the row object. */
  method BuildRow(headers: seq<string>, values: seq<string>) returns (row: RawRow)
    requires |headers| == |values|
    ensures row == RowOf(headers, values)
  {
    ghost var names, trimmed := TrimAll(headers), TrimAll(values);
    row := map[];
    for idx := 0 to |headers|
      invariant row == Assign(names[..idx], trimmed[..idx])
    {
      PrefixExtend(names, idx);
      PrefixExtend(trimmed, idx);
      TrimAllAt(headers, idx);
      TrimAllAt(values, idx);
      row := row[Trim(headers[idx]) := Trim(values[idx])];
    }
    PrefixWhole(names);
    PrefixWhole(trimmed);
  }

  /** `loadCSV` once the response has arrived. */
  method LoadCSV<R>(path: string, response: Response, requiredColumns: seq<string>,
                    transform: RawRow -> TransformResult<R>) returns (result: Result<seq<R>, LoadError>)
    ensures result == Load(path, response, requiredColumns, transform)
  {
    if !response.Ok() {
      return Err(FetchFailed(path, response.status, response.statusText));
    }
    var lines := Split(Trim(response.body), '\n');
    if |lines| < 2 {
      return Err(InsufficientData(path));
    }
    var headers := ParseCSVLine(lines[0]);
    var missingColumns := Missing(requiredColumns, headers);
    if |missingColumns| > 0 {
      return Err(MissingColumns(missingColumns));
    }
    var data := [];
    for i := 1 to |lines|
      invariant data == Survivors(headers, lines[1..i], transform)
    {
      SurvivorsExtend(headers, lines[1..i], lines[i], transform);
      SliceExtend(lines, 1, i);
      var values := ParseCSVLine(lines[i]);
      if |values| != |headers| {
        assert RowRecord(headers, lines[i], transform) == None;
        continue;
      }
      var row := BuildRow(headers, values);
      var processedRow := transform(row);
      if processedRow.Keep? {
        assert RowRecord(headers, lines[i], transform) == Some(processedRow.record);
        data := data + [processedRow.record];
      } else {
        assert RowRecord(headers, lines[i], transform) == None;
      }
    }
    SliceToEnd(lines, 1);
    if |data| == 0 {
      return Err(NoValidRows(path));
    }
    return Ok(data);
  }

  // ---------------------------------------------------------------------------
  // The required-column check

  /** A name is reported missing exactly when it is required and is not a header field. */
  lemma {:induction false} MissingMembers(required: seq<string>, headers: seq<string>)
    ensures forall c :: c in Missing(required, headers) <==> c in required && c !in headers
    ensures |Missing(required, headers)| <= |required|
  {
    if required != [] {
      MissingMembers(required[1..], headers);
      assert forall c :: c in required <==> c == required[0] || c in required[1..];
    }
  }

  /** The missing columns of a concatenation are those of each part, in order: the check is an order-keeping filter. */
  lemma {:induction false} MissingAppend(a: seq<string>, b: seq<string>, headers: seq<string>)
    ensures Missing(a + b, headers) == Missing(a, headers) + Missing(b, headers)
  {
    if a == [] {
      assert a + b == b;
    } else {
      assert (a + b)[0] == a[0];
      assert (a + b)[1..] == a[1..] + b;
      MissingAppend(a[1..], b, headers);
      var head := if a[0] in headers then [] else [a[0]];
      assert Missing(a + b, headers) == head + Missing(a[1..] + b, headers);
      assert Missing(a, headers) == head + Missing(a[1..], headers);
    }
  }

  // ---------------------------------------------------------------------------
  // The row object

  /** Assigning in turn defines exactly the keys assigned. */
  lemma {:induction false} AssignKeys<K, V>(keys: seq<K>, values: seq<V>)
    requires |keys| == |values|
    ensures Assign(keys, values).Keys == set k | k in keys
  {
    if keys != [] {
      var n := |keys| - 1;
      AssignKeys(keys[..n], values[..n]);
      assert keys == keys[..n] + [keys[n]];
    }
  }

  /** A key holds the value of its last assignment. */
  lemma {:induction false} AssignLastWins<K, V>(keys: seq<K>, values: seq<V>, i: nat)
    requires |keys| == |values| && i < |keys|
    requires forall j :: i < j < |keys| ==> keys[j] != keys[i]
    ensures keys[i] in Assign(keys, values) && Assign(keys, values)[keys[i]] == values[i]
  {
    var n := |keys| - 1;
    if i < n {
      AssignLastWins(keys[..n], values[..n], i);
    }
  }

  /** The row has one key per trimmed header name. */
  lemma RowOfKeys(headers: seq<string>, values: seq<string>)
    requires |headers| == |values|
    ensures RowOf(headers, values).Keys == set h | h in headers :: Trim(h)
  {
    var names := TrimAll(headers);
    AssignKeys(names, TrimAll(values));
    forall x | x in names
      ensures x in set h | h in headers :: Trim(h)
    {
      var k :| 0 <= k < |names| && names[k] == x;
      TrimAllAt(headers, k);
      assert headers[k] in headers;
    }
    forall h | h in headers
      ensures Trim(h) in names
    {
      var k :| 0 <= k < |headers| && headers[k] == h;
      TrimAllAt(headers, k);
      assert names[k] == Trim(h);
    }
  }

  /**
   * Each trimmed header name maps to the trimmed value of the LAST column
   * carrying that name: with duplicate names the later column overwrites
   * the earlier one.
   */
  lemma RowOfValue(headers: seq<string>, values: seq<string>, i: nat)
    requires |headers| == |values| && i < |headers|
    requires forall j :: i < j < |headers| ==> Trim(headers[j]) != Trim(headers[i])
    ensures Trim(headers[i]) in RowOf(headers, values)
    ensures RowOf(headers, values)[Trim(headers[i])] == Trim(values[i])
  {
    forall j | i <= j < |headers|
      ensures TrimAll(headers)[j] == Trim(headers[j])
    {
      TrimAllAt(headers, j);
    }
    TrimAllAt(values, i);
    AssignLastWins(TrimAll(headers), TrimAll(values), i);
  }

  // ---------------------------------------------------------------------------
  // Which rows survive

  /** A row is kept exactly when it has one field per header and the transform returns a truthy record, which is what is kept. */
  lemma RowOutcome<R>(headers: seq<string>, line: string, transform: RawRow -> TransformResult<R>)
    ensures RowRecord(headers, line, transform).Some?
            <==> && SeparatorCount(line) + 1 == |headers|
                 && (FieldCount(line); transform(RowOf(headers, ParseLine(line))).Keep?)
    ensures RowRecord(headers, line, transform).Some?
            ==> (FieldCount(line); RowRecord(headers, line, transform).value == transform(RowOf(headers, ParseLine(line))).record)
  {
    FieldCount(line);
  }

  /** Without a transform every row with the right number of fields is kept, as its row object. */
  lemma NoTransformKeepsRow(headers: seq<string>, line: string)
    ensures RowRecord(headers, line, NoTransform)
            == if SeparatorCount(line) + 1 == |headers| then (FieldCount(line); Some(RowOf(headers, ParseLine(line)))) else None
  {
    FieldCount(line);
  }

  /** The positions, among `rows`, of the rows that survive. */
  ghost function KeptIndices<R>(headers: seq<string>, rows: seq<string>, transform: RawRow -> TransformResult<R>): seq<nat> {
    if rows == [] then []
    else
      var n := |rows| - 1;
      KeptIndices(headers, rows[..n], transform) + (if RowRecord(headers, rows[n], transform).Some? then [n] else [])
  }

  /** The kept positions are valid and strictly increasing. */
  lemma {:induction false} KeptIndicesIncrease<R>(headers: seq<string>, rows: seq<string>, transform: RawRow -> TransformResult<R>)
    ensures forall k :: 0 <= k < |KeptIndices(headers, rows, transform)| ==> KeptIndices(headers, rows, transform)[k] < |rows|
    ensures forall k, l :: 0 <= k < l < |KeptIndices(headers, rows, transform)|
              ==> KeptIndices(headers, rows, transform)[k] < KeptIndices(headers, rows, transform)[l]
  {
    if rows != [] {
      var n := |rows| - 1;
      KeptIndicesIncrease(headers, rows[..n], transform);
      var idx0 := KeptIndices(headers, rows[..n], transform);
      var idx := KeptIndices(headers, rows, transform);
      assert idx == idx0 + (if RowRecord(headers, rows[n], transform).Some? then [n] else []);
      assert forall k :: 0 <= k < |idx0| ==> idx0[k] < n;
    }
  }

  /** A position is kept exactly when the row there has a record. */
  lemma {:induction false} KeptIndicesMembers<R>(headers: seq<string>, rows: seq<string>, transform: RawRow -> TransformResult<R>)
    ensures forall i :: 0 <= i < |rows|
              ==> (i in KeptIndices(headers, rows, transform) <==> RowRecord(headers, rows[i], transform).Some?)
  {
    if rows != [] {
      var n := |rows| - 1;
      var init := rows[..n];
      KeptIndicesMembers(headers, init, transform);
      KeptIndicesIncrease(headers, init, transform);
      var idx0 := KeptIndices(headers, init, transform);
      var idx := KeptIndices(headers, rows, transform);
      forall i | 0 <= i < |rows|
        ensures i in idx <==> RowRecord(headers, rows[i], transform).Some?
      {
        if i < n {
          assert rows[i] == init[i];
          assert i in idx <==> i in idx0;
        } else {
          assert forall k :: 0 <= k < |idx0| ==> idx0[k] != n;
        }
      }
    }
  }

  /** The k-th surviving record is the record of the k-th kept row. */
  lemma {:induction false} SurvivorsAtKept<R>(headers: seq<string>, rows: seq<string>, transform: RawRow -> TransformResult<R>)
    ensures var idx := KeptIndices(headers, rows, transform);
            var data := Survivors(headers, rows, transform);
            && |idx| == |data|
            && (forall k :: 0 <= k < |idx| && idx[k] < |rows| ==> RowRecord(headers, rows[idx[k]], transform) == Some(data[k]))
  {
    if rows != [] {
      var n := |rows| - 1;
      var init := rows[..n];
      SurvivorsAtKept(headers, init, transform);
      KeptIndicesIncrease(headers, init, transform);
      var idx0 := KeptIndices(headers, init, transform);
      var data0 := Survivors(headers, init, transform);
      var idx := KeptIndices(headers, rows, transform);
      var data := Survivors(headers, rows, transform);
      var last := RowRecord(headers, rows[n], transform);
      assert idx == idx0 + (if last.Some? then [n] else []);
      assert data == data0 + (if last.Some? then [last.value] else []);
      forall k | 0 <= k < |idx| && idx[k] < |rows|
        ensures RowRecord(headers, rows[idx[k]], transform) == Some(data[k])
      {
        if k < |idx0| {
          assert idx[k] == idx0[k] && data[k] == data0[k];
          assert rows[idx0[k]] == init[idx0[k]];
        }
      }
    }
  }

  /**
   * The surviving records are the records of the kept rows, one per kept row,
   * in line order: the k-th record comes from the k-th kept row, the kept
   * positions increase strictly, and a row is among them exactly when it
   * has a record.
   */
  lemma SurvivorsAreKeptRows<R>(headers: seq<string>, rows: seq<string>, transform: RawRow -> TransformResult<R>)
    ensures var idx := KeptIndices(headers, rows, transform);
            var data := Survivors(headers, rows, transform);
            && |idx| == |data|
            && (forall k :: 0 <= k < |idx| ==> idx[k] < |rows| && RowRecord(headers, rows[idx[k]], transform) == Some(data[k]))
            && (forall k, l :: 0 <= k < l < |idx| ==> idx[k] < idx[l])
            && (forall i :: 0 <= i < |rows| ==> (i in idx <==> RowRecord(headers, rows[i], transform).Some?))
  {
    KeptIndicesIncrease(headers, rows, transform);
    KeptIndicesMembers(headers, rows, transform);
    SurvivorsAtKept(headers, rows, transform);
  }

  // ---------------------------------------------------------------------------
  // The outcomes of a load

  /** A body that is empty or only whitespace is insufficient data. */
  lemma {:induction false} BlankBodyIsInsufficient<R>(path: string, response: Response, required: seq<string>,
                                                       transform: RawRow -> TransformResult<R>)
    requires response.Ok()
    requires forall k :: 0 <= k < |response.body| ==> IsWhitespace(response.body[k])
    ensures Load(path, response, required, transform) == Err(InsufficientData(path))
  {
    TrimIsSlice(response.body, 0, 0);
  }

  /** After a successful fetch, the load reports insufficient data exactly when the trimmed body has no line break. */
  lemma InsufficientDataIff<R>(path: string, response: Response, required: seq<string>,
                               transform: RawRow -> TransformResult<R>)
    requires response.Ok()
    ensures Load(path, response, required, transform) == Err(InsufficientData(path))
            <==> '\n' !in Trim(response.body)
  {
  }

  /**
   * With a header and at least one more line, the load fails with the missing
   * columns exactly when some required name is not among the (untrimmed)
   * header fields, and it reports precisely `Missing`.
   */
  lemma MissingColumnsIff<R>(path: string, response: Response, required: seq<string>,
                             transform: RawRow -> TransformResult<R>)
    requires response.Ok() && |Lines(response.body)| >= 2
    ensures var missing := Missing(required, ParseLine(Lines(response.body)[0]));
            && (Load(path, response, required, transform).Err?
                && Load(path, response, required, transform).error.MissingColumns?
                <==> exists c :: c in required && c !in ParseLine(Lines(response.body)[0]))
            && (missing != [] ==> Load(path, response, required, transform) == Err(MissingColumns(missing)))
  {
    var missing := Missing(required, ParseLine(Lines(response.body)[0]));
    MissingMembers(required, ParseLine(Lines(response.body)[0]));
    if missing != [] {
      assert missing[0] in missing;
    }
  }

  /**
   * The column check happens before any data row is read: once a required
   * column is missing, neither the data lines nor the transform affect the
   * result.
   */
  lemma MissingColumnsBeforeRows<R>(path: string, r1: Response, r2: Response, required: seq<string>,
                                    t1: RawRow -> TransformResult<R>, t2: RawRow -> TransformResult<R>)
    requires r1.Ok() && r2.Ok()
    requires |Lines(r1.body)| >= 2 && |Lines(r2.body)| >= 2
    requires Lines(r1.body)[0] == Lines(r2.body)[0]
    requires Missing(required, ParseLine(Lines(r1.body)[0])) != []
    ensures Load(path, r1, required, t1) == Load(path, r2, required, t2)
  {
  }

  /** Once the header is accepted, the load fails with no valid rows exactly when every data line is dropped. */
  lemma NoValidRowsIff<R>(path: string, response: Response, required: seq<string>,
                          transform: RawRow -> TransformResult<R>)
    requires response.Ok() && |Lines(response.body)| >= 2
    requires Missing(required, ParseLine(Lines(response.body)[0])) == []
    ensures var lines := Lines(response.body);
            Load(path, response, required, transform) == Err(NoValidRows(path))
            <==> forall i :: 1 <= i < |lines| ==> RowRecord(ParseLine(lines[0]), lines[i], transform) == None
  {
    var lines := Lines(response.body);
    var headers := ParseLine(lines[0]);
    var rows := lines[1..];
    SurvivorsAreKeptRows(headers, rows, transform);
    var idx := KeptIndices(headers, rows, transform);
    if |Survivors(headers, rows, transform)| > 0 {
      assert idx[0] in idx;
      assert RowRecord(headers, lines[idx[0] + 1], transform).Some?;
    } else {
      forall i | 1 <= i < |lines|
        ensures RowRecord(headers, lines[i], transform) == None
      {
        assert rows[i - 1] == lines[i];
      }
    }
  }

  /**
   * A successful load returns one record per kept data line, each exactly
   * once and in line order, and at least one: `idx` lists the kept lines
   * (counted from the first line after the header).
   */
  lemma LoadedRecords<R>(path: string, response: Response, required: seq<string>,
                         transform: RawRow -> TransformResult<R>)
    requires Load(path, response, required, transform).Ok?
    ensures var lines := Lines(response.body);
            var headers := ParseLine(lines[0]);
            var data := Load(path, response, required, transform).value;
            var idx := KeptIndices(headers, lines[1..], transform);
            && response.Ok() && |lines| >= 2 && Missing(required, headers) == []
            && |idx| == |data| > 0
            && (forall k :: 0 <= k < |idx| ==> idx[k] + 1 < |lines| && RowRecord(headers, lines[idx[k] + 1], transform) == Some(data[k]))
            && (forall k, l :: 0 <= k < l < |idx| ==> idx[k] < idx[l])
            && (forall j :: 0 <= j < |lines| - 1 ==> (j in idx <==> RowRecord(headers, lines[j + 1], transform).Some?))
  {
    var lines := Lines(response.body);
    var headers := ParseLine(lines[0]);
    var rows := lines[1..];
    assert Load(path, response, required, transform).value == Survivors(headers, rows, transform);
    SurvivorsAreKeptRows(headers, rows, transform);
    assert forall j :: 0 <= j < |rows| ==> rows[j] == lines[j + 1];
  }

  /**
   * The two remaining outcomes: a fetch that is not ok fails with its status,
   * and once every check passes and some data line yields a record, the load
   * returns the surviving records.
   */
  lemma FetchFailedOrLoaded<R>(path: string, response: Response, required: seq<string>,
                               transform: RawRow -> TransformResult<R>)
    ensures !response.Ok()
            ==> Load(path, response, required, transform) == Err(FetchFailed(path, response.status, response.statusText))
    ensures var lines := Lines(response.body);
            response.Ok() && |lines| >= 2 && Missing(required, ParseLine(lines[0])) == []
            && (exists i :: 1 <= i < |lines| && RowRecord(ParseLine(lines[0]), lines[i], transform).Some?)
            ==> Load(path, response, required, transform) == Ok(Survivors(ParseLine(lines[0]), lines[1..], transform))
  {
    var lines := Lines(response.body);
    if response.Ok() && |lines| >= 2 && Missing(required, ParseLine(lines[0])) == [] {
      NoValidRowsIff(path, response, required, transform);
    }
  }

  // ---------------------------------------------------------------------------
  // Worked examples

  /** A non-empty string that neither starts nor ends with whitespace, so trimming leaves it alone. */
  predicate Bare(s: string) {
    s != [] && !IsWhitespace(s[0]) && !IsWhitespace(s[|s| - 1])
  }

  /** A line without quotes whose fields contain no comma parses to those fields. */
  lemma ParseJoined(fields: seq<string>, line: string)
    requires |fields| >= 1 && line == Join(fields, ',')
    requires '"' !in line
    requires forall f :: f in fields ==> ',' !in f
    ensures ParseLine(line) == fields
  {
    QuoteFreeRoundTrip(line);
    SplitJoin(fields, ',');
  }

  /** A body that neither starts nor ends with whitespace splits into the lines it joins. */
  lemma LinesJoined(lines: seq<string>, body: string)
    requires |lines| >= 1 && body == Join(lines, '\n') && Bare(body)
    requires forall l :: l in lines ==> '\n' !in l
    ensures Lines(body) == lines
  {
    TrimIsSlice(body, 0, |body|);
    SplitJoin(lines, '\n');
  }

  /** Trimming a string that carries no surrounding whitespace changes nothing. */
  lemma BareTrim(s: string)
    requires Bare(s)
    ensures Trim(s) == s
  {
    TrimIsSlice(s, 0, |s|);
  }

  /** A field without quotes or commas is a line of one field. */
  lemma ParseOne(f: string)
    requires '"' !in f && ',' !in f
    ensures ParseLine(f) == [f]
  {
    ParseJoined([f], f);
  }

  /** Two fields without quotes or commas, joined by a comma, parse back to themselves. */
  lemma ParseTwo(f1: string, f2: string)
    requires '"' !in f1 && ',' !in f1 && '"' !in f2 && ',' !in f2
    ensures ParseLine(f1 + "," + f2) == [f1, f2]
  {
    var fields := [f1, f2];
    assert fields[..1] == [f1];
    ParseJoined(fields, f1 + "," + f2);
  }

  /** Two lines without line breaks, the first not starting and the second not ending with whitespace. */
  lemma LinesTwo(l1: string, l2: string)
    requires l1 != [] && !IsWhitespace(l1[0]) && '\n' !in l1
    requires l2 != [] && !IsWhitespace(l2[|l2| - 1]) && '\n' !in l2
    ensures Lines(l1 + "\n" + l2) == [l1, l2]
  {
    var lines := [l1, l2];
    assert lines[..1] == [l1];
    LinesJoined(lines, l1 + "\n" + l2);
  }

  /** Three lines without line breaks, the first not starting and the last not ending with whitespace. */
  lemma LinesThree(l1: string, l2: string, l3: string)
    requires l1 != [] && !IsWhitespace(l1[0]) && '\n' !in l1
    requires '\n' !in l2
    requires l3 != [] && !IsWhitespace(l3[|l3| - 1]) && '\n' !in l3
    ensures Lines(l1 + "\n" + l2 + "\n" + l3) == [l1, l2, l3]
  {
    var two := [l1, l2];
    assert two[..1] == [l1];
    assert Join(two, '\n') == l1 + "\n" + l2;
    var lines := [l1, l2, l3];
    assert lines[..2] == two;
    LinesJoined(lines, l1 + "\n" + l2 + "\n" + l3);
  }

  /**
   * A body of a two-field header line and a two-field data line, with no
   * quotes, commas or line breaks inside the fields and no whitespace at
   * either end, loaded with no transform: the load either reports the
   * required names missing from the untrimmed header fields, or returns the
   * single row object.
   */
  lemma TwoByTwoLoad(header: string, row: string, h1: string, h2: string, v1: string, v2: string, required: seq<string>)
    requires header == h1 + "," + h2 && row == v1 + "," + v2
    requires '"' !in h1 && ',' !in h1 && '\n' !in h1 && h1 != [] && !IsWhitespace(h1[0])
    requires '"' !in h2 && ',' !in h2 && '\n' !in h2
    requires '"' !in v1 && ',' !in v1 && '\n' !in v1
    requires '"' !in v2 && ',' !in v2 && '\n' !in v2 && v2 != [] && !IsWhitespace(v2[|v2| - 1])
    ensures Load("data.csv", Response(200, "OK", header + "\n" + row), required, NoTransform)
            == if Missing(required, [h1, h2]) != [] then Err(MissingColumns(Missing(required, [h1, h2])))
               else Ok([RowOf([h1, h2], [v1, v2])])
  {
    var body := header + "\n" + row;
    assert header[0] == h1[0];
    assert row[|row| - 1] == v2[|v2| - 1];
    LinesTwo(header, row);
    ParseTwo(h1, h2);
    ParseTwo(v1, v2);
    assert Response(200, "OK", body).Ok();
    var lines := Lines(body);
    assert lines[0] == header && lines[1..] == [row];
    SurvivorsOne([h1, h2], row, NoTransform);
    assert RowRecord([h1, h2], row, NoTransform) == Some(RowOf([h1, h2], [v1, v2]));
  }

  /** The row object of two columns whose names and values carry no surrounding whitespace. */
  lemma BareTwoColumnRow(h1: string, h2: string, v1: string, v2: string)
    requires Bare(h1) && Bare(h2) && Bare(v1) && Bare(v2)
    ensures RowOf([h1, h2], [v1, v2]) == map[h1 := v1][h2 := v2]
  {
    BareTrim(h1); BareTrim(h2); BareTrim(v1); BareTrim(v2);
    TwoColumnRow(h1, h2, v1, v2);
  }

  /** A successful response with no required columns loads whatever rows survive. */
  lemma LoadOfLines<R>(body: string, headerLine: string, rows: seq<string>, transform: RawRow -> TransformResult<R>)
    requires Lines(body) == [headerLine] + rows && |rows| >= 1
    ensures var data := Survivors(ParseLine(headerLine), rows, transform);
            Load("data.csv", Response(200, "OK", body), [], transform)
            == if data == [] then Err(NoValidRows("data.csv")) else Ok(data)
  {
    assert Response(200, "OK", body).Ok();
    assert Missing([], ParseLine(headerLine)) == [];
    var lines := Split(Trim(body), '\n');
    assert lines == [headerLine] + rows;
    assert lines[0] == headerLine;
    assert lines[1..] == rows;
  }

  /** A single row survives exactly when it has a record. */
  lemma SurvivorsOne<R>(headers: seq<string>, line: string, transform: RawRow -> TransformResult<R>)
    ensures var rec := RowRecord(headers, line, transform);
            Survivors(headers, [line], transform) == if rec.Some? then [rec.value] else []
  {
    assert [line][..0] == [];
  }

  /** A triple is its first element followed by the other two. */
  lemma TripleIsConcat<T>(a: T, b: T, c: T)
    ensures [a, b, c] == [a] + [b, c]
  {
  }

  /** Assigning one more key updates the object built so far. */
  lemma AssignSnoc<K, V>(keys: seq<K>, values: seq<V>, k: K, v: V)
    requires |keys| == |values|
    ensures Assign(keys + [k], values + [v]) == Assign(keys, values)[k := v]
  {
    assert (keys + [k])[..|keys|] == keys;
    assert (values + [v])[..|values|] == values;
  }

  /** The row object of a two-column line: trimmed names bound to trimmed values, the second column last. */
  lemma TwoColumnRow(h1: string, h2: string, v1: string, v2: string)
    ensures RowOf([h1, h2], [v1, v2]) == map[Trim(h1) := Trim(v1)][Trim(h2) := Trim(v2)]
  {
    TrimAllAt([h1, h2], 0);
    TrimAllAt([h1, h2], 1);
    TrimAllAt([v1, v2], 0);
    TrimAllAt([v1, v2], 1);
    assert TrimAll([h1, h2]) == [Trim(h1), Trim(h2)];
    assert TrimAll([v1, v2]) == [Trim(v1), Trim(v2)];
    AssignSnoc([], [], Trim(h1), Trim(v1));
    AssignSnoc([Trim(h1)], [Trim(v1)], Trim(h2), Trim(v2));
    assert [] + [Trim(h1)] == [Trim(h1)] && [] + [Trim(v1)] == [Trim(v1)];
    assert [Trim(h1)] + [Trim(h2)] == [Trim(h1), Trim(h2)] && [Trim(v1)] + [Trim(v2)] == [Trim(v1), Trim(v2)];
  }

  /** The row object of header `h1,h2` and row `v1,v2`. */
  lemma HeaderRowRow()
    ensures RowOf(["h1", "h2"], ["v1", "v2"]) == map["h1" := "v1", "h2" := "v2"]
  {
    BareTwoColumnRow("h1", "h2", "v1", "v2");
  }

  /** Header `h1,h2` and row `v1,v2` load as the single record {h1: v1, h2: v2}. */
  lemma HeaderRowExample()
    ensures Load("data.csv", Response(200, "OK", "h1,h2" + "\n" + "v1,v2"), [], NoTransform)
            == Ok([map["h1" := "v1", "h2" := "v2"]])
  {
    TwoByTwoLoad("h1,h2", "v1,v2", "h1", "h2", "v1", "v2", []);
    HeaderRowRow();
  }

  /** The row object of header `x ,y` and row `1,2` has the trimmed key `x`. */
  lemma UntrimmedHeaderRow()
    ensures RowOf(["x ", "y"], ["1", "2"]) == map["x" := "1", "y" := "2"]
  {
    TrimIsSlice("x ", 0, 1);
    assert "x "[0..1] == "x";
    BareTrim("y"); BareTrim("1"); BareTrim("2");
    TwoColumnRow("x ", "y", "1", "2");
  }

  /** Requiring `x` of the header `x ,y` reports `x` missing. */
  lemma UntrimmedHeaderMissing()
    ensures Load("data.csv", Response(200, "OK", "x ,y" + "\n" + "1,2"), ["x"], NoTransform)
            == Err(MissingColumns(["x"]))
  {
    TwoByTwoLoad("x ,y", "1,2", "x ", "y", "1", "2", ["x"]);
    assert "x" != "x ";
    assert Missing(["x"], ["x ", "y"]) == ["x"];
  }

  /** With no required column, header `x ,y` and row `1,2` load with the trimmed key `x`. */
  lemma UntrimmedHeaderLoads()
    ensures Load("data.csv", Response(200, "OK", "x ,y" + "\n" + "1,2"), [], NoTransform)
            == Ok([map["x" := "1", "y" := "2"]])
  {
    TwoByTwoLoad("x ,y", "1,2", "x ", "y", "1", "2", []);
    UntrimmedHeaderRow();
  }

  /**
   * The required-column check compares against the header fields as parsed,
   * untrimmed, while the row keys are trimmed: with header `x ,y` the
   * required column `x` is reported missing, although every row has key `x`.
   */
  lemma UntrimmedHeaderExample()
    ensures Load("data.csv", Response(200, "OK", "x ,y" + "\n" + "1,2"), ["x"], NoTransform)
            == Err(MissingColumns(["x"]))
    ensures Load("data.csv", Response(200, "OK", "x ,y" + "\n" + "1,2"), [], NoTransform)
            == Ok([map["x" := "1", "y" := "2"]])
  {
    UntrimmedHeaderMissing();
    UntrimmedHeaderLoads();
  }

  /** The row object of header `a,a` keeps the later column. */
  lemma DuplicateHeaderRow()
    ensures RowOf(["a", "a"], ["1", "2"]) == map["a" := "2"]
  {
    BareTwoColumnRow("a", "a", "1", "2");
    assert map["a" := "1"]["a" := "2"] == map["a" := "2"];
  }

  /** With header `a,a` the later column wins: row `1,2` loads as {a: 2}. */
  lemma DuplicateHeaderExample()
    ensures Load("data.csv", Response(200, "OK", "a,a" + "\n" + "1,2"), [], NoTransform)
            == Ok([map["a" := "2"]])
  {
    TwoByTwoLoad("a,a", "1,2", "a", "a", "1", "2", []);
    DuplicateHeaderRow();
  }

  /** Under header `a,b`, the line `1` has too few fields and the line `2,3` yields its row object. */
  lemma SkippedRowRecords()
    ensures RowRecord(["a", "b"], "1", NoTransform) == None
    ensures RowRecord(["a", "b"], "2,3", NoTransform) == Some(map["a" := "2", "b" := "3"])
  {
    ParseOne("1");
    ParseTwo("2", "3");
    assert "2" + "," + "3" == "2,3";
    BareTwoColumnRow("a", "b", "2", "3");
  }

  /** Of the rows `1` and `2,3` under header `a,b`, only the second survives. */
  lemma SkippedRowSurvivors()
    ensures Survivors(["a", "b"], ["1", "2,3"], NoTransform) == [map["a" := "2", "b" := "3"]]
  {
    var headers := ["a", "b"];
    SkippedRowRecords();
    SurvivorsExtend(headers, [], "1", NoTransform);
    SurvivorsExtend(headers, ["1"], "2,3", NoTransform);
    assert [] + ["1"] == ["1"] && ["1"] + ["2,3"] == ["1", "2,3"];
  }

  /** A row with too few fields is skipped and the load goes on: `a,b` / `1` / `2,3` loads as {a: 2, b: 3}. */
  lemma SkippedRowExample()
    ensures Load("data.csv", Response(200, "OK", "a,b" + "\n" + "1" + "\n" + "2,3"), [], NoTransform)
            == Ok([map["a" := "2", "b" := "3"]])
  {
    LinesThree("a,b", "1", "2,3");
    ParseTwo("a", "b");
    assert "a" + "," + "b" == "a,b";
    SkippedRowSurvivors();
    TripleIsConcat("a,b", "1", "2,3");
    LoadOfLines("a,b" + "\n" + "1" + "\n" + "2,3", "a,b", ["1", "2,3"], NoTransform);
  }
}
