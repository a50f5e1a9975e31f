/**
 * `parseCSVLine`: splits one line of CSV text into field values. A double
 * quote toggles a quoted span and is never copied into a field; a comma
 * outside a quoted span ends the current field; every other character is
 * appended to the current field. Doubled quotes (section 2, rule 7 of
 * RFC 4180) are not recognised as an escape.
 */
module CsvLine {
  import opened JsStrings

  /** The loop's state: the values pushed so far, the value being built, and whether a quoted span is open. */
  datatype ScanState = ScanState(values: seq<string>, current: string, inQuotes: bool)

  /** One iteration of the character loop. */
  function Step(st: ScanState, c: char): ScanState {
    if c == '"' then st.(inQuotes := !st.inQuotes)
    else if c == ',' && !st.inQuotes then ScanState(st.values + [st.current], "", st.inQuotes)
    else st.(current := st.current + [c])
  }

  /** The loop's state once every character of `s` has been read. */
  function Scan(s: string): ScanState {
    if s == [] then ScanState([], "", false)
    else Step(Scan(s[..|s| - 1]), s[|s| - 1])
  }

  /** The characters a regular-expression `.` does not match. */
  predicate IsLineTerminator(c: char) {
    c == '\n' || c == '\r' || c == '\U{2028}' || c == '\U{2029}'
  }

  /** `val.replace(/^"(.*)"$/, '$1')`: strips one enclosing pair of quotes from a single-line value. */
  function Unwrap(v: string): string {
    if |v| >= 2 && v[0] == '"' && v[|v| - 1] == '"'
       && forall k :: 1 <= k < |v| - 1 ==> !IsLineTerminator(v[k])
    then v[1..|v| - 1]
    else v
  }

  /** `values.map(Unwrap)`. */
  function UnwrapAll(values: seq<string>): (r: seq<string>)
    ensures |r| == |values|
  {
    if values == [] then []
    else UnwrapAll(values[..|values| - 1]) + [Unwrap(values[|values| - 1])]
  }

  /** The fields `parseCSVLine` returns: the pushed values plus the last one, each unwrapped. */
  function ParseLine(line: string): seq<string> {
    var st := Scan(line);
    UnwrapAll(st.values + [st.current])
  }

  /** The source's loop over the characters of `line`, followed by the unwrap of every value. */
  method ParseCSVLine(line: string) returns (values: seq<string>)
    ensures values == ParseLine(line)
  {
    values := [];
    var currentValue := "";
    var inQuotes := false;
    for i := 0 to |line|
      invariant ScanState(values, currentValue, inQuotes) == Scan(line[..i])
    {
      assert line[..i + 1][..i] == line[..i];
      var c := line[i];
      if c == '"' {
        inQuotes := !inQuotes;
      } else if c == ',' && !inQuotes {
        values := values + [currentValue];
        currentValue := "";
      } else {
        currentValue := currentValue + [c];
      }
    }
    assert line[..|line|] == line;
    values := values + [currentValue];
    values := UnwrapAll(values);
  }

  // ---------------------------------------------------------------------------
  // Reference definitions, stated on the line's characters alone

  /** The commas that separate fields: those preceded by an even number of quotes. */
  function SeparatorCount(s: string): nat {
    if s == [] then 0
    else
      var init := s[..|s| - 1];
      SeparatorCount(init) + (if s[|s| - 1] == ',' && Count(init, '"') % 2 == 0 then 1 else 0)
  }

  /** The line with every double quote deleted. */
  function RemoveQuotes(s: string): string {
    if s == [] then []
    else
      var init := s[..|s| - 1];
      RemoveQuotes(init) + (if s[|s| - 1] == '"' then [] else [s[|s| - 1]])
  }

  // ---------------------------------------------------------------------------
  // Properties of the loop state

  /** A quoted span is open exactly when an odd number of quotes has been read. */
  lemma {:induction false} ScanQuoteParity(s: string)
    ensures Scan(s).inQuotes <==> Count(s, '"') % 2 == 1
  {
    if s != [] {
      ScanQuoteParity(s[..|s| - 1]);
    }
  }

  /** One value has been pushed for every separating comma. */
  lemma {:induction false} ScanValueCount(s: string)
    ensures |Scan(s).values| == SeparatorCount(s)
  {
    if s != [] {
      ScanValueCount(s[..|s| - 1]);
      ScanQuoteParity(s[..|s| - 1]);
    }
  }

  /** No quote character is ever copied into a value. */
  lemma {:induction false} ScanQuoteFree(s: string)
    ensures '"' !in Scan(s).current
    ensures forall v :: v in Scan(s).values ==> '"' !in v
  {
    if s != [] {
      ScanQuoteFree(s[..|s| - 1]);
    }
  }

  /** Joining the values with commas gives back the line read so far, without its quotes. */
  lemma {:induction false} ScanJoin(s: string)
    ensures Join(Scan(s).values + [Scan(s).current], ',') == RemoveQuotes(s)
  {
    if s != [] {
      var init := s[..|s| - 1];
      var c := s[|s| - 1];
      var st := Scan(init);
      var raw := st.values + [st.current];
      ScanJoin(init);
      if c == '"' {
      } else if c == ',' && !st.inQuotes {
        assert (raw + [""])[..|raw|] == raw;
      } else {
        assert raw[..|raw| - 1] == st.values;
        JoinExtendLast(raw, ',', [c]);
      }
    }
  }

  /** On a line without quotes the loop state is exactly the comma split of the line. */
  lemma {:induction false} ScanIsSplit(s: string)
    requires '"' !in s
    ensures !Scan(s).inQuotes
    ensures Scan(s).values + [Scan(s).current] == Split(s, ',')
  {
    if s != [] {
      var init := s[..|s| - 1];
      assert forall c :: c in init ==> c in s;
      ScanIsSplit(init);
      var st := Scan(init);
      var raw := st.values + [st.current];
      if s[|s| - 1] != ',' {
        assert raw[..|raw| - 1] == st.values;
      }
    }
  }

  // ---------------------------------------------------------------------------
  // Properties of parseCSVLine

  /** A value without quotes is left alone by the unwrap. */
  lemma UnwrapQuoteFree(v: string)
    requires '"' !in v
    ensures Unwrap(v) == v
  {
    if |v| >= 2 {
      assert v[0] in v;
    }
  }

  /** Values without quotes are left alone by the unwrap. */
  lemma {:induction false} UnwrapAllQuoteFree(values: seq<string>)
    requires forall v :: v in values ==> '"' !in v
    ensures UnwrapAll(values) == values
  {
    if values != [] {
      var n := |values| - 1;
      assert forall v :: v in values[..n] ==> v in values;
      UnwrapAllQuoteFree(values[..n]);
      assert values[n] in values;
      UnwrapQuoteFree(values[n]);
      assert values[..n] + [values[n]] == values;
    }
  }

  /** The unwrap at the end of parseCSVLine never changes a value: the fields are the loop's values. */
  lemma ParseLineIsScan(line: string)
    ensures ParseLine(line) == Scan(line).values + [Scan(line).current]
    ensures forall f :: f in ParseLine(line) ==> '"' !in f
  {
    var st := Scan(line);
    ScanQuoteFree(line);
    UnwrapAllQuoteFree(st.values + [st.current]);
  }

  /** There is always at least one field, and one more field than separating commas. */
  lemma FieldCount(line: string)
    ensures |ParseLine(line)| == SeparatorCount(line) + 1
  {
    ScanValueCount(line);
  }

  /** Joining the fields with commas gives back the line with its quotes deleted. */
  lemma JoinFields(line: string)
    ensures Join(ParseLine(line), ',') == RemoveQuotes(line)
  {
    ParseLineIsScan(line);
    ScanJoin(line);
  }

  /**
   * A line without quotes round-trips: its fields are its comma split, none
   * contains a comma, and joining them with commas reproduces the line.
   */
  lemma QuoteFreeRoundTrip(line: string)
    requires '"' !in line
    ensures ParseLine(line) == Split(line, ',')
    ensures forall f :: f in ParseLine(line) ==> ',' !in f
    ensures Join(ParseLine(line), ',') == line
  {
    ParseLineIsScan(line);
    ScanIsSplit(line);
    SplitPiecesFree(line, ',');
    JoinSplit(line, ',');
  }

  /** A line whose last character is a separating comma ends with an empty field. */
  lemma TrailingSeparator(line: string)
    requires |line| > 0 && line[|line| - 1] == ','
    requires Count(line[..|line| - 1], '"') % 2 == 0
    ensures |ParseLine(line)| >= 2 && ParseLine(line)[|ParseLine(line)| - 1] == ""
  {
    ParseLineIsScan(line);
    ScanQuoteParity(line[..|line| - 1]);
  }

  /** Reading on from a point between fields, with no quoted span open, continues as if from the start. */
  lemma {:induction false} ScanAfter(p: string, b: string)
    requires Scan(p).current == "" && !Scan(p).inQuotes
    ensures Scan(p + b) == ScanState(Scan(p).values + Scan(b).values, Scan(b).current, Scan(b).inQuotes)
  {
    if b == [] {
      assert p + b == p;
    } else {
      var init := b[..|b| - 1];
      assert (p + b)[..|p + b| - 1] == p + init;
      ScanAfter(p, init);
      var vs := Scan(p).values;
      var st := Scan(init);
      if b[|b| - 1] == ',' && !st.inQuotes {
        assert vs + st.values + [st.current] == vs + (st.values + [st.current]);
      }
    }
  }

  /**
   * A comma preceded by an even number of quotes ends a field: the line
   * parses as the part before it followed by the part after it.
   */
  lemma SplitAtSeparator(a: string, b: string)
    requires Count(a, '"') % 2 == 0
    ensures ParseLine(a + [','] + b) == ParseLine(a) + ParseLine(b)
  {
    var p := a + [','];
    assert p[..|p| - 1] == a;
    ScanQuoteParity(a);
    ScanAfter(p, b);
    ParseLineIsScan(a + [','] + b);
    ParseLineIsScan(a);
    ParseLineIsScan(b);
  }

  /** A line without a separating comma is one field: the line with its quotes deleted. */
  lemma NoSeparatorField(s: string)
    requires SeparatorCount(s) == 0
    ensures ParseLine(s) == [RemoveQuotes(s)]
  {
    FieldCount(s);
    JoinFields(s);
  }

  /** A comma inside a quoted span is data: `"a,b",c` has the two fields `a,b` and `c`. */
  lemma QuotedCommaExample()
    ensures ParseLine("\"a,b\",c") == ["a,b", "c"]
  {
    var line := "\"a,b\",c";
    assert Scan(line[..1]) == ScanState([], "", true) by { assert line[..1][..0] == []; }
    assert Scan(line[..2]) == ScanState([], "a", true) by { assert line[..2][..1] == line[..1]; }
    assert Scan(line[..3]) == ScanState([], "a,", true) by { assert line[..3][..2] == line[..2]; }
    assert Scan(line[..4]) == ScanState([], "a,b", true) by { assert line[..4][..3] == line[..3]; }
    assert Scan(line[..5]) == ScanState([], "a,b", false) by { assert line[..5][..4] == line[..4]; }
    assert Scan(line[..6]) == ScanState(["a,b"], "", false) by { assert line[..6][..5] == line[..5]; }
    assert Scan(line) == ScanState(["a,b"], "c", false) by { assert line[..6] == line[..|line| - 1]; }
    ParseLineIsScan(line);
  }

  /** `a,b,` has three fields, the last one empty. */
  lemma TrailingCommaExample()
    ensures ParseLine("a,b,") == ["a", "b", ""]
  {
    var line := "a,b,";
    assert Scan(line[..1]) == ScanState([], "a", false) by { assert line[..1][..0] == []; }
    assert Scan(line[..2]) == ScanState(["a"], "", false) by { assert line[..2][..1] == line[..1]; }
    assert Scan(line[..3]) == ScanState(["a"], "b", false) by { assert line[..3][..2] == line[..2]; }
    assert Scan(line) == ScanState(["a", "b"], "", false) by { assert line[..3] == line[..|line| - 1]; }
    ParseLineIsScan(line);
  }
}
