/** The `--foreach` matrix: parsing, printing, and its frontmatter twin. */
module Foreach {
  import opened Text

  datatype Column = Column(name: string, values: seq<string>)

  type Row = map<string, string>

  datatype MatrixError =
    | MissingColon(segment: string)
    | EmptyName(segment: string)
    | DuplicateName(name: string)
    | NoValues(name: string)
    | NoColumns
    | UnequalLengths

  datatype Result<T> = Ok(value: T) | Err(error: MatrixError)

  // ----- One segment -----

  function TrimNonEmpty(parts: seq<string>): seq<string> {
    if parts == [] then []
    else
      var before, last := TrimNonEmpty(parts[..|parts| - 1]), Trim(parts[|parts| - 1]);
      if last == "" then before else before + [last]
  }

  function NameOf(segment: string): string {
    Trim(segment[..Find(segment, ':')])
  }

  function ValuesOf(segment: string): seq<string> {
    var colon := Find(segment, ':');
    if colon == |segment| then [] else TrimNonEmpty(Split(segment[colon + 1..], ','))
  }

  predicate HasName(columns: seq<Column>, name: string) {
    exists c :: c in columns && c.name == name
  }

  /** One turn of the loop over segments; blank segments are skipped. */
  function AddSegment(columns: seq<Column>, raw: string): Result<seq<Column>> {
    var segment := Trim(raw);
    if segment == "" then Ok(columns)
    else if Find(segment, ':') == |segment| then Err(MissingColon(segment))
    else if NameOf(segment) == "" then Err(EmptyName(segment))
    else if HasName(columns, NameOf(segment)) then Err(DuplicateName(NameOf(segment)))
    else if ValuesOf(segment) == [] then Err(NoValues(NameOf(segment)))
    else Ok(columns + [Column(NameOf(segment), ValuesOf(segment))])
  }

  predicate Blank(raw: string) {
    Trim(raw) == ""
  }

  function SegmentName(raw: string): string {
    NameOf(Trim(raw))
  }

  /** A colon, a name before it, and at least one value after it. */
  predicate GoodSegment(raw: string) {
    var s := Trim(raw);
    Find(s, ':') < |s| && NameOf(s) != "" && ValuesOf(s) != []
  }

  /** What one segment does to the columns before it: it adds its column or nothing, or is refused for
      the first of four reasons, in this order. */
  ghost predicate SegmentOutcome(columns: seq<Column>, raw: string, r: Result<seq<Column>>) {
    var segment, name := Trim(raw), SegmentName(raw);
    && (r.Ok? <==> Blank(raw) || (GoodSegment(raw) && !HasName(columns, name)))
    && (r.Ok? ==> r.value == if Blank(raw) then columns else columns + [Column(name, ValuesOf(segment))])
    && (r.Err? ==>
          match r.error
          case MissingColon(s) => s == segment && ':' !in segment
          case EmptyName(s) => s == segment && ':' in segment && name == ""
          case DuplicateName(n) => n == name != "" && ':' in segment && HasName(columns, name)
          case NoValues(n) =>
            n == name != "" && ':' in segment && !HasName(columns, name) && ValuesOf(segment) == []
          case NoColumns => false
          case UnequalLengths => false)
  }

  lemma ColonFound(s: string)
    ensures Find(s, ':') < |s| <==> ':' in s
  {
  }

  /** There is only one such outcome. */
  lemma SegmentOutcomeIs(columns: seq<Column>, raw: string, r: Result<seq<Column>>)
    ensures SegmentOutcome(columns, raw, r) <==> r == AddSegment(columns, raw)
  {
    hide Trim, NameOf, ValuesOf, HasName, Find;
    ColonFound(Trim(raw));
  }

  function ParseColumns(segments: seq<string>): Result<seq<Column>> {
    if segments == [] then Ok([])
    else
      var before := ParseColumns(segments[..|segments| - 1]);
      if before.Err? then before else AddSegment(before.value, segments[|segments| - 1])
  }

  // ----- Rows -----

  predicate SameLength(columns: seq<Column>, n: nat) {
    forall c :: c in columns ==> |c.values| == n
  }

  function RowAt(columns: seq<Column>, i: nat): Row
    requires forall c :: c in columns ==> i < |c.values|
  {
    if columns == [] then map[]
    else
      var last := columns[|columns| - 1];
      assert last in columns;
      RowAt(columns[..|columns| - 1], i)[last.name := last.values[i]]
  }

  function Rows(columns: seq<Column>, n: nat): (rows: seq<Row>)
    requires SameLength(columns, n)
    ensures |rows| == n && forall i :: 0 <= i < n ==> rows[i] == RowAt(columns, i)
  {
    seq(n, i requires 0 <= i < n => RowAt(columns, i))
  }

  function Finish(columns: seq<Column>): Result<seq<Row>> {
    if columns == [] then Err(NoColumns)
    else
      var n := |columns[0].values|;
      if SameLength(columns, n) then Ok(Rows(columns, n)) else Err(UnequalLengths)
  }

  function Parse(input: string): Result<seq<Row>> {
    var columns := ParseColumns(Split(input, ';'));
    if columns.Err? then Err(columns.error) else Finish(columns.value)
  }

  method ParseForeachMatrix(input: string) returns (r: Result<seq<Row>>)
    ensures r == Parse(input)
  {
    hide Split, Trim, AddSegment, SegmentOutcome;
    var segments := Split(input, ';');
    var columns: seq<Column> := [];
    for i := 0 to |segments|
      invariant ParseColumns(segments[..i]) == Ok(columns)
    {
      assert segments[..i + 1][..i] == segments[..i];
      var step := AddColumn(columns, segments[i]);
      SegmentOutcomeIs(columns, segments[i], step);
      if step.Err? {
        ErrorStays(segments, i + 1);
        return Err(step.error);
      }
      columns := step.value;
    }
    assert segments[..|segments|] == segments;
    if columns == [] {
      return Err(NoColumns);
    }
    var expected := |columns[0].values|;
    for i := 0 to |columns|
      invariant forall j :: 0 <= j < i ==> |columns[j].values| == expected
    {
      if |columns[i].values| != expected {
        assert columns[i] in columns;
        return Err(UnequalLengths);
      }
    }
    assert SameLength(columns, expected);
    var rows := ZipColumns(columns, expected);
    return Ok(rows);
  }

  /** The loops that zip the columns into rows. */
  method ZipColumns(columns: seq<Column>, n: nat) returns (rows: seq<Row>)
    requires SameLength(columns, n)
    ensures rows == Rows(columns, n)
  {
    rows := [];
    for index := 0 to n
      invariant |rows| == index && forall i :: 0 <= i < index ==> rows[i] == RowAt(columns, i)
    {
      var row: Row := map[];
      for j := 0 to |columns|
        invariant row == RowAt(columns[..j], index)
      {
        assert columns[..j + 1][..j] == columns[..j];
        row := row[columns[j].name := columns[j].values[index]];
      }
      assert columns[..|columns|] == columns;
      rows := rows + [row];
    }
    assert rows == Rows(columns, n);
  }

  /** The checks on one segment, in the order they are made, against the names seen so far. */
  method AddColumn(columns: seq<Column>, raw: string) returns (r: Result<seq<Column>>)
    ensures SegmentOutcome(columns, raw, r)
  {
    hide Trim, Split, TrimNonEmpty;
    ColonFound(Trim(raw));
    var trimmed := Trim(raw);
    if trimmed == "" {
      return Ok(columns);
    }
    var colon := Find(trimmed, ':');
    if colon == |trimmed| {
      return Err(MissingColon(trimmed));
    }
    var key := Trim(trimmed[..colon]);
    if key == "" {
      return Err(EmptyName(trimmed));
    }
    var seen := set c | c in columns :: c.name;
    assert key in seen <==> HasName(columns, key);
    if key in seen {
      return Err(DuplicateName(key));
    }
    var values := TrimNonEmpty(Split(trimmed[colon + 1..], ','));
    if values == [] {
      return Err(NoValues(key));
    }
    return Ok(columns + [Column(key, values)]);
  }

  lemma {:induction false} ErrorStays(segments: seq<string>, n: nat)
    requires n <= |segments| && ParseColumns(segments[..n]).Err?
    ensures ParseColumns(segments) == ParseColumns(segments[..n])
    decreases |segments|
  {
    hide AddSegment;
    if n == |segments| {
      assert segments[..n] == segments;
    } else {
      var init := segments[..|segments| - 1];
      assert init[..n] == segments[..n];
      ErrorStays(init, n);
    }
  }

  // ----- What acceptance means -----

  predicate DistinctNames(columns: seq<Column>) {
    forall i, j :: 0 <= i < j < |columns| ==> columns[i].name != columns[j].name
  }

  /** Neither blank nor padded. */
  predicate GoodText(s: string) {
    s != "" && Trimmed(s)
  }

  predicate GoodTexts(values: seq<string>) {
    forall i :: 0 <= i < |values| ==> GoodText(values[i])
  }

  predicate GoodColumn(c: Column) {
    GoodText(c.name) && c.values != [] && GoodTexts(c.values)
  }

  lemma {:induction false} TrimNonEmptyGood(parts: seq<string>)
    ensures GoodTexts(TrimNonEmpty(parts))
  {
    if parts == [] {
    } else {
      TrimNonEmptyGood(parts[..|parts| - 1]);
      TrimIsTrimmed(parts[|parts| - 1]);
    }
  }

  lemma {:induction false} ParsedColumnsAreGood(segments: seq<string>)
    requires ParseColumns(segments).Ok?
    ensures var cs := ParseColumns(segments).value;
      DistinctNames(cs) && forall c :: c in cs ==> GoodColumn(c)
  {
    hide Trim, Split, TrimNonEmpty;
    if segments == [] {
    } else {
      var n := |segments| - 1;
      ParsedColumnsAreGood(segments[..n]);
      var segment := Trim(segments[n]);
      var colon := Find(segment, ':');
      if colon < |segment| {
        TrimIsTrimmed(segment[..colon]);
        TrimNonEmptyGood(Split(segment[colon + 1..], ','));
      }
      var before := ParseColumns(segments[..n]).value;
      assert forall i :: 0 <= i < |before| ==> before[i] in before;
    }
  }

  lemma {:induction false} RowHoldsValues(columns: seq<Column>, i: nat)
    requires DistinctNames(columns) && forall c :: c in columns ==> i < |c.values|
    ensures var row := RowAt(columns, i);
      && (forall k :: 0 <= k < |columns| ==> columns[k].name in row && row[columns[k].name] == columns[k].values[i])
      && (forall name :: name in row ==> HasName(columns, name))
  {
    hide HasName;
    if columns == [] {
    } else {
      var n := |columns| - 1;
      var init, last := columns[..n], columns[n];
      assert last in columns && columns == init + [last];
      RowHoldsValues(init, i);
      forall k | 0 <= k < n ensures columns[k].name != last.name && columns[k] == init[k] {
      }
      forall name ensures HasName(columns, name) <==> HasName(init, name) || last.name == name {
        NamesOneMore(init, last, name);
      }
    }
  }

  /** An accepted matrix has at least one column, distinct non-empty names, and equal positive numbers
      of non-empty values; row i gives every variable its i-th value and nothing else. */
  lemma AcceptedMatrix(input: string)
    requires Parse(input).Ok?
    ensures var columns := ParseColumns(Split(input, ';')).value; var rows := Parse(input).value;
      && ParseColumns(Split(input, ';')).Ok?
      && columns != [] && DistinctNames(columns) && (forall c :: c in columns ==> GoodColumn(c))
      && |rows| > 0 && SameLength(columns, |rows|)
      && (forall i, k :: 0 <= i < |rows| && 0 <= k < |columns| ==>
            columns[k].name in rows[i] && rows[i][columns[k].name] == columns[k].values[i])
      && (forall i, name :: 0 <= i < |rows| && name in rows[i] ==> HasName(columns, name))
  {
    hide ParseColumns, Split, RowAt;
    var columns := ParseColumns(Split(input, ';')).value;
    ParsedColumnsAreGood(Split(input, ';'));
    assert columns[0] in columns;
    forall i | 0 <= i < |Parse(input).value| {
      RowHoldsValues(columns, i);
    }
  }

  // ----- Exactly which inputs are accepted -----

  predicate Clash(a: string, b: string) {
    !Blank(a) && !Blank(b) && SegmentName(a) == SegmentName(b)
  }

  predicate AcceptableSegments(segments: seq<string>) {
    && (forall i :: 0 <= i < |segments| ==> Blank(segments[i]) || GoodSegment(segments[i]))
    && (forall i, j :: 0 <= i < j < |segments| ==> !Clash(segments[i], segments[j]))
  }

  lemma NamesOneMore(columns: seq<Column>, c: Column, name: string)
    ensures HasName(columns + [c], name) <==> HasName(columns, name) || c.name == name
  {
    if HasName(columns, name) {
      var d :| d in columns && d.name == name;
      assert d in columns + [c];
    }
    assert c in columns + [c];
  }

  /** The segments are accepted exactly when each is blank or well formed and no name comes twice. */
  lemma {:induction false} ColumnsAcceptedIff(segments: seq<string>)
    ensures ParseColumns(segments).Ok? <==> AcceptableSegments(segments)
    ensures ParseColumns(segments).Ok? ==> forall name ::
      HasName(ParseColumns(segments).value, name)
      <==> exists i :: 0 <= i < |segments| && !Blank(segments[i]) && SegmentName(segments[i]) == name
  {
    hide Blank, GoodSegment, SegmentName, AddSegment, HasName;
    if segments == [] {
      forall name ensures !HasName([], name) {
        NoNames(name);
      }
    } else {
      var n := |segments| - 1;
      var init, last := segments[..n], segments[n];
      ColumnsAcceptedIff(init);
      assert AcceptableSegments(segments) ==> AcceptableSegments(init);
      var before := ParseColumns(init);
      if before.Ok? {
        SegmentOutcomeIs(before.value, last, AddSegment(before.value, last));
        assert forall i :: 0 <= i < n ==> init[i] == segments[i];
        assert ParseColumns(segments) == AddSegment(before.value, last);
        if ParseColumns(segments).Ok? {
          forall name
            ensures HasName(ParseColumns(segments).value, name)
              <==> exists i :: 0 <= i < |segments| && !Blank(segments[i]) && SegmentName(segments[i]) == name
          {
            NamesOneMore(before.value, Column(SegmentName(last), ValuesOf(Trim(last))), name);
          }
        }
      }
    }
  }

  lemma NoNames(name: string)
    ensures !HasName([], name)
  {
  }

  // ----- Which texts are accepted, and what they say -----

  /** `raw` is `s` with white space around it. */
  ghost predicate Pads(raw: string, s: string) {
    exists pre, post :: AllSpaces(pre) && AllSpaces(post) && raw == pre + s + post
  }

  /** `raws` are `values` with white space around each, and blank texts between them. */
  ghost predicate PadsAll(raws: seq<string>, values: seq<string>) {
    if raws == [] then values == []
    else
      var init, last := raws[..|raws| - 1], raws[|raws| - 1];
      || (AllSpaces(last) && PadsAll(init, values))
      || (values != [] && Pads(last, values[|values| - 1]) && PadsAll(init, values[..|values| - 1]))
  }

  /** `segment` is a name, a colon, and values with commas between them, all of them padded. */
  ghost predicate Spells(segment: string, c: Column) {
    exists name, values ::
      && segment == name + ":" + Join(values, ",") && values != []
      && ':' !in name && (forall v :: v in values ==> ',' !in v)
      && Pads(name, c.name) && PadsAll(values, c.values)
  }

  /** The segments spell the columns in order, with blank segments between them. */
  ghost predicate SpellsAll(segments: seq<string>, columns: seq<Column>) {
    if segments == [] then columns == []
    else
      var init, last := segments[..|segments| - 1], segments[|segments| - 1];
      || (AllSpaces(last) && SpellsAll(init, columns))
      || (columns != [] && Spells(last, columns[|columns| - 1]) && SpellsAll(init, columns[..|columns| - 1]))
  }

  /** A matrix: columns of good texts with different names and equally many values each. */
  predicate IsMatrix(columns: seq<Column>, n: nat) {
    && columns != [] && n > 0 && DistinctNames(columns) && SameLength(columns, n)
    && forall c :: c in columns ==> GoodColumn(c)
  }

  lemma PadsIff(raw: string, s: string)
    requires GoodText(s)
    ensures Pads(raw, s) <==> Trim(raw) == s
  {
    hide Trim;
    SpaceIs(s[0]);
    SpaceIs(s[|s| - 1]);
    if Pads(raw, s) {
      var pre, post :| AllSpaces(pre) && AllSpaces(post) && raw == pre + s + post;
      TrimDropsSpaces(pre, s, post);
    }
    if Trim(raw) == s {
      var pre, post := TrimParts(raw);
    }
  }

  lemma {:induction false} PadsAllIff(raws: seq<string>, values: seq<string>)
    requires GoodTexts(values)
    ensures PadsAll(raws, values) <==> TrimNonEmpty(raws) == values
  {
    hide Trim, Pads, AllSpaces;
    if raws == [] {
    } else {
      var init, last := raws[..|raws| - 1], raws[|raws| - 1];
      BlankIff(last);
      PadsAllIff(init, values);
      if values != [] {
        var before := values[..|values| - 1];
        PadsIff(last, values[|values| - 1]);
        PadsAllIff(init, before);
        assert values == before + [values[|values| - 1]];
      }
    }
  }

  // White space at the end of a list of values

  function ExtendLast(parts: seq<string>, x: char): seq<string>
    requires parts != []
  {
    parts[..|parts| - 1] + [parts[|parts| - 1] + [x]]
  }

  lemma {:induction false} JoinExtend(parts: seq<string>, sep: string, x: char)
    requires parts != []
    ensures Join(ExtendLast(parts, x), sep) == Join(parts, sep) + [x]
  {
    if |parts| == 1 {
    } else {
      JoinExtend(parts[1..], sep, x);
      assert ExtendLast(parts, x)[1..] == ExtendLast(parts[1..], x);
      assert parts[0] + sep + (Join(parts[1..], sep) + [x]) == parts[0] + sep + Join(parts[1..], sep) + [x];
    }
  }

  lemma SplitExtend(s: string, x: char, c: char)
    requires x != c
    ensures Split(s + [x], c) == ExtendLast(Split(s, c), x)
  {
    hide Split, Join;
    var parts := Split(s, c);
    JoinOfSplit(s, c);
    SplitPartsArePlain(s, c);
    JoinExtend(parts, [c], x);
    SplitOfJoin(ExtendLast(parts, x), c);
  }

  lemma TrimOfExtended(s: string, x: char)
    requires IsSpace(x)
    ensures Trim(s + [x]) == Trim(s)
  {
    hide Trim;
    SpaceIs(x);
    var pre, post := TrimParts(s);
    var t := Trim(s);
    TrimIsTrimmed(s);
    if t != "" {
      SpaceIs(t[0]);
      SpaceIs(t[|t| - 1]);
    }
    assert s + [x] == pre + t + (post + [x]);
    TrimDropsSpaces(pre, t, post + [x]);
  }

  lemma {:induction false} ValuesIgnoreEnd(s: string, post: string)
    requires AllSpaces(post)
    ensures TrimNonEmpty(Split(s + post, ',')) == TrimNonEmpty(Split(s, ','))
  {
    hide Trim, Split;
    if post == "" {
      assert s + post == s;
    } else {
      var n := |post| - 1;
      var x := post[n];
      ValuesIgnoreEnd(s, post[..n]);
      var parts := Split(s + post[..n], ',');
      assert s + post == s + post[..n] + [x];
      SpaceIs(x);
      SplitExtend(s + post[..n], x, ',');
      TrimOfExtended(parts[|parts| - 1], x);
    }
  }

  /** A segment that trims to `a`, a colon and `b`. */
  lemma SegmentAt(a: string, b: string)
    requires ':' !in a
    ensures Find(a + ":" + b, ':') == |a|
    ensures NameOf(a + ":" + b) == Trim(a)
    ensures ValuesOf(a + ":" + b) == TrimNonEmpty(Split(b, ','))
  {
    hide Trim, Split, TrimNonEmpty;
    var s := a + ":" + b;
    FindAfter(a, ':', b);
    assert [':'] == ":";
    assert s[..|a|] == a && s[|a| + 1..] == b;
  }

  /** Around the colon, trimming a segment only takes white space off its two ends. */
  lemma SpelledTrims(name: string, values: string, good: string)
    requires GoodText(good) && ':' !in name && Trim(name) == good
    ensures var t := Trim(name + ":" + values);
      !Blank(name + ":" + values) && Find(t, ':') < |t| && NameOf(t) == good
      && ValuesOf(t) == TrimNonEmpty(Split(values, ','))
  {
    hide Trim, NameOf, ValuesOf, TrimNonEmpty, Split, Find;
    var segment := name + ":" + values;
    var pre, post := TrimParts(name);
    var body := ":" + values;
    var end := DroppedAtEnd(body);
    var v := TrimEnd(body);
    SpaceIs(':');
    KeepsColon(values);
    var t := good + post + v;
    assert segment == pre + t + end;
    SpaceIs(good[0]);
    TrimEndEnds(body);
    SpaceIs(v[|v| - 1]);
    TrimDropsSpaces(pre, t, end);
    assert t == (good + post) + ":" + v[1..];
    SegmentAt(good + post, v[1..]);
    assert good + post == "" + good + post;
    SpaceIs(good[|good| - 1]);
    TrimDropsSpaces("", good, post);
    ValuesIgnoreEnd(v[1..], end);
    assert body[1..] == values && (v + end)[1..] == v[1..] + end;
  }

  lemma KeepsColon(values: string)
    ensures var v := TrimEnd(":" + values); v != "" && v[0] == ':'
  {
    hide TrimEnd;
    TrimEndKeeps(":" + values);
    TrimEndEnds(":" + values);
  }

  /** A segment is read as a column exactly when it spells it. */
  lemma SpellsIff(segment: string, c: Column)
    requires GoodColumn(c)
    ensures Spells(segment, c)
      <==> GoodSegment(segment) && SegmentName(segment) == c.name && ValuesOf(Trim(segment)) == c.values
  {
    hide Trim, NameOf, ValuesOf, TrimNonEmpty, Split, Find, Join, Pads, PadsAll;
    if Spells(segment, c) {
      var name, values :|
        && segment == name + ":" + Join(values, ",") && values != []
        && ':' !in name && (forall v :: v in values ==> ',' !in v)
        && Pads(name, c.name) && PadsAll(values, c.values);
      PadsIff(name, c.name);
      SpelledTrims(name, Join(values, ","), c.name);
      SplitOfJoin(values, ',');
      assert [','] == ",";
      PadsAllIff(values, c.values);
    }
    if GoodSegment(segment) && SegmentName(segment) == c.name && ValuesOf(Trim(segment)) == c.values {
      GoodIsSpelled(segment, c);
    }
  }

  lemma GoodIsSpelled(segment: string, c: Column)
    requires GoodColumn(c)
    requires GoodSegment(segment) && SegmentName(segment) == c.name && ValuesOf(Trim(segment)) == c.values
    ensures Spells(segment, c)
  {
    hide Trim, TrimNonEmpty, Split, Join, Pads, PadsAll;
    var t := Trim(segment);
    var pre, post := TrimParts(segment);
    var k := Find(t, ':');
    var name, tail := pre + t[..k], t[k + 1..] + post;
    var values := Split(tail, ',');
    assert t == t[..k] + ":" + t[k + 1..];
    JoinOfSplit(tail, ',');
    SplitPartsArePlain(tail, ',');
    assert [','] == ",";
    assert segment == name + ":" + Join(values, ",");
    assert ':' !in pre by { SpacesLackColon(pre); }
    PaddedName(pre, t[..k], c.name);
    ValuesIgnoreEnd(t[k + 1..], post);
    PadsAllIff(values, c.values);
  }

  lemma SpacesLackColon(s: string)
    requires AllSpaces(s)
    ensures ':' !in s
  {
  }

  lemma PaddedName(pre: string, raw: string, name: string)
    requires AllSpaces(pre) && Trim(raw) == name
    ensures Pads(pre + raw, name)
  {
    hide Trim;
    var before, after := TrimParts(raw);
    assert pre + raw == (pre + before) + name + after;
  }

  lemma {:induction false} SpellsAllIff(segments: seq<string>, columns: seq<Column>)
    requires DistinctNames(columns) && forall c :: c in columns ==> GoodColumn(c)
    ensures SpellsAll(segments, columns) <==> ParseColumns(segments) == Ok(columns)
  {
    hide Trim, GoodSegment, ValuesOf, Spells, GoodColumn, HasName, AllSpaces, SegmentName, AddSegment;
    if segments == [] {
    } else {
      var init, last := segments[..|segments| - 1], segments[|segments| - 1];
      BlankIff(last);
      SpellsAllIff(init, columns);
      var before := ParseColumns(init);
      if before.Ok? {
        SegmentOutcomeIs(before.value, last, AddSegment(before.value, last));
      }
      if columns != [] {
        SpellsAllIff(init, columns[..|columns| - 1]);
        LastColumn(init, last, columns);
      } else if before.Ok? && AddSegment(before.value, last) == Ok([]) {
        assert Blank(last);
      }
    }
  }

  /** The step of `SpellsAllIff`: the last segment spells the last column. */
  lemma LastColumn(init: seq<string>, last: string, columns: seq<Column>)
    requires columns != [] && DistinctNames(columns) && forall c :: c in columns ==> GoodColumn(c)
    requires SpellsAll(init, columns[..|columns| - 1]) <==> ParseColumns(init) == Ok(columns[..|columns| - 1])
    ensures Spells(last, columns[|columns| - 1]) && SpellsAll(init, columns[..|columns| - 1])
      <==> ParseColumns(init).Ok? && !Blank(last) && AddSegment(ParseColumns(init).value, last) == Ok(columns)
  {
    hide Trim, GoodSegment, ValuesOf, Spells, GoodColumn, SegmentName, AddSegment, ParseColumns, SpellsAll;
    var n := |columns| - 1;
    var before, c := columns[..n], columns[n];
    assert columns == before + [c];
    assert c in columns;
    SpellsIff(last, c);
    BlankIsNotGood(last);
    assert !HasName(before, c.name);
    SegmentOutcomeIs(before, last, AddSegment(before, last));
    if ParseColumns(init).Ok? {
      var parsed := ParseColumns(init).value;
      SegmentOutcomeIs(parsed, last, AddSegment(parsed, last));
      if !Blank(last) && AddSegment(parsed, last) == Ok(columns) {
        var added := Column(SegmentName(last), ValuesOf(Trim(last)));
        assert parsed + [added] == before + [c];
        assert parsed == (parsed + [added])[..n] && added == (parsed + [added])[n];
      }
    }
  }

  lemma BlankIsNotGood(s: string)
    ensures Blank(s) ==> !GoodSegment(s)
  {
  }

  /** A text is accepted exactly when its segments spell a matrix, and then the rows are that matrix's:
      white space around names and values and blank segments and values do not matter, and nothing else is
      dropped. */
  lemma AcceptedIff(input: string, rows: seq<Row>)
    ensures Parse(input) == Ok(rows)
      <==> exists columns, n: nat ::
             SpellsAll(Split(input, ';'), columns) && IsMatrix(columns, n) && rows == Rows(columns, n)
  {
    hide ParseColumns, Split, SpellsAll, GoodColumn, RowAt;
    var segments := Split(input, ';');
    if Parse(input) == Ok(rows) {
      var columns := ParseColumns(segments).value;
      ParsedColumnsAreGood(segments);
      SpellsAllIff(segments, columns);
      assert columns[0] in columns;
      HasValues(columns[0]);
      assert IsMatrix(columns, |columns[0].values|);
    }
    if columns, n: nat :| SpellsAll(segments, columns) && IsMatrix(columns, n) && rows == Rows(columns, n) {
      SpellsAllIff(segments, columns);
      assert columns[0] in columns;
    }
  }

  /** Some column has `m` values, and some has `n`. */
  predicate HasLengths(columns: seq<Column>, m: nat, n: nat) {
    (exists c :: c in columns && |c.values| == m) && (exists c :: c in columns && |c.values| == n)
  }

  /** The segments before `i` spell the columns, and with them segment `i` is wrong. */
  ghost predicate StopsAt(segments: seq<string>, i: nat, columns: seq<Column>, error: MatrixError) {
    i < |segments| && SpellsAll(segments[..i], columns) && SegmentOutcome(columns, segments[i], Err(error))
  }

  ghost predicate Stops(segments: seq<string>, error: MatrixError) {
    exists i: nat, columns :: StopsAt(segments, i, columns, error)
  }

  /** What a rejected text is told: that it spells no column, that its columns have different lengths, or
      what is wrong with the first segment that does not go with those before it. */
  lemma ErrorIs(input: string)
    requires Parse(input).Err?
    ensures var segments, error := Split(input, ';'), Parse(input).error;
      if error == NoColumns then forall i :: 0 <= i < |segments| ==> AllSpaces(segments[i])
      else if error == UnequalLengths then
        exists columns, m: nat, n: nat :: SpellsAll(segments, columns) && HasLengths(columns, m, n) && m != n
      else Stops(segments, error)
  {
    hide Split, SpellsAll, GoodColumn, AllSpaces, ParseColumns, StopsAt, HasLengths;
    var segments := Split(input, ';');
    var parsed := ParseColumns(segments);
    if parsed.Err? {
      var i, columns := FirstBadSegment(segments);
      assert Stops(segments, parsed.error);
    } else {
      var columns := parsed.value;
      ParsedColumnsAreGood(segments);
      SpellsAllIff(segments, columns);
      if columns == [] {
        SpellsNothing(segments);
      } else {
        var n := |columns[0].values|;
        assert columns[0] in columns && !SameLength(columns, n);
        var c :| c in columns && |c.values| != n;
        LengthsAre(columns, columns[0], c);
        assert SpellsAll(segments, columns) && HasLengths(columns, n, |c.values|);
      }
    }
  }

  lemma LengthsAre(columns: seq<Column>, c: Column, d: Column)
    requires c in columns && d in columns
    ensures HasLengths(columns, |c.values|, |d.values|)
  {
  }

  lemma {:induction false} SpellsNothing(segments: seq<string>)
    requires SpellsAll(segments, [])
    ensures forall i :: 0 <= i < |segments| ==> AllSpaces(segments[i])
  {
    hide AllSpaces, Spells;
    if segments == [] {
    } else {
      SpellsNothing(segments[..|segments| - 1]);
    }
  }

  lemma {:induction false} FirstBadSegment(segments: seq<string>) returns (i: nat, columns: seq<Column>)
    requires ParseColumns(segments).Err?
    ensures StopsAt(segments, i, columns, ParseColumns(segments).error)
    ensures ParseColumns(segments).error != NoColumns && ParseColumns(segments).error != UnequalLengths
  {
    hide SpellsAll, GoodColumn, AddSegment;
    var n := |segments| - 1;
    var before := ParseColumns(segments[..n]);
    if before.Ok? {
      i, columns := n, before.value;
      ParsedColumnsAreGood(segments[..n]);
      SpellsAllIff(segments[..n], columns);
      SegmentOutcomeIs(columns, segments[n], AddSegment(columns, segments[n]));
    } else {
      i, columns := FirstBadSegment(segments[..n]);
      assert segments[..n][..i] == segments[..i];
    }
  }

  lemma HasValues(c: Column)
    requires GoodColumn(c)
    ensures c.values != []
  {
  }

  // ----- Printing -----

  function PrintColumn(c: Column): string {
    c.name + ":" + Join(c.values, ",")
  }

  function PrintColumns(columns: seq<Column>): (segments: seq<string>)
    ensures |segments| == |columns|
    ensures forall k :: 0 <= k < |columns| ==> segments[k] == PrintColumn(columns[k])
  {
    if columns == [] then [] else PrintColumns(columns[..|columns| - 1]) + [PrintColumn(columns[|columns| - 1])]
  }

  function Print(columns: seq<Column>): string {
    Join(PrintColumns(columns), ";")
  }

  /** A column that survives printing: trimmed, non-empty, and free of the separators around it. */
  predicate Printable(c: Column) {
    && GoodColumn(c)
    && ':' !in c.name && ';' !in c.name
    && forall v :: v in c.values ==> ',' !in v && ';' !in v
  }

  lemma {:induction false} TrimNonEmptyOfGood(values: seq<string>)
    requires GoodTexts(values)
    ensures TrimNonEmpty(values) == values
  {
    hide Trim;
    if values == [] {
    } else {
      var init, last := values[..|values| - 1], values[|values| - 1];
      assert last in values;
      TrimNonEmptyOfGood(init);
      TrimOfTrimmed(last);
      assert values == init + [last];
    }
  }

  lemma {:induction false} JoinLacks(parts: seq<string>, sep: string, c: char)
    requires c !in sep && forall p :: p in parts ==> c !in p
    ensures c !in Join(parts, sep)
  {
    if |parts| <= 1 {
    } else {
      JoinLacks(parts[1..], sep, c);
    }
  }

  lemma {:induction false} JoinEnds(parts: seq<string>, sep: string)
    requires parts != [] && GoodTexts(parts)
    ensures var s := Join(parts, sep); s != "" && !IsSpace(s[|s| - 1])
  {
    assert GoodText(parts[0]);
    if |parts| <= 1 {
    } else {
      JoinEnds(parts[1..], sep);
    }
  }

  lemma FindAfter(a: string, c: char, b: string)
    requires c !in a
    ensures Find(a + [c] + b, c) == |a|
  {
    var s := a + [c] + b;
    assert s[|a|] == c;
    assert forall i :: 0 <= i < |a| ==> s[i] == a[i];
  }

  lemma PrintedColumnReadsBack(columns: seq<Column>, c: Column)
    requires Printable(c) && !HasName(columns, c.name)
    ensures AddSegment(columns, PrintColumn(c)) == Ok(columns + [c])
  {
    hide Trim, Split, TrimNonEmpty, Join;
    var s, values := PrintColumn(c), Join(c.values, ",");
    assert s == c.name + [':'] + values;
    JoinEnds(c.values, ",");
    assert s[0] == c.name[0] && s[|s| - 1] == values[|values| - 1];
    TrimOfTrimmed(s);
    FindAfter(c.name, ':', values);
    assert s[..|c.name|] == c.name && s[|c.name| + 1..] == values;
    TrimOfTrimmed(c.name);
    SplitOfJoin(c.values, ',');
    assert [','] == ",";
    TrimNonEmptyOfGood(c.values);
  }

  lemma {:induction false} PrintedColumnsReadBack(columns: seq<Column>)
    requires DistinctNames(columns) && forall k :: 0 <= k < |columns| ==> Printable(columns[k])
    ensures ParseColumns(PrintColumns(columns)) == Ok(columns)
  {
    hide Printable, PrintColumn, AddSegment;
    if columns == [] {
    } else {
      var n := |columns| - 1;
      PrintedColumnsReadBack(columns[..n]);
      var segments := PrintColumns(columns);
      assert segments[..n] == PrintColumns(columns[..n]);
      PrintedColumnReadsBack(columns[..n], columns[n]);
      assert columns[..n] + [columns[n]] == columns;
    }
  }

  lemma PrintedLacksSemicolon(c: Column)
    requires Printable(c)
    ensures ';' !in PrintColumn(c)
  {
    JoinLacks(c.values, ",", ';');
  }

  /** Printing a matrix and parsing it gives back the same rows. */
  lemma PrintParses(columns: seq<Column>, n: nat)
    requires columns != [] && DistinctNames(columns) && SameLength(columns, n)
    requires forall k :: 0 <= k < |columns| ==> Printable(columns[k])
    ensures Parse(Print(columns)) == Ok(Rows(columns, n))
  {
    hide Printable, PrintColumn, ParseColumns, Join, Split;
    var segments := PrintColumns(columns);
    forall p | p in segments ensures ';' !in p {
      var k :| 0 <= k < |segments| && segments[k] == p;
      PrintedLacksSemicolon(columns[k]);
    }
    SplitOfJoin(segments, ';');
    assert [';'] == ";";
    PrintedColumnsReadBack(columns);
    assert columns[0] in columns;
  }

  // ----- The frontmatter twin -----

  datatype FrontmatterError = NoVariables | NoRows | Unequal(key: string)

  datatype FrontmatterResult = Accepted(rows: seq<Row>) | Rejected(error: FrontmatterError)

  predicate EqualLengths(vars: map<string, seq<string>>, n: nat) {
    forall k :: k in vars ==> |vars[k]| == n
  }

  /** Row i maps each variable to its i-th value. */
  function FrontmatterRow(vars: map<string, seq<string>>, n: nat, i: nat): Row
    requires EqualLengths(vars, n) && i < n
  {
    map k | k in vars :: vars[k][i]
  }

  /** `key` is the least key whose list has not the length of the first key's list. */
  predicate FirstMisfit(vars: map<string, seq<string>>, first: string, key: string)
    requires first in vars
  {
    && key in vars && |vars[key]| != |vars[first]|
    && forall k :: k in vars && Less(k, key) ==> |vars[k]| == |vars[first]|
  }

  lemma FirstIsLeast(s: set<string>, keys: seq<string>)
    requires keys != [] && StrictlySorted(keys) && forall k :: k in keys <==> k in s
    ensures IsLeast(keys[0], s)
  {
    assert keys[0] in keys;
    forall y | y in s && y != keys[0] ensures Less(keys[0], y) {
      var k :| 0 <= k < |keys| && keys[k] == y;
    }
  }

  lemma FirstMisfitAt(vars: map<string, seq<string>>, keys: seq<string>, i: nat)
    requires i < |keys| && StrictlySorted(keys) && forall k :: k in keys <==> k in vars
    requires keys[0] in vars && keys[i] in vars
    requires |vars[keys[i]]| != |vars[keys[0]]|
    requires forall j :: 0 <= j < i ==> keys[j] in vars && |vars[keys[j]]| == |vars[keys[0]]|
    ensures FirstMisfit(vars, keys[0], keys[i])
  {
    forall k | k in vars && Less(k, keys[i]) ensures |vars[k]| == |vars[keys[0]]| {
      var j :| 0 <= j < |keys| && keys[j] == k;
      if j == i {
        LessIrreflexive(k);
      } else if j > i {
        assert Less(keys[i], keys[j]);
        LessTransitive(k, keys[i], k);
        LessIrreflexive(k);
      }
    }
  }

  /** The loops visit the variables in key order. */
  method ForeachFromFrontmatter(vars: map<string, seq<string>>) returns (r: FrontmatterResult)
    ensures r.Accepted? <==> vars.Keys != {} && exists n :: n > 0 && EqualLengths(vars, n)
    ensures r.Accepted? ==>
      && EqualLengths(vars, |r.rows|)
      && forall i :: 0 <= i < |r.rows| ==> r.rows[i] == FrontmatterRow(vars, |r.rows|, i)
    ensures r.Rejected? && r.error == NoVariables <==> vars.Keys == {}
    ensures r.Rejected? && r.error == NoRows <==> exists first :: IsLeast(first, vars.Keys) && vars[first] == []
    ensures r.Rejected? && r.error.Unequal? ==>
      exists first :: IsLeast(first, vars.Keys) && vars[first] != [] && FirstMisfit(vars, first, r.error.key)
  {
    hide InOrder, StrictlySorted;
    if vars.Keys == {} {
      return Rejected(NoVariables);
    }
    var keys := InOrder(vars.Keys);
    KeysNonEmpty(vars.Keys, keys);
    assert keys[0] in vars;
    FirstIsLeast(vars.Keys, keys);
    OneLeast(vars.Keys);
    var expected := |vars[keys[0]]|;
    if expected == 0 {
      return Rejected(NoRows);
    }
    for i := 0 to |keys|
      invariant forall j :: 0 <= j < i ==> |vars[keys[j]]| == expected
    {
      assert keys[i] in vars;
      if |vars[keys[i]]| != expected {
        FirstMisfitAt(vars, keys, i);
        return Rejected(Unequal(keys[i]));
      }
    }
    assert EqualLengths(vars, expected) by {
      forall k | k in vars ensures |vars[k]| == expected {
        assert k in keys;
      }
    }
    var rows: seq<Row> := [];
    for index := 0 to expected
      invariant |rows| == index && forall i :: 0 <= i < index ==> rows[i] == FrontmatterRow(vars, expected, i)
    {
      var row := ZipRow(vars, keys, expected, index);
      rows := rows + [row];
    }
    return Accepted(rows);
  }

  method ZipRow(vars: map<string, seq<string>>, keys: seq<string>, n: nat, index: nat) returns (row: Row)
    requires EqualLengths(vars, n) && index < n
    requires forall k :: k in keys <==> k in vars
    ensures row == FrontmatterRow(vars, n, index)
  {
    row := map[];
    for j := 0 to |keys|
      invariant forall k :: k in row <==> k in keys[..j]
      invariant forall k :: k in row ==> row[k] == vars[k][index]
    {
      assert keys[j] in keys;
      assert keys[..j + 1] == keys[..j] + [keys[j]];
      row := row[keys[j] := vars[keys[j]][index]];
    }
    assert keys[..|keys|] == keys;
  }

  lemma KeysNonEmpty(s: set<string>, keys: seq<string>)
    requires s != {} && forall k :: k in keys <==> k in s
    ensures keys != []
  {
    var k :| k in s;
    assert k in keys;
  }

  /** The map that a list of columns stands for. */
  function AsMap(columns: seq<Column>): map<string, seq<string>> {
    if columns == [] then map[]
    else AsMap(columns[..|columns| - 1])[columns[|columns| - 1].name := columns[|columns| - 1].values]
  }

  lemma {:induction false} AsMapHolds(columns: seq<Column>, n: nat)
    requires DistinctNames(columns) && SameLength(columns, n)
    ensures EqualLengths(AsMap(columns), n)
    ensures columns != [] ==> AsMap(columns).Keys != {}
    ensures forall i :: 0 <= i < n ==> RowAt(columns, i) == FrontmatterRow(AsMap(columns), n, i)
  {
    if columns == [] {
    } else {
      AsMapHolds(columns[..|columns| - 1], n);
      assert columns[|columns| - 1] in columns;
      assert columns[|columns| - 1].name in AsMap(columns);
    }
  }

  lemma {:induction false} AsMapIsColumns(columns: seq<Column>)
    requires DistinctNames(columns)
    ensures forall k :: 0 <= k < |columns| ==>
      columns[k].name in AsMap(columns) && AsMap(columns)[columns[k].name] == columns[k].values
    ensures forall name :: name in AsMap(columns) ==> HasName(columns, name)
  {
    hide HasName;
    if columns == [] {
    } else {
      var n := |columns| - 1;
      var init, last := columns[..n], columns[n];
      assert columns == init + [last];
      AsMapIsColumns(init);
      forall k | 0 <= k < n ensures columns[k].name != last.name && columns[k] == init[k] {
      }
      forall name ensures HasName(columns, name) <==> HasName(init, name) || last.name == name {
        NamesOneMore(init, last, name);
      }
    }
  }

  /** Whatever the command line accepts, frontmatter with the same variables and values gives the same
      rows. */
  lemma BothPathsAgree(input: string)
    requires Parse(input).Ok?
    ensures ParseColumns(Split(input, ';')).Ok?
    ensures var columns := ParseColumns(Split(input, ';')).value; var rows := Parse(input).value;
      var vars := AsMap(columns);
      && (forall k :: 0 <= k < |columns| ==> columns[k].name in vars && vars[columns[k].name] == columns[k].values)
      && (forall name :: name in vars ==> HasName(columns, name))
      && vars.Keys != {} && |rows| > 0 && EqualLengths(vars, |rows|)
      && (forall i :: 0 <= i < |rows| ==> rows[i] == FrontmatterRow(vars, |rows|, i))
  {
    hide ParseColumns, Split, AsMap, RowAt;
    var columns := ParseColumns(Split(input, ';')).value;
    ParsedColumnsAreGood(Split(input, ';'));
    assert columns[0] in columns;
    AsMapIsColumns(columns);
    AsMapHolds(columns, |columns[0].values|);
  }
}
