/**
  The SQL text generators and column-spec queries of the stateless `SQLUtils` class.
  Every operation takes a column specification, an ordered sequence of
  (column name, column type) string pairs, and builds Oracle-style SQL text or a
  lookup map from it.
*/
module SqlUtils {
  import opened Wrappers
  import opened Text

  /** Ordered (name, type) pairs; the order is the column order of every statement. */
  type ColumnSpec = seq<(string, string)>

  /** Case-insensitive type tests used by the generators and number_cols. */
  predicate IsDateType(colType: string) {
    Contains(Upper(colType), "DATE")
  }

  predicate IsNumberType(colType: string) {
    Contains(Upper(colType), "NUMBER")
  }

  // ===========================================================================
  // col_names and number_cols
  // ===========================================================================

  /** The column names, one per pair, in input order. */
  function ColNames(spec: ColumnSpec): (names: seq<string>)
    ensures |names| == |spec|
    ensures forall n :: n in names <==> exists i :: 0 <= i < |spec| && spec[i].0 == n
  {
    var names := seq(|spec|, i requires 0 <= i < |spec| => spec[i].0);
    assert forall j :: 0 <= j < |names| ==> names[j] == spec[j].0;
    names
  }

  /** The names of the columns whose upper-cased type contains NUMBER, in input order. */
  function NumberCols(spec: ColumnSpec): (names: seq<string>)
    ensures |names| <= |spec|
    ensures forall n ::
      n in names <==> exists i :: 0 <= i < |spec| && spec[i].0 == n && IsNumberType(spec[i].1)
    decreases |spec|
  {
    if spec == [] then []
    else (if IsNumberType(spec[0].1) then [spec[0].0] else []) + NumberCols(spec[1..])
  }

  /** Both queries distribute over concatenation of specs: each column is handled on its own. */
  lemma {:induction false} NumberColsAppend(a: ColumnSpec, b: ColumnSpec)
    ensures NumberCols(a + b) == NumberCols(a) + NumberCols(b)
    ensures ColNames(a + b) == ColNames(a) + ColNames(b)
    decreases |a|
  {
    if a != [] {
      assert (a + b)[1..] == a[1..] + b;
      NumberColsAppend(a[1..], b);
    } else {
      assert a + b == b;
    }
  }

  /** number_cols keeps a selection of col_names without reordering it. */
  lemma {:induction false} NumberColsSubsequence(spec: ColumnSpec)
    ensures IsSubsequence(NumberCols(spec), ColNames(spec))
    decreases |spec|
  {
    if spec != [] {
      NumberColsSubsequence(spec[1..]);
      var names := ColNames(spec);
      assert names[1..] == ColNames(spec[1..]);
      if IsNumberType(spec[0].1) {
        var r := NumberCols(spec);
        assert r[0] == names[0] && r[1..] == NumberCols(spec[1..]);
      } else {
        assert NumberCols(spec) == [] + NumberCols(spec[1..]) == NumberCols(spec[1..]);
      }
    }
  }

  // ===========================================================================
  // gen_create_sql
  // ===========================================================================

  /** One column definition: name and type separated by a single space. */
  function ColumnDefinition(col: (string, string)): string {
    col.0 + " " + col.1
  }

  function ColumnDefinitions(spec: ColumnSpec): seq<string> {
    seq(|spec|, i requires 0 <= i < |spec| => ColumnDefinition(spec[i]))
  }

  /**
    gen_create_sql: the column definitions, one per line, inside the parentheses
    after the table name. CreateSqlEmpty, CreateSqlLineBreaks and CreateSqlDemo
    state its properties.
  */
  function GenCreateSql(tableName: string, spec: ColumnSpec): (sql: string)
    ensures StartsWith(sql, "create table " + tableName + "(")
    ensures sql[|sql| - 1] == ')'
  {
    var head := "create table " + tableName + "(";
    var stmt := head + Join(",\n", ColumnDefinitions(spec)) + ")";
    assert stmt[..|head|] == head;
    stmt
  }

  /** An empty column spec gives an empty column list, not an error. */
  lemma CreateSqlEmpty(tableName: string)
    ensures GenCreateSql(tableName, []) == "create table " + tableName + "()"
  {
  }

  /**
    Each column definition stands on its own line: when no name or type holds a line
    break, the statement has exactly one line break per separator, |spec| - 1 in all.
  */
  lemma CreateSqlLineBreaks(tableName: string, spec: ColumnSpec)
    requires |spec| >= 1
    requires '\n' !in tableName
    requires forall i :: 0 <= i < |spec| ==> '\n' !in spec[i].0 && '\n' !in spec[i].1
    ensures CountChar(GenCreateSql(tableName, spec), '\n') == |spec| - 1
  {
    var defs := ColumnDefinitions(spec);
    var head := "create table " + tableName + "(";
    var body := Join(",\n", defs);
    assert CountChar(",\n", '\n') == 1;
    JoinCountChar(",\n", defs, '\n');
    CountCharAbsent(head, '\n');
    CountCharAbsent(")", '\n');
    CountCharConcat(head, body, '\n');
    CountCharConcat(head + body, ")", '\n');
  }

  /** The three-column table of the module's usage example. */
  const DemoSpec: ColumnSpec := [("ID", "NUMBER"), ("NAME", "NVARCHAR2(64)"), ("GENDER", "NVARCHAR2(4)")]

  lemma DemoDefinitions()
    ensures ColumnDefinitions(DemoSpec) == ["ID NUMBER", "NAME NVARCHAR2(64)", "GENDER NVARCHAR2(4)"]
  {
    assert "ID" + " " + "NUMBER" == "ID NUMBER";
    assert "NAME" + " " + "NVARCHAR2(64)" == "NAME NVARCHAR2(64)";
    assert "GENDER" + " " + "NVARCHAR2(4)" == "GENDER NVARCHAR2(4)";
  }

  /** The usage example: one definition per line, separated by ",\n", in input order. */
  lemma CreateSqlDemo()
    ensures GenCreateSql("STUDENTS", DemoSpec)
         == "create table " + "STUDENTS" + "("
          + "ID NUMBER" + ",\n"
          + "NAME NVARCHAR2(64)" + ",\n"
          + "GENDER NVARCHAR2(4)" + ")"
  {
    DemoDefinitions();
    JoinThree(",\n", "ID NUMBER", "NAME NVARCHAR2(64)", "GENDER NVARCHAR2(4)");
  }

  // ===========================================================================
  // gen_date_tpl
  // ===========================================================================

  /** An Oracle date-format template with the given separator, with or without seconds. */
  function GenDateTpl(hasSecond: bool, sep: string): (tpl: string)
    ensures tpl == "YYYY" + sep + "MM" + sep + (if hasSecond then "DD HH24:MI:SS" else "DD HH24:MI")
  {
    var full := "YYYY" + sep + "MM" + sep + "DD HH24:MI:SS";
    if hasSecond then full else full[..|full| - 3]
  }

  /** The template without seconds is the one with seconds less its trailing ":SS". */
  lemma DateTplSeconds(sep: string)
    ensures GenDateTpl(false, sep) + ":SS" == GenDateTpl(true, sep)
    ensures GenDateTpl(false, sep) == GenDateTpl(true, sep)[..|GenDateTpl(true, sep)| - 3]
  {
  }

  // ===========================================================================
  // gen_insert_sql
  // ===========================================================================

  /** The bind expression of one value of the INSERT statement, at 1-based position pos. */
  datatype Bind =
    | ToDate(pos: nat, format: string)   // TO_DATE(:pos, 'format')
    | ToNumber(pos: nat)                 // TO_NUMBER(:pos)
    | NullSafe(pos: nat)                 // NVL(:pos, null)
    | Placeholder(pos: nat)              // :pos

  function Render(b: Bind): string {
    match b
    case ToDate(p, f) => "TO_DATE(:" + NatToString(p) + ", '" + f + "')"
    case ToNumber(p) => "TO_NUMBER(:" + NatToString(p) + ")"
    case NullSafe(p) => "NVL(:" + NatToString(p) + ", null)"
    case Placeholder(p) => ":" + NatToString(p)
  }

  /** Reads a bind expression back: the prefix tells its form, the digits its position. */
  function ParseBind(s: string): Option<Bind> {
    if StartsWith(s, "TO_DATE(:") then ParseToDate(s[9..])
    else if StartsWith(s, "TO_NUMBER(:") then ParseToNumber(s[11..])
    else if StartsWith(s, "NVL(:") then ParseNullSafe(s[5..])
    else if StartsWith(s, ":") then ParsePlaceholder(s[1..])
    else None
  }

  /** The part of "TO_DATE(:" + digits + ", '" + format + "')" after its prefix. */
  function ParseToDate(rest: string): Option<Bind> {
    var n := DigitRun(rest);
    var tail := rest[n..];
    if n > 0 && |tail| >= 5 && tail[..3] == ", '" && tail[|tail| - 2..] == "')" then
      Some(ToDate(ParseNat(rest[..n]), tail[3..|tail| - 2]))
    else None
  }

  /** The part of "TO_NUMBER(:" + digits + ")" after its prefix. */
  function ParseToNumber(rest: string): Option<Bind> {
    var n := DigitRun(rest);
    if n > 0 && rest[n..] == ")" then Some(ToNumber(ParseNat(rest[..n]))) else None
  }

  /** The part of "NVL(:" + digits + ", null)" after its prefix. */
  function ParseNullSafe(rest: string): Option<Bind> {
    var n := DigitRun(rest);
    if n > 0 && rest[n..] == ", null)" then Some(NullSafe(ParseNat(rest[..n]))) else None
  }

  /** The part of ":" + digits after the colon. */
  function ParsePlaceholder(rest: string): Option<Bind> {
    var n := DigitRun(rest);
    if n > 0 && n == |rest| then Some(Placeholder(ParseNat(rest))) else None
  }

  /** prefix + digits + tail: the digit run is exactly the rendered number, which reads back. */
  lemma NumberThenTail(p: nat, tail: string)
    requires tail == [] || !IsDigit(tail[0])
    ensures var d := NatToString(p);
      && DigitRun(d + tail) == |d|
      && (d + tail)[..|d|] == d
      && (d + tail)[|d|..] == tail
      && ParseNat(d) == p
  {
    var d := NatToString(p);
    DigitRunOf(d, tail);
    ParseNatToString(p);
    assert (d + tail)[..|d|] == d;
    assert (d + tail)[|d|..] == tail;
  }

  /** A string that starts with a literal prefix agrees with it at every position of the prefix. */
  lemma PrefixAt(s: string, prefix: string, rest: string, k: nat)
    requires s == prefix + rest && k < |prefix|
    ensures s[k] == prefix[k]
  {
  }

  lemma AfterPrefix(prefix: string, rest: string)
    ensures StartsWith(prefix + rest, prefix)
    ensures (prefix + rest)[|prefix|..] == rest
  {
    assert (prefix + rest)[..|prefix|] == prefix;
  }

  lemma FormatTail(f: string)
    ensures var tail := ", '" + f + "')";
      && |tail| >= 5 && !IsDigit(tail[0])
      && tail[..3] == ", '" && tail[|tail| - 2..] == "')" && tail[3..|tail| - 2] == f
  {
    var tail := ", '" + f + "')";
    assert tail[..3] == ", '";
    assert tail[|tail| - 2..] == "')";
    assert tail[3..|tail| - 2] == f;
  }

  lemma ParseRenderToDate(p: nat, f: string)
    ensures ParseBind(Render(ToDate(p, f))) == Some(ToDate(p, f))
  {
    var tail := ", '" + f + "')";
    var rest := NatToString(p) + tail;
    var d := NatToString(p);
    assert Render(ToDate(p, f)) == "TO_DATE(:" + rest by {
      assert "TO_DATE(:" + d + ", '" + f + "')" == "TO_DATE(:" + (d + (", '" + f + "')"));
    }
    AfterPrefix("TO_DATE(:", rest);
    assert ParseToDate(rest) == Some(ToDate(p, f)) by {
      FormatTail(f);
      NumberThenTail(p, tail);
    }
  }

  lemma ParseRenderToNumber(p: nat)
    ensures ParseBind(Render(ToNumber(p))) == Some(ToNumber(p))
  {
    var rest := NatToString(p) + ")";
    var s := "TO_NUMBER(:" + rest;
    assert Render(ToNumber(p)) == s;
    PrefixAt(s, "TO_NUMBER(:", rest, 3);
    NotStartsWith(s, "TO_DATE(:", 3);
    AfterPrefix("TO_NUMBER(:", rest);
    NumberThenTail(p, ")");
  }

  lemma ParseRenderNullSafe(p: nat)
    ensures ParseBind(Render(NullSafe(p))) == Some(NullSafe(p))
  {
    var rest := NatToString(p) + ", null)";
    var s := "NVL(:" + rest;
    assert Render(NullSafe(p)) == s;
    PrefixAt(s, "NVL(:", rest, 0);
    NotStartsWith(s, "TO_DATE(:", 0);
    NotStartsWith(s, "TO_NUMBER(:", 0);
    AfterPrefix("NVL(:", rest);
    NumberThenTail(p, ", null)");
  }

  lemma ParseRenderPlaceholder(p: nat)
    ensures ParseBind(Render(Placeholder(p))) == Some(Placeholder(p))
  {
    var rest := NatToString(p);
    var s := ":" + rest;
    assert Render(Placeholder(p)) == s;
    PrefixAt(s, ":", rest, 0);
    NotStartsWith(s, "TO_DATE(:", 0);
    NotStartsWith(s, "TO_NUMBER(:", 0);
    NotStartsWith(s, "NVL(:", 0);
    AfterPrefix(":", rest);
    NumberThenTail(p, "");
    assert rest + "" == rest;
  }

  /** Rendering loses nothing: every bind expression reads back as itself. */
  lemma ParseRender(b: Bind)
    ensures ParseBind(Render(b)) == Some(b)
  {
    match b
    case ToDate(p, f) => ParseRenderToDate(p, f);
    case ToNumber(p) => ParseRenderToNumber(p);
    case NullSafe(p) => ParseRenderNullSafe(p);
    case Placeholder(p) => ParseRenderPlaceholder(p);
  }

  /** Python truthiness of date_format: both None and "" count as absent. */
  predicate HasDateFormat(dateFormat: Option<string>) {
    dateFormat.Some? && dateFormat.value != ""
  }

  /** The bind expression chosen for a column of the given type at position pos. */
  function BindFor(pos: nat, colType: string, dateFormat: Option<string>, dealNull: bool): Bind {
    if HasDateFormat(dateFormat) && IsDateType(colType) then ToDate(pos, dateFormat.value)
    else if IsNumberType(colType) then ToNumber(pos)
    else if dealNull then NullSafe(pos)
    else Placeholder(pos)
  }

  function InsertBinds(spec: ColumnSpec, dateFormat: Option<string>, dealNull: bool): seq<Bind> {
    seq(|spec|, i requires 0 <= i < |spec| => BindFor(i + 1, spec[i].1, dateFormat, dealNull))
  }

  /** The rendered values list of the INSERT statement, one entry per column. */
  function InsertValues(spec: ColumnSpec, dateFormat: Option<string>, dealNull: bool): seq<string> {
    var binds := InsertBinds(spec, dateFormat, dealNull);
    seq(|spec|, i requires 0 <= i < |spec| => Render(binds[i]))
  }

  /** The statement gen_insert_sql builds. */
  function InsertSql(tableName: string, spec: ColumnSpec, dateFormat: Option<string> := None, dealNull: bool := true)
    : (sql: string)
    ensures StartsWith(sql, "insert into " + tableName + "(")
    ensures sql[|sql| - 1] == ')'
  {
    var head := "insert into " + tableName + "(";
    var stmt := head + Join(",", ColNames(spec)) + ") values("
      + Join(",", InsertValues(spec, dateFormat, dealNull)) + ")";
    assert stmt[..|head|] == head;
    stmt
  }

  /**
    The loop body of gen_insert_sql for one column: the DATE test (only with a
    non-empty date format), then the NUMBER test, then NVL or the bare placeholder.
  */
  method BindText(pos: nat, rawType: string, dateFormat: Option<string>, dealNull: bool)
    returns (value: string)
    ensures value == Render(BindFor(pos, rawType, dateFormat, dealNull))
  {
    var colType := Upper(rawType);
    if dateFormat.Some? && dateFormat.value != "" && Contains(colType, "DATE") {
      value := "TO_DATE(:" + NatToString(pos) + ", '" + dateFormat.value + "')";
    } else if Contains(colType, "NUMBER") {
      value := "TO_NUMBER(:" + NatToString(pos) + ")";
    } else if dealNull {
      value := "NVL(:" + NatToString(pos) + ", null)";
    } else {
      value := ":" + NatToString(pos);
    }
  }

  /**
    gen_insert_sql: walks the spec once, appending each column name and the bind
    expression its type calls for, then joins both lists with commas.
  */
  method GenInsertSql(tableName: string, spec: ColumnSpec, dateFormat: Option<string> := None, dealNull: bool := true)
    returns (sql: string)
    ensures sql == InsertSql(tableName, spec, dateFormat, dealNull)
  {
    var cols: seq<string> := [];
    var values: seq<string> := [];
    var i := 0;
    while i < |spec|
      invariant 0 <= i <= |spec|
      invariant cols == ColNames(spec[..i])
      invariant values == InsertValues(spec[..i], dateFormat, dealNull)
    {
      var (colName, colType) := spec[i];
      cols := cols + [colName];
      var value := BindText(i + 1, colType, dateFormat, dealNull);
      values := values + [value];
      InsertStep(spec, dateFormat, dealNull, i);
      i := i + 1;
    }
    assert spec[..i] == spec;
    sql := "insert into " + tableName + "(" + Join(",", cols) + ") values(" + Join(",", values) + ")";
  }

  /** One more column extends both lists of gen_insert_sql by one entry. */
  lemma InsertStep(spec: ColumnSpec, dateFormat: Option<string>, dealNull: bool, i: nat)
    requires i < |spec|
    ensures ColNames(spec[..i + 1]) == ColNames(spec[..i]) + [spec[i].0]
    ensures InsertValues(spec[..i + 1], dateFormat, dealNull)
         == InsertValues(spec[..i], dateFormat, dealNull) + [Render(BindFor(i + 1, spec[i].1, dateFormat, dealNull))]
  {
  }

  /**
    The values list matches the column list entry for entry, and the i-th value
    (0-based) reads back as the bind expression for position i + 1.
  */
  lemma InsertValuesPositions(spec: ColumnSpec, dateFormat: Option<string>, dealNull: bool, i: nat)
    requires i < |spec|
    ensures |InsertValues(spec, dateFormat, dealNull)| == |ColNames(spec)|
    ensures ParseBind(InsertValues(spec, dateFormat, dealNull)[i]) == Some(InsertBinds(spec, dateFormat, dealNull)[i])
    ensures InsertBinds(spec, dateFormat, dealNull)[i].pos == i + 1
  {
    var binds := InsertBinds(spec, dateFormat, dealNull);
    var values := InsertValues(spec, dateFormat, dealNull);
    assert values[i] == Render(binds[i]);
    ParseRender(binds[i]);
  }

  /**
    The choice of bind expression for column i, with the DATE test before the NUMBER
    test and NVL only when null handling is on.
  */
  lemma InsertBindRules(spec: ColumnSpec, dateFormat: Option<string>, dealNull: bool, i: nat)
    requires i < |spec|
    ensures var b := InsertBinds(spec, dateFormat, dealNull)[i];
      var dated := HasDateFormat(dateFormat) && IsDateType(spec[i].1);
      && (b.ToDate? <==> dated)
      && (b.ToDate? ==> b.format == dateFormat.value)
      && (b.ToNumber? <==> !dated && IsNumberType(spec[i].1))
      && (b.NullSafe? <==> !dated && !IsNumberType(spec[i].1) && dealNull)
      && (b.Placeholder? <==> !dated && !IsNumberType(spec[i].1) && !dealNull)
  {
  }

  /** Only a TO_DATE expression has a D in its text: the positions are digits. */
  lemma RenderAvoidsD(b: Bind)
    requires !b.ToDate?
    ensures 'D' !in Render(b)
  {
    assert 'D' !in NatToString(b.pos);
  }

  /** Without a date format no value is a TO_DATE conversion, and TO_DATE is absent from the values text. */
  lemma NoToDateWithoutFormat(spec: ColumnSpec, dateFormat: Option<string>, dealNull: bool)
    requires !HasDateFormat(dateFormat)
    ensures forall i :: 0 <= i < |spec| ==> !InsertBinds(spec, dateFormat, dealNull)[i].ToDate?
    ensures !Contains(Join(",", InsertValues(spec, dateFormat, dealNull)), "TO_DATE")
  {
    var values := InsertValues(spec, dateFormat, dealNull);
    forall k | 0 <= k < |values|
      ensures 'D' !in values[k]
    {
      RenderAvoidsD(BindFor(k + 1, spec[k].1, dateFormat, dealNull));
    }
    JoinAvoids(",", values, 'D');
    NotContainsMissingChar(Join(",", values), "TO_DATE", 3);
  }

  /**
    With null handling off no value is an NVL expression; if there is no date format
    either, NVL is absent from the values text.
  */
  lemma NoNvlWithoutDealNull(spec: ColumnSpec, dateFormat: Option<string>, dealNull: bool)
    requires !dealNull
    ensures forall i :: 0 <= i < |spec| ==> !InsertBinds(spec, dateFormat, dealNull)[i].NullSafe?
    ensures !HasDateFormat(dateFormat) ==> !Contains(Join(",", InsertValues(spec, dateFormat, dealNull)), "NVL")
  {
    if !HasDateFormat(dateFormat) {
      var values := InsertValues(spec, dateFormat, dealNull);
      forall k | 0 <= k < |values|
        ensures 'V' !in values[k]
      {
        assert 'V' !in NatToString(k + 1);
      }
      JoinAvoids(",", values, 'V');
      NotContainsMissingChar(Join(",", values), "NVL", 1);
    }
  }

  lemma DemoValues()
    ensures InsertValues(DemoSpec, None, true) == ["TO_NUMBER(:1)", "NVL(:2, null)", "NVL(:3, null)"]
  {
    UpperDemoTypes();
    var values := InsertValues(DemoSpec, None, true);
    assert NatToString(1) == "1" && NatToString(2) == "2" && NatToString(3) == "3";
    assert values[0] == Render(ToNumber(1)) == "TO_NUMBER(:1)";
    assert values[1] == Render(NullSafe(2)) == "NVL(:2, null)";
    assert values[2] == Render(NullSafe(3)) == "NVL(:3, null)";
  }

  /** The usage example: ID is numeric, the two text columns are wrapped in NVL. */
  lemma InsertSqlDemo()
    ensures InsertSql("STUDENTS", DemoSpec)
         == "insert into " + "STUDENTS" + "("
          + "ID" + "," + "NAME" + "," + "GENDER"
          + ") values("
          + "TO_NUMBER(:1)" + "," + "NVL(:2, null)" + "," + "NVL(:3, null)"
          + ")"
  {
    DemoValues();
    JoinThree(",", "TO_NUMBER(:1)", "NVL(:2, null)", "NVL(:3, null)");
    DemoNames();
    JoinThree(",", "ID", "NAME", "GENDER");
  }

  lemma DemoNames()
    ensures ColNames(DemoSpec) == ["ID", "NAME", "GENDER"]
  {
  }

  /** A type spelled without any M, in either case, is not numeric. */
  lemma NotNumberType(colType: string)
    requires 'M' !in colType && 'm' !in colType
    ensures !IsNumberType(colType)
  {
    UpperAvoids(colType, 'M');
    NotContainsMissingChar(Upper(colType), "NUMBER", 2);
  }

  /** A type spelled without any D, in either case, is not a date type. */
  lemma NotDateType(colType: string)
    requires 'D' !in colType && 'd' !in colType
    ensures !IsDateType(colType)
  {
    UpperAvoids(colType, 'D');
    NotContainsMissingChar(Upper(colType), "DATE", 0);
  }

  lemma NumberIsNumberType()
    ensures IsNumberType("NUMBER")
  {
    assert Upper("NUMBER") == "NUMBER";
    ContainsItself("NUMBER");
  }

  /** The type tests on the usage example's column types. */
  lemma UpperDemoTypes()
    ensures IsNumberType("NUMBER") && !IsDateType("NUMBER")
    ensures !IsNumberType("NVARCHAR2(64)") && !IsDateType("NVARCHAR2(64)")
    ensures !IsNumberType("NVARCHAR2(4)") && !IsDateType("NVARCHAR2(4)")
  {
    NumberIsNumberType();
    NotDateType("NUMBER");
    NotNumberType("NVARCHAR2(64)");
    NotDateType("NVARCHAR2(64)");
    NotNumberType("NVARCHAR2(4)");
    NotDateType("NVARCHAR2(4)");
  }

  /** When no column name holds a comma, the column list of the INSERT splits back into the names. */
  lemma InsertColumnsSplit(spec: ColumnSpec)
    requires |spec| >= 1
    requires forall i :: 0 <= i < |spec| ==> ',' !in spec[i].0
    ensures SplitOn(Join(",", ColNames(spec)), ',') == ColNames(spec)
  {
    SplitJoin(ColNames(spec), ',');
  }

  // ===========================================================================
  // trans_cols
  // ===========================================================================

  /** The replacement for a missing value: 0.0 for numeric columns, "" for text columns. */
  datatype NullDefault = ZeroNumber | EmptyString

  /** The type markers in the order they are tried, each with its default. */
  const TypeAbbrs: seq<(string, NullDefault)> := [("NUMBER", ZeroNumber), ("VARCHAR", EmptyString)]

  /** The default of the first marker that occurs in colType (case-sensitive), if any. */
  function FirstMatch(abbrs: seq<(string, NullDefault)>, colType: string): (r: Option<NullDefault>)
    ensures r.Some? <==> exists j :: 0 <= j < |abbrs| && Contains(colType, abbrs[j].0)
    decreases |abbrs|
  {
    if abbrs == [] then None
    else if Contains(colType, abbrs[0].0) then Some(abbrs[0].1)
    else FirstMatch(abbrs[1..], colType)
  }

  function Classify(colType: string): Option<NullDefault> {
    FirstMatch(TypeAbbrs, colType)
  }

  /** NUMBER is tried first and wins; VARCHAR only counts without it; the test is case-sensitive. */
  lemma ClassifyOrder(colType: string)
    ensures Contains(colType, "NUMBER") ==> Classify(colType) == Some(ZeroNumber)
    ensures !Contains(colType, "NUMBER") && Contains(colType, "VARCHAR") ==> Classify(colType) == Some(EmptyString)
    ensures !Contains(colType, "NUMBER") && !Contains(colType, "VARCHAR") ==> Classify(colType) == None
  {
    assert TypeAbbrs[1..][1..] == [];
  }

  /** The dict trans_cols builds: columns in order, each later entry overwriting an earlier one. */
  function TransColsSpec(spec: ColumnSpec): (m: map<string, NullDefault>)
    ensures forall k :: k in m ==> exists i :: 0 <= i < |spec| && spec[i].0 == k
    decreases |spec|
  {
    if spec == [] then map[]
    else
      var m := TransColsSpec(spec[..|spec| - 1]);
      var (name, colType) := spec[|spec| - 1];
      match Classify(colType)
      case None => m
      case Some(d) => m[name := d]
  }

  /** trans_cols: for each column, try the markers in order and record the first that matches. */
  method TransCols(spec: ColumnSpec) returns (result: map<string, NullDefault>)
    ensures result == TransColsSpec(spec)
  {
    result := map[];
    var i := 0;
    while i < |spec|
      invariant 0 <= i <= |spec|
      invariant result == TransColsSpec(spec[..i])
    {
      var (colName, colType) := spec[i];
      assert spec[..i + 1][..i] == spec[..i];
      var j := 0;
      while j < |TypeAbbrs|
        invariant 0 <= j <= |TypeAbbrs|
        invariant FirstMatch(TypeAbbrs[j..], colType) == Classify(colType)
        invariant result == TransColsSpec(spec[..i])
      {
        var (abbr, value) := TypeAbbrs[j];
        if Contains(colType, abbr) {
          result := result[colName := value];
          break;
        }
        assert TypeAbbrs[j..][1..] == TypeAbbrs[j + 1..];
        j := j + 1;
      }
      i := i + 1;
    }
    assert spec[..i] == spec;
  }

  /** The keys are exactly the names of columns whose type contains NUMBER or VARCHAR. */
  lemma {:induction false} TransColsKeys(spec: ColumnSpec)
    ensures forall k :: k in TransColsSpec(spec) <==>
      exists i :: 0 <= i < |spec| && spec[i].0 == k && Classify(spec[i].1).Some?
    decreases |spec|
  {
    if spec != [] {
      var init := spec[..|spec| - 1];
      TransColsKeys(init);
      forall k | k in TransColsSpec(spec)
        ensures exists i :: 0 <= i < |spec| && spec[i].0 == k && Classify(spec[i].1).Some?
      {
        if k !in TransColsSpec(init) || (spec[|spec| - 1].0 == k && Classify(spec[|spec| - 1].1).Some?) {
          assert spec[|spec| - 1].0 == k && Classify(spec[|spec| - 1].1).Some?;
        } else {
          var i :| 0 <= i < |init| && init[i].0 == k && Classify(init[i].1).Some?;
          assert spec[i] == init[i];
        }
      }
      forall k | exists i :: 0 <= i < |spec| && spec[i].0 == k && Classify(spec[i].1).Some?
        ensures k in TransColsSpec(spec)
      {
        var i :| 0 <= i < |spec| && spec[i].0 == k && Classify(spec[i].1).Some?;
        if i < |init| {
          assert init[i] == spec[i];
        }
      }
    }
  }

  /**
    The value of a key comes from the last column of that name with a marker: a
    later column overwrites an earlier one.
  */
  lemma {:induction false} TransColsLastWins(spec: ColumnSpec, i: nat)
    requires i < |spec| && Classify(spec[i].1).Some?
    requires forall j :: i < j < |spec| ==> spec[j].0 != spec[i].0 || Classify(spec[j].1).None?
    ensures spec[i].0 in TransColsSpec(spec)
    ensures TransColsSpec(spec)[spec[i].0] == Classify(spec[i].1).value
    decreases |spec|
  {
    if i < |spec| - 1 {
      var init := spec[..|spec| - 1];
      assert init[i] == spec[i];
      TransColsLastWins(init, i);
    }
  }

  const MixedSpec: ColumnSpec := [("A", "NUMBER"), ("B", "VARCHAR2(10)"), ("C", "DATE")]

  lemma TransColsExample()
    ensures TransColsSpec(MixedSpec) == map["A" := ZeroNumber, "B" := EmptyString]
  {
    ContainsItself("NUMBER");
    ClassifyOrder("NUMBER");
    NotContainsMissingChar("VARCHAR2(10)", "NUMBER", 2);
    assert OccursAt("VARCHAR2(10)", "VARCHAR", 0);
    ClassifyOrder("VARCHAR2(10)");
    NotContainsMissingChar("DATE", "NUMBER", 0);
    NotContainsMissingChar("DATE", "VARCHAR", 0);
    ClassifyOrder("DATE");
    assert Classify("NUMBER") == Some(ZeroNumber);
    assert Classify("VARCHAR2(10)") == Some(EmptyString);
    assert Classify("DATE") == None;
    var ab := MixedSpec[..2];
    assert ab == [("A", "NUMBER"), ("B", "VARCHAR2(10)")];
    assert ab[..1] == [("A", "NUMBER")];
    assert ab[..1][..0] == [];
    assert TransColsSpec(ab[..1]) == map["A" := ZeroNumber];
    assert TransColsSpec(ab) == map["A" := ZeroNumber, "B" := EmptyString];
  }

  /** Unlike number_cols, trans_cols does not upper-case: a lower-case "number" type is not a marker. */
  lemma TransColsCaseSensitive()
    ensures NumberCols([("n", "number")]) == ["n"]
    ensures TransColsSpec([("n", "number")]) == map[]
  {
    assert Upper("number") == "NUMBER";
    ContainsItself("NUMBER");
    NotContainsMissingChar("number", "NUMBER", 0);
    NotContainsMissingChar("number", "VARCHAR", 0);
    ClassifyOrder("number");
    assert [("n", "number")][..0] == [];
  }

  // ===========================================================================
  // trans_date_cols
  // ===========================================================================

  /** Maps every column whose upper-cased type contains DATE to 0. */
  function TransDateCols(spec: ColumnSpec): (r: map<string, int>)
    ensures forall k :: k in r <==> exists i :: 0 <= i < |spec| && spec[i].0 == k && IsDateType(spec[i].1)
    ensures forall k :: k in r ==> r[k] == 0
  {
    map i | 0 <= i < |spec| && IsDateType(spec[i].1) :: spec[i].0 := 0
  }

  lemma MixedDateTypes()
    ensures !IsDateType("NUMBER") && !IsDateType("VARCHAR2(10)") && IsDateType("DATE")
  {
    assert Upper("DATE") == "DATE";
    ContainsItself("DATE");
    NotDateType("NUMBER");
    NotDateType("VARCHAR2(10)");
  }

  lemma TransDateColsExample()
    ensures TransDateCols(MixedSpec) == map["C" := 0]
  {
    MixedDateTypes();
    assert forall i :: 0 <= i < |MixedSpec| ==> (IsDateType(MixedSpec[i].1) <==> i == 2) by {
      assert MixedSpec[0].1 == "NUMBER" && MixedSpec[1].1 == "VARCHAR2(10)" && MixedSpec[2].1 == "DATE";
    }
    assert MixedSpec[2].0 == "C";
    assert TransDateCols(MixedSpec).Keys == {"C"};
  }

  // ===========================================================================
  // gen_truncate_sql
  // ===========================================================================

  /** The table name follows the fixed prefix verbatim and can be read back from it. */
  function GenTruncateSql(tableName: string): (sql: string)
    ensures StartsWith(sql, "truncate table ")
    ensures sql[|"truncate table "|..] == tableName
  {
    "truncate table " + tableName
  }

  // ===========================================================================
  // gen_merge_update_insert_sql
  // ===========================================================================

  /**
    The clauses of the MERGE statement, as they are filled into its template:
      merge into <destTable> d USING(select <distinctKeyword> * from <srcTable>) s
      ON (<onContent>) WHEN MATCHED THEN UPDATE SET <updateContent>
      WHEN NOT MATCHED THEN INSERT(<insertColumns>)VAlUES (<insertValues>)
  */
  datatype MergeStatement = MergeStatement(
    destTable: string,
    distinctKeyword: string,
    srcTable: string,
    onContent: string,
    updateContent: string,
    insertColumns: string,
    insertValues: string)

  /**
    The upper-cased columns not in skip, each once, in order of first occurrence.
    As a set it is {Upper(n) | n in columns} minus skip.
  */
  function UpdateColumnsFrom(columns: seq<string>, skip: set<string>): (r: seq<string>)
    ensures NoDuplicates(r)
    ensures forall c :: c in r <==> c !in skip && exists n :: n in columns && Upper(n) == c
    decreases |columns|
  {
    if columns == [] then []
    else
      var u := Upper(columns[0]);
      var rest := UpdateColumnsFrom(columns[1..], if u in skip then skip else skip + {u});
      assert forall n :: n in columns <==> n == columns[0] || n in columns[1..];
      if u in skip then rest else [u] + rest
  }

  /**
    The columns of the UPDATE clause: every column, upper-cased, minus the excluded
    ones, upper-cased too. As Python's set difference it has no order; here each
    surviving column comes once, in order of first occurrence.
  */
  function UpdateColumns(columns: seq<string>, excluded: seq<string>): (r: seq<string>)
    ensures NoDuplicates(r)
    ensures (set c | c in r) == (set n | n in columns :: Upper(n)) - (set e | e in excluded :: Upper(e))
  {
    UpdateColumnsFrom(columns, set e | e in excluded :: Upper(e))
  }

  function Assignments(columns: seq<string>): seq<string> {
    seq(|columns|, j requires 0 <= j < |columns| => "d." + columns[j] + "=s." + columns[j])
  }

  function SourceRefs(columns: seq<string>): seq<string> {
    seq(|columns|, j requires 0 <= j < |columns| => "s." + columns[j])
  }

  function GenMergeUpdateInsertSql(
    srcTable: string,
    destTable: string,
    conditions: seq<string>,
    spec: ColumnSpec,
    updateDelColumns: seq<string>,
    distinct: bool := false
  ): (m: MergeStatement)
    ensures m.destTable == destTable && m.srcTable == srcTable
    ensures m.distinctKeyword == (if distinct then "distinct" else "")
  {
    var columns := ColNames(spec);
    var updateColumns := UpdateColumns(columns, updateDelColumns);
    MergeStatement(
      destTable,
      if distinct then "distinct" else "",
      srcTable,
      Join(" AND ", conditions),
      Join(",\n", Assignments(updateColumns)),
      Join(",\n", columns),
      Join(",\n", SourceRefs(columns)))
  }

  /**
    The UPDATE clause assigns d.C=s.C for exactly the upper-cased column names that
    are not excluded (compared upper-cased), each once; the INSERT lists keep every
    column in input order.
  */
  lemma MergeClauses(
    srcTable: string, destTable: string, conditions: seq<string>,
    spec: ColumnSpec, updateDelColumns: seq<string>, distinct: bool)
    ensures var m := GenMergeUpdateInsertSql(srcTable, destTable, conditions, spec, updateDelColumns, distinct);
      exists cols: seq<string> ::
        && NoDuplicates(cols)
        && (forall c :: c in cols <==>
              (exists i :: 0 <= i < |spec| && Upper(spec[i].0) == c)
              && (forall e :: e in updateDelColumns ==> Upper(e) != c))
        && m.updateContent == Join(",\n", Assignments(cols))
    ensures var m := GenMergeUpdateInsertSql(srcTable, destTable, conditions, spec, updateDelColumns, distinct);
      && m.onContent == Join(" AND ", conditions)
      && m.insertColumns == Join(",\n", ColNames(spec))
      && m.insertValues == Join(",\n", SourceRefs(ColNames(spec)))
      && (m.distinctKeyword == "distinct" <==> distinct)
  {
    var columns := ColNames(spec);
    var cols := UpdateColumns(columns, updateDelColumns);
    forall c
      ensures c in cols <==>
        (exists i :: 0 <= i < |spec| && Upper(spec[i].0) == c)
        && (forall e :: e in updateDelColumns ==> Upper(e) != c)
    {
      assert c in cols <==> c in (set x | x in cols);
      if exists i :: 0 <= i < |spec| && Upper(spec[i].0) == c {
        var i :| 0 <= i < |spec| && Upper(spec[i].0) == c;
        assert columns[i] in columns;
      }
      if c in (set n | n in columns :: Upper(n)) {
        var n :| n in columns && Upper(n) == c;
        var i :| 0 <= i < |columns| && columns[i] == n;
      }
    }
  }

  lemma DemoExcluded()
    ensures (set e | e in ["ID"] :: Upper(e)) == {"ID"}
  {
    assert Upper("ID") == "ID";
  }

  /** In the usage example only NAME and GENDER survive the exclusion of ID. */
  lemma DemoUpdateColumns()
    ensures UpdateColumns(["ID", "NAME", "GENDER"], ["ID"]) == ["NAME", "GENDER"]
  {
    DemoExcluded();
    assert Upper("ID") == "ID" && Upper("NAME") == "NAME" && Upper("GENDER") == "GENDER";
    var columns := ["ID", "NAME", "GENDER"];
    assert columns[1..] == ["NAME", "GENDER"] && columns[1..][1..] == ["GENDER"] && columns[1..][1..][1..] == [];
    var last := UpdateColumnsFrom(["GENDER"], {"ID", "NAME"});
    assert last == ["GENDER"];
    assert UpdateColumnsFrom(["NAME", "GENDER"], {"ID"}) == ["NAME"] + last;
  }

  lemma DemoAssignments()
    ensures Join(",\n", Assignments(["NAME", "GENDER"])) == "d.NAME=s.NAME" + ",\n" + "d.GENDER=s.GENDER"
  {
    var assigns := Assignments(["NAME", "GENDER"]);
    assert "d." + "NAME" + "=s." + "NAME" == "d.NAME=s.NAME";
    assert "d." + "GENDER" + "=s." + "GENDER" == "d.GENDER=s.GENDER";
    assert assigns == ["d.NAME=s.NAME", "d.GENDER=s.GENDER"];
    JoinTwo(",\n", "d.NAME=s.NAME", "d.GENDER=s.GENDER");
  }

  lemma DemoSourceRefs()
    ensures Join(",\n", SourceRefs(["ID", "NAME", "GENDER"])) == "s.ID" + ",\n" + "s.NAME" + ",\n" + "s.GENDER"
  {
    var refs := SourceRefs(["ID", "NAME", "GENDER"]);
    assert "s." + "ID" == "s.ID" && "s." + "NAME" == "s.NAME" && "s." + "GENDER" == "s.GENDER";
    assert refs == ["s.ID", "s.NAME", "s.GENDER"];
    JoinThree(",\n", "s.ID", "s.NAME", "s.GENDER");
  }

  /** The usage example: ID is the join key and is left out of the UPDATE clause. */
  lemma MergeDemo()
    ensures var m := GenMergeUpdateInsertSql("STUDENTS_T", "STUDENTS", ["d.ID=s.ID"], DemoSpec, ["ID"]);
      && m.destTable == "STUDENTS" && m.srcTable == "STUDENTS_T" && m.distinctKeyword == ""
      && m.onContent == "d.ID=s.ID"
      && m.updateContent == "d.NAME=s.NAME" + ",\n" + "d.GENDER=s.GENDER"
      && m.insertColumns == "ID" + ",\n" + "NAME" + ",\n" + "GENDER"
      && m.insertValues == "s.ID" + ",\n" + "s.NAME" + ",\n" + "s.GENDER"
  {
    assert ColNames(DemoSpec) == ["ID", "NAME", "GENDER"];
    JoinThree(",\n", "ID", "NAME", "GENDER");
    DemoUpdateColumns();
    DemoAssignments();
    DemoSourceRefs();
  }
}
