# SQLUtils in Dafny

A verified model of `SQLUtils` (`sql_utils.py`). This stateless helper class
turns a column specification into Oracle-style SQL text. A column
specification is an ordered list of `(column name, column type)` string pairs.
The class also builds two lookup maps that a data-cleaning step uses to
replace missing values per column.

The project has three modules:

- `Wrappers` (`wrappers.dfy`): `Option`, standing for Python's `None`.
- `Text` (`text.dfy`): the string operations the generators are built from.
  These are ASCII upper-casing, substring search (`sub in s`), `sep.join(xs)`,
  a split that undoes a one-character join, character counting, and `str(n)`
  for natural numbers with its inverse.
- `SqlUtils` (`sql_utils.dfy`): one member per operation of the class.

Each operation is modelled in the form the source gives it:

- `gen_insert_sql` and `trans_cols` build their result step by step in a
  loop. They are methods (`GenInsertSql`, `TransCols`) with loop invariants.
  Each is proved equal to a specification function (`InsertSql`,
  `TransColsSpec`), and the lemmas state their properties about that function.
- The other operations are single expressions: joins, comprehensions and
  formatting. They are functions, and lemmas give their properties.

Modelling choices:

- A column specification is `seq<(string, string)>`.
- Python's `date_format` is `Option<string>`. Like the guard
  `if date_format`, both `None` and `""` count as absent (`HasDateFormat`).
- A bind expression of the INSERT statement is a `Bind` value that is then
  rendered to text. `ParseBind` reads it back, which shows that the i-th value
  carries placeholder `:i`.
- The default values of `trans_cols` are the datatype `NullDefault`:
  `ZeroNumber` stands for `0.0` and `EmptyString` for `''`.
- The MERGE statement is the datatype `MergeStatement`, with one field per
  piece filled into the template.

Behaviour of `sql_utils.py` worth knowing:

- `trans_cols` tests `NUMBER` and `VARCHAR` case-sensitively. It does not call
  `upper()`, unlike `number_cols`, `trans_date_cols` and `gen_insert_sql`.
  `TransColsCaseSensitive` shows a `"number"` column that `number_cols` keeps
  and `trans_cols` drops.
- `gen_insert_sql` copies the table name, the column names and the date format
  into the statement verbatim. So the word `TO_DATE` or `NVL` can appear in the
  statement whatever the arguments are. Inside the values list, `TO_DATE` occurs
  only when a non-empty date format is given (`NoToDateWithoutFormat`). `NVL`
  occurs only when deal_null is on or a non-empty date format is given: the
  format text, `NVL` for example, is copied into every `TO_DATE(...)`
  (`NoNvlWithoutDealNull`).
- The UPDATE columns of `gen_merge_update_insert_sql` are a Python set, which has
  no defined iteration order. The model uses first-occurrence order and proves
  only the set of columns and that each comes once.
- The default arguments are kept: `date_format=None` and `deal_null=True` for
  `gen_insert_sql`, and `distinct=False` for `gen_merge_update_insert_sql`. The
  usage-example lemmas call the model with these defaults, as the usage example does.

## Model

| member | source | states |
|---|---|---|
| `SqlUtils.ColNames` | sql_utils.py:116-120 | one name per column: as many names as columns, and a name is listed iff some column has it; `NumberColsAppend` and `NumberColsSubsequence` relate it to number_cols |
| `SqlUtils.NumberCols` | sql_utils.py:122-126 | a name is in the result iff some column with that name has an upper-cased type containing NUMBER; the result is no longer than the spec |
| `SqlUtils.NumberColsSubsequence` | sql_utils.py:116-126 | number_cols is col_names with some entries deleted and the rest kept in input order |
| `SqlUtils.NumberColsAppend` | sql_utils.py:116-126 | col_names and number_cols handle each column on its own: the result for a concatenation of specs is the concatenation of the results |
| `SqlUtils.GenCreateSql` | sql_utils.py:19-24 | the statement starts with `create table T(` for table name T and ends with `)`; `CreateSqlEmpty`, `CreateSqlLineBreaks` and `CreateSqlDemo` state the column list |
| `SqlUtils.CreateSqlEmpty` | sql_utils.py:19-24 | an empty column spec gives `create table T()`, not an error |
| `SqlUtils.CreateSqlLineBreaks` | sql_utils.py:21 | for a non-empty spec, when the table name, the column names and the types hold no line break, the CREATE statement has exactly one line break per separator, `len(cols) - 1` in all |
| `SqlUtils.CreateSqlDemo` | sql_utils.py:204-207 | the usage example's CREATE statement, one `name type` definition per line, in input order |
| `SqlUtils.GenDateTpl` | sql_utils.py:26-31 | the template is `YYYY<sep>MM<sep>DD HH24:MI:SS`, or `...HH24:MI` without seconds |
| `SqlUtils.DateTplSeconds` | sql_utils.py:28-29 | the template without seconds is the one with seconds less its last three characters `:SS` |
| `SqlUtils.ParseRender` | sql_utils.py:51-62 | every bind expression reads back as itself, so its form and its position are recoverable from its text |
| `SqlUtils.BindText` | sql_utils.py:47-62 | one column's value text is the rendering of the bind expression its type, the date format and deal_null select |
| `SqlUtils.InsertSql` | sql_utils.py:33-67 | the statement starts with `insert into T(` for table name T and ends with `)`; `date_format` defaults to None and `deal_null` to true; `InsertValuesPositions`, `InsertBindRules` and `InsertColumnsSplit` state both lists |
| `SqlUtils.GenInsertSql` | sql_utils.py:33-69 | the loop builds exactly `insert into T(<names joined by ,>) values(<values joined by ,>)`, one value per column in input order |
| `SqlUtils.InsertStep` | sql_utils.py:49-62 | one more column extends the column list and the values list by exactly its name and its value |
| `SqlUtils.InsertValuesPositions` | sql_utils.py:46-62 | there are as many values as columns, and the value of the i-th column carries placeholder `:i` (1-based) |
| `SqlUtils.InsertBindRules` | sql_utils.py:51-62 | the choice of value, both directions: TO_DATE iff a non-empty date format is given and the type is a date type; else TO_NUMBER iff numeric; else NVL iff deal_null; else the bare placeholder |
| `SqlUtils.NoToDateWithoutFormat` | sql_utils.py:51-52 | without a (non-empty) date format no value is a TO_DATE conversion and the text `TO_DATE` does not occur in the values list |
| `SqlUtils.NoNvlWithoutDealNull` | sql_utils.py:57-62 | with deal_null off no value is an NVL expression; without a date format either, the text `NVL` does not occur in the values list |
| `SqlUtils.InsertSqlDemo` | sql_utils.py:190-210 | the usage example's INSERT statement, with the default arguments: `TO_NUMBER(:1)` for ID, `NVL(:k, null)` for the two text columns |
| `SqlUtils.InsertColumnsSplit` | sql_utils.py:64 | for a non-empty spec whose column names hold no comma, splitting the column list at commas gives back the names in order (an empty spec splits to `[""]`) |
| `SqlUtils.FirstMatch` | sql_utils.py:140-144 | the inner loop's outcome: some default iff some marker occurs in the type |
| `SqlUtils.ClassifyOrder` | sql_utils.py:131-144 | NUMBER is tried first and wins (0.0); VARCHAR alone gives `''`; neither gives no entry |
| `SqlUtils.TransColsSpec` | sql_utils.py:136-146 | every key is the name of some column; `TransColsKeys` gives the keys exactly and `TransColsLastWins` the values |
| `SqlUtils.TransCols` | sql_utils.py:128-146 | the nested loop with `break` builds exactly the map of the specification function |
| `SqlUtils.TransColsKeys` | sql_utils.py:136-146 | the keys are exactly the names of columns whose type contains NUMBER or VARCHAR |
| `SqlUtils.TransColsLastWins` | sql_utils.py:141-143 | a name's value comes from the last column of that name with a marker: later columns overwrite earlier ones |
| `SqlUtils.TransColsExample` | sql_utils.py:129-146 | `[A NUMBER, B VARCHAR2(10), C DATE]` gives `{A: 0.0, B: ''}` |
| `SqlUtils.TransColsCaseSensitive` | sql_utils.py:141 | a lower-case `number` type is numeric to number_cols but not a marker to trans_cols |
| `SqlUtils.TransDateCols` | sql_utils.py:148-152 | the keys are exactly the names of columns whose upper-cased type contains DATE, and every value is 0 |
| `SqlUtils.TransDateColsExample` | sql_utils.py:150 | `[A NUMBER, B VARCHAR2(10), C DATE]` gives `{C: 0}` |
| `SqlUtils.GenTruncateSql` | sql_utils.py:154-161 | the statement is the fixed prefix `truncate table ` followed by the table name, which can be read back |
| `SqlUtils.UpdateColumnsFrom` | sql_utils.py:92 | the surviving upper-cased columns, each once, are exactly those of some column and not skipped |
| `SqlUtils.UpdateColumns` | sql_utils.py:92 | as a set, the UPDATE columns are `{upper(n)} - {upper(e)}`, with no duplicates |
| `SqlUtils.GenMergeUpdateInsertSql` | sql_utils.py:71-114 | the destination and source tables are kept, and the distinct keyword is `distinct` when requested and empty otherwise, with `distinct` defaulting to false; `MergeClauses` states the other clauses |
| `SqlUtils.MergeClauses` | sql_utils.py:86-100 | UPDATE assigns `d.C=s.C` for exactly the non-excluded upper-cased columns, each once; the ON clause is the conditions joined by ` AND `; both INSERT lists keep every column in input order; `distinct` appears iff requested |
| `SqlUtils.MergeDemo` | sql_utils.py:191-227 | the usage example's MERGE clauses, with `distinct` left at its default: no keyword; ID is excluded from UPDATE and kept in both INSERT lists |
| `Text.ParseNatToString` | sql_utils.py:52-62 | the decimal text of a placeholder position reads back as the position, so distinct columns get distinct placeholders |
| `Text.SplitJoin` | sql_utils.py:64-65 | for a non-empty list whose parts do not hold the separator, splitting undoes a join with that one-character separator (`[]` and `[""]` join to the same text) |

## Left out

- `calc_time` (sql_utils.py:163-169) is not modelled. It divides floating-point numbers, rounds them, and reads the wall clock through `time()`.
- `demo()` and the `__main__` block (sql_utils.py:172-232) only print. Their documented outputs are stated by the `*Demo` lemmas.
- The literal text of the MERGE template (sql_utils.py:102-112) is not modelled: its line breaks, its indentation, and the `VAlUES` spelling. `GenMergeUpdateInsertSql` returns the pieces that fill the template. `MergeClauses` states each piece.
- The iteration order of the Python set of UPDATE columns (sql_utils.py:92) is unspecified. The model fixes one order, first occurrence in the column list. Only the set of columns and the absence of duplicates are proved.
- Entries that are not two-element pairs would raise an unpacking error at sql_utils.py:47 and sql_utils.py:138. They cannot occur, because the spec is typed as a sequence of pairs.
- `Text.Upper` is ASCII-only. Python's `str.upper()` also maps non-ASCII letters, and can change a string's length (`'ß'` becomes `'SS'`).
- `trans_cols` produces the float `0.0` and the string `''`. The model uses the datatype `NullDefault` instead of Python values of mixed type.
- The INSERT generator's integer positions are unbounded naturals. Python's integers are unbounded too, so nothing is lost.
