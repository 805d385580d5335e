# Text-to-SQL query IR and CREATE TABLE schema reader, in Dafny

This project models the two pieces of logic at the centre of a text-to-SQL
classification harness and proves properties about them.

1. **The query intermediate representation** (`src/data/sql_dataclass.py`,
   and the earlier copy in `src/sql_schema.py`). A frozen `Query` value
   carries a select list, a table, a WHERE part, ORDER BY items and a limit.
   Three transforms use it:
   - `convert_to_label` projects a query against a table→columns schema onto
     a 0/1 vector: one-hot over the tables, then multi-hot over column slots.
   - `generate_sql` renders the query as SQL text.
   - `convert_tokens_to_query` / `convert_select_tokens` decode a flat,
     lower-cased token list.
   The earlier `generate_sql` of `src/sql_schema.py` is modelled as its own
   renderer, and a lemma relates the two versions.
2. **The CREATE TABLE reader** of `encode_schema` in `src/data/encode_dbs.py`
   and its predecessor in `src/preprocess/encode_dbs.py`.
   - It filters the statements and picks each table's name out of the
     statement's top-level tokens.
   - It splits every parenthesised token's text at commas, drops blank and
     PRIMARY KEY / FOREIGN KEY pieces, and keeps each remaining piece's first
     word with its quotes removed.
   - It folds the statements into an insertion-ordered dictionary.
   - It renders that dictionary as `table(col, col); ...;`.

Modules:
- `Wrappers`: `Option` and `Result`.
- `Text`: Python's `strip`, `lower`, `startswith`, `split`, `join` and `str(int)` on ASCII text.
- `Mapping`: a Python `dict` as a sequence of key/value pairs. Assigning to a key keeps that key's first position.
- `SqlClauses`: the enums, `Predicate`, `Where`, `OrderBy` and the clause texts that both query files share.
- `SqlDataclass`: the later query file.
- `SqlSchema`: the earlier query file.
- `Ddl`: the token model, the column reader, the statement fold and the schema text, which both readers share.
- `EncodeDbs`: the later reader.
- `PreprocessEncodeDbs`: the earlier reader.

Where the code changes state step by step, the model does too:
- `generate_sql` appends to a string clause by clause.
- `convert_to_label` writes ones into zeroed arrays.
- `convert_select_tokens` walks a cursor.
- `encode_schema` runs nested loops that fill a list and a dictionary.

Each such method is proved equal to a specification function, and the
properties are proved about those functions.

Raised exceptions become `Failure` values:
- `MissingFromTable`: `ValueError` for an empty or missing FROM table.
- `EmptySchema`: `ValueError` from `max()` of an empty sequence.
- `UnknownTable`: `ValueError` for a table the schema lacks.
- `MissingTableAfterFrom`: `IndexError` when `from` is the last token of the select part.
- `NotProperlyFormed` and `TableNameNotFound`: the two `ValueError`s of the schema readers.

Where the code differs from what its names and comments suggest, the model follows the code:
- The column list is split at every comma, including the commas nested in a type such as `DECIMAL(10,2)`. The depth-aware split is modelled beside it, as the corrected definition of a finding below.
- A token list without `from` decodes to a query with no table and does not raise. A `from` with nothing after it raises `IndexError`, not a dedicated error.
- A CREATE TABLE whose parenthesised group is its second token is rejected, because the computed name position `0` is falsy.
- The label table bit is placed at the table's position in dictionary insertion order.
- The WHERE text keeps the code's gluing of the operator. It is listed as a finding, with the intended text modelled beside it.

## Model

| member | source | states |
|---|---|---|
| SqlDataclass.Label | src/data/sql_dataclass.py:57-93 | A label exists iff the table is set and is a key. It then has one slot per table plus the widest table's column count, and every slot is 0 or 1. |
| SqlDataclass.LabelSpec | src/data/sql_dataclass.py:57-93 | The errors come in the code's order: an empty table, then an empty schema, then an unknown table. A label exists iff the table is a key. It has length number of tables + widest table. Exactly the slot at the table's key position is 1 among the table slots. Column slot j is 1 iff every column is selected and j is within the table, or `cols[j]` is selected and j is its first position. |
| SqlDataclass.ConvertToLabel | src/data/sql_dataclass.py:67-93 | The array-writing procedure returns exactly `Label`: the error or the concatenated table and column parts. |
| SqlDataclass.MarkColumns | src/data/sql_dataclass.py:82-91 | Marking a zeroed array gives 1 in slots `0..len(cols)-1` for an empty select list. Otherwise it gives 1 in each slot that is the first index of a selected name, and 0 elsewhere. |
| SqlDataclass.MaxColumns | src/data/sql_dataclass.py:72 | The column width bounds every table's column count and is attained by some table. |
| SqlDataclass.LabelIgnoresUnknownColumn | src/data/sql_dataclass.py:88-91 | Selecting one more name that the target table lacks leaves the label unchanged. |
| SqlDataclass.LabelSelectAllExample | src/data/sql_dataclass.py:57-93 | SELECT * from the first of two two-column tables gives `[1, 0, 1, 1]`. |
| SqlDataclass.LimitClause | src/data/sql_dataclass.py:131-132 | The LIMIT text is empty iff the limit is None or 0. Otherwise it is ` LIMIT ` followed by integer text that parses back to the limit. |
| SqlDataclass.Render | src/data/sql_dataclass.py:95-134 | Rendering fails, with `MissingFromTable`, exactly when the table is missing or empty. Otherwise the text starts with the SELECT clause and ` FROM table` and ends in `;`. |
| SqlDataclass.GenerateSql | src/data/sql_dataclass.py:95-134 | The clause-by-clause accumulation equals `Render`. |
| SqlDataclass.RenderClauses | src/data/sql_dataclass.py:98-134 | A rendered query is SELECT, FROM, WHERE, ORDER BY and LIMIT clauses and `;`, in that order. Without predicates, order items or a truthy limit it is just `SELECT ... FROM t;`. |
| SqlDataclass.ClauseStart | src/data/sql_dataclass.py:146-150 | The cut position is the first index holding `where`, `order` or `limit`, or the length when there is none. |
| SqlDataclass.ProjectedColumns | src/data/sql_dataclass.py:169-170 | The kept tokens are exactly the tokens other than `select` and `,`, and no more of them than there are tokens. |
| SqlDataclass.SelectTokens | src/data/sql_dataclass.py:160-172 | It raises, with `MissingTableAfterFrom`, iff the only `from` is the last token. It returns no table iff there is no `from`. The columns are tokens of the input other than `select`, `,` and `from`. |
| SqlDataclass.ConvertSelectTokens | src/data/sql_dataclass.py:160-172 | The cursor loop returns exactly `SelectTokens`. Before the first `from` it keeps the projected tokens and returns the next token as the table. It returns no table without a `from`, and `IndexError` when `from` is last. |
| SqlDataclass.ConvertTokensToQuery | src/data/sql_dataclass.py:137-157 | A decoded query has the default WHERE, no ORDER BY and no limit. Before the clause cut, without `from` it selects every projected token and has no table. At the first `from` it selects the projected tokens before it and reads the next token as the table, or raises when nothing follows. |
| SqlDataclass.DecodeIgnoresClauses | src/data/sql_dataclass.py:146-152 | Everything from the first clause keyword onward is ignored by the decoder. |
| SqlDataclass.SelectTokensOfSelectList | src/data/sql_dataclass.py:160-172 | `select c1 , c2 ... from t` reads back as the columns `c1, c2, ...` and the table `t`. |
| SqlDataclass.DecodeSelectFrom | src/data/sql_dataclass.py:137-172 | Decoding `select c1 , ... from t` followed by any clause gives back the query with those columns and that table. |
| SqlDataclass.DecodeExample | src/data/sql_dataclass.py:137-157 | `select a , b from t where x = 1` decodes to columns `a, b` and table `t`. |
| SqlClauses.ConditionFields | src/data/sql_dataclass.py:113-116 | A condition whose column has no blank reads back: the column is its first word, the operator symbol the next, and the rest is the value in single quotes. |
| SqlClauses.OrderItemFields | src/data/sql_dataclass.py:123-125 | An order item whose column has no blank reads back: the column is its first word, and the rest is `ASC` iff ascending, `DESC` otherwise. |
| SqlClauses.ConditionTexts | src/data/sql_dataclass.py:112-116 | The loop builds one `col op 'value'` text per predicate, in order. |
| SqlClauses.OrderByTexts | src/data/sql_dataclass.py:122-126 | The loop builds one `col ASC|DESC` text per order item, in order. |
| SqlClauses.SelectClause | src/data/sql_dataclass.py:99-102 | The SELECT text always starts with `SELECT `. It is `SELECT *` for an empty list and `SELECT c` for one column. |
| SqlClauses.SelectClauseAppend | src/data/sql_dataclass.py:99-100 | With at least one column, each further column adds `, ` and that column at the end, so the columns appear in list order. |
| SqlClauses.WhereClause | src/data/sql_dataclass.py:111-118 | The WHERE text is empty iff there are no predicates. Otherwise it starts with ` WHERE  ` and the operator. |
| SqlClauses.OrderByClause | src/data/sql_dataclass.py:121-128 | The ORDER BY text is empty iff there are no items. Otherwise it starts with ` ORDER BY ` and the first item. |
| SqlClauses.OrderByClauseAppend | src/data/sql_dataclass.py:121-128 | With at least one item, each further ORDER BY entry adds `, ` and its item at the end, so the items appear in list order. |
| SqlClauses.WhereClauseAppend | src/data/sql_dataclass.py:117-118 | As written, each further predicate adds only a space and its condition, never the operator. |
| SqlClauses.WhereOne | src/data/sql_dataclass.py:117-118 | As written, one predicate renders as ` WHERE  `, the operator keyword and the condition, with no space between the keyword and the condition. |
| SqlClauses.WhereClauseGluesOperator | src/data/sql_dataclass.py:118 | For two predicates, the written text is ` WHERE ` + ` OP` + `c1 c2`, which differs from the intended ` WHERE c1 OP c2`. |
| SqlClauses.WhereClauseIntended | src/data/sql_dataclass.py:111-118 | The intended WHERE text is empty iff there are no predicates. Otherwise it starts with ` WHERE ` and the first condition. |
| SqlClauses.WhereClauseIntendedShape | src/data/sql_dataclass.py:118 | The intended text of one predicate is ` WHERE c1`, and each further predicate adds ` OP ` and its condition. |
| SqlSchema.FromClause | src/sql_schema.py:63-64 | The FROM text is empty iff the table is empty. Otherwise it is ` FROM ` followed by the table. |
| SqlSchema.Render | src/sql_schema.py:53-86 | The earlier renderer never fails. It starts with the SELECT clause, and with ` FROM t` when a table is set. Its length is the sum of the four clause texts, so it has no LIMIT and no `;`. |
| SqlSchema.GenerateSql | src/sql_schema.py:53-86 | The earlier clause-by-clause accumulation equals the earlier `Render`. |
| SqlSchema.LaterRenderExtends | src/sql_schema.py:53-86 | With a table, the later text is the earlier text plus the LIMIT clause and `;`. Without a table, the later renderer raises while the earlier one leaves out FROM. |
| Ddl.Significant | src/data/encode_dbs.py:32 | The filtered tokens are exactly the non-whitespace tokens. |
| Ddl.SignificantSnoc | src/data/encode_dbs.py:32 | One more token is kept, at the end, exactly when it is not whitespace. |
| Ddl.SignificantConcat | src/preprocess/encode_dbs.py:30 | The filter keeps the order: the significant tokens of `a + b` are those of `a` followed by those of `b`. |
| Ddl.PieceColumn | src/data/encode_dbs.py:59-65 | A piece is skipped iff, once stripped, it is blank or starts, in any letter case, with `primary key` or `foreign key`. |
| Ddl.PieceColumnIsFirstWord | src/data/encode_dbs.py:59-65 | The name read from a piece is the leading run of non-blank characters of the stripped piece, ended by a blank or by the end, with the double quotes and backticks at its ends stripped. |
| Ddl.PieceColumnChars | src/data/encode_dbs.py:59-65 | That name has no whitespace, is made of characters of the piece and has no quote at either end. It is a well-formed column name when the piece has no comma. |
| Ddl.ColumnsAreNames | src/data/encode_dbs.py:55-66 | Every column name read from a statement is well formed in that sense. |
| Ddl.ColumnsLowerCase | src/data/encode_dbs.py:54-66 | The column names read from tokens whose text is lower-case are lower-case. |
| Ddl.GroupColumns | src/data/encode_dbs.py:57-66 | Every name read from one parenthesised token's text is a well-formed column name. |
| Ddl.ExtractPieceColumns | src/data/encode_dbs.py:58-66 | The inner loop appends the names of the pieces in order, keeping duplicates. |
| Ddl.ExtractGroupColumns | src/data/encode_dbs.py:57-66 | Stripping the brackets, splitting at every comma and reading the pieces gives `GroupColumns`. |
| Ddl.ExtractColumns | src/data/encode_dbs.py:54-66 | The column loop concatenates the names of every parenthesised token in order. |
| Ddl.AccumulateStopsAtFailure | src/data/encode_dbs.py:23-51 | After the first raising statement, later statements change nothing. |
| Ddl.AccumulateFails | src/data/encode_dbs.py:23-68 | The loop raises iff some statement raises, and then with the first such statement's error. |
| Ddl.AccumulateKeys | src/data/encode_dbs.py:68 | The dictionary's keys are distinct and are exactly the names of the tables defined. |
| Ddl.AccumulateKeysSnoc | src/data/encode_dbs.py:68 | A table not defined before is added as the last key. A table defined again keeps its place, and the keys do not change for any other statement. |
| Ddl.AccumulateKeysOrder | src/data/encode_dbs.py:68 | The dictionary's keys are the defined table names, each once, in the order of its first definition. |
| Ddl.AccumulateLookup | src/data/encode_dbs.py:68 | Every dictionary entry is some statement's table definition. |
| Ddl.AccumulateLastWins | src/data/encode_dbs.py:68 | A table defined several times maps to the columns of its last definition. |
| Ddl.AccumulateWarnings | src/data/encode_dbs.py:27-30 | The printed warnings are exactly those of the skipped statements that print one, in order. |
| Ddl.WarningsFromSkips | src/data/encode_dbs.py:27-30 | Each warning comes from a skipped statement. |
| Ddl.SchemaText | src/data/encode_dbs.py:82-86 | The schema text always ends in `;`, and it is `;` for an empty dictionary. |
| Ddl.SchemaTextAppend | src/data/encode_dbs.py:82-86 | One table gives `t(c1, c2);`. Each further table inserts `; ` and its entry before the final `;`. |
| Ddl.SchemaTextSplits | src/data/encode_dbs.py:82-86 | Split at `;`, the text gives back the entries in dictionary order, the later ones behind a space, then the empty text, provided no name contains `;`. |
| Ddl.GroupColumnsSplitsNestedComma | src/data/encode_dbs.py:57-66 | As written, `(c1 T(p,q), c2 U)` reads as three columns `c1`, `q)`, `c2`. |
| Ddl.GroupColumnsIntendedKeepsNestedComma | src/data/encode_dbs.py:57-66 | The depth-aware split reads the same list as its two columns `c1`, `c2`. |
| Ddl.GroupColumnsIntended | src/data/encode_dbs.py:57-66 | With the depth-aware split, every name read has no whitespace and no quote at either end. |
| Ddl.SplitTopJoin | src/data/encode_dbs.py:58 | The depth-aware split undoes a comma join of definitions whose own commas are nested in balanced brackets. |
| Ddl.SplitTopWithoutParentheses | src/data/encode_dbs.py:58 | Without brackets the depth-aware split is the plain `split(",")`. |
| EncodeDbs.NameIndex | src/data/encode_dbs.py:36-41 | The name position is absent iff no token after the first is parenthesised. Otherwise it is the position just before the first such token. |
| EncodeDbs.FindNameIndex | src/data/encode_dbs.py:36-41 | The search loop returns exactly `NameIndex`. |
| EncodeDbs.TableNameValue | src/data/encode_dbs.py:49 | The table name is the lower-casing of a stretch of the token's text. Everything outside the stretch is a double quote or a backtick. |
| EncodeDbs.ReadStatementSkips | src/data/encode_dbs.py:24-30 | A statement is skipped iff its type is not CREATE or its lower-cased stripped text lacks `table`. A warning is printed for it iff that text starts with `create`, and the warning carries that text. |
| EncodeDbs.ReadStatementMalformed | src/data/encode_dbs.py:36-44 | "Not properly formed" is raised iff, for a CREATE TABLE statement, there is no name position or the name position is 0. |
| EncodeDbs.ReadStatementTable | src/data/encode_dbs.py:24-68 | A table is read only from a CREATE statement containing `table`, with a name position that exists and is not 0, holding an identifier or plain token. Its name is that token's text through `TableName`: lower-case, with no quote at either end. Its columns are those of the statement's parenthesised tokens. |
| EncodeDbs.ReadStatementNameNotFound | src/data/encode_dbs.py:46-51 | "Table name not found" is raised iff a CREATE statement containing `table` has a name position that exists and is not 0, but the token there is neither an identifier nor a plain token. |
| EncodeDbs.ReadCreateTable | src/data/encode_dbs.py:23-68 | The loop body for one statement returns exactly `ReadStatement`. |
| EncodeDbs.EncodeSchema | src/data/encode_dbs.py:20-68 | The statement loop returns exactly the fold of the statement outcomes: the tables and warnings, or the first error. |
| EncodeDbs.TableKeysWellFormed | src/data/encode_dbs.py:24-68 | The dictionary's keys are distinct and in the order the tables were first defined. Each is lower-case and unquoted, and is the name read from some statement. |
| EncodeDbs.TableColumnsWellFormed | src/data/encode_dbs.py:55-68 | Every column list in the dictionary consists of well-formed names. |
| EncodeDbs.TableColumnsLowerCase | src/data/encode_dbs.py:24-68 | With a parser whose token texts are pieces of the lower-cased statement, every column name in the dictionary is lower-case. |
| EncodeDbs.TablesLastDefinitionWins | src/data/encode_dbs.py:68 | A table named by no later statement keeps this statement's columns. |
| EncodeDbs.EncodeSchemaFails | src/data/encode_dbs.py:36-51 | The reader raises iff some statement raises, and then with the first one's error. |
| EncodeDbs.WarningsAreCreateStatements | src/data/encode_dbs.py:27-30 | Every warning is the warning prefix followed by some statement's stripped, lower-cased text, and that text starts with `create`. |
| PreprocessEncodeDbs.FirstIdentifier | src/preprocess/encode_dbs.py:33-37 | The position found is the first identifier token. It is absent iff there is none. |
| PreprocessEncodeDbs.TableName | src/preprocess/encode_dbs.py:33-39 | A name exists iff some token is an identifier. The name has no quote at either end. |
| PreprocessEncodeDbs.TableNameKeepsCase | src/preprocess/encode_dbs.py:33-39 | The name is a stretch of the first identifier's text, in its own letter case. Everything outside the stretch is a double quote or a backtick. |
| PreprocessEncodeDbs.FindTableName | src/preprocess/encode_dbs.py:33-37 | The search loop returns exactly `TableName`. |
| PreprocessEncodeDbs.ReadStatementCases | src/preprocess/encode_dbs.py:24-39 | A statement is read iff its stripped text starts with `create table` in any case, and skipped ones print nothing. It raises `TableNameNotFound` iff it has no identifier. |
| PreprocessEncodeDbs.ReadStatementTable | src/preprocess/encode_dbs.py:33-55 | A read table's name is the first identifier's unquoted text, and its columns are those of the parenthesised tokens. |
| PreprocessEncodeDbs.ReadCreateTable | src/preprocess/encode_dbs.py:23-55 | The earlier loop body for one statement returns exactly its `ReadStatement`. |
| PreprocessEncodeDbs.EncodeSchema | src/preprocess/encode_dbs.py:20-60 | The earlier statement loop followed by the schema text returns exactly `SchemaTextOf`. |
| PreprocessEncodeDbs.SkippedStatementChangesNothing | src/preprocess/encode_dbs.py:24-26 | Appending a statement that does not start with `create table` leaves the result unchanged. |
| PreprocessEncodeDbs.EncodeSchemaFails | src/preprocess/encode_dbs.py:38-39 | The earlier reader raises iff some statement raises, and always with `TableNameNotFound`. |
| PreprocessEncodeDbs.SchemaTextOfEntries | src/preprocess/encode_dbs.py:55-60 | The returned text is the schema text of a dictionary whose keys are the defined names, each once, in the order of first definition. It splits back into its entries when no name contains `;`. |
| Mapping.Put | src/data/encode_dbs.py:68 | `tables[name] = cols` maps the name to the columns and leaves every other key alone. An existing key keeps its position, and a new key goes last. |
| Text.StripCharsExact | src/data/encode_dbs.py:57 | `strip(chars)` returns one stretch of the text. Everything before and after the stretch is in `chars`, and neither end of the stretch is. |
| Text.Split | src/data/encode_dbs.py:58 | `split(",")` gives at least one piece, and no piece contains the separator. Joining the pieces with it gives back the text. |
| Text.SplitJoin | src/data/encode_dbs.py:58 | Splitting undoes joining when no piece contains the separator. |
| Text.FirstWord | src/data/encode_dbs.py:65 | The first word is a prefix without whitespace, ended by whitespace or by the end of the text. |
| Text.IntToStringRoundTrip | src/data/sql_dataclass.py:132 | `str(limit)` is integer text that parses back to the limit. |

## Left out

- sqlparse is not part of this model. `sqlparse.split` is replaced by the statements arriving already split. `sqlparse.parse` and `get_type` are replaced by a parameter `parse` that yields the statement type and the top-level tokens. Each token has a class (identifier, plain token, parenthesis, other), its text and its whitespace flag.
- The HuggingFace tokenizer calls in `encode_schema` and everything after the table dictionary is built are not modelled: they are foreign model code producing tensors. The earlier `encode_schema` is modelled up to its schema text.
- `print` diagnostics are handled this way:
  - The later reader's warning is returned as a list of warning texts.
  - `print(schema)` before the unknown-table error is not modelled.
  - The earlier reader's `print(parsed.tokens)` and `print("Schema Text:", ...)` are not modelled.
- EncodeDbs.TableColumnsLowerCase: the later reader's column names are lower-case only under the stated hypothesis `KeepsLowerCase` on the parser (the text of every token of a lower-case statement is lower-case). sqlparse's token texts are pieces of its input, but sqlparse is not part of this model, so the hypothesis is not proved.
- Ddl.GroupColumnsSplitsNestedComma and its intended counterpart are proved for column names that do not start with `p` or `f` (`PlainColumn`), which keeps the constraint check out of the example. `Ddl.PieceColumnOfDefinition` itself only needs the piece not to be a constraint.
- numpy float arrays: the label is a sequence of the integers 0 and 1.
- A `float` predicate value: only string and integer values are modelled, because Python's float formatting is out of scope.
- `strip()`, `lower()` and `split()` act on ASCII whitespace and ASCII letters only. Unicode whitespace and case mapping are not modelled.
- The decoder's WHERE, ORDER BY and LIMIT tokens are not parsed, as in the code. The decoded query keeps their defaults.
- `Query.order_by` is a sequence. `None` and `[]`, which the code treats alike, are both the empty sequence.
- `Where` is always truthy in Python, so the renderers' `if self.where:` test is always true and is not modelled separately.
- The findings' corrected definitions sit beside the code's behaviour. The readers and the renderers keep the behaviour as written: the intended WHERE text and the depth-aware split are not wired into them.

## Findings

| source | as written | input that shows it | evidently intended | confidence | as-written member | corrected member |
|---|---|---|---|---|---|---|
| src/data/sql_dataclass.py:118 | The WHERE text is ` WHERE ` + (` ` + operator + `' '.join(conditions)`), so the operator is glued in front of the first condition and missing between conditions. | predicates `a = '1'` and `b = '2'` with AND render ` WHERE  ANDa = '1' b = '2'` | ` WHERE a = '1' AND b = '2'`: the operator, with a space on each side, between consecutive conditions | high, not executed | SqlClauses.WhereClauseGluesOperator | SqlClauses.WhereClauseIntendedShape |
| src/data/encode_dbs.py:58 | The column list is split at every comma, including commas nested inside a column type. | `CREATE TABLE t (amount DECIMAL(10,2), qty INT)` reads columns `amount`, `2)`, `qty` | a split at commas outside every bracket, giving `amount`, `qty` | high, not executed | Ddl.GroupColumnsSplitsNestedComma | Ddl.GroupColumnsIntendedKeepsNestedComma |
