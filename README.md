# sphinx-haystack in Dafny

A model of sphinx-haystack, a Haystack search backend for Django that talks to the Sphinx
search daemon through its SQL-like protocol (SphinxQL over the MySQL wire protocol).

## What the model covers

The model has three parts.

- **The current backend**, `sphinx_haystack/sphinx_backend.py`:
  - reading the connection options;
  - coercing Python values (`_from_python`);
  - the write path (`update`, `remove`, `clear`);
  - building the search query and mapping the fetched rows to results;
  - the fragment builder of `SphinxSearchQuery`.
- **The `Document` model**, `sphinx_haystack/models.py`. It gives every indexed object, whatever its
  model, a document id of its own, and it carries a mutable `score`.
- **The earlier single-module variant**, `sphinx_haystack.py`. It reads the `INDEX` option and builds
  its statement texts differently. The update statement's column list is the join of a `fields`
  list that is always empty, while its placeholder list is fixed at `(%s, %s)`. The query string
  is spliced into the search query. Its `clear` always fails.

The modules follow that structure:

| module | file | contents |
|---|---|---|
| `Wrappers` | wrappers.dfy | `Option`, `Result` and `Outcome` |
| `Text` | text.dfy | `', '.join`, `str.split`, `str(int)` and `int(str)` |
| `Values` | values.dfy | Python values, `force_unicode` and `_from_python` |
| `Settings` | settings.dfy | the defaults `DEFAULT_HOST` and `DEFAULT_PORT`, and the options read by `SphinxSearchBackend.__init__` |
| `Documents` | documents.dfy | the `Document` table: `get`, `get_or_create` and deleting by pk; the `Document` class with its `score` property |
| `Statements` | statements.dfy | the exact SphinxQL texts: `REPLACE INTO`, `DELETE`, and `SELECT` with its `LIMIT` and `ORDER BY` |
| `Backend` | backend.dfy | the `SphinxSearchBackend` class and the pure plans behind `update`, `remove`, `clear` and `search` |
| `Query` | query.dfy | `build_query_fragment` and a parser that reads a fragment back |
| `Legacy` | legacy.dfy | the earlier variant |

### State

`SphinxSearchBackend` is a class with two pieces of state:

- **`documents`**, the `Document` table. It is a sequence of records `(content_type, object_id, pk)`
  in pk order, plus the next pk to hand out.
  - `ValidTable` is its invariant: pks strictly increase and stay below the counter, and no two rows
    have the same (content type, object id).
  - The table in pk order is what `Document.objects.all()[:1000]` pages through.
- **`index`**, the Sphinx index. It maps each document id to the row of values last written for it.

### Calls

- Each statement sent to the daemon is returned as a `Call` value: its SQL text and its bound
  parameters, or its value rows for `executemany`.
- `update` is specified by a pure plan, `Plan`. Folded over the items, the plan gives the table
  after the `get_or_create` calls and the value rows.
- `clear` is a `while true` loop over pages of at most 1000 pks. The loop invariant keeps the list of
  rounds done so far equal to a prefix of `Pages` of the original pk list.

### Quirks of the code the model keeps

The model follows the code:

- A fetched search row whose `Document` no longer exists is not skipped. `Document.objects.get`
  raises, and the model returns `DocumentDoesNotExist`.
- A `start_offset` without an `end_offset` is not rejected. It is silently ignored.
- Two `LIMIT` clauses are emitted when both offsets are given.
- The ascending suffix is `ASC` with no leading space.
- For `startswith`, the `^` comes before the value.
- An unknown filter type has no entry in the table of templates. In the code, `dict.get`
  returns `None` and the following `.format` raises. The model returns `UnsupportedFilterType`.
- The earlier variant's `remove` binds Python's builtin `id` function, not a document id. The model
  binds that function's text, `<built-in function id>`.
- The earlier variant's `update` and `remove` call `executemany` and `execute` on the MySQLdb
  connection, not on a cursor as its `search` and the current backend do. The connection has neither
  method, so both raise AttributeError. The model records the statement each call names and returns
  that AttributeError.

## Model

| member | source | states |
|---|---|---|
| `Settings.FromOptions` | sphinx_haystack/sphinx_backend.py:28-48 | Success exactly when `INDEX_NAME` is an option, and then the index name is that option. HOST defaults to `127.0.0.1` and PORT to `9306`, and each is taken from the options when given. On failure the error is ImproperlyConfigured with the message naming `INDEX_NAME`. |
| `Backend.SphinxSearchBackend.constructor` | sphinx_haystack/sphinx_backend.py:34-48 | The backend holds the given configuration, Document table and index, and its invariant holds. |
| `Values.CoercionByKind` | sphinx_haystack/sphinx_backend.py:52-67 | Booleans become 1 or 0, never a boolean. Ints and floats come back unchanged, and a datetime becomes its timestamp. The result is unicode text exactly for lists, tuples, text, None and other objects, and for a scalar it is that scalar's unicode text. |
| `Values.SequenceCoercionRoundTrip` | sphinx_haystack/sphinx_backend.py:60-61 | A non-empty list or tuple becomes unicode text. Splitting that text on `,` gives back each element's unicode text, in order, when no element's text holds a comma. |
| `Values.CoercionExamples` | sphinx_haystack/sphinx_backend.py:55-61 | `[a, b, c]` becomes `"a,b,c"`; True becomes 1 and False becomes 0. |
| `Values.ToUnicode` | sphinx_haystack/sphinx_backend.py:61-66 | `force_unicode` gives text back unchanged, and the text of an integer reads back as that integer. |
| `Values.FromPython` | sphinx_haystack/sphinx_backend.py:52-67 | The result is a number exactly for booleans and ints. A single scalar whose result is text gets its `force_unicode` text. |
| `Backend.Columns` | sphinx_haystack/sphinx_backend.py:93 | `[row[f] for f in field_names]` succeeds exactly when every column is in the prepared row. It then gives one value per column, in column order. Otherwise it fails with KeyError on a column missing from the row. |
| `Backend.Extend` | sphinx_haystack/sphinx_backend.py:86-93 | One iteration of `update`'s loop keeps the Document table's invariant. |
| `Backend.ExtendReaches` | sphinx_haystack/sphinx_backend.py:87-90 | An item the loop takes in has its Document in the table afterwards. |
| `Backend.Plan` | sphinx_haystack/sphinx_backend.py:86-93 | The whole loop over the items keeps the Document table's invariant. |
| `Backend.PlanRows` | sphinx_haystack/sphinx_backend.py:86-93 | Every value row written by `update` belongs to its item in order. The id slot holds the pk of the Document of that item's (content type, pk), and every other column holds the prepared value. |
| `Backend.PlanFails` | sphinx_haystack/sphinx_backend.py:86-93 | `update` fails exactly when some item's prepared row lacks one of the columns. |
| `Backend.PlanKnownItems` | sphinx_haystack/sphinx_backend.py:87-90 | When every item already has a Document, `update` leaves the Document table unchanged. |
| `Backend.PlanStops` | sphinx_haystack/sphinx_backend.py:86-93 | Once an item fails, the later items change nothing. Every item reached, the failing one included, has its Document in the final table: there is no transaction to roll those Documents back. |
| `Backend.ReindexReusesIds` | sphinx_haystack/sphinx_backend.py:80-104 | Indexing the same items a second time creates no Document, and it writes the same rows under the same document ids. |
| `Backend.UpdateRowShape` | sphinx_haystack/sphinx_backend.py:80-104 | The statement has one placeholder per column: `id` first, then the index fields. Each value row has exactly that many entries, and its first entry is the item's Document pk. |
| `Backend.ApplyReplace` | sphinx_haystack/sphinx_backend.py:98-104 | `REPLACE INTO` keeps every existing row except those whose id is written, and it adds the written ids. Every written row that no later write replaces under the same id is stored under its id. |
| `Backend.IndexItems` | sphinx_haystack/sphinx_backend.py:86-93 | The loop over the items computes exactly `Plan`: the new Document table and the written rows. Its `values` are those rows' value lists, in order. |
| `Backend.SphinxSearchBackend.Update` | sphinx_haystack/sphinx_backend.py:72-106 | The Document table becomes the planned one. On success the result is `executemany` of `REPLACE INTO <index> (id, f1, …) VALUES (%s, …)` with the planned value rows, and the index is the old index with those rows replaced. On a missing column the index is unchanged and the KeyError is returned. |
| `Statements.ReplaceText` | sphinx_haystack/sphinx_backend.py:98-104 | The `REPLACE INTO` text ends with the placeholder list for its columns and the closing parenthesis. |
| `Statements.PlaceholderCount` | sphinx_haystack/sphinx_backend.py:102-103 | The placeholder list for `n` columns holds exactly `n` placeholders. |
| `Text.Split` | sphinx_haystack/sphinx_backend.py:113 | `str.split` gives at least one part, and no part holds the separator. |
| `Text.JoinSplit` | sphinx_haystack/sphinx_backend.py:113 | Joining the parts of a split with the separator gives back the original text. |
| `Backend.ResolveTarget` | sphinx_haystack/sphinx_backend.py:112-117 | A string key that does not split on `.` into exactly three parts fails to unpack, with the number of parts. For a key `app_label.model.object_id`, an unknown content type fails with ContentTypeDoesNotExist. A known one with a non-integer object id fails with InvalidObjectId, and otherwise the key resolves to that content type and integer. An object is resolved to its own content type and pk. |
| `Backend.KeyNamesObject` | sphinx_haystack/sphinx_backend.py:112-114 | The key `app_label.model.object_id` resolves to that content type and object id. |
| `Text.IntToStringRoundTrip` | sphinx_haystack/sphinx_backend.py:113-121 | Reading back the decimal text of an integer gives the integer. This is how an object id in a key reaches the `object_id` lookup. |
| `Documents.FindByKey` | sphinx_haystack/sphinx_backend.py:119-122 | `Document.objects.get(content_type, object_id)` returns a row of the table with that content type and object id. |
| `Documents.FindByKeyUnique` | sphinx_haystack/sphinx_backend.py:119-122 | In a table with unique (content type, object id) keys, looking up a row's own key finds exactly that row. |
| `Documents.FindByKeyNone` | sphinx_haystack/sphinx_backend.py:119-125 | The lookup finds nothing exactly when no row has that content type and object id. |
| `Backend.SphinxSearchBackend.Remove` | sphinx_haystack/sphinx_backend.py:108-133 | A key that fails to resolve returns its error, and nothing changes. When no Document matches, nothing is sent and nothing changes. Otherwise one `DELETE FROM <index> WHERE id = %s` is sent, bound to the Document pk. Exactly that index row and that Document row are removed, and everything else is kept. |
| `Statements.DeleteByIdText` | sphinx_haystack/sphinx_backend.py:130 | The `DELETE … WHERE id = %s` text ends with its one placeholder, and it has no other `%` when the index name has none. |
| `Backend.DeletedObjectIsGone` | sphinx_haystack/sphinx_backend.py:119-131 | After its Document is deleted, the object is no longer found. |
| `Documents.WithoutPks` | sphinx_haystack/sphinx_backend.py:150 | Deleting a set of pks keeps exactly the rows whose pk is not in the set. |
| `Documents.WithoutPksValid` | sphinx_haystack/sphinx_backend.py:131-150 | Deleting Documents keeps the table's invariant. |
| `Backend.Pages` | sphinx_haystack/sphinx_backend.py:145-148 | There are no pages exactly when there are no pks, and the first page is the first 1000 pks, or all of them when there are fewer. |
| `Backend.PagesPartition` | sphinx_haystack/sphinx_backend.py:145-150 | The pages of `clear` give back every pk, in order. There are `ceil(n/1000)` of them, each holds 1 to 1000 pks, and all but the last hold exactly 1000. |
| `Backend.ClearRoundsExample` | sphinx_haystack/sphinx_backend.py:145-150 | 2500 Documents are cleared in three rounds of 1000, 1000 and 500. |
| `Statements.IdList` | sphinx_haystack/sphinx_backend.py:149 | `','.join(map(str, ids))` holds only digits, minus signs and commas. |
| `Statements.DeleteInText` | sphinx_haystack/sphinx_backend.py:149 | The `DELETE … WHERE id IN (…)` text has no `%` when the index name has none, so nothing in it is read as a placeholder. |
| `Statements.IdListRoundTrip` | sphinx_haystack/sphinx_backend.py:149 | The id list of a `DELETE … WHERE id IN (…)` has one comma-separated entry per pk, and each entry reads back as that pk. |
| `Backend.SphinxSearchBackend.Clear` | sphinx_haystack/sphinx_backend.py:135-152 | The loop ends with the Document table empty, and the index has lost exactly the ids of the old Documents. The rounds are the pages of the old pks, in table order. Each round sends `DELETE FROM <index> WHERE id IN (<ids>)`. The `models` argument is ignored. |
| `Statements.LimitClause` | sphinx_haystack/sphinx_backend.py:163-166 | No `end_offset` gives no LIMIT clause. An `end_offset` with no `start_offset` gives one ` LIMIT <end>`. The clauses never hold a `%`. |
| `Statements.OrderClause` | sphinx_haystack/sphinx_backend.py:167-183 | No sort fields give no ORDER BY clause. Otherwise the clause starts with ` ORDER BY ` and ends with ` DESC` when every field is `-`-prefixed, or with `ASC` when not. |
| `Statements.SearchText` | sphinx_haystack/sphinx_backend.py:162-183 | The query text starts with `SELECT * FROM <index> WHERE MATCH(%s)`. The query string is not an input of this text; it is only ever bound to the `%s`. |
| `Statements.UniformDirection` | sphinx_haystack/sphinx_backend.py:167-178 | Sort fields that are not mixed are either all `-`-prefixed or all plain. |
| `Statements.LimitTextExample` | sphinx_haystack/sphinx_backend.py:163-166 | Offsets 10 and 20 give ` LIMIT 10, 20 LIMIT 20`. |
| `Statements.DoubleLimitExample` | sphinx_haystack/sphinx_backend.py:162-166 | The full query text for offsets 10 and 20 has both LIMIT clauses, after `MATCH(%s)`. |
| `Statements.DescendingOrderExample` | sphinx_haystack/sphinx_backend.py:179-181 | `-a, -b` gives ` ORDER BY -a, -b DESC`, with the fields kept verbatim. |
| `Statements.AscendingOrderExample` | sphinx_haystack/sphinx_backend.py:179-183 | `a, b` gives ` ORDER BY a, bASC`, with no space before `ASC`. |
| `Statements.OrderAfterLimit` | sphinx_haystack/sphinx_backend.py:162-183 | The query text is `SELECT * FROM <index> WHERE MATCH(%s)`, then the LIMIT clauses, then the ORDER BY clause. |
| `Backend.SphinxSearchBackend.BuildSearchQuery` | sphinx_haystack/sphinx_backend.py:162-183 | The query fails exactly when the sort fields mix directions, with the SearchBackendError message, whichever direction comes first. Otherwise the text it builds is the query text above. |
| `Documents.FindByPk` | sphinx_haystack/sphinx_backend.py:196 | `Document.objects.get(pk=id)` returns the row with that pk. When it finds none, no row has that pk. |
| `Backend.Materialize` | sphinx_haystack/sphinx_backend.py:195-198 | A fetched row becomes a new `Document` for the row's pk, with its score set to the row's weight. |
| `Backend.ResolveRows` | sphinx_haystack/sphinx_backend.py:190-198 | The fetched rows resolve exactly when every row's id has a Document. Then result `k` is a new Document for row `k`'s id, scored with its weight. Otherwise the error names the first row whose id has no Document. |
| `Backend.SphinxSearchBackend.Search` | sphinx_haystack/sphinx_backend.py:154-203 | Mixed directions fail before anything is sent. Otherwise the one statement sent is the query text with the query string as its only bound parameter. The search succeeds exactly when every fetched id has a Document. Then hits is the number of rows, and result `k` is a new Document for row `k`'s id, scored with row `k`'s weight. Otherwise the error names the first fetched id that has no Document. |
| `Query.FieldPrefix` | sphinx_haystack/sphinx_backend.py:236-239 | The field selector starts with `@` and ends with a space. |
| `Query.BuildQueryFragment` | sphinx_haystack/sphinx_backend.py:236-249 | A fragment is built exactly for `contains`, `startswith` and `exact`, and any other filter type fails. `contains` gives selector + value, `startswith` gives selector + `^` + value, and `exact` gives selector + `=` + value. The earlier variant's `build_query_fragment` (sphinx_haystack.py:116-131) is the same code, so this member models it too. |
| `Query.FragmentRoundTrip` | sphinx_haystack/sphinx_backend.py:236-249 | Parsing a fragment gives back the field name (`*` for `content`) and the marker followed by the value, when the index field name holds no space. |
| `Documents.GetOrCreate` | sphinx_haystack/sphinx_backend.py:87-90 | The result is a row for that content type and object id, and afterwards it is the one the lookup finds. An existing row is returned with the table unchanged. A missing one is appended with the next pk, and the counter advances. The table invariant is kept. |
| `Documents.GetOrCreateIdempotent` | sphinx_haystack/sphinx_backend.py:87-90 | A second `get_or_create` of the same object changes nothing and returns the same row. |
| `Documents.DistinctRowsDistinctPks` | sphinx_haystack/models.py:6-19 | Two different Document rows have different pks. |
| `Documents.DistinctObjectsDistinctIds` | sphinx_haystack/models.py:10-19 | Two objects that differ in content type or object id get different document ids, so two models sharing an object id do not collide. |
| `Documents.Document.constructor` | sphinx_haystack/models.py:21-23 | The score keyword is stored, and it is None when not given. |
| `Documents.Document.Score` | sphinx_haystack/models.py:25-29 | The score getter gives the stored score, or 0 when the private attribute is missing. |
| `Documents.Document.SetScore` | sphinx_haystack/models.py:31-37 | Setting the score and then reading it gives the value just set, and the record is unchanged. |
| `Legacy.FromOptions` | sphinx_haystack.py:20-37 | Success exactly when `INDEX` is an option, with that option as the index name. The HOST and PORT defaults are the same as in the current backend. The error is ImproperlyConfigured with the message naming `INDEX`. |
| `Legacy.OptionKeysDiffer` | sphinx_haystack.py:30-37 | Options with only `INDEX_NAME` configure the current backend but not the earlier one, and options with only `INDEX` the reverse. |
| `Legacy.CollectRows` | sphinx_haystack.py:49-56 | The nested loops give one row per item, holding the item's attributes in field order. |
| `Legacy.Update` | sphinx_haystack.py:45-61 | The statement named is `REPLACE INTO <index> () VALUES (%s, %s)`, with one empty value row per item. It fails with AttributeError on `executemany`, which the connection does not have, so nothing reaches the daemon. |
| `Legacy.ReplaceText` | sphinx_haystack.py:59 | The statement ends with the two fixed placeholders `%s, %s` and the closing parenthesis. |
| `Legacy.PlaceholderMismatch` | sphinx_haystack.py:59 | The statement has an empty column list and two placeholders, so it differs from the one the current backend builds for the same columns. |
| `Legacy.Remove` | sphinx_haystack.py:63-71 | `remove` names `DELETE FROM <index> WHERE id = %s`, bound to Python's builtin `id` function, whatever the target. It fails with AttributeError on `execute`, which the connection does not have, so nothing reaches the daemon. |
| `Legacy.SearchText` | sphinx_haystack.py:87 | The query text is the index name, the query string and 30 fixed characters. |
| `Legacy.QueryStringVerbatim` | sphinx_haystack.py:87 | The query string appears verbatim inside the single quotes of `MATCH('…')`, with no binding or escaping. |
| `Legacy.QuoteEndsLiteral` | sphinx_haystack.py:87 | A query string holding `')` closes the literal early, so the rest of it lands outside `MATCH`. |
| `Legacy.FetchedCount` | sphinx_haystack.py:90-96 | The fetch loop stops at the first empty row, and every row before it is non-empty. |
| `Legacy.Search` | sphinx_haystack.py:76-100 | The query is sent with no bound parameters. Hits equals the number of rows fetched, and each row is wrapped by the result class, which defaults to `SearchResult`. |
| `Legacy.Clear` | sphinx_haystack.py:73-74 | `clear` always fails with NotImplementedError. |

## Left out

- MySQLdb I/O is not modelled: connections, cursors, closing, and fetching after close. Each statement a call names is returned as a `Call` value, and fetched rows are a parameter.
- The Django and Haystack collaborators are not modelled. They become parameters instead:
  - `ContentType.objects.get_for_model` and `get_by_natural_key` become a given set of content types, and an object carries its content type.
  - `get_index_fieldname` becomes a given function.
  - `index.full_prepare` becomes a given map of prepared values per item.
- The `log_query` decorator and `SphinxSearchQuery.build_query` are left out, because they delegate to Haystack.
  `result_class` in the current `search` is left out, because the results are always Documents.
- `Values.FromPython`: `time.mktime` for a datetime is not modelled, because it depends on the local time zone. The result keeps the datetime's fields as an opaque timestamp. Floats are opaque text, and microseconds are not modelled.
- Lists and tuples are modelled as holding scalars only, not nested sequences.
- The warnings logged for host `localhost` and for disabled connection pooling are left out, as are the SQLAlchemy import and `prep_value`, because they only affect logging and the environment.
- `Backend.SphinxSearchBackend.BuildSearchQuery`: the final `str.format(index_name)` pass is modelled as inserting the index name directly. Braces inside sort fields, which that pass would interpret, are not modelled.
- `Backend.ResolveTarget`: the conversion of the object id text to an integer accepts an optional sign (`+` or `-`) and decimal digits only. Python also accepts surrounding whitespace. The model does not enforce that `object_id` is positive.
- Uniqueness of (content type, object id) in the Document table is an invariant that the modelled operations keep, one call at a time. It is not a database constraint: the `Document` model declares no `unique_together`. `MultipleObjectsReturned` and concurrent `get_or_create` calls are therefore not modelled.
- The order of `Document.objects.all()` is modelled as pk order. Without an explicit ordering, the source's queryset does not guarantee any order.
- `more_like_this`, `extract_file_contents` and `build_schema` are left out, because they only raise NotImplementedError.
- The top-level `sphinx_backend.py` stub and `setup.py` are not part of this model.
- `Legacy.CollectRows` requires every item to have every listed attribute, so the `getattr` error path is not modelled. The field list `update` passes is always empty.
- `Legacy.Search`: the `result_class` wrapper is modelled as a name paired with the row, not as a call of that class.
