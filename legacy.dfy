/**
  The earlier backend of sphinx_haystack.py: the option key is `INDEX`,
  `update` has no fields yet, `remove` binds the builtin `id`, both call
  their statement on the connection rather than on a cursor, `search`
  splices the query string into the statement text, and `clear` is not
  implemented.
*/
module Legacy {
  import opened Wrappers
  import opened Text
  import opened Values
  import opened Settings
  import opened Statements

  const IndexKey: string := "INDEX"
  const MissingIndex: string := "Missing index name for sphinx-haystack. Please define INDEX."
  /** The text `force_unicode` gives the builtin `id` bound by `remove`. */
  const BuiltinId: string := "<built-in function id>"
  const DefaultResultClass: string := "SearchResult"

  /**
    AttributeError names the connection method that does not exist:
    `update` and `remove` call `executemany` and `execute` on the MySQLdb
    connection itself, which has neither, instead of on a cursor.
  */
  datatype LegacyError = AttributeError(name: string) | NotImplemented

  /**
    Option handling of the earlier constructor: it succeeds exactly when
    INDEX is given; HOST and PORT fall back to 127.0.0.1 and 9306.
  */
  function FromOptions(options: map<string, Scalar>): (r: Result<Config, ConfigError>)
    ensures r.Success? <==> "INDEX" in options
    ensures r.Success? ==> r.value.indexName == options["INDEX"]
    ensures r.Success? && "HOST" !in options ==> r.value.host == Str("127.0.0.1")
    ensures r.Success? && "HOST" in options ==> r.value.host == options["HOST"]
    ensures r.Success? && "PORT" !in options ==> r.value.port == Int(9306)
    ensures r.Success? && "PORT" in options ==> r.value.port == options["PORT"]
    ensures r.Failure? ==> r.error == ImproperlyConfigured(MissingIndex)
  {
    var host := Get(options, "HOST", Str(DefaultHost));
    var port := Get(options, "PORT", Int(DefaultPort));
    if IndexKey in options then Success(Config(host, port, options[IndexKey]))
    else Failure(ImproperlyConfigured(MissingIndex))
  }

  /**
    The two variants look for different keys: options that name the index
    only under INDEX_NAME configure the newer backend and not this one, and
    the other way round.
  */
  lemma OptionKeysDiffer(name: Scalar)
    ensures Settings.FromOptions(map["INDEX_NAME" := name]).Success?
    ensures FromOptions(map["INDEX_NAME" := name]).Failure?
    ensures Settings.FromOptions(map["INDEX" := name]).Failure?
    ensures FromOptions(map["INDEX" := name]).Success?
  {
    assert "INDEX" != "INDEX_NAME" by { assert |"INDEX"| != |"INDEX_NAME"|; }
  }

  /**
    The nested loops of `update`: one row per item, holding
    `getattr(item, f)` for each field `f` in order. An item is modelled by
    its attributes.
  */
  method CollectRows(fields: seq<string>, items: seq<map<string, Value>>) returns (values: seq<seq<Value>>)
    requires forall k, j :: 0 <= k < |items| && 0 <= j < |fields| ==> fields[j] in items[k]
    ensures |values| == |items|
    ensures forall k :: 0 <= k < |items| ==>
      |values[k]| == |fields| && forall j :: 0 <= j < |fields| ==> values[k][j] == items[k][fields[j]]
  {
    values := [];
    var k := 0;
    while k < |items|
      invariant 0 <= k <= |items|
      invariant |values| == k
      invariant forall i :: 0 <= i < k ==>
        |values[i]| == |fields| && forall j :: 0 <= j < |fields| ==> values[i][j] == items[i][fields[j]]
    {
      var row: seq<Value> := [];
      var j := 0;
      while j < |fields|
        invariant 0 <= j <= |fields|
        invariant |row| == j
        invariant forall i :: 0 <= i < j ==> row[i] == items[k][fields[i]]
      {
        row := row + [items[k][fields[j]]];
        j := j + 1;
      }
      values := values + [row];
      k := k + 1;
    }
  }

  /** The fixed placeholder list of two columns. */
  lemma TwoPlaceholders()
    ensures Placeholders(2) == "%s, %s"
  {
    var ps := seq(2, _ => "%s");
    assert ps == ["%s", "%s"] && ps[1..] == ["%s"];
    assert Join(ps[1..], ", ") == "%s";
  }

  /** The statement of the earlier `update`: the column list is empty but there are two placeholders. */
  function ReplaceText(index: string): (text: string)
    ensures var holes := Placeholders(2) + ")";
      |holes| <= |text| && text[|text| - |holes|..] == holes
  {
    TwoPlaceholders();
    var head := "REPLACE INTO " + index + " () VALUES (";
    assert head + (Placeholders(2) + ")") == "REPLACE INTO " + index + " () VALUES (%s, %s)";
    "REPLACE INTO " + index + " () VALUES (%s, %s)"
  }

  /**
    The earlier `update`: with no fields yet, every item gives an empty row
    and the statement names no column. `call` is the statement the code
    names; it never reaches the daemon, because `executemany` is looked up
    on the connection and raises AttributeError.
  */
  method Update(config: Config, items: seq<map<string, Value>>) returns (call: Call, r: Outcome<LegacyError>)
    ensures call.ExecuteMany?
    ensures call.sql == ReplaceText(config.IndexText())
    ensures |call.rows| == |items|
    ensures forall k :: 0 <= k < |items| ==> call.rows[k] == []
    ensures r == Fail(AttributeError("executemany"))
  {
    var fields: seq<string> := [];
    var values := CollectRows(fields, items);
    call := ExecuteMany(ReplaceText(config.IndexText()), values);
    r := Fail(AttributeError("executemany"));
  }

  /**
    The statement is the newer template with an empty column list but a
    placeholder list of two: two parameters per execution where each row
    supplies none, and not the statement the newer backend writes for no
    columns.
  */
  lemma PlaceholderMismatch(index: string)
    ensures ReplaceText(index) == "REPLACE INTO " + index + " (" + Join([], ", ") + ") VALUES (" + Placeholders(2) + ")"
    ensures Count('%', Placeholders(2)) == 2
    ensures ReplaceText(index) != Statements.ReplaceText(index, [])
  {
    TwoPlaceholders();
    assert Placeholders(0) == "";
    PlaceholderCount(2);
    assert |ReplaceText(index)| != |Statements.ReplaceText(index, [])|;
  }

  /**
    The earlier `remove`: the bound parameter is the builtin `id`, not
    anything taken from the argument, so every argument names the same
    call. That call never reaches the daemon: `execute` is looked up on the
    connection and raises AttributeError.
  */
  function Remove<T>(config: Config, target: T): (r: (Call, Outcome<LegacyError>))
    ensures r.0.Execute? && r.0.sql == DeleteByIdText(config.IndexText())
    ensures r.0.params == Some([Atom(Object(BuiltinId))])
    ensures r.1 == Fail(AttributeError("execute"))
  {
    (Execute(DeleteByIdText(config.IndexText()), Some([Atom(Object(BuiltinId))])), Fail(AttributeError("execute")))
  }

  /** The statement text of the earlier `search`: the query string between single quotes, unescaped. */
  function SearchText(index: string, queryString: string): (text: string)
    ensures |text| == |index| + |queryString| + 30
  {
    "SELECT * FROM " + index + " WHERE MATCH('" + queryString + "')"
  }

  /**
    The query string is spliced in verbatim, so a query string holding `')`
    ends the MATCH literal early: what follows it lands in the statement as
    SphinxQL.
  */
  lemma QuoteEndsLiteral(index: string, before: string, after: string)
    ensures SearchText(index, before + "')" + after) == SearchText(index, before) + after + "')"
  {
  }

  /** The query string occupies the text between the opening and closing quotes, character for character. */
  lemma QueryStringVerbatim(index: string, queryString: string)
    ensures var start := |index| + 28;
      SearchText(index, queryString)[start..start + |queryString|] == queryString
  {
    var head := "SELECT * FROM " + index + " WHERE MATCH('";
    assert |head| == |index| + 28;
    assert SearchText(index, queryString) == head + queryString + "')";
  }

  /** A search result of the earlier backend: `result_class(row)`. */
  datatype Wrapped = Wrapped(resultClass: string, row: seq<Value>)

  /** The rows `fetchone` hands out before the first falsy (empty) one. */
  function FetchedCount(rows: seq<seq<Value>>): (n: nat)
    ensures n <= |rows|
    ensures forall k :: 0 <= k < n ==> |rows[k]| > 0
    ensures n < |rows| ==> |rows[n]| == 0
  {
    if |rows| == 0 || |rows[0]| == 0 then 0 else 1 + FetchedCount(rows[1..])
  }

  /**
    The earlier `search`: the spliced statement, executed without
    parameters, then every fetched row wrapped by `result_class`
    (SearchResult when none is given), in order; `hits` counts them.
  */
  method Search(config: Config, queryString: string, resultClass: Option<string>, rows: seq<seq<Value>>)
    returns (call: Call, results: seq<Wrapped>, hits: nat)
    ensures call == Execute(SearchText(config.IndexText(), queryString), None)
    ensures hits == |results| == FetchedCount(rows)
    ensures forall k :: 0 <= k < |results| ==>
      results[k] == Wrapped(if resultClass.Some? then resultClass.value else DefaultResultClass, rows[k])
  {
    var cls := if resultClass.Some? then resultClass.value else DefaultResultClass;
    call := Execute(SearchText(config.IndexText(), queryString), None);
    results := [];
    var k := 0;
    while k < |rows| && |rows[k]| > 0
      invariant 0 <= k <= FetchedCount(rows)
      invariant |results| == k
      invariant forall i :: 0 <= i < k ==> results[i] == Wrapped(cls, rows[i])
    {
      results := results + [Wrapped(cls, rows[k])];
      k := k + 1;
    }
    hits := |results|;
  }

  /** The earlier `clear` always raises NotImplementedError, whatever the models. */
  function Clear(models: seq<string>): (r: Outcome<LegacyError>)
    ensures r.Fail? && r.error == NotImplemented
  {
    Fail(NotImplemented)
  }
}
