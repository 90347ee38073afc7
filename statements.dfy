/**
  The SphinxQL statements the backend sends, as text plus bound parameters,
  and the pieces of the search query.
*/
module Statements {
  import opened Wrappers
  import opened Text
  import opened Values

  /**
    One call on a cursor: `execute(sql)` or `execute(sql, params)`, and
    `executemany(sql, rows)` with one parameter row per execution.
  */
  datatype Call =
    | Execute(sql: string, params: Option<seq<Value>>)
    | ExecuteMany(sql: string, rows: seq<seq<Value>>)

  /** A fetched search row: Sphinx returns the document id and its weight first. */
  datatype Row = Row(id: int, weight: int)

  /** `', '.join(('%s',) * n)`. */
  function Placeholders(n: nat): string
  {
    Join(seq(n, _ => "%s"), ", ")
  }

  /** The placeholder list holds exactly one `%s` per column. */
  lemma {:induction false} PlaceholderCount(n: nat)
    ensures Count('%', Placeholders(n)) == n
  {
    if n == 1 {
      assert Placeholders(1) == "%s";
    } else if n >= 2 {
      var ps := seq(n, _ => "%s");
      assert ps[1..] == seq(n - 1, _ => "%s");
      assert Placeholders(n) == "%s" + ", " + Placeholders(n - 1);
      PlaceholderCount(n - 1);
      CountConcat('%', "%s" + ", ", Placeholders(n - 1));
      CountConcat('%', "%s", ", ");
    }
  }

  /**
    `REPLACE INTO <index> (<columns>) VALUES (<one %s per column>)`: the
    text ends with the placeholder list, which holds one `%s` per column
    (PlaceholderCount).
  */
  function ReplaceText(index: string, columns: seq<string>): (text: string)
    ensures var holes := Placeholders(|columns|) + ")";
      |holes| <= |text| && text[|text| - |holes|..] == holes
  {
    var head := "REPLACE INTO " + index + " (" + Join(columns, ", ") + ") VALUES (";
    assert (head + (Placeholders(|columns|) + ")"))[|head|..] == Placeholders(|columns|) + ")";
    head + (Placeholders(|columns|) + ")")
  }

  /**
    `DELETE FROM <index> WHERE id = %s`: the single placeholder, for the
    document id, ends the text, and no other `%` occurs unless the index
    name holds one.
  */
  function DeleteByIdText(index: string): (text: string)
    ensures |text| >= 2 && text[|text| - 2..] == "%s"
    ensures '%' !in index ==> '%' !in text[..|text| - 2]
  {
    var head := "DELETE FROM " + index + " WHERE id = ";
    assert (head + "%s")[..|head|] == head;
    head + "%s"
  }

  /** `','.join(map(str, ids))`: nothing but digits, minus signs and commas. */
  function IdList(ids: seq<int>): (text: string)
    ensures forall ch :: ch in text ==> IsDigit(ch) || ch == '-' || ch == ','
  {
    var texts := seq(|ids|, i requires 0 <= i < |ids| => IntToString(ids[i]));
    forall i | 0 <= i < |texts| ensures forall ch :: ch in texts[i] ==> IsDigit(ch) || ch == '-' || ch == ',' {
      assert forall k :: 0 <= k < |texts[i]| ==> IsDigit(texts[i][k]) || texts[i][k] == '-';
    }
    JoinKeeps(texts, ",", ch => IsDigit(ch) || ch == '-' || ch == ',');
    Join(texts, ",")
  }

  /**
    `DELETE FROM <index> WHERE id IN (<ids>)`: the ids are spliced into the
    text, so it holds no placeholder unless the index name does.
  */
  function DeleteInText(index: string, ids: seq<int>): (text: string)
    ensures '%' !in index ==> '%' !in text
  {
    "DELETE FROM " + index + " WHERE id IN (" + IdList(ids) + ")"
  }

  /** The id list of a non-empty page decodes back to exactly the page's ids, in order. */
  lemma IdListRoundTrip(ids: seq<int>)
    requires |ids| >= 1
    ensures |Split(IdList(ids), ',')| == |ids|
    ensures forall i :: 0 <= i < |ids| ==> ParseInt(Split(IdList(ids), ',')[i]) == Some(ids[i])
  {
    var texts := seq(|ids|, i requires 0 <= i < |ids| => IntToString(ids[i]));
    forall i | 0 <= i < |texts| ensures ',' !in texts[i] {
      assert forall k :: 0 <= k < |texts[i]| ==> texts[i][k] != ',';
    }
    SplitJoin(texts, ',');
    forall i | 0 <= i < |ids| ensures ParseInt(texts[i]) == Some(ids[i]) {
      IntToStringRoundTrip(ids[i]);
    }
  }

  /** Python truthiness of an optional offset: given and non-zero. */
  predicate Truthy(n: Option<int>)
  {
    n.Some? && n.value != 0
  }

  /**
    The LIMIT text of `search`: `' LIMIT <start>, <end>'` when both offsets
    are truthy, and then, whenever the end offset is truthy, a second
    `' LIMIT <end>'`.
  */
  function LimitClause(start: int, end: Option<int>): (text: string)
    ensures !Truthy(end) ==> text == ""
    ensures Truthy(end) && start == 0 ==> text == " LIMIT " + IntToString(end.value)
    ensures '%' !in text
  {
    assert forall n: int :: '%' !in IntToString(n) by {
      forall n: int ensures '%' !in IntToString(n) {
        var t := IntToString(n);
        assert forall k :: 0 <= k < |t| ==> t[k] != '%';
      }
    }
    (if start != 0 && Truthy(end) then " LIMIT " + IntToString(start) + ", " + IntToString(end.value) else "")
    + (if Truthy(end) then " LIMIT " + IntToString(end.value) else "")
  }

  /** A sort field asks for descending order when it starts with '-'. */
  predicate Descending(field: string)
  {
    |field| > 0 && field[0] == '-'
  }

  /** Some sort field is descending and some other one ascending. */
  predicate MixedDirections(sortBy: seq<string>)
  {
    exists i, j :: 0 <= i < |sortBy| && 0 <= j < |sortBy| && Descending(sortBy[i]) && !Descending(sortBy[j])
  }

  predicate AllDescending(sortBy: seq<string>)
  {
    forall i :: 0 <= i < |sortBy| ==> Descending(sortBy[i])
  }

  /**
    The ORDER BY text of `search`: the fields verbatim (a leading '-' kept),
    joined by ', ', then ' DESC' when every field is descending and 'ASC',
    with no space before it, otherwise.
  */
  function OrderClause(sortBy: seq<string>): (text: string)
    ensures |sortBy| == 0 <==> text == ""
    ensures |sortBy| > 0 ==> |text| >= 10 && text[..10] == " ORDER BY "
    ensures |sortBy| > 0 && AllDescending(sortBy) ==> text[|text| - 5..] == " DESC"
    ensures |sortBy| > 0 && !AllDescending(sortBy) ==> text[|text| - 3..] == "ASC"
  {
    if |sortBy| == 0 then ""
    else " ORDER BY " + Join(sortBy, ", ") + (if AllDescending(sortBy) then " DESC" else "ASC")
  }

  /**
    The statement text of `search`, with the LIMIT clauses before any ORDER
    BY. The query string itself is not part of it: it is the one bound
    parameter of `MATCH(%s)`.
  */
  function SearchText(index: string, sortBy: seq<string>, start: int, end: Option<int>): (text: string)
    ensures "SELECT * FROM " + index + " WHERE MATCH(%s)" <= text
  {
    "SELECT * FROM " + index + " WHERE MATCH(%s)" + LimitClause(start, end) + OrderClause(sortBy)
  }

  /** A non-empty sort list with no mix of directions is all descending or all ascending. */
  lemma UniformDirection(sortBy: seq<string>)
    requires !MixedDirections(sortBy)
    ensures AllDescending(sortBy) || forall i :: 0 <= i < |sortBy| ==> !Descending(sortBy[i])
  {
  }

  lemma LimitTextExample()
    ensures LimitClause(10, Some(20)) == " LIMIT 10, 20" + " LIMIT 20"
  {
    assert IntToString(10) == "10" by { assert NatToString(10) == NatToString(1) + [DigitChar(0)]; }
    assert IntToString(20) == "20" by { assert NatToString(20) == NatToString(2) + [DigitChar(0)]; }
  }

  /** Both offsets truthy: two LIMIT clauses, the second repeating the end offset. */
  lemma DoubleLimitExample()
    ensures SearchText("docs", [], 10, Some(20)) ==
      "SELECT * FROM docs WHERE MATCH(%s)" + " LIMIT 10, 20" + " LIMIT 20"
  {
    var head := "SELECT * FROM " + "docs" + " WHERE MATCH(%s)";
    assert head == "SELECT * FROM docs WHERE MATCH(%s)";
    var limit := LimitClause(10, Some(20));
    LimitTextExample();
    assert OrderClause([]) == "";
    assert SearchText("docs", [], 10, Some(20)) == head + limit + "";
  }

  /** Descending fields keep their '-' and are followed by ' DESC'. */
  lemma DescendingOrderExample()
    ensures OrderClause(["-a", "-b"]) == " ORDER BY " + "-a, -b" + " DESC"
  {
    var fields := ["-a", "-b"];
    assert fields[1..] == ["-b"];
    assert Descending(fields[0]) && Descending(fields[1]);
    assert Join(fields, ", ") == "-a" + ", " + "-b";
  }

  /** Ascending fields are followed by 'ASC' with no space before it. */
  lemma AscendingOrderExample()
    ensures OrderClause(["a", "b"]) == " ORDER BY " + "a, b" + "ASC"
  {
    var fields := ["a", "b"];
    assert fields[1..] == ["b"];
    assert !Descending(fields[0]);
    assert Join(fields, ", ") == "a" + ", " + "b";
  }

  /** The ORDER BY clause comes after the LIMIT clauses. */
  lemma OrderAfterLimit(index: string, sortBy: seq<string>, start: int, end: Option<int>)
    ensures var text := SearchText(index, sortBy, start, end);
      var head := |text| - |OrderClause(sortBy)|;
      0 <= head && text[head..] == OrderClause(sortBy)
      && text[..head] == "SELECT * FROM " + index + " WHERE MATCH(%s)" + LimitClause(start, end)
  {
  }
}
