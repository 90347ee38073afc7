/**
  `SphinxSearchBackend` of sphinx_haystack/sphinx_backend.py: the write path
  (`update`, `remove`, `clear`) over two pieces of state, the Document
  identity table and the Sphinx index, and the read path (`search`), with
  the exact SphinxQL each of them sends.
*/
module Backend {
  import opened Wrappers
  import opened Text
  import opened Values
  import opened Settings
  import opened Documents
  import opened Statements

  /** An object handed to `update`: its content type, its pk and `index.full_prepare(item)`. */
  datatype Item = Item(contentType: ContentType, pk: int, prepared: map<string, Value>)

  /** The argument of `remove`: an `"app_label.model_name.object_id"` string or a model instance. */
  datatype Target = Key(key: string) | Instance(contentType: ContentType, pk: int)

  /** The exceptions the backend's operations let through. */
  datatype BackendError =
    | KeyError(key: string)                               // a column missing from a prepared row
    | UnpackError(parts: nat)                             // a string key not made of three parts
    | ContentTypeDoesNotExist(appLabel: string, model: string)
    | InvalidObjectId(text: string)                       // an object id that is not an integer
    | SearchBackendError(message: string)
    | DocumentDoesNotExist(pk: int)

  /** A row written to the index: its document id and its values in column order. */
  datatype Written = Written(id: int, values: seq<Value>)

  /** What `search` returns: `{'results': ..., 'hits': ...}`. */
  datatype SearchResponse = SearchResponse(results: seq<Document>, hits: nat)

  /** Sphinx returns at most this many rows per query, so `clear` works in pages of it. */
  const PageSize: nat := 1000

  const MixedSortMessage: string := "Sphinx can only sort by ASC or DESC, not a mix of the two."

  function Min(a: nat, b: nat): nat
  {
    if a <= b then a else b
  }

  /**
    `[row[f] for f in columns]`: the values in column order, or the
    KeyError of the first column the row lacks.
  */
  function Columns(row: map<string, Value>, columns: seq<string>): (r: Result<seq<Value>, BackendError>)
    ensures r.Success? <==> forall j :: 0 <= j < |columns| ==> columns[j] in row
    ensures r.Success? ==> |r.value| == |columns| && forall j :: 0 <= j < |columns| ==> r.value[j] == row[columns[j]]
    ensures r.Failure? ==> exists j :: 0 <= j < |columns| && columns[j] !in row && r.error == KeyError(columns[j])
                                       && forall i :: 0 <= i < j ==> columns[i] in row
  {
    if |columns| == 0 then Success([])
    else if columns[0] !in row then Failure(KeyError(columns[0]))
    else
      match Columns(row, columns[1..])
      case Failure(e) =>
        var j :| 0 <= j < |columns| - 1 && columns[1..][j] !in row && e == KeyError(columns[1..][j])
                 && forall i :: 0 <= i < j ==> columns[1..][i] in row;
        assert columns[j + 1] !in row && forall i :: 0 <= i < j + 1 ==> columns[i] in row by {
          forall i | 0 < i < j + 1 ensures columns[i] in row { assert columns[i] == columns[1..][i - 1]; }
        }
        Failure(e)
      case Success(rest) => Success([row[columns[0]]] + rest)
  }

  /** `update`'s loop so far: the Document table, and the rows built or the error that stopped the loop. */
  datatype Progress = Progress(table: Table, rows: Result<seq<Written>, BackendError>)

  /**
    One item of `update`'s loop: once the loop has stopped nothing more
    happens; otherwise get_or_create the item's Document and build its row,
    keyed by the Document's pk.
  */
  function Extend(p: Progress, columns: seq<string>, item: Item): (r: Progress)
    requires ValidTable(p.table)
    ensures ValidTable(r.table)
  {
    if p.rows.Failure? then p
    else
      var created := GetOrCreate(p.table, item.contentType, item.pk);
      match Columns(item.prepared["id" := Atom(Int(created.1.pk))], columns)
      case Failure(e) => Progress(created.0, Failure(e))
      case Success(vs) => Progress(created.0, Success(p.rows.value + [Written(created.1.pk, vs)]))
  }

  /**
    `update`'s loop over the items, in order. A missing column stops the
    loop with its KeyError; the Documents created before it stay.
  */
  function Plan(t: Table, columns: seq<string>, items: seq<Item>): (r: Progress)
    requires ValidTable(t)
    ensures ValidTable(r.table)
    decreases |items|
  {
    if |items| == 0 then Progress(t, Success([]))
    else Extend(Plan(t, columns, items[..|items| - 1]), columns, items[|items| - 1])
  }

  /** The Document row of `item` in table `t`, when it has one. */
  function RowOf(t: Table, item: Item): Option<DocRecord>
  {
    FindByKey(t.docs, item.contentType, item.pk)
  }

  /** The prepared data of `item` with `id` set to the document id, as `update` builds it. */
  function RowFor(item: Item, id: int): map<string, Value>
  {
    item.prepared["id" := Atom(Int(id))]
  }

  /**
    The row `w` written for `item` is the one `update` promises: its id is
    the pk of the item's Document and its values are the item's data, one
    per column, in column order.
  */
  ghost predicate RowMatches(t: Table, columns: seq<string>, item: Item, w: Written)
  {
    && RowOf(t, item).Some?
    && w.id == RowOf(t, item).value.pk
    && |w.values| == |columns|
    && forall j :: 0 <= j < |columns| ==> columns[j] in RowFor(item, w.id) && w.values[j] == RowFor(item, w.id)[columns[j]]
  }

  ghost predicate RowsMatch(p: Progress, columns: seq<string>, items: seq<Item>)
  {
    p.rows.Success? ==>
      && |p.rows.value| == |items|
      && forall k :: 0 <= k < |items| ==> RowMatches(p.table, columns, items[k], p.rows.value[k])
  }

  /** The item's prepared data lacks one of the columns, `id` aside, which `update` always sets. */
  ghost predicate LacksColumn(columns: seq<string>, item: Item)
  {
    exists j :: 0 <= j < |columns| && columns[j] != "id" && columns[j] !in item.prepared
  }

  /** get_or_create never disturbs a row that was already there. */
  lemma GetOrCreateKeepsRows(t: Table, ct: ContentType, oid: int, item: Item)
    requires ValidTable(t)
    requires RowOf(t, item).Some?
    ensures RowOf(GetOrCreate(t, ct, oid).0, item) == RowOf(t, item)
  {
    if FindByKey(t.docs, ct, oid).None? {
      FindByKeyAppend(t.docs, [GetOrCreate(t, ct, oid).1], item.contentType, item.pk);
    }
  }

  lemma ColumnsFail(item: Item, id: int, columns: seq<string>)
    ensures Columns(RowFor(item, id), columns).Failure? <==> LacksColumn(columns, item)
  {
    var row := RowFor(item, id);
    if Columns(row, columns).Failure? {
      var j :| 0 <= j < |columns| && columns[j] !in row;
      assert columns[j] != "id";
    }
  }

  /**
    After `update`'s loop, every item has its Document row, and the row
    written for the k-th item carries that row's pk as its id and the item's
    data, one value per column.
  */
  lemma {:induction false} PlanRows(t: Table, columns: seq<string>, items: seq<Item>)
    requires ValidTable(t)
    ensures RowsMatch(Plan(t, columns, items), columns, items)
    decreases |items|
  {
    if |items| > 0 {
      var n := |items| - 1;
      PlanRows(t, columns, items[..n]);
      ExtendRows(Plan(t, columns, items[..n]), columns, items);
    }
  }

  /** One more step of the loop keeps every earlier row matching and adds a matching row. */
  lemma ExtendRows(p: Progress, columns: seq<string>, items: seq<Item>)
    requires ValidTable(p.table)
    requires |items| > 0
    requires RowsMatch(p, columns, items[..|items| - 1])
    ensures RowsMatch(Extend(p, columns, items[|items| - 1]), columns, items)
  {
    var n := |items| - 1;
    var prefix := items[..n];
    var q := Extend(p, columns, items[n]);
    if q.rows.Success? {
      var created := GetOrCreate(p.table, items[n].contentType, items[n].pk);
      forall k | 0 <= k < n ensures RowMatches(q.table, columns, items[k], q.rows.value[k]) {
        assert items[k] == prefix[k];
        assert q.rows.value[k] == p.rows.value[k];
        GetOrCreateKeepsRows(p.table, items[n].contentType, items[n].pk, items[k]);
      }
      assert RowMatches(q.table, columns, items[n], q.rows.value[n]);
    }
  }

  /** Some item's prepared data lacks one of the columns. */
  ghost predicate AnyLacks(columns: seq<string>, items: seq<Item>)
  {
    exists k :: 0 <= k < |items| && LacksColumn(columns, items[k])
  }

  lemma AnyLacksSnoc(columns: seq<string>, items: seq<Item>)
    requires |items| > 0
    ensures AnyLacks(columns, items) <==>
      AnyLacks(columns, items[..|items| - 1]) || LacksColumn(columns, items[|items| - 1])
  {
    var n := |items| - 1;
    var prefix := items[..n];
    if AnyLacks(columns, items) {
      var k :| 0 <= k < |items| && LacksColumn(columns, items[k]);
      if k < n {
        assert prefix[k] == items[k];
      }
    }
    if AnyLacks(columns, prefix) {
      var k :| 0 <= k < n && LacksColumn(columns, prefix[k]);
      assert items[k] == prefix[k];
    }
  }

  /** One item stops the loop exactly when the loop had stopped already or the item lacks a column. */
  lemma ExtendFails(p: Progress, columns: seq<string>, item: Item)
    requires ValidTable(p.table)
    ensures Extend(p, columns, item).rows.Failure? <==> p.rows.Failure? || LacksColumn(columns, item)
  {
    if p.rows.Success? {
      ColumnsFail(item, GetOrCreate(p.table, item.contentType, item.pk).1.pk, columns);
    }
  }

  /**
    `update` fails exactly when some item's prepared data lacks one of the
    index's columns.
  */
  lemma {:induction false} PlanFails(t: Table, columns: seq<string>, items: seq<Item>)
    requires ValidTable(t)
    ensures Plan(t, columns, items).rows.Failure? <==> AnyLacks(columns, items)
    decreases |items|
  {
    if |items| > 0 {
      var n := |items| - 1;
      PlanFails(t, columns, items[..n]);
      ExtendFails(Plan(t, columns, items[..n]), columns, items[n]);
      AnyLacksSnoc(columns, items);
    }
  }

  /** A step of the loop that has not stopped yet. */
  lemma ExtendUnfolds(p: Progress, columns: seq<string>, item: Item)
    requires ValidTable(p.table) && p.rows.Success?
    ensures var created := GetOrCreate(p.table, item.contentType, item.pk);
      var cols := Columns(RowFor(item, created.1.pk), columns);
      Extend(p, columns, item) ==
        if cols.Failure? then Progress(created.0, Failure(cols.error))
        else Progress(created.0, Success(p.rows.value + [Written(created.1.pk, cols.value)]))
  {
  }

  /** The loop over one more item is one more step. */
  lemma PlanSnoc(t: Table, columns: seq<string>, items: seq<Item>, k: nat)
    requires ValidTable(t)
    requires k < |items|
    ensures Plan(t, columns, items[..k + 1]) == Extend(Plan(t, columns, items[..k]), columns, items[k])
  {
    assert items[..k + 1][..k] == items[..k];
  }

  /** When every item already has its Document row, the loop creates none. */
  lemma {:induction false} PlanKnownItems(t: Table, columns: seq<string>, items: seq<Item>)
    requires ValidTable(t)
    requires forall k :: 0 <= k < |items| ==> RowOf(t, items[k]).Some?
    ensures Plan(t, columns, items).table == t
    decreases |items|
  {
    if |items| > 0 {
      var n := |items| - 1;
      assert forall k :: 0 <= k < n ==> items[..n][k] == items[k];
      PlanKnownItems(t, columns, items[..n]);
      KnownItemStep(Plan(t, columns, items[..n]), columns, items[n]);
    }
  }

  lemma KnownItemStep(p: Progress, columns: seq<string>, item: Item)
    requires ValidTable(p.table)
    requires RowOf(p.table, item).Some?
    ensures Extend(p, columns, item).table == p.table
  {
  }

  /**
    Once the loop has stopped, the later items change nothing; the Documents
    get_or_create made before it stopped, for the failing item too, stay in
    the table, since nothing is rolled back.
  */
  lemma PlanStops(t: Table, columns: seq<string>, items: seq<Item>, m: nat)
    requires ValidTable(t)
    requires m <= |items|
    requires Plan(t, columns, items[..m]).rows.Failure?
    ensures Plan(t, columns, items) == Plan(t, columns, items[..m])
    ensures forall k :: 0 <= k < m && Plan(t, columns, items[..k]).rows.Success? ==>
      RowOf(Plan(t, columns, items).table, items[k]).Some?
  {
    PlanStopsAt(t, columns, items, m);
    forall k | 0 <= k < m && Plan(t, columns, items[..k]).rows.Success?
      ensures RowOf(Plan(t, columns, items).table, items[k]).Some?
    {
      PlanReached(t, columns, items, k);
    }
  }

  lemma {:induction false} PlanStopsAt(t: Table, columns: seq<string>, items: seq<Item>, m: nat)
    requires ValidTable(t)
    requires m <= |items|
    requires Plan(t, columns, items[..m]).rows.Failure?
    ensures Plan(t, columns, items) == Plan(t, columns, items[..m])
    decreases |items| - m
  {
    if m < |items| {
      var prefix := items[..|items| - 1];
      assert prefix[..m] == items[..m];
      PlanStopsAt(t, columns, prefix, m);
    } else {
      assert items[..m] == items;
    }
  }

  /** The loop's table only grows: the table after the first `j` items is a prefix of the final one. */
  lemma {:induction false} PlanPrefixGrows(t: Table, columns: seq<string>, items: seq<Item>, j: nat)
    requires ValidTable(t)
    requires j <= |items|
    ensures Plan(t, columns, items[..j]).table.docs <= Plan(t, columns, items).table.docs
    decreases |items| - j
  {
    if j < |items| {
      var prefix := items[..|items| - 1];
      assert prefix[..j] == items[..j];
      PlanPrefixGrows(t, columns, prefix, j);
    } else {
      assert items[..j] == items;
    }
  }

  /** An item the loop reaches before stopping has its Document in the final table. */
  lemma PlanReached(t: Table, columns: seq<string>, items: seq<Item>, k: nat)
    requires ValidTable(t)
    requires k < |items|
    requires Plan(t, columns, items[..k]).rows.Success?
    ensures RowOf(Plan(t, columns, items).table, items[k]).Some?
  {
    PlanSnoc(t, columns, items, k);
    ExtendReaches(Plan(t, columns, items[..k]), columns, items[k]);
    PlanPrefixGrows(t, columns, items, k + 1);
    FindByKeyPrefix(Plan(t, columns, items[..k + 1]).table.docs, Plan(t, columns, items).table.docs,
                    items[k].contentType, items[k].pk);
  }

  /** A Document found in a table is found, unchanged, in every table that extends it. */
  lemma FindByKeyPrefix(docs: seq<DocRecord>, more: seq<DocRecord>, ct: ContentType, oid: int)
    requires docs <= more
    requires FindByKey(docs, ct, oid).Some?
    ensures FindByKey(more, ct, oid) == FindByKey(docs, ct, oid)
  {
    assert more == docs + more[|docs|..];
    FindByKeyAppend(docs, more[|docs|..], ct, oid);
  }

  /** An item the loop takes in has its Document in the table afterwards. */
  lemma ExtendReaches(p: Progress, columns: seq<string>, item: Item)
    requires ValidTable(p.table)
    requires p.rows.Success?
    ensures RowOf(Extend(p, columns, item).table, item).Some?
  {
    var created := GetOrCreate(p.table, item.contentType, item.pk);
    assert Extend(p, columns, item).table == created.0;
  }

  /**
    Re-indexing the same items reuses their Document ids: a second `update`
    of what a first one indexed creates no Document and writes the same rows.
  */
  lemma ReindexReusesIds(t: Table, columns: seq<string>, items: seq<Item>)
    requires ValidTable(t)
    requires Plan(t, columns, items).rows.Success?
    ensures Plan(Plan(t, columns, items).table, columns, items) == Plan(t, columns, items)
  {
    var p1 := Plan(t, columns, items);
    PlanRows(t, columns, items);
    PlanKnownItems(p1.table, columns, items);
    PlanFails(t, columns, items);
    PlanFails(p1.table, columns, items);
    var p2 := Plan(p1.table, columns, items);
    PlanRows(p1.table, columns, items);
    forall k | 0 <= k < |items| ensures p2.rows.value[k] == p1.rows.value[k] {
      assert p2.rows.value[k].values == p1.rows.value[k].values;
    }
    assert p2.rows.value == p1.rows.value;
  }

  /**
    The shape of what `update` sends: the columns are `id` and then the
    index's fields, the statement has one placeholder per column, every row
    has one value per column, and the `id` slot holds the item's Document pk.
  */
  lemma UpdateRowShape(t: Table, indexFields: seq<string>, items: seq<Item>)
    requires ValidTable(t)
    requires Plan(t, ["id"] + indexFields, items).rows.Success?
    ensures Count('%', Placeholders(|["id"] + indexFields|)) == 1 + |indexFields|
    ensures var p := Plan(t, ["id"] + indexFields, items);
      && |p.rows.value| == |items|
      && forall k :: 0 <= k < |items| ==>
           && RowOf(p.table, items[k]).Some?
           && |p.rows.value[k].values| == 1 + |indexFields|
           && p.rows.value[k].values[0] == Atom(Int(RowOf(p.table, items[k]).value.pk))
  {
    var columns := ["id"] + indexFields;
    PlaceholderCount(|columns|);
    PlanRows(t, columns, items);
    var p := Plan(t, columns, items);
    forall k | 0 <= k < |items|
      ensures p.rows.value[k].values[0] == Atom(Int(RowOf(p.table, items[k]).value.pk))
    {
      assert RowMatches(p.table, columns, items[k], p.rows.value[k]);
      assert columns[0] == "id";
    }
  }

  /**
    The daemon's effect of `REPLACE INTO` for each row in turn: the row is
    stored under its id, replacing what was there; ids not written keep
    their rows.
  */
  function ApplyReplace(index: map<int, seq<Value>>, written: seq<Written>): (r: map<int, seq<Value>>)
    ensures r.Keys == index.Keys + Ids(written)
    ensures forall id :: id in index && id !in Ids(written) ==> r[id] == index[id]
    ensures forall k :: 0 <= k < |written| && LastWrite(written, k) ==> r[written[k].id] == written[k].values
    decreases |written|
  {
    if |written| == 0 then index
    else
      var n := |written| - 1;
      IdsSnoc(written);
      var before := ApplyReplace(index, written[..n]);
      var r := before[written[n].id := written[n].values];
      assert Prefix(written) == written[..n];
      LastWriteStep(before, written, r);
      r
  }

  /** No later row is written under the same id as row `k`. */
  ghost predicate LastWrite(written: seq<Written>, k: int)
    requires 0 <= k < |written|
  {
    forall j :: k < j < |written| ==> written[j].id != written[k].id
  }

  /** All rows but the last. */
  function Prefix(written: seq<Written>): seq<Written>
    requires |written| > 0
  {
    written[..|written| - 1]
  }

  /** One more write keeps every earlier row that is not overwritten later. */
  lemma LastWriteStep(before: map<int, seq<Value>>, written: seq<Written>, r: map<int, seq<Value>>)
    requires |written| > 0
    requires forall k :: 0 <= k < |written| - 1 && LastWrite(Prefix(written), k) ==>
      written[k].id in before && before[written[k].id] == written[k].values
    requires r == before[written[|written| - 1].id := written[|written| - 1].values]
    ensures forall k :: 0 <= k < |written| && LastWrite(written, k) ==>
      written[k].id in r && r[written[k].id] == written[k].values
  {
    var n := |written| - 1;
    forall k | 0 <= k < |written| && LastWrite(written, k)
      ensures written[k].id in r && r[written[k].id] == written[k].values
    {
      if k < n {
        LastWriteOfPrefix(written, n, k);
      }
    }
  }

  lemma LastWriteOfPrefix(written: seq<Written>, n: int, k: int)
    requires 0 <= k < n <= |written|
    requires LastWrite(written, k)
    ensures LastWrite(written[..n], k)
    ensures n < |written| ==> written[n].id != written[k].id
  {
    forall j | k < j < n
      ensures written[..n][j].id != written[..n][k].id
    {
      assert written[..n][j] == written[j];
    }
  }

  /** The document ids the rows are written under. */
  function Ids(written: seq<Written>): set<int>
  {
    set w | w in written :: w.id
  }

  lemma IdsSnoc(written: seq<Written>)
    requires |written| > 0
    ensures Ids(written) == Ids(written[..|written| - 1]) + {written[|written| - 1].id}
  {
    assert written == written[..|written| - 1] + [written[|written| - 1]];
  }

  /** The values of the rows, one parameter row per execution of `executemany`. */
  function ValueRows(written: seq<Written>): (rows: seq<seq<Value>>)
    ensures |rows| == |written|
  {
    seq(|written|, k requires 0 <= k < |written| => written[k].values)
  }

  lemma ValueRowsSnoc(written: seq<Written>, w: Written)
    ensures ValueRows(written + [w]) == ValueRows(written) + [w.values]
  {
    assert ValueRows(written + [w])[|written|] == w.values;
  }

  /** The pks of the rows, in table order. */
  function PkSeq(docs: seq<DocRecord>): (pks: seq<int>)
    ensures |pks| == |docs|
  {
    seq(|docs|, i requires 0 <= i < |docs| => docs[i].pk as int)
  }

  function Elements(ids: seq<int>): set<int>
  {
    set p | p in ids
  }

  /** What `remove` looks up: the content type and object id of its argument. */
  function ResolveTarget(target: Target, contentTypes: set<ContentType>): (r: Result<(ContentType, int), BackendError>)
    ensures target.Key? && |Split(target.key, '.')| != 3 ==> r == Failure(UnpackError(|Split(target.key, '.')|))
    ensures target.Key? && |Split(target.key, '.')| == 3 ==>
      var parts := Split(target.key, '.');
      && (ContentType(parts[0], parts[1]) !in contentTypes ==> r == Failure(ContentTypeDoesNotExist(parts[0], parts[1])))
      && (ContentType(parts[0], parts[1]) in contentTypes && ParseInt(parts[2]).None? ==> r == Failure(InvalidObjectId(parts[2])))
      && (ContentType(parts[0], parts[1]) in contentTypes && ParseInt(parts[2]).Some? ==>
            r == Success((ContentType(parts[0], parts[1]), ParseInt(parts[2]).value)))
    ensures target.Instance? ==> r == Success((target.contentType, target.pk))
  {
    match target
    case Instance(ct, pk) => Success((ct, pk))
    case Key(key) =>
      var parts := Split(key, '.');
      if |parts| != 3 then Failure(UnpackError(|parts|))
      else if ContentType(parts[0], parts[1]) !in contentTypes then Failure(ContentTypeDoesNotExist(parts[0], parts[1]))
      else
        match ParseInt(parts[2])
        case None => Failure(InvalidObjectId(parts[2]))
        case Some(oid) => Success((ContentType(parts[0], parts[1]), oid))
  }

  /**
    A string key `app_label.model_name.object_id` names the object of that
    content type and id: it splits into exactly those three parts.
  */
  lemma KeyNamesObject(appLabel: string, model: string, oid: int, contentTypes: set<ContentType>)
    requires '.' !in appLabel && '.' !in model
    requires ContentType(appLabel, model) in contentTypes
    ensures ResolveTarget(Key(appLabel + "." + model + "." + IntToString(oid)), contentTypes)
            == Success((ContentType(appLabel, model), oid))
  {
    var text := IntToString(oid);
    assert '.' !in text by {
      assert forall k :: 0 <= k < |text| ==> text[k] != '.';
    }
    var parts := [appLabel, model, text];
    assert parts[1..] == [model, text] && parts[1..][1..] == [text];
    assert Join([model, text], ".") == model + "." + text;
    assert appLabel + "." + model + "." + text == appLabel + "." + (model + "." + text);
    SplitJoin(parts, '.');
    IntToStringRoundTrip(oid);
  }

  /** In a table without duplicate keys, two rows with the same key are the same row. */
  lemma SameKeySameRow(docs: seq<DocRecord>, a: DocRecord, b: DocRecord)
    requires UniqueKeys(docs)
    requires a in docs && b in docs
    ensures a.contentType == b.contentType && a.objectId == b.objectId ==> a == b
  {
    var i :| 0 <= i < |docs| && docs[i] == a;
    var j :| 0 <= j < |docs| && docs[j] == b;
    assert i < j || j < i || i == j;
  }

  /** Once the Document of an object is deleted, looking it up again finds nothing. */
  lemma DeletedObjectIsGone(t: Table, d: DocRecord)
    requires ValidTable(t)
    requires FindByKey(t.docs, d.contentType, d.objectId) == Some(d)
    ensures FindByKey(WithoutPks(t.docs, {d.pk as int}), d.contentType, d.objectId).None?
  {
    var r := WithoutPks(t.docs, {d.pk as int});
    forall i | 0 <= i < |r| ensures r[i].contentType != d.contentType || r[i].objectId != d.objectId {
      assert r[i] in t.docs && r[i].pk != d.pk;
      SameKeySameRow(t.docs, r[i], d);
    }
  }

  /** The pks `clear` deletes per round: the first 1000 remaining pks, until none remain. */
  function Pages(pks: seq<int>): (pages: seq<seq<int>>)
    ensures |pages| == 0 <==> |pks| == 0
    ensures |pks| > 0 ==> pages[0] == pks[..Min(PageSize, |pks|)]
    decreases |pks|
  {
    if |pks| == 0 then []
    else
      var n := Min(PageSize, |pks|);
      [pks[..n]] + Pages(pks[n..])
  }

  function Flatten(pages: seq<seq<int>>): seq<int>
  {
    if |pages| == 0 then [] else pages[0] + Flatten(pages[1..])
  }

  /**
    The rounds of `clear` partition the table's pks in order: ceil(n / 1000)
    rounds, each of 1 to 1000 pks, every round but the last of exactly 1000.
  */
  lemma {:induction false} PagesPartition(pks: seq<int>)
    ensures Flatten(Pages(pks)) == pks
    ensures |Pages(pks)| == (|pks| + PageSize - 1) / PageSize
    ensures forall i :: 0 <= i < |Pages(pks)| ==> 1 <= |Pages(pks)[i]| <= PageSize
    ensures forall i :: 0 <= i < |Pages(pks)| - 1 ==> |Pages(pks)[i]| == PageSize
    decreases |pks|
  {
    if |pks| > 0 {
      var n := Min(PageSize, |pks|);
      PagesPartition(pks[n..]);
      var ps := Pages(pks);
      assert ps[1..] == Pages(pks[n..]);
      assert pks[..n] + pks[n..] == pks;
      forall i | 0 < i < |ps| ensures 1 <= |ps[i]| <= PageSize && (i < |ps| - 1 ==> |ps[i]| == PageSize) {
        assert ps[i] == Pages(pks[n..])[i - 1];
      }
      if |pks| > PageSize {
        assert |Pages(pks[n..])| >= 1;
      }
    }
  }

  /** 2500 Documents are cleared in three rounds of 1000, 1000 and 500. */
  lemma ClearRoundsExample(pks: seq<int>)
    requires |pks| == 2500
    ensures |Pages(pks)| == 3
    ensures |Pages(pks)[0]| == 1000 && |Pages(pks)[1]| == 1000 && |Pages(pks)[2]| == 500
  {
    var p1 := pks[1000..];
    var p2 := p1[1000..];
    assert |p2| == 500 && p2[..500] == p2;
    assert Pages(p2) == [p2] + Pages(p2[500..]);
    assert Pages(p1) == [p1[..1000]] + Pages(p2);
    assert Pages(pks) == [pks[..1000]] + Pages(p1);
  }

  /** The statements `clear` issues, one per round. */
  function DeleteCalls(index: string, rounds: seq<seq<int>>): (calls: seq<Call>)
    ensures |calls| == |rounds|
  {
    seq(|rounds|, i requires 0 <= i < |rounds| => Execute(DeleteInText(index, rounds[i]), None))
  }

  /**
    `Document.objects.get(pk=id)` followed by `document.score = score`: a
    new instance of the row, its score the fetched weight.
  */
  method Materialize(d: DocRecord, weight: int) returns (document: Document)
    ensures fresh(document)
    ensures document.Record() == d && document.Score() == Some(weight)
  {
    document := new Document(d.contentType, d.objectId, d.pk);
    document.SetScore(Some(weight));
  }

  /**
    The item loop of `update`: get_or_create each item's Document and
    collect its row, stopping at the first item that lacks a column. It
    computes `Plan`, and the parameter rows of the statement.
  */
  method IndexItems(t: Table, columns: seq<string>, items: seq<Item>)
    returns (table: Table, rows: Result<seq<Written>, BackendError>, values: seq<seq<Value>>)
    requires ValidTable(t)
    ensures Progress(table, rows) == Plan(t, columns, items)
    ensures rows.Success? ==> values == ValueRows(rows.value)
  {
    table := t;
    var written: seq<Written> := [];
    values := [];
    var stopped: Option<BackendError> := None;
    var k := 0;
    while k < |items| && stopped.None?
      invariant 0 <= k <= |items|
      invariant ValidTable(table)
      invariant stopped.None? ==> Plan(t, columns, items[..k]) == Progress(table, Success(written))
      invariant stopped.Some? ==> Plan(t, columns, items) == Progress(table, Failure(stopped.value))
      invariant values == ValueRows(written)
      decreases |items| - k, if stopped.None? then 1 else 0
    {
      PlanSnoc(t, columns, items, k);
      ExtendUnfolds(Progress(table, Success(written)), columns, items[k]);
      var created := GetOrCreate(table, items[k].contentType, items[k].pk);
      table := created.0;
      var cols := Columns(RowFor(items[k], created.1.pk), columns);
      if cols.Failure? {
        PlanStops(t, columns, items, k + 1);
        stopped := Some(cols.error);
      } else {
        ValueRowsSnoc(written, Written(created.1.pk, cols.value));
        written := written + [Written(created.1.pk, cols.value)];
        values := values + [cols.value];
        k := k + 1;
      }
    }
    if stopped.Some? {
      rows := Failure(stopped.value);
    } else {
      assert items[..k] == items;
      rows := Success(written);
    }
  }

  /** Every fetched row names an existing Document. */
  ghost predicate AllResolve(docs: seq<DocRecord>, rows: seq<Row>)
  {
    forall k :: 0 <= k < |rows| ==> FindByPk(docs, rows[k].id).Some?
  }

  /** Row k is the first fetched row whose Document does not exist. */
  ghost predicate FirstMissing(docs: seq<DocRecord>, rows: seq<Row>, k: int)
  {
    && 0 <= k < |rows|
    && FindByPk(docs, rows[k].id).None?
    && forall j :: 0 <= j < k ==> FindByPk(docs, rows[j].id).Some?
  }

  /** The search result `d` is the Document of the fetched row, scored with the row's weight. */
  ghost predicate Resolves(docs: seq<DocRecord>, row: Row, d: Document)
    reads d
  {
    && FindByPk(docs, row.id).Some?
    && d.Record() == FindByPk(docs, row.id).value
    && d.Score() == Some(row.weight)
  }

  /** Turns each fetched row into a fresh scored Document, stopping at the first row whose Document does not exist. */
  method ResolveRows(docs: seq<DocRecord>, rows: seq<Row>) returns (r: Result<seq<Document>, BackendError>)
    ensures r.Success? <==> AllResolve(docs, rows)
    ensures r.Success? ==>
      && |r.value| == |rows|
      && forall k :: 0 <= k < |rows| ==> fresh(r.value[k]) && Resolves(docs, rows[k], r.value[k])
    ensures r.Failure? ==> exists k :: FirstMissing(docs, rows, k) && r.error == DocumentDoesNotExist(rows[k].id)
  {
    var results: seq<Document> := [];
    var k := 0;
    while k < |rows|
      invariant 0 <= k <= |rows|
      invariant |results| == k
      invariant AllResolve(docs, rows[..k])
      invariant forall j :: 0 <= j < k ==> fresh(results[j]) && Resolves(docs, rows[j], results[j])
    {
      var found := FindByPk(docs, rows[k].id);
      if found.None? {
        assert FirstMissing(docs, rows, k) by {
          assert forall j :: 0 <= j < k ==> rows[..k][j] == rows[j];
        }
        assert !AllResolve(docs, rows);
        return Failure(DocumentDoesNotExist(rows[k].id));
      }
      var document := Materialize(found.value, rows[k].weight);
      assert Resolves(docs, rows[k], document);
      assert rows[..k + 1] == rows[..k] + [rows[k]];
      results := results + [document];
      k := k + 1;
    }
    assert rows[..k] == rows;
    r := Success(results);
  }

  class SphinxSearchBackend {
    const config: Config
    /** The Document identity table. */
    var documents: Table
    /** The Sphinx index as the daemon holds it: document id to stored row. */
    var index: map<int, seq<Value>>

    ghost predicate Valid()
      reads this
    {
      ValidTable(documents)
    }

    /** A backend over an existing Document table and index, with options already checked by FromOptions. */
    constructor (config: Config, documents: Table, index: map<int, seq<Value>>)
      requires ValidTable(documents)
      ensures Valid()
      ensures this.config == config && this.documents == documents && this.index == index
    {
      this.config := config;
      this.documents := documents;
      this.index := index;
    }

    /**
      `update`: get_or_create a Document for every item, build each row keyed
      by its pk, then send one `REPLACE INTO` for all rows with the columns
      `id` and the index's fields. A missing column stops the loop with a
      KeyError; the Documents created so far remain and nothing is sent.
    */
    method Update(indexFields: seq<string>, items: seq<Item>) returns (r: Result<Call, BackendError>)
      requires Valid()
      modifies this
      ensures Valid()
      ensures documents == Plan(old(documents), ["id"] + indexFields, items).table
      ensures var res := Plan(old(documents), ["id"] + indexFields, items).rows;
        && (res.Failure? ==> r == Failure(res.error) && index == old(index))
        && (res.Success? ==>
              && r == Success(ExecuteMany(ReplaceText(config.IndexText(), ["id"] + indexFields), ValueRows(res.value)))
              && index == ApplyReplace(old(index), res.value))
    {
      var fieldNames := ["id"];
      var i := 0;
      while i < |indexFields|
        invariant 0 <= i <= |indexFields|
        invariant fieldNames == ["id"] + indexFields[..i]
        invariant documents == old(documents) && index == old(index)
      {
        fieldNames := fieldNames + [indexFields[i]];
        i := i + 1;
      }
      assert indexFields[..i] == indexFields;
      var table, rows, values := IndexItems(documents, fieldNames, items);
      documents := table;
      if rows.Failure? {
        return Failure(rows.error);
      }
      index := ApplyReplace(index, rows.value);
      r := Success(ExecuteMany(ReplaceText(config.IndexText(), fieldNames), values));
    }

    /**
      `remove`: find the Document of the object; if there is none, return
      without sending anything; otherwise delete its index row with
      `DELETE FROM <index> WHERE id = %s` bound to its pk, then delete the
      Document. Every other row of either store is left as it was.
    */
    method Remove(target: Target, contentTypes: set<ContentType>) returns (r: Result<Option<Call>, BackendError>)
      requires Valid()
      modifies this
      ensures Valid()
      ensures ResolveTarget(target, contentTypes).Failure? ==>
        r == Failure(ResolveTarget(target, contentTypes).error) && documents == old(documents) && index == old(index)
      ensures ResolveTarget(target, contentTypes).Success? ==>
        var (ct, oid) := ResolveTarget(target, contentTypes).value;
        match FindByKey(old(documents).docs, ct, oid)
        case None => r == Success(None) && documents == old(documents) && index == old(index)
        case Some(d) =>
          && r == Success(Some(Execute(DeleteByIdText(config.IndexText()), Some([Atom(Int(d.pk))]))))
          && index == old(index) - {d.pk as int}
          && documents == Table(WithoutPks(old(documents).docs, {d.pk as int}), old(documents).nextPk)
    {
      var resolved := ResolveTarget(target, contentTypes);
      if resolved.Failure? {
        return Failure(resolved.error);
      }
      var (ct, oid) := resolved.value;
      var found := FindByKey(documents.docs, ct, oid);
      if found.None? {
        return Success(None);
      }
      var d := found.value;
      r := Success(Some(Execute(DeleteByIdText(config.IndexText()), Some([Atom(Int(d.pk))]))));
      index := index - {d.pk as int};
      WithoutPksValid(documents, {d.pk as int});
      documents := Table(WithoutPks(documents.docs, {d.pk as int}), documents.nextPk);
    }

    /**
      `clear`: repeatedly take the first 1000 Document pks, delete them from
      the index with one `DELETE ... WHERE id IN (...)` and from the
      Document table, until the table is empty. `models` is not used.
    */
    method Clear(models: seq<ContentType>) returns (rounds: seq<seq<int>>, calls: seq<Call>)
      requires Valid()
      modifies this
      ensures Valid()
      ensures documents == Table([], old(documents).nextPk)
      ensures index == old(index) - Elements(PkSeq(old(documents).docs))
      ensures rounds == Pages(PkSeq(old(documents).docs))
      ensures calls == DeleteCalls(config.IndexText(), rounds)
    {
      ghost var all := PkSeq(documents.docs);
      ghost var removed: nat := 0;
      rounds, calls := [], [];
      while true
        invariant Cleared(all, removed, documents, old(index), index, rounds, calls, config.IndexText())
        invariant documents.nextPk == old(documents).nextPk
        decreases |documents.docs|
      {
        var page := documents.docs[..Min(PageSize, |documents.docs|)];
        var ids := PkSeq(page);
        if |ids| == 0 {
          break;
        }
        ClearStep(all, removed, documents, old(index), index, rounds, calls, config.IndexText());
        calls := calls + [Execute(DeleteInText(config.IndexText(), ids), None)];
        index := index - Elements(ids);
        documents := Table(WithoutPks(documents.docs, Elements(ids)), documents.nextPk);
        rounds := rounds + [ids];
        removed := removed + |ids|;
      }
      ClearDone(all, removed, documents, old(index), index, rounds, calls, config.IndexText());
    }

    /**
      The SphinxQL text `search` sends, built as the source builds it: the
      LIMIT clauses, then the sort fields collected one by one while the
      direction of the first is remembered; a field of the other direction
      raises SearchBackendError, whichever direction came first.
    */
    method BuildSearchQuery(sortBy: seq<string>, startOffset: int, endOffset: Option<int>)
      returns (r: Result<string, BackendError>)
      ensures r.Failure? <==> MixedDirections(sortBy)
      ensures r.Failure? ==> r.error == SearchBackendError(MixedSortMessage)
      ensures r.Success? ==> r.value == SearchText(config.IndexText(), sortBy, startOffset, endOffset)
    {
      var limit := "";
      if startOffset != 0 && Truthy(endOffset) {
        limit := " LIMIT " + IntToString(startOffset) + ", " + IntToString(endOffset.value);
      }
      if Truthy(endOffset) {
        limit := limit + (" LIMIT " + IntToString(endOffset.value));
      }
      assert limit == LimitClause(startOffset, endOffset);
      var order := "";
      if |sortBy| > 0 {
        // `reverse` starts as None: `decided` says whether it has been set yet.
        var fields: seq<string> := [];
        var decided, reverse := false, false;
        var i := 0;
        while i < |sortBy|
          invariant 0 <= i <= |sortBy|
          invariant fields == sortBy[..i]
          invariant decided <==> i > 0
          invariant decided ==> forall j :: 0 <= j < i ==> Descending(sortBy[j]) == reverse
        {
          var field := sortBy[i];
          if |field| > 0 && field[0] == '-' {
            if decided && !reverse {
              assert Descending(sortBy[i]) && !Descending(sortBy[0]);
              return Failure(SearchBackendError(MixedSortMessage));
            }
            reverse := true;
          } else {
            if decided && reverse {
              assert !Descending(sortBy[i]) && Descending(sortBy[0]);
              return Failure(SearchBackendError(MixedSortMessage));
            }
            reverse := false;
          }
          decided := true;
          fields := fields + [field];
          i := i + 1;
        }
        assert fields == sortBy;
        order := " ORDER BY " + Join(fields, ", ");
        if reverse {
          order := order + " DESC";
        } else {
          assert !Descending(sortBy[0]);
          order := order + "ASC";
        }
      }
      r := Success("SELECT * FROM " + config.IndexText() + " WHERE MATCH(%s)" + limit + order);
    }

    /**
      `search`: send the query with the query string as the one bound
      parameter of MATCH, then turn each fetched row, in order, into the
      Document whose pk is the row's id with the row's weight as its score.
      A row whose Document does not exist raises DoesNotExist.
    */
    method Search(queryString: string, sortBy: seq<string>, startOffset: int, endOffset: Option<int>, rows: seq<Row>)
      returns (r: Result<SearchResponse, BackendError>, executed: Option<Call>)
      ensures MixedDirections(sortBy) ==> r == Failure(SearchBackendError(MixedSortMessage)) && executed.None?
      ensures !MixedDirections(sortBy) ==>
        executed == Some(Execute(SearchText(config.IndexText(), sortBy, startOffset, endOffset), Some([Atom(Str(queryString))])))
      ensures !MixedDirections(sortBy) ==> (r.Success? <==> AllResolve(documents.docs, rows))
      ensures r.Success? ==>
        && r.value.hits == |r.value.results| == |rows|
        && forall k :: 0 <= k < |rows| ==> fresh(r.value.results[k]) && Resolves(documents.docs, rows[k], r.value.results[k])
      ensures r.Failure? && !MixedDirections(sortBy) ==>
        exists k :: FirstMissing(documents.docs, rows, k) && r.error == DocumentDoesNotExist(rows[k].id)
    {
      var query := BuildSearchQuery(sortBy, startOffset, endOffset);
      if query.Failure? {
        return Failure(query.error), None;
      }
      executed := Some(Execute(query.value, Some([Atom(Str(queryString))])));
      var results := ResolveRows(documents.docs, rows);
      if results.Failure? {
        return Failure(results.error), executed;
      }
      r := Success(SearchResponse(results.value, |results.value|));
    }
  }

  lemma DeleteCallsSnoc(index: string, rounds: seq<seq<int>>, ids: seq<int>)
    ensures DeleteCalls(index, rounds + [ids]) == DeleteCalls(index, rounds) + [Execute(DeleteInText(index, ids), None)]
  {
  }

  /**
    What `clear` keeps true from round to round: `removed` pks of the
    original `all` are gone from both stores, the remaining rows hold the
    rest, and the rounds so far are the first pages of `all`.
  */
  ghost predicate Cleared(all: seq<int>, removed: nat, t: Table, index0: map<int, seq<Value>>, index: map<int, seq<Value>>,
                          rounds: seq<seq<int>>, calls: seq<Call>, name: string)
  {
    && ValidTable(t)
    && removed + |t.docs| == |all|
    && PkSeq(t.docs) == all[removed..]
    && Pages(all) == rounds + Pages(all[removed..])
    && index == index0 - Elements(all[..removed])
    && calls == DeleteCalls(name, rounds)
  }

  lemma ClearStep(all: seq<int>, removed: nat, t: Table, index0: map<int, seq<Value>>, index: map<int, seq<Value>>,
                  rounds: seq<seq<int>>, calls: seq<Call>, name: string)
    requires Cleared(all, removed, t, index0, index, rounds, calls, name)
    requires |t.docs| > 0
    ensures var ids := PkSeq(t.docs[..Min(PageSize, |t.docs|)]);
      Cleared(all, removed + |ids|, Table(WithoutPks(t.docs, Elements(ids)), t.nextPk), index0, index - Elements(ids),
              rounds + [ids], calls + [Execute(DeleteInText(name, ids), None)], name)
  {
    var n := Min(PageSize, |t.docs|);
    var ids := PkSeq(t.docs[..n]);
    ClearRound(t, all, removed, n);
    WithoutPksValid(t, Elements(ids));
    DeleteCallsSnoc(name, rounds, ids);
    var t1 := Table(WithoutPks(t.docs, Elements(ids)), t.nextPk);
    assert t1.docs == t.docs[n..];
    assert ValidTable(t1);
    assert removed + n + |t1.docs| == |all|;
    assert PkSeq(t1.docs) == all[removed + n..];
    SeqAssoc(rounds, [ids], Pages(all[removed + n..]));
    MapMinus(index0, Elements(all[..removed]), Elements(ids));
  }

  lemma SeqAssoc<T>(a: seq<T>, b: seq<T>, c: seq<T>)
    ensures a + (b + c) == (a + b) + c
  {
  }

  lemma MapMinus<K, V>(m: map<K, V>, a: set<K>, b: set<K>)
    ensures m - a - b == m - (a + b)
  {
  }

  lemma ClearDone(all: seq<int>, removed: nat, t: Table, index0: map<int, seq<Value>>, index: map<int, seq<Value>>,
                  rounds: seq<seq<int>>, calls: seq<Call>, name: string)
    requires Cleared(all, removed, t, index0, index, rounds, calls, name)
    requires |t.docs| == 0
    ensures t.docs == [] && rounds == Pages(all) && index == index0 - Elements(all)
  {
    assert all[removed..] == [] && all[..removed] == all;
  }

  /** One round of `clear`: the page is the prefix of the remaining rows and its pks come next in `all`. */
  lemma ClearRound(t: Table, all: seq<int>, removed: nat, n: nat)
    requires ValidTable(t)
    requires removed + |t.docs| == |all|
    requires PkSeq(t.docs) == all[removed..]
    requires 0 < n == Min(PageSize, |t.docs|)
    ensures PkSeq(t.docs[..n]) == all[removed..][..n]
    ensures WithoutPks(t.docs, Elements(PkSeq(t.docs[..n]))) == t.docs[n..]
    ensures PkSeq(t.docs[n..]) == all[removed + n..]
    ensures Pages(all[removed..]) == [PkSeq(t.docs[..n])] + Pages(all[removed + n..])
    ensures Elements(all[..removed + n]) == Elements(all[..removed]) + Elements(PkSeq(t.docs[..n]))
  {
    PkSeqSlices(t.docs, n);
    PrefixDeleted(t, n);
    var rest := all[removed..];
    assert rest[n..] == all[removed + n..];
    assert all[..removed + n] == all[..removed] + rest[..n];
  }

  /** The pks of a prefix and of the matching suffix are the prefix and suffix of the pks. */
  lemma PkSeqSlices(docs: seq<DocRecord>, n: nat)
    requires n <= |docs|
    ensures PkSeq(docs[..n]) == PkSeq(docs)[..n]
    ensures PkSeq(docs[n..]) == PkSeq(docs)[n..]
  {
  }

  /** Deleting the pks of the first n rows of a valid table leaves exactly the rows after them. */
  lemma PrefixDeleted(t: Table, n: nat)
    requires ValidTable(t)
    requires n <= |t.docs|
    ensures WithoutPks(t.docs, Elements(PkSeq(t.docs[..n]))) == t.docs[n..]
  {
    var ids := PkSeq(t.docs[..n]);
    forall i | n <= i < |t.docs| ensures t.docs[i].pk !in Elements(ids) {
      forall j | 0 <= j < n ensures ids[j] != t.docs[i].pk {
        assert ids[j] == t.docs[j].pk;
      }
    }
    forall i | 0 <= i < n ensures t.docs[i].pk in Elements(ids) {
      assert ids[i] == t.docs[i].pk;
    }
    WithoutPrefix(t.docs, n, Elements(ids));
  }
}
