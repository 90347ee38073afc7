/**
  The `Document` model: the identity table that gives every indexed object,
  whatever its model, its own Sphinx document id, and the `Document`
  instance with its mutable `score`.
*/
module Documents {
  import opened Wrappers

  /** A Django content type, known by its natural key. */
  datatype ContentType = ContentType(appLabel: string, model: string)

  /** One row of the Document table: the indexed object and the document id (`pk`). */
  datatype DocRecord = DocRecord(contentType: ContentType, objectId: int, pk: nat)

  /** The Document table, rows in primary-key order, with the next auto-increment value. */
  datatype Table = Table(docs: seq<DocRecord>, nextPk: nat)

  ghost predicate Increasing(docs: seq<DocRecord>)
  {
    forall i, j :: 0 <= i < j < |docs| ==> docs[i].pk < docs[j].pk
  }

  ghost predicate UniqueKeys(docs: seq<DocRecord>)
  {
    forall i, j :: 0 <= i < j < |docs| ==>
      docs[i].contentType != docs[j].contentType || docs[i].objectId != docs[j].objectId
  }

  /**
    Every pk is positive and below the next one to be handed out, pks are
    increasing, and no two rows describe the same (content type, object id).
  */
  ghost predicate ValidTable(t: Table)
  {
    && t.nextPk >= 1
    && (forall i :: 0 <= i < |t.docs| ==> 1 <= t.docs[i].pk < t.nextPk)
    && Increasing(t.docs)
    && UniqueKeys(t.docs)
  }

  /** `Document.objects.get(content_type=ct, object_id=oid)`, None for DoesNotExist. */
  function FindByKey(docs: seq<DocRecord>, ct: ContentType, oid: int): (r: Option<DocRecord>)
    ensures r.Some? ==> r.value in docs && r.value.contentType == ct && r.value.objectId == oid
  {
    if |docs| == 0 then None
    else if docs[0].contentType == ct && docs[0].objectId == oid then Some(docs[0])
    else FindByKey(docs[1..], ct, oid)
  }

  /** The lookup finds nothing exactly when no row holds the key. */
  lemma {:induction false} FindByKeyNone(docs: seq<DocRecord>, ct: ContentType, oid: int)
    ensures FindByKey(docs, ct, oid).None? <==>
      forall i :: 0 <= i < |docs| ==> docs[i].contentType != ct || docs[i].objectId != oid
  {
    if |docs| > 0 {
      FindByKeyNone(docs[1..], ct, oid);
      assert forall i :: 0 < i < |docs| ==> docs[i] == docs[1..][i - 1];
    }
  }

  /** `Document.objects.get(pk=pk)`, None for DoesNotExist. */
  function FindByPk(docs: seq<DocRecord>, pk: int): (r: Option<DocRecord>)
    ensures r.Some? ==> r.value in docs && r.value.pk == pk
    ensures r.None? ==> forall i :: 0 <= i < |docs| ==> docs[i].pk != pk
  {
    if |docs| == 0 then None
    else if docs[0].pk == pk then Some(docs[0])
    else FindByPk(docs[1..], pk)
  }

  /** In a table without duplicate keys, the lookup finds the one row holding the key. */
  lemma {:induction false} FindByKeyUnique(docs: seq<DocRecord>, k: nat)
    requires UniqueKeys(docs)
    requires k < |docs|
    ensures FindByKey(docs, docs[k].contentType, docs[k].objectId) == Some(docs[k])
  {
    if k > 0 {
      assert docs[0].contentType != docs[k].contentType || docs[0].objectId != docs[k].objectId;
      assert docs[1..][k - 1] == docs[k];
      assert UniqueKeys(docs[1..]) by {
        forall i, j | 0 <= i < j < |docs| - 1
          ensures docs[1..][i].contentType != docs[1..][j].contentType || docs[1..][i].objectId != docs[1..][j].objectId
        {
          assert docs[1..][i] == docs[i + 1] && docs[1..][j] == docs[j + 1];
        }
      }
      FindByKeyUnique(docs[1..], k - 1);
    }
  }

  /** Rows never change once written: a lookup that succeeded still succeeds after rows are appended. */
  lemma {:induction false} FindByKeyAppend(docs: seq<DocRecord>, extra: seq<DocRecord>, ct: ContentType, oid: int)
    requires FindByKey(docs, ct, oid).Some?
    ensures FindByKey(docs + extra, ct, oid) == FindByKey(docs, ct, oid)
  {
    if docs[0].contentType != ct || docs[0].objectId != oid {
      assert (docs + extra)[1..] == docs[1..] + extra;
      FindByKeyAppend(docs[1..], extra, ct, oid);
    }
  }

  /** A key that is absent is found once it is appended. */
  lemma {:induction false} FindByKeyAppended(docs: seq<DocRecord>, d: DocRecord)
    requires FindByKey(docs, d.contentType, d.objectId).None?
    ensures FindByKey(docs + [d], d.contentType, d.objectId) == Some(d)
  {
    if |docs| > 0 {
      assert (docs + [d])[1..] == docs[1..] + [d];
      FindByKeyAppended(docs[1..], d);
    }
  }

  /** A row for a new key, numbered with the next pk, keeps the table valid. */
  lemma AppendValid(t: Table, d: DocRecord)
    requires ValidTable(t)
    requires FindByKey(t.docs, d.contentType, d.objectId).None?
    requires d.pk == t.nextPk
    ensures ValidTable(Table(t.docs + [d], t.nextPk + 1))
  {
    FindByKeyNone(t.docs, d.contentType, d.objectId);
    var docs := t.docs + [d];
    forall i, j | 0 <= i < j < |docs|
      ensures docs[i].pk < docs[j].pk
      ensures docs[i].contentType != docs[j].contentType || docs[i].objectId != docs[j].objectId
    {
      assert docs[i] == t.docs[i];
      if j < |t.docs| {
        assert docs[j] == t.docs[j];
      }
    }
  }

  /**
    `Document.objects.get_or_create(content_type=ct, object_id=oid)`: the
    existing row when there is one, otherwise a new row with the next pk.
    The table stays valid and the returned row holds the key.
  */
  function GetOrCreate(t: Table, ct: ContentType, oid: int): (r: (Table, DocRecord))
    requires ValidTable(t)
    ensures ValidTable(r.0)
    ensures r.1.contentType == ct && r.1.objectId == oid
    ensures FindByKey(r.0.docs, ct, oid) == Some(r.1)
    ensures FindByKey(t.docs, ct, oid).Some? ==> r.0 == t
    ensures FindByKey(t.docs, ct, oid).None? ==>
      r.1.pk == t.nextPk && r.0 == Table(t.docs + [r.1], t.nextPk + 1)
  {
    match FindByKey(t.docs, ct, oid)
    case Some(d) => (t, d)
    case None =>
      var d := DocRecord(ct, oid, t.nextPk);
      FindByKeyAppended(t.docs, d);
      AppendValid(t, d);
      (Table(t.docs + [d], t.nextPk + 1), d)
  }

  /** Calling get_or_create again with the same key returns the same row and changes nothing. */
  lemma GetOrCreateIdempotent(t: Table, ct: ContentType, oid: int)
    requires ValidTable(t)
    ensures GetOrCreate(GetOrCreate(t, ct, oid).0, ct, oid) == GetOrCreate(t, ct, oid)
  {
  }

  /** In a valid table, two rows that are different rows have different pks. */
  lemma DistinctRowsDistinctPks(docs: seq<DocRecord>, a: DocRecord, b: DocRecord)
    requires Increasing(docs)
    requires a in docs && b in docs && a != b
    ensures a.pk != b.pk
  {
    var i :| 0 <= i < |docs| && docs[i] == a;
    var j :| 0 <= j < |docs| && docs[j] == b;
    assert i != j;
  }

  /**
    Two different objects (for instance two models sharing the object id
    42) get two different document ids, whether their rows already exist or
    are created one after the other.
  */
  lemma DistinctObjectsDistinctIds(t: Table, ct1: ContentType, oid1: int, ct2: ContentType, oid2: int)
    requires ValidTable(t)
    requires ct1 != ct2 || oid1 != oid2
    ensures GetOrCreate(GetOrCreate(t, ct1, oid1).0, ct2, oid2).1.pk != GetOrCreate(t, ct1, oid1).1.pk
  {
    var (t1, d1) := GetOrCreate(t, ct1, oid1);
    var (t2, d2) := GetOrCreate(t1, ct2, oid2);
    if FindByKey(t1.docs, ct2, oid2).Some? {
      DistinctRowsDistinctPks(t1.docs, d1, d2);
    } else {
      var i :| 0 <= i < |t1.docs| && t1.docs[i] == d1;
    }
  }

  /** `Document.objects.filter(id__in=pks).delete()`: the rows whose pk is not in `pks`, in order. */
  function WithoutPks(docs: seq<DocRecord>, pks: set<int>): (r: seq<DocRecord>)
    ensures |r| <= |docs|
    ensures forall d :: d in r <==> d in docs && d.pk !in pks
  {
    if |docs| == 0 then []
    else (if docs[0].pk in pks then [] else [docs[0]]) + WithoutPks(docs[1..], pks)
  }

  lemma TailOrdered(docs: seq<DocRecord>)
    requires |docs| > 0 && Increasing(docs) && UniqueKeys(docs)
    ensures Increasing(docs[1..]) && UniqueKeys(docs[1..])
    ensures forall d :: d in docs[1..] ==>
      docs[0].pk < d.pk && (docs[0].contentType != d.contentType || docs[0].objectId != d.objectId)
  {
    forall d | d in docs[1..]
      ensures docs[0].pk < d.pk && (docs[0].contentType != d.contentType || docs[0].objectId != d.objectId)
    {
      var k :| 0 <= k < |docs| - 1 && docs[1..][k] == d;
      assert docs[k + 1] == d;
    }
  }

  lemma ConsOrdered(d: DocRecord, rest: seq<DocRecord>)
    requires Increasing(rest) && UniqueKeys(rest)
    requires forall e :: e in rest ==> d.pk < e.pk && (d.contentType != e.contentType || d.objectId != e.objectId)
    ensures Increasing([d] + rest) && UniqueKeys([d] + rest)
  {
    var r := [d] + rest;
    forall i, j | 0 <= i < j < |r|
      ensures r[i].pk < r[j].pk
      ensures r[i].contentType != r[j].contentType || r[i].objectId != r[j].objectId
    {
      assert r[j] == rest[j - 1];
      if i > 0 { assert r[i] == rest[i - 1]; } else { assert r[j] in rest; }
    }
  }

  /** Deleting rows keeps the rows in pk order and without duplicate keys. */
  lemma {:induction false} WithoutPksOrdered(docs: seq<DocRecord>, pks: set<int>)
    requires Increasing(docs) && UniqueKeys(docs)
    ensures Increasing(WithoutPks(docs, pks)) && UniqueKeys(WithoutPks(docs, pks))
    decreases |docs|
  {
    if |docs| > 0 {
      TailOrdered(docs);
      WithoutPksOrdered(docs[1..], pks);
      if docs[0].pk !in pks {
        ConsOrdered(docs[0], WithoutPks(docs[1..], pks));
      }
    }
  }

  /** Deleting rows keeps the table valid. */
  lemma WithoutPksValid(t: Table, pks: set<int>)
    requires ValidTable(t)
    ensures ValidTable(Table(WithoutPks(t.docs, pks), t.nextPk))
  {
    WithoutPksOrdered(t.docs, pks);
    var r := WithoutPks(t.docs, pks);
    forall i | 0 <= i < |r| ensures 1 <= r[i].pk < t.nextPk {
      assert r[i] in t.docs;
    }
  }

  /**
    Deleting exactly the pks of the first `k` rows leaves the rows after
    them: the page that `clear` takes is the prefix of the table.
  */
  lemma {:induction false} WithoutPrefix(docs: seq<DocRecord>, k: nat, pks: set<int>)
    requires k <= |docs|
    requires forall i :: 0 <= i < k ==> docs[i].pk in pks
    requires forall i :: k <= i < |docs| ==> docs[i].pk !in pks
    ensures WithoutPks(docs, pks) == docs[k..]
    decreases |docs|
  {
    if |docs| > 0 {
      if k > 0 {
        WithoutPrefix(docs[1..], k - 1, pks);
        assert docs[1..][k - 1..] == docs[k..];
      } else {
        WithoutPrefix(docs[1..], 0, pks);
        assert [docs[0]] + docs[1..] == docs;
      }
    }
  }

  /**
    The private `_score` attribute: missing, or holding a value (None or a
    number).
  */
  datatype ScoreAttr = Missing | Present(value: Option<int>)

  /** A `Document` instance: the row's fields and the search score attached to it. */
  class Document {
    var contentType: ContentType
    var objectId: int
    var pk: nat
    var scoreAttr: ScoreAttr

    /** `Document(..., score=score)`: `score` is popped from the keywords, None when absent. */
    constructor (contentType: ContentType, objectId: int, pk: nat, score: Option<int> := None)
      ensures this.contentType == contentType && this.objectId == objectId && this.pk == pk
      ensures scoreAttr == Present(score)
      ensures Score() == score
    {
      this.contentType := contentType;
      this.objectId := objectId;
      this.pk := pk;
      this.scoreAttr := Present(score);
    }

    /** The row this instance stands for. */
    function Record(): DocRecord
      reads this
    {
      DocRecord(contentType, objectId, pk)
    }

    /** The `score` getter: the stored value, or 0 when the attribute is missing. */
    function Score(): (s: Option<int>)
      reads this
      ensures scoreAttr.Missing? ==> s == Some(0)
      ensures scoreAttr.Present? ==> s == scoreAttr.value
    {
      match scoreAttr
      case Missing => Some(0)
      case Present(v) => v
    }

    /** The `score` setter: reading the score afterwards gives `value`; nothing else changes. */
    method SetScore(value: Option<int>)
      modifies this
      ensures scoreAttr == Present(value)
      ensures Score() == value
      ensures Record() == old(Record())
    {
      scoreAttr := Present(value);
    }
  }
}
