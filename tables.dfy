/**
 * The `Photos` and `Videos` DAOs over the local cache tables. A table is a
 * map from primary key to row. The read queries are functions of the
 * current rows; the statements that change a table are methods of `Table`
 * specified by the transition functions below.
 */
module Tables {
  import opened Wrappers
  import opened Entities
  import opened SqlLike
  import Jvm

  /** The primary key of every stored row is the key it is stored under. */
  predicate KeyedById(rows: map<int, Media>) {
    forall id | id in rows :: rows[id].id == id
  }

  /** A table holds rows of one entity only. */
  predicate OfKind(rows: map<int, Media>, videos: bool) {
    forall id | id in rows :: rows[id].Video? == videos
  }

  // ----- aggregates -----

  /** A non-empty set has an element. */
  lemma Witness(s: set<int>)
    requires s != {}
    ensures exists x :: x in s
  {
    if forall x :: x !in s {
      assert false;
    }
  }

  lemma {:induction false} MaxExists(s: set<int>)
    requires s != {}
    ensures exists m :: m in s && forall x | x in s :: x <= m
  {
    Witness(s);
    var x :| x in s;
    if s != {x} {
      MaxExists(s - {x});
      var m :| m in s - {x} && forall y | y in s - {x} :: y <= m;
      var top := if x > m then x else m;
      forall y | y in s ensures y <= top {
        if y != x { assert y in s - {x}; }
      }
    } else {
      forall y | y in s ensures y <= x {
        assert y in {x};
      }
    }
  }

  /** SQL `MAX` over a non-empty column. */
  function MaxOf(s: set<int>): (m: int)
    requires s != {}
    ensures m in s && forall x | x in s :: x <= m
  {
    MaxExists(s);
    var m :| m in s && forall x | x in s :: x <= m;
    m
  }

  function DatesOf(rows: map<int, Media>, ids: set<int>): set<int>
    requires ids <= rows.Keys
  {
    set id | id in ids :: rows[id].dateModified
  }

  /** An element of a non-empty set, fixed once and for all. */
  ghost function Pick(s: set<int>): (x: int)
    requires s != {}
    ensures x in s
  {
    Witness(s);
    var x :| x in s;
    x
  }

  /** SQL `SUM(file_size)` over the rows with the given keys. */
  ghost function SizeSum(rows: map<int, Media>, ids: set<int>): int
    requires ids <= rows.Keys
    decreases ids
  {
    if ids == {} then 0
    else
      var id := Pick(ids);
      rows[id].size + SizeSum(rows, ids - {id})
  }

  /** The sum does not depend on the order in which the rows are visited. */
  lemma {:induction false} SizeSumWithout(rows: map<int, Media>, ids: set<int>, k: int)
    requires ids <= rows.Keys && k in ids
    ensures SizeSum(rows, ids) == rows[k].size + SizeSum(rows, ids - {k})
    decreases ids
  {
    var x := Pick(ids);
    if x != k {
      SizeSumWithout(rows, ids - {x}, k);
      SizeSumWithout(rows, ids - {k}, x);
      assert ids - {x} - {k} == ids - {k} - {x};
    }
  }

  /** The sum over some keys only reads the rows under those keys. */
  lemma {:induction false} SizeSumFrame(rows: map<int, Media>, rows': map<int, Media>, ids: set<int>)
    requires ids <= rows.Keys && ids <= rows'.Keys
    requires forall id | id in ids :: rows[id].size == rows'[id].size
    ensures SizeSum(rows, ids) == SizeSum(rows', ids)
    decreases ids
  {
    if ids != {} {
      var x := Pick(ids);
      SizeSumWithout(rows', ids, x);
      SizeSumFrame(rows, rows', ids - {x});
    }
  }

  // ----- read queries -----

  /** `lastModified()`: `SELECT MAX(date_modified)`, NULL on an empty table. */
  function LastModified(rows: map<int, Media>): (r: Option<int>)
    ensures r.None? <==> rows == map[]
    ensures r.Some? ==> exists id | id in rows :: rows[id].dateModified == r.value
    ensures r.Some? ==> forall id | id in rows :: rows[id].dateModified <= r.value
  {
    if rows == map[] then None
    else
      Witness(rows.Keys);
      var dates := DatesOf(rows, rows.Keys);
      assert dates != {} by {
        var id :| id in rows;
        assert rows[id].dateModified in dates;
      }
      assert forall id | id in rows :: rows[id].dateModified in dates;
      Some(MaxOf(dates))
  }

  /** `count()`: zero exactly when `lastModified()` is NULL. */
  function Count(rows: map<int, Media>): (n: nat)
    ensures n == 0 <==> LastModified(rows).None?
  {
    |rows|
  }

  /** `get(id)`: the row under a primary key, or NULL. */
  function Get(rows: map<int, Media>, id: int): (r: Option<Media>)
    requires KeyedById(rows)
    ensures r.Some? <==> id in rows
    ensures r.Some? ==> r.value == rows[id] && r.value.id == id
  {
    if id in rows then Some(rows[id]) else None
  }

  /** `exists(id)`: holds exactly when `get(id)` finds a row. */
  function Exists(rows: map<int, Media>, id: int): (r: bool)
    requires KeyedById(rows)
    ensures r <==> Get(rows, id).Some?
  {
    id in rows
  }

  predicate TitleMatches(m: Media, query: Option<string>) {
    query.None? || Like(m.title, Containing(query.value))
  }

  /**
   * `get(query)`: `WHERE :query IS NULL OR title LIKE '%' || :query || '%'`.
   * The result is keyed by primary key: SQL gives the list no order.
   */
  function Search(rows: map<int, Media>, query: Option<string>): (r: map<int, Media>)
    ensures r.Keys <= rows.Keys
    ensures forall id | id in r :: r[id] == rows[id]
    ensures forall id | id in rows :: id in r <==> TitleMatches(rows[id], query)
  {
    map id | id in rows && TitleMatches(rows[id], query) :: rows[id]
  }

  /**
   * A NULL or empty query returns the whole table; any other query without
   * wildcard characters returns the rows whose title contains it, ignoring
   * ASCII case.
   */
  lemma SearchByTitle(rows: map<int, Media>, q: string)
    ensures Search(rows, None) == rows
    ensures Search(rows, Some("")) == rows
    ensures NoWildcards(q) ==>
              forall id | id in rows :: id in Search(rows, Some(q)) <==> exists i :: OccursAt(rows[id].title, q, i)
  {
    forall id | id in rows ensures id in Search(rows, Some("")) {
      EmptyQueryMatchesAll(rows[id].title);
    }
    if NoWildcards(q) {
      forall id | id in rows
        ensures id in Search(rows, Some(q)) <==> exists i :: OccursAt(rows[id].title, q, i)
      {
        ContainingIsSubstring(rows[id].title, q);
      }
    }
  }

  // ----- the bucket and info views -----

  /** The aggregate columns of one group, and the row SQLite reports for its bare columns. */
  datatype Aggregate = Aggregate(row: Media, cardinality: int, size: int, dateModified: int)

  /** A row of `vw_photo_bucket` / `vw_video_bucket`; `size` is a `Long`. */
  datatype Bucket = Bucket(row: Media, path: string, cardinality: int, size: int, dateModified: int)

  /** The row of `vw_photos_info` / `vw_video_info`; `size` is read as an `Int`. */
  datatype Info = Info(row: Media, cardinality: int, dateModified: int, size: int)

  function IdsUnder(rows: map<int, Media>, path: string): set<int> {
    set id | id in rows && rows[id].parent == path
  }

  function Parents(rows: map<int, Media>): set<string> {
    set id | id in rows :: rows[id].parent
  }

  /**
   * `COUNT(*)`, `SUM(file_size)` and `MAX(date_modified)` over a group. With a
   * single `MAX` aggregate SQLite takes the bare columns (`tbl.*`) from a row
   * holding that maximum.
   */
  ghost function Summarise(rows: map<int, Media>, ids: set<int>): (a: Aggregate)
    requires ids != {} && ids <= rows.Keys
    ensures a.cardinality == |ids| && a.size == SizeSum(rows, ids)
    ensures exists id | id in ids :: rows[id] == a.row
    ensures a.row.dateModified == a.dateModified
    ensures forall id | id in ids :: rows[id].dateModified <= a.dateModified
  {
    var dates := DatesOf(rows, ids);
    assert dates != {} by {
      Witness(ids);
      var id :| id in ids;
      assert rows[id].dateModified in dates;
    }
    assert forall id | id in ids :: rows[id].dateModified in dates;
    var max := MaxOf(dates);
    var top :| top in ids && rows[top].dateModified == max;
    Aggregate(rows[top], |ids|, SizeSum(rows, ids), max)
  }

  /** The bucket view: `GROUP BY parent_path`. */
  ghost function Buckets(rows: map<int, Media>): (b: map<string, Bucket>)
    ensures b.Keys == Parents(rows)
    ensures forall p | p in b :: b[p].path == p && b[p].row.parent == p && b[p].row in rows.Values
    ensures forall p | p in b ::
              b[p].cardinality == |IdsUnder(rows, p)| && b[p].size == SizeSum(rows, IdsUnder(rows, p))
    ensures forall id | id in rows ::
              rows[id].parent in b && rows[id].dateModified <= b[rows[id].parent].dateModified
    ensures forall p | p in b :: exists id | id in rows ::
              rows[id].parent == p && rows[id].dateModified == b[p].dateModified
  {
    assert forall p | p in Parents(rows) :: IdsUnder(rows, p) != {} by {
      forall p | p in Parents(rows) ensures IdsUnder(rows, p) != {} {
        var id :| id in rows && rows[id].parent == p;
        assert id in IdsUnder(rows, p);
      }
    }
    map p | p in Parents(rows) ::
      var a := Summarise(rows, IdsUnder(rows, p));
      Bucket(a.row, p, a.cardinality, a.size, a.dateModified)
  }

  /** `getBuckets(query)`: buckets whose path matches `'%' || :query || '%'`. */
  ghost function GetBuckets(rows: map<int, Media>, query: Option<string>): (r: map<string, Bucket>)
    ensures r.Keys <= Parents(rows)
    ensures forall p | p in Parents(rows) ::
              p in r <==> query.None? || Like(p, Containing(query.value))
    ensures forall p | p in r :: r[p] == Buckets(rows)[p]
  {
    var all := Buckets(rows);
    map p | p in all && (query.None? || Like(p, Containing(query.value))) :: all[p]
  }

  /** `getBucket(path)`: the bucket of a directory, NULL when no row lives there. */
  ghost function GetBucket(rows: map<int, Media>, path: string): (r: Option<Bucket>)
    ensures r.Some? <==> exists id | id in rows :: rows[id].parent == path
    ensures r.Some? ==> path in Buckets(rows) && r.value == Buckets(rows)[path]
    ensures r.Some? ==> r.value.path == path && r.value.cardinality >= 1
  {
    ParentHasIds(rows, path);
    var all := Buckets(rows);
    if path in all then Some(all[path]) else None
  }

  /**
   * `getInfo()`: one aggregate over the whole table. On an empty table the
   * source has no row to embed, so the model returns NULL.
   */
  ghost function GetInfo(rows: map<int, Media>): (r: Option<Info>)
    ensures r.None? <==> rows == map[]
    ensures r.Some? ==> r.value.cardinality == |rows| && r.value.size == Jvm.ToInt(SizeSum(rows, rows.Keys))
    ensures r.Some? ==> LastModified(rows) == Some(r.value.dateModified)
  {
    if rows == map[] then None
    else
      var a := Summarise(rows, rows.Keys);
      Some(Info(a.row, a.cardinality, a.dateModified, Jvm.ToInt(a.size)))
  }

  /** Adding a row to a group adds one to its count, its size to the sum, and raises the maximum date to its own if higher. */
  lemma SummariseAdd(rows: map<int, Media>, ids: set<int>, m: Media)
    requires m.id !in rows && ids != {} && ids <= rows.Keys
    ensures var a := Summarise(rows, ids); var b := Summarise(rows[m.id := m], ids + {m.id});
            && b.cardinality == a.cardinality + 1
            && b.size == a.size + m.size
            && b.dateModified == if m.dateModified > a.dateModified then m.dateModified else a.dateModified
  {
    var rows' := rows[m.id := m];
    var ids' := ids + {m.id};
    assert ids' - {m.id} == ids;
    SizeSumWithout(rows', ids', m.id);
    SizeSumFrame(rows, rows', ids);
    var a := Summarise(rows, ids);
    var b := Summarise(rows', ids');
    var w :| w in ids && rows[w] == a.row;
    assert rows'[w] == rows[w];
    var v :| v in ids' && rows'[v] == b.row;
    if v != m.id {
      assert rows'[v] == rows[v];
    }
  }

  /** A group none of whose rows changed keeps its count, size and maximum date. */
  lemma SummariseFrame(rows: map<int, Media>, rows': map<int, Media>, ids: set<int>)
    requires ids != {} && ids <= rows.Keys && ids <= rows'.Keys
    requires forall id | id in ids :: rows'[id] == rows[id]
    ensures var a := Summarise(rows, ids); var b := Summarise(rows', ids);
            a.cardinality == b.cardinality && a.size == b.size && a.dateModified == b.dateModified
  {
    SizeSumFrame(rows, rows', ids);
    var a := Summarise(rows, ids);
    var b := Summarise(rows', ids);
    var w :| w in ids && rows[w] == a.row;
    var v :| v in ids && rows'[v] == b.row;
  }

  /** Inserting a row adds its directory to the set of directories. */
  lemma ParentsAfterInsert(rows: map<int, Media>, m: Media)
    requires m.id !in rows
    ensures Parents(rows[m.id := m]) == Parents(rows) + {m.parent}
  {
    var rows' := rows[m.id := m];
    assert rows'[m.id].parent == m.parent;
    forall q | q in Parents(rows) ensures q in Parents(rows') {
      var id :| id in rows && rows[id].parent == q;
      assert rows'[id] == rows[id];
    }
  }

  /** A directory holds a row exactly when some row lives under it. */
  lemma ParentHasIds(rows: map<int, Media>, p: string)
    ensures p in Parents(rows) <==> exists id | id in rows :: rows[id].parent == p
    ensures p in Parents(rows) <==> IdsUnder(rows, p) != {}
  {
    if p in Parents(rows) {
      var id :| id in rows && rows[id].parent == p;
      assert id in IdsUnder(rows, p);
    }
    if IdsUnder(rows, p) != {} {
      Witness(IdsUnder(rows, p));
      var id :| id in IdsUnder(rows, p);
      assert rows[id].parent in Parents(rows);
    }
  }

  /**
   * Storing a row under a new key updates the bucket of its directory
   * incrementally: one more row, its size added, the maximum date raised to
   * its date if higher; a directory that had no bucket gets one holding just
   * this row.
   */
  lemma BucketAfterInsert(rows: map<int, Media>, m: Media)
    requires m.id !in rows
    ensures var before := Buckets(rows); var after := Buckets(rows[m.id := m]);
            && after.Keys == before.Keys + {m.parent}
            && (m.parent !in before ==>
                  after[m.parent].cardinality == 1 && after[m.parent].size == m.size
                  && after[m.parent].dateModified == m.dateModified)
            && (m.parent in before ==>
                  after[m.parent].cardinality == before[m.parent].cardinality + 1
                  && after[m.parent].size == before[m.parent].size + m.size
                  && after[m.parent].dateModified ==
                       (if m.dateModified > before[m.parent].dateModified then m.dateModified
                        else before[m.parent].dateModified))
  {
    var rows' := rows[m.id := m];
    var p := m.parent;
    ParentsAfterInsert(rows, m);
    var olds := IdsUnder(rows, p);
    assert IdsUnder(rows', p) == olds + {m.id};
    ParentHasIds(rows, p);
    if olds == {} {
      assert IdsUnder(rows', p) == {m.id};
      assert {m.id} - {m.id} == {};
      SizeSumWithout(rows', {m.id}, m.id);
    } else {
      Witness(olds);
      var id :| id in olds;
      assert p in Parents(rows);
      SummariseAdd(rows, olds, m);
    }
  }

  /** Storing a row leaves the count, size and maximum date of every other directory's bucket as they were. */
  lemma OtherBucketsAfterInsert(rows: map<int, Media>, m: Media, q: string)
    requires m.id !in rows && q != m.parent && q in Parents(rows)
    ensures q in Buckets(rows) && q in Buckets(rows[m.id := m])
    ensures var before := Buckets(rows)[q]; var after := Buckets(rows[m.id := m])[q];
            after.cardinality == before.cardinality && after.size == before.size
            && after.dateModified == before.dateModified
  {
    var rows' := rows[m.id := m];
    var ids := IdsUnder(rows, q);
    var id :| id in rows && rows[id].parent == q;
    assert id in ids;
    assert rows'[id] == rows[id];
    assert q in Parents(rows');
    assert IdsUnder(rows', q) == ids;
    SummariseFrame(rows, rows', ids);
  }

  // ----- statements that change a table -----

  /** No key of `values` is stored yet and no two of `values` share a key. */
  predicate Insertable(rows: map<int, Media>, values: seq<Media>) {
    && (forall i | 0 <= i < |values| :: values[i].id !in rows)
    && (forall i, j | 0 <= i < j < |values| :: values[i].id != values[j].id)
  }

  function KeysOf(values: seq<Media>): (ids: seq<int>)
    ensures |ids| == |values| && forall i | 0 <= i < |values| :: ids[i] == values[i].id
  {
    seq(|values|, i requires 0 <= i < |values| => values[i].id)
  }

  function IdSet(values: seq<Media>): set<int> {
    set i | 0 <= i < |values| :: values[i].id
  }

  lemma IdSetPrefix(values: seq<Media>, i: int)
    requires 0 <= i < |values|
    ensures IdSet(values[..i + 1]) == IdSet(values[..i]) + {values[i].id}
  {
    var a := values[..i + 1];
    var b := values[..i];
    forall x | x in IdSet(a) ensures x in IdSet(b) + {values[i].id} {
      var j :| 0 <= j < |a| && a[j].id == x;
      if j < i { assert a[j] == b[j]; }
    }
    forall x | x in IdSet(b) ensures x in IdSet(a) {
      var j :| 0 <= j < |b| && b[j].id == x;
      assert a[j] == b[j];
    }
    assert a[i] == values[i];
  }

  /** A key already stored or already staged makes the whole batch not insertable. */
  lemma InsertablePrefixBlocked(rows: map<int, Media>, values: seq<Media>, i: int)
    requires 0 <= i < |values|
    requires values[i].id in rows.Keys + IdSet(values[..i])
    ensures !Insertable(rows, values)
  {
    if values[i].id !in rows {
      var j :| 0 <= j < i && values[..i][j].id == values[i].id;
      assert values[j].id == values[i].id;
    }
  }

  /** A fresh key extends an insertable prefix by one row. */
  lemma InsertablePrefixGrows(rows: map<int, Media>, values: seq<Media>, i: int)
    requires 0 <= i < |values|
    requires Insertable(rows, values[..i])
    requires values[i].id !in rows.Keys + IdSet(values[..i])
    ensures Insertable(rows, values[..i + 1])
  {
    forall j | 0 <= j < i ensures values[j].id != values[i].id {
      assert values[..i][j] == values[j];
      assert values[j].id in IdSet(values[..i]);
    }
  }

  /** The rows written one after another, each under its own primary key, replacing what was there. */
  function Written(rows: map<int, Media>, values: seq<Media>): map<int, Media>
    decreases |values|
  {
    if values == [] then rows
    else Written(rows[values[0].id := values[0]], values[1..])
  }

  lemma {:induction false} WrittenKeys(rows: map<int, Media>, values: seq<Media>)
    ensures Written(rows, values).Keys == rows.Keys + IdSet(values)
    decreases |values|
  {
    if values != [] {
      WrittenKeys(rows[values[0].id := values[0]], values[1..]);
      assert IdSet(values) == {values[0].id} + IdSet(values[1..]) by {
        forall i | 0 <= i < |values| ensures values[i].id in {values[0].id} + IdSet(values[1..]) {
          if i > 0 { assert values[1..][i - 1] == values[i]; }
        }
      }
    }
  }

  /** Writing rows keeps every row under its primary key and the table to one kind. */
  lemma {:induction false} WrittenValid(rows: map<int, Media>, values: seq<Media>, videos: bool)
    requires KeyedById(rows) && OfKind(rows, videos)
    requires forall i | 0 <= i < |values| :: values[i].Video? == videos
    ensures KeyedById(Written(rows, values)) && OfKind(Written(rows, values), videos)
    decreases |values|
  {
    if values != [] {
      WrittenValid(rows[values[0].id := values[0]], values[1..], videos);
    }
  }

  /**
   * Without conflicts, writing adds exactly the given rows: the stored rows
   * stay, each new row is stored under its key, and the count grows by
   * the number of rows written.
   */
  lemma {:induction false} WrittenInsertable(rows: map<int, Media>, values: seq<Media>)
    requires Insertable(rows, values)
    ensures forall id | id in rows :: id in Written(rows, values) && Written(rows, values)[id] == rows[id]
    ensures forall i | 0 <= i < |values| ::
              values[i].id in Written(rows, values) && Written(rows, values)[values[i].id] == values[i]
    ensures |Written(rows, values)| == |rows| + |values|
    decreases |values|
  {
    if values != [] {
      var next := rows[values[0].id := values[0]];
      var tail := values[1..];
      assert Insertable(next, tail) by {
        forall i | 0 <= i < |tail| ensures tail[i].id !in next {
          assert tail[i] == values[i + 1];
        }
        forall i, j | 0 <= i < j < |tail| ensures tail[i].id != tail[j].id {
          assert tail[i] == values[i + 1] && tail[j] == values[j + 1];
        }
      }
      WrittenInsertable(next, tail);
      forall i | 0 <= i < |values|
        ensures values[i].id in Written(rows, values) && Written(rows, values)[values[i].id] == values[i]
      {
        if i > 0 { assert tail[i - 1] == values[i]; }
      }
    }
  }

  /**
   * Writing rows with pairwise distinct keys, conflicts or not, leaves each
   * of them stored under its key and every other stored row as it was.
   */
  lemma {:induction false} WrittenDistinct(rows: map<int, Media>, values: seq<Media>)
    requires forall i, j | 0 <= i < j < |values| :: values[i].id != values[j].id
    ensures forall i | 0 <= i < |values| ::
              values[i].id in Written(rows, values) && Written(rows, values)[values[i].id] == values[i]
    ensures forall id | id in rows && id !in IdSet(values) ::
              id in Written(rows, values) && Written(rows, values)[id] == rows[id]
    decreases |values|
  {
    if values != [] {
      var next := rows[values[0].id := values[0]];
      var tail := values[1..];
      forall i, j | 0 <= i < j < |tail| ensures tail[i].id != tail[j].id {
        assert tail[i] == values[i + 1] && tail[j] == values[j + 1];
      }
      WrittenDistinct(next, tail);
      assert values[0].id !in IdSet(tail) by {
        forall i | 0 <= i < |tail| ensures tail[i].id != values[0].id {
          assert tail[i] == values[i + 1];
        }
      }
      forall i | 0 <= i < |values|
        ensures values[i].id in Written(rows, values) && Written(rows, values)[values[i].id] == values[i]
      {
        if i > 0 { assert tail[i - 1] == values[i]; }
      }
      forall id | id in rows && id !in IdSet(values)
        ensures id in Written(rows, values) && Written(rows, values)[id] == rows[id]
      {
        assert values[0].id in IdSet(values);
        assert id !in IdSet(tail) by {
          forall i | 0 <= i < |tail| ensures tail[i].id != id {
            assert tail[i] == values[i + 1];
            assert values[i + 1].id in IdSet(values);
          }
        }
      }
    }
  }

  /** What `_delete(ids)` keeps: the rows whose key is in `ids`. */
  function Retained(rows: map<int, Media>, ids: set<int>): (r: map<int, Media>)
    ensures forall id :: id in r <==> id in rows && id in ids
    ensures forall id | id in r :: r[id] == rows[id]
    ensures |r| == |rows| - |rows.Keys - ids|
  {
    var r := map id | id in rows && id in ids :: rows[id];
    assert rows.Keys == r.Keys + (rows.Keys - ids);
    assert r.Keys !! (rows.Keys - ids);
    r
  }

  /** `_delete(ids)` keeps everything when every key is listed. */
  lemma RetainedAll(rows: map<int, Media>, ids: set<int>)
    requires rows.Keys <= ids
    ensures Retained(rows, ids) == rows
  {
  }

  class Table {
    /** Whether this is `tbl_videos` rather than `tbl_photos`. */
    const holdsVideos: bool
    var rows: map<int, Media>

    ghost predicate Valid()
      reads this
    {
      KeyedById(rows) && OfKind(rows, holdsVideos)
    }

    constructor (holdsVideos: bool)
      ensures Valid() && this.holdsVideos == holdsVideos && rows == map[]
    {
      this.holdsVideos := holdsVideos;
      rows := map[];
    }

    /**
     * `insert(values)`: a Room `@Insert` with the default ABORT strategy, run
     * in one transaction. A key that is already stored, or repeated within
     * `values`, aborts the statement and the table is left as it was; on
     * success the generated keys are the primary keys of `values`.
     */
    method Insert(values: seq<Media>) returns (keys: Option<seq<int>>)
      requires Valid()
      requires forall i | 0 <= i < |values| :: values[i].Video? == holdsVideos
      modifies this
      ensures Valid()
      ensures keys.Some? <==> Insertable(old(rows), values)
      ensures keys.Some? ==> rows == Written(old(rows), values) && keys.value == KeysOf(values)
      ensures keys.None? ==> rows == old(rows)
      ensures keys.Some? ==> Count(rows) == Count(old(rows)) + |values|
    {
      var staged := rows;
      var i := 0;
      while i < |values|
        invariant 0 <= i <= |values|
        invariant rows == old(rows)
        invariant Insertable(rows, values[..i])
        invariant staged.Keys == rows.Keys + IdSet(values[..i])
        invariant Written(staged, values[i..]) == Written(rows, values)
      {
        if values[i].id in staged {
          InsertablePrefixBlocked(rows, values, i);
          return None;
        }
        assert values[i..][1..] == values[i + 1..];
        IdSetPrefix(values, i);
        InsertablePrefixGrows(rows, values, i);
        staged := staged[values[i].id := values[i]];
        i := i + 1;
      }
      assert values[..i] == values;
      assert values[i..] == [];
      WrittenValid(old(rows), values, holdsVideos);
      WrittenInsertable(old(rows), values);
      rows := staged;
      keys := Some(KeysOf(values));
    }

    /**
     * Insert with conflict strategy REPLACE: a row whose key is already
     * stored replaces the stored row. Never aborts.
     */
    method InsertOrReplace(values: seq<Media>)
      requires Valid()
      requires forall i | 0 <= i < |values| :: values[i].Video? == holdsVideos
      modifies this
      ensures Valid()
      ensures rows == Written(old(rows), values)
    {
      WrittenValid(rows, values, holdsVideos);
      var i := 0;
      while i < |values|
        invariant 0 <= i <= |values|
        invariant Written(rows, values[i..]) == Written(old(rows), values)
      {
        assert values[i..][1..] == values[i + 1..];
        rows := rows[values[i].id := values[i]];
        i := i + 1;
      }
      assert values[i..] == [];
    }

    /** `delete(id)`: removes the row under `id`, if any; returns 0 or 1. */
    method Delete(id: int) returns (count: int)
      requires Valid()
      modifies this
      ensures Valid()
      ensures count == if id in old(rows) then 1 else 0
      ensures rows == old(rows) - {id}
      ensures !Exists(rows, id) && Count(rows) == Count(old(rows)) - count
    {
      count := if id in rows then 1 else 0;
      rows := rows - {id};
    }

    /** `delete(row)`: Room's `@Delete` matches the row by primary key. */
    method DeleteRow(row: Media) returns (count: int)
      requires Valid()
      modifies this
      ensures Valid()
      ensures count == if row.id in old(rows) then 1 else 0
      ensures rows == old(rows) - {row.id}
    {
      count := Delete(row.id);
    }

    /** `_delete(ids)`: `DELETE ... WHERE id NOT IN (ids)`; returns the number of rows removed. */
    method DeleteNotIn(ids: set<int>) returns (count: int)
      requires Valid()
      modifies this
      ensures Valid()
      ensures rows == Retained(old(rows), ids)
      ensures count == |old(rows).Keys - ids|
      ensures Count(rows) == Count(old(rows)) - count
    {
      count := |rows.Keys - ids|;
      rows := Retained(rows, ids);
    }
  }
}
