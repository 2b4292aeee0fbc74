/**
 * The reconciliation pass of the sync worker: for each media kind, drop
 * the cached rows MediaStore no longer has, compare the newest cached date
 * with MediaStore's newest date, fetch the rows modified since, convert
 * and insert them; the job succeeds when both kinds' passes do.
 *
 * MediaStore is a snapshot: the rows of one collection plus, for each of
 * the three queries a pass makes (all ids, the newest date, the rows
 * modified since a date), whether the content resolver returns a cursor.
 */
module Sync {
  import opened Wrappers
  import opened Entities
  import opened Tables
  import opened Transform
  import Jvm

  datatype MediaIndex = MediaIndex(
    rows: seq<SourceRow>, idsReadable: bool, maxReadable: bool, fetchReadable: bool)

  predicate UniqueIds(rows: seq<SourceRow>) {
    forall i, j | 0 <= i < j < |rows| :: rows[i].id != rows[j].id
  }

  /**
   * A well-behaved MediaStore: every query answers, ids are unique, and
   * every date in seconds still fits a `Long` once in milliseconds.
   */
  predicate Consistent(index: MediaIndex) {
    && index.idsReadable && index.maxReadable && index.fetchReadable
    && UniqueIds(index.rows)
    && forall r | r in index.rows :: Jvm.IsLong(r.dateModified * 1000)
  }

  /**
   * How a pass turns a MediaStore row into a cache row: `toPhoto` with the
   * EXIF location of each path, or the video factory with the retriever's
   * reading of each path.
   */
  datatype Conversion =
    | PhotoConversion(exifOf: string -> Option<LatLong>, parentOf: string -> string)
    | VideoConversion(probeOf: string -> Probe, parentOf: string -> string)

  function Convert(c: Conversion, row: SourceRow): Media {
    match c
    case PhotoConversion(exifOf, parentOf) => ToPhoto(row, exifOf(row.data), parentOf)
    case VideoConversion(probeOf, parentOf) => ToVideo(row, probeOf(row.data), parentOf)
  }

  /**
   * Both conversions keep the MediaStore id, yield their own kind, and
   * store a modification date that reads back, in seconds, as the row's.
   */
  lemma ConvertKeepsKey(c: Conversion, row: SourceRow)
    ensures Convert(c, row).id == row.id
    ensures Convert(c, row).Video? <==> c.VideoConversion?
  {
  }

  lemma ConvertKeepsDate(c: Conversion, row: SourceRow)
    requires Jvm.IsLong(row.dateModified * 1000)
    ensures SecondsOf(Convert(c, row).dateModified) == row.dateModified
  {
    MillisRoundTrip(row.dateModified);
  }

  /** The ids the `GROUP_CONCAT(_id)` query lists. */
  function SourceIds(rows: seq<SourceRow>): (ids: set<int>)
    ensures forall r | r in rows :: r.id in ids
    ensures forall id | id in ids :: exists r | r in rows :: r.id == id
  {
    set r | r in rows :: r.id
  }

  /** `MAX(date_modified)` read with `getLong`: on an empty collection the NULL reads as 0. */
  function SourceMax(rows: seq<SourceRow>): (m: int)
    ensures rows == [] ==> m == 0
    ensures rows != [] ==> exists r | r in rows :: r.dateModified == m
    ensures forall r | r in rows :: r.dateModified <= m
  {
    if rows == [] then 0
    else
      var dates := set r | r in rows :: r.dateModified;
      assert rows[0].dateModified in dates;
      assert forall r | r in rows :: r.dateModified in dates;
      MaxOf(dates)
  }

  /** The tail of a list with distinct ids has distinct ids, none equal to the head's. */
  lemma UniqueIdsTail(rows: seq<SourceRow>)
    requires rows != [] && UniqueIds(rows)
    ensures UniqueIds(rows[1..])
    ensures forall r | r in rows[1..] :: r.id != rows[0].id
  {
    forall i, j | 0 <= i < j < |rows[1..]| ensures rows[1..][i].id != rows[1..][j].id {
      assert rows[1..][i] == rows[i + 1] && rows[1..][j] == rows[j + 1];
    }
    forall r | r in rows[1..] ensures r.id != rows[0].id {
      var k :| 0 <= k < |rows[1..]| && rows[1..][k] == r;
      assert rows[k + 1] == r;
    }
  }

  /** A row put in front of a list with distinct ids, none its own, keeps the ids distinct. */
  lemma UniqueIdsCons(r: SourceRow, rest: seq<SourceRow>)
    requires UniqueIds(rest)
    requires forall x | x in rest :: x.id != r.id
    ensures UniqueIds([r] + rest)
  {
    var w := [r] + rest;
    forall i, j | 0 <= i < j < |w| ensures w[i].id != w[j].id {
      assert w[j] == rest[j - 1];
      if i > 0 { assert w[i] == rest[i - 1]; }
    }
  }

  /** The rows the selection `date_modified > from` returns, in cursor order. */
  function Window(rows: seq<SourceRow>, from: int): (w: seq<SourceRow>)
    ensures forall r | r in w :: r in rows && r.dateModified > from
    ensures forall r | r in rows && r.dateModified > from :: r in w
    ensures UniqueIds(rows) ==> UniqueIds(w)
    decreases |rows|
  {
    if rows == [] then []
    else
      var rest := Window(rows[1..], from);
      assert forall r | r in rows :: r == rows[0] || r in rows[1..];
      if rows[0].dateModified <= from then rest
      else
        assert UniqueIds(rows) ==> UniqueIds([rows[0]] + rest) by {
          if UniqueIds(rows) {
            UniqueIdsTail(rows);
            UniqueIdsCons(rows[0], rest);
          }
        }
        [rows[0]] + rest
  }

  /** The list the fetch cursor is turned into, one conversion per row. */
  function Converted(rows: seq<SourceRow>, convert: Conversion): (ms: seq<Media>)
    ensures |ms| == |rows| && forall i | 0 <= i < |rows| :: ms[i] == Convert(convert, rows[i])
    decreases |rows|
  {
    if rows == [] then []
    else
      var rest := Converted(rows[1..], convert);
      assert forall i | 1 <= i < |rows| :: rest[i - 1] == Convert(convert, rows[i]) by {
        forall i | 1 <= i < |rows| ensures rest[i - 1] == Convert(convert, rows[i]) {
          assert rows[1..][i - 1] == rows[i];
        }
      }
      [Convert(convert, rows[0])] + rest
  }

  /** What the bridge returns: the cache's `lastModified() / 1000`, or null for an empty cache. */
  function DestSeconds(cached: map<int, Media>): (d: Option<int>)
    ensures d.None? <==> cached == map[]
    ensures d.Some? ==> forall id | id in cached :: SecondsOf(cached[id].dateModified) <= d.value
    ensures d.Some? ==> exists id | id in cached :: SecondsOf(cached[id].dateModified) == d.value
  {
    var last := LastModified(cached);
    if last.None? then None
    else
      assert forall id | id in cached :: SecondsOf(cached[id].dateModified) <= SecondsOf(last.value) by {
        forall id | id in cached ensures SecondsOf(cached[id].dateModified) <= SecondsOf(last.value) {
          Jvm.Div1000Monotone(cached[id].dateModified, last.value);
        }
      }
      Some(SecondsOf(last.value))
  }

  /** The date the fetch starts after: the bridge's result, or 0 when it is null. */
  function From(cached: map<int, Media>): int {
    DestSeconds(cached).GetOr(0)
  }

  /** What the bridge leaves of the cache: the rows whose id MediaStore still lists. */
  function Bridged(index: MediaIndex, cached: map<int, Media>): map<int, Media> {
    Retained(cached, SourceIds(index.rows))
  }

  /** Every row of `rows` is converted into the list, and every list entry is a converted row. */
  lemma ConvertedMembers(rows: seq<SourceRow>, convert: Conversion)
    ensures forall r | r in rows :: Convert(convert, r) in Converted(rows, convert)
    ensures forall m | m in Converted(rows, convert) :: exists r | r in rows :: m == Convert(convert, r)
  {
    var list := Converted(rows, convert);
    forall r | r in rows ensures Convert(convert, r) in list {
      var i :| 0 <= i < |rows| && rows[i] == r;
      assert list[i] == Convert(convert, r);
    }
    forall m | m in list ensures exists r | r in rows :: m == Convert(convert, r) {
      var i :| 0 <= i < |list| && list[i] == m;
      assert rows[i] in rows;
    }
  }

  /**
   * The list `request` returns once the bridge has run: empty when the
   * newest cached date and MediaStore's newest date agree, otherwise the
   * rows modified after the cached date, converted; null when the query
   * for the newest date or for the rows returns no cursor.
   */
  function Fetched(index: MediaIndex, bridged: map<int, Media>, convert: Conversion): (list: Option<seq<Media>>)
    ensures list.Some? <==>
              index.maxReadable && (DestSeconds(bridged) == Some(SourceMax(index.rows)) || index.fetchReadable)
  {
    if !index.maxReadable then None
    else if DestSeconds(bridged) == Some(SourceMax(index.rows)) then Some([])
    else if !index.fetchReadable then None
    else Some(Converted(Window(index.rows, From(bridged)), convert))
  }

  /**
   * The fetched list is exactly the MediaStore rows modified after the
   * cache's newest date, converted, or nothing when the two newest dates
   * agree.
   */
  lemma FetchedIsChangedRows(index: MediaIndex, bridged: map<int, Media>, convert: Conversion)
    requires Fetched(index, bridged, convert).Some?
    ensures var list := Fetched(index, bridged, convert).value;
            && (DestSeconds(bridged) == Some(SourceMax(index.rows)) ==> list == [])
            && (forall m | m in list :: exists r | r in index.rows :: r.dateModified > From(bridged) && m == Convert(convert, r))
            && (DestSeconds(bridged) != Some(SourceMax(index.rows)) ==>
                  forall r | r in index.rows && r.dateModified > From(bridged) :: Convert(convert, r) in list)
  {
    if DestSeconds(bridged) != Some(SourceMax(index.rows)) {
      ConvertedMembers(Window(index.rows, From(bridged)), convert);
    }
  }

  /** A request's result (the list, or null for an error) and the cache the bridge left. */
  datatype Fetch = Fetch(list: Option<seq<Media>>, rows: map<int, Media>)

  /**
   * `request`: the ids query, the bridge (delete what MediaStore lacks, read
   * the newest cached date), then the newest-date query and the fetch of
   * what changed since. Without the ids nothing is deleted.
   */
  function Requested(index: MediaIndex, cached: map<int, Media>, convert: Conversion): Fetch {
    if !index.idsReadable then Fetch(None, cached)
    else
      var bridged := Bridged(index, cached);
      Fetch(Fetched(index, bridged, convert), bridged)
  }

  /** `request`, carried out on a cache table; the bridge runs `_delete` on it. */
  method Request(index: MediaIndex, table: Table, convert: Conversion) returns (list: Option<seq<Media>>)
    requires table.Valid()
    modifies table
    ensures table.Valid()
    ensures list == Requested(index, old(table.rows), convert).list
    ensures table.rows == Requested(index, old(table.rows), convert).rows
  {
    if !index.idsReadable {
      return None;
    }
    var keys := SourceIds(index.rows);
    var deleted := table.DeleteNotIn(keys);
    var dest := DestSeconds(table.rows);
    if !index.maxReadable {
      return None;
    }
    if dest == Some(SourceMax(index.rows)) {
      return Some([]);
    }
    if !index.fetchReadable {
      return None;
    }
    var fetched := Window(index.rows, dest.GetOr(0));
    var values := ConvertAll(fetched, convert);
    list := Some(values);
  }

  /** `List(cursor.count) { transform(cursor) }`: the fetch cursor's rows converted one by one, in order. */
  method ConvertAll(fetched: seq<SourceRow>, convert: Conversion) returns (values: seq<Media>)
    ensures values == Converted(fetched, convert)
  {
    values := [];
    var i := 0;
    while i < |fetched|
      invariant 0 <= i <= |fetched|
      invariant |values| == i && forall j | 0 <= j < i :: values[j] == Convert(convert, fetched[j])
    {
      values := values + [Convert(convert, fetched[i])];
      i := i + 1;
    }
  }

  /** A pass's verdict for its kind and the cache it leaves. */
  datatype Pass = Pass(ok: bool, rows: map<int, Media>)

  /**
   * What one kind's pass stores once the request has run, as written: the
   * list goes to `insert` (conflict strategy ABORT) unless it is null or
   * empty. A null list fails the pass; so does an aborted insert, whose
   * exception fails the job, and the cache stays as the bridge left it.
   */
  function Stored(f: Fetch): Pass {
    if f.list.None? then Pass(false, f.rows)
    else if f.list.value == [] then Pass(true, f.rows)
    else if Insertable(f.rows, f.list.value) then Pass(true, Written(f.rows, f.list.value))
    else Pass(false, f.rows)
  }

  /** The same with insert-or-replace, which cannot conflict. */
  function StoredReplacing(f: Fetch): Pass {
    if f.list.None? then Pass(false, f.rows)
    else if f.list.value == [] then Pass(true, f.rows)
    else Pass(true, Written(f.rows, f.list.value))
  }

  /** One kind's pass as written. */
  function Synced(index: MediaIndex, cached: map<int, Media>, convert: Conversion): Pass {
    Stored(Requested(index, cached, convert))
  }

  /** One kind's pass with insert-or-replace. */
  function SyncedReplacing(index: MediaIndex, cached: map<int, Media>, convert: Conversion): Pass {
    StoredReplacing(Requested(index, cached, convert))
  }

  /**
   * When the ids query yields no cursor, `request` returns null before the
   * bridge runs: the pass fails and the cache keeps every row.
   */
  lemma IdsUnreadableKeepsCache(index: MediaIndex, cached: map<int, Media>, convert: Conversion)
    requires !index.idsReadable
    ensures Requested(index, cached, convert) == Fetch(None, cached)
    ensures Synced(index, cached, convert) == Pass(false, cached)
    ensures SyncedReplacing(index, cached, convert) == Pass(false, cached)
  {
  }

  /**
   * A successful pass stores exactly the request's list on top of the
   * bridged cache; insert-or-replace succeeds exactly when the list is not
   * null.
   */
  lemma StoredWrites(f: Fetch)
    ensures Stored(f).ok ==> f.list.Some? && Stored(f).rows == Written(f.rows, f.list.value)
    ensures !Stored(f).ok ==> Stored(f).rows == f.rows
    ensures StoredReplacing(f).ok <==> f.list.Some?
    ensures StoredReplacing(f).ok ==> StoredReplacing(f).rows == Written(f.rows, f.list.value)
  {
    if f.list.Some? && f.list.value == [] {
      assert Written(f.rows, []) == f.rows;
    }
  }

  /** One `async` block of `doWork`, on the cache table of its kind. */
  method SyncKind(index: MediaIndex, table: Table, convert: Conversion) returns (ok: bool)
    requires table.Valid() && convert.VideoConversion? == table.holdsVideos
    modifies table
    ensures table.Valid()
    ensures Pass(ok, table.rows) == Synced(index, old(table.rows), convert)
  {
    var list := Request(index, table, convert);
    if list.Some? && list.value != [] {
      var keys := table.Insert(list.value);
      ok := keys.Some?;
    } else {
      ok := list.Some?;
    }
  }

  /** `SyncKind` with insert-or-replace in place of the aborting insert. */
  method SyncKindReplacing(index: MediaIndex, table: Table, convert: Conversion) returns (ok: bool)
    requires table.Valid() && convert.VideoConversion? == table.holdsVideos
    modifies table
    ensures table.Valid()
    ensures Pass(ok, table.rows) == SyncedReplacing(index, old(table.rows), convert)
  {
    var list := Request(index, table, convert);
    if list.Some? && list.value != [] {
      table.InsertOrReplace(list.value);
    }
    ok := list.Some?;
  }

  /**
   * `doWork`: a photo pass and a video pass, each on its own table; the job
   * succeeds exactly when both passes do. The file reads of the conversions
   * (EXIF location, video metadata) and the parent-directory function are
   * parameters.
   */
  method DoWork(
    photoIndex: MediaIndex, videoIndex: MediaIndex, photos: Table, videos: Table,
    exifOf: string -> Option<LatLong>, probeOf: string -> Probe, parentOf: string -> string)
    returns (success: bool)
    requires photos != videos && photos.Valid() && videos.Valid()
    requires !photos.holdsVideos && videos.holdsVideos
    modifies photos, videos
    ensures photos.Valid() && videos.Valid()
    ensures var p := Synced(photoIndex, old(photos.rows), PhotoConversion(exifOf, parentOf));
            var v := Synced(videoIndex, old(videos.rows), VideoConversion(probeOf, parentOf));
            success == (p.ok && v.ok) && photos.rows == p.rows && videos.rows == v.rows
  {
    var photosOk := SyncKind(photoIndex, photos, PhotoConversion(exifOf, parentOf));
    var videosOk := SyncKind(videoIndex, videos, VideoConversion(probeOf, parentOf));
    success := photosOk && videosOk;
  }

  // ----- what a pass achieves -----

  /** A list fetched from MediaStore holds only MediaStore's ids. */
  lemma FetchedIdsFromSource(index: MediaIndex, bridged: map<int, Media>, convert: Conversion)
    requires Fetched(index, bridged, convert).Some?
    ensures IdSet(Fetched(index, bridged, convert).value) <= SourceIds(index.rows)
  {
    var list := Fetched(index, bridged, convert).value;
    if list != [] {
      WindowKeys(index, From(bridged), convert);
    }
  }

  /** After a pass, whatever its verdict, the cache holds no id that MediaStore lacks. */
  lemma PassKeepsOnlySourceIds(index: MediaIndex, cached: map<int, Media>, convert: Conversion)
    requires index.idsReadable
    ensures Synced(index, cached, convert).rows.Keys <= SourceIds(index.rows)
    ensures SyncedReplacing(index, cached, convert).rows.Keys <= SourceIds(index.rows)
  {
    var f := Requested(index, cached, convert);
    assert f.rows == Bridged(index, cached);
    StoredWrites(f);
    if f.list.Some? {
      FetchedIdsFromSource(index, f.rows, convert);
      WrittenKeys(f.rows, f.list.value);
    }
  }

  /** Over a well-behaved MediaStore the request's list is never null. */
  lemma FetchedWhenConsistent(index: MediaIndex, bridged: map<int, Media>, convert: Conversion)
    requires Consistent(index)
    ensures Fetched(index, bridged, convert) ==
              if DestSeconds(bridged) == Some(SourceMax(index.rows)) then Some([])
              else Some(Converted(Window(index.rows, From(bridged)), convert))
  {
  }

  lemma WindowEmpty(rows: seq<SourceRow>, from: int)
    requires forall r | r in rows :: r.dateModified <= from
    ensures Window(rows, from) == []
  {
  }

  /**
   * `after` is the bridged cache `bridged` refreshed: it holds only
   * MediaStore's ids, keeps every id of `bridged`, stores each row modified
   * after `From(bridged)` converted, and every other row it holds is the
   * bridged row, unchanged.
   */
  ghost predicate Refreshed(index: MediaIndex, bridged: map<int, Media>, after: map<int, Media>, convert: Conversion) {
    RefreshedSince(index, From(bridged), bridged, after, convert)
  }

  /** `Refreshed`, with the bridged cache's newest date given as `from`. */
  ghost predicate RefreshedSince(index: MediaIndex, from: int, bridged: map<int, Media>, after: map<int, Media>, convert: Conversion) {
    && after.Keys <= SourceIds(index.rows)
    && bridged.Keys <= after.Keys
    && (forall r | r in index.rows && r.dateModified > from :: r.id in after && after[r.id] == Convert(convert, r))
    && (forall id | id in after ::
          (id in bridged && after[id] == bridged[id]) ||
          exists r | r in index.rows :: r.dateModified > from && after[id] == Convert(convert, r))
  }

  /**
   * A cache that already has MediaStore's newest date counts as refreshed
   * as it is (ids it lacks, dated no later, stay missing).
   */
  lemma SameNewestDateIsRefreshed(index: MediaIndex, bridged: map<int, Media>, convert: Conversion)
    requires bridged.Keys <= SourceIds(index.rows)
    requires DestSeconds(bridged) == Some(SourceMax(index.rows))
    ensures Refreshed(index, bridged, bridged, convert)
  {
  }

  /** Every row of the converted window carries a distinct MediaStore id. */
  lemma WindowKeys(index: MediaIndex, from: int, convert: Conversion)
    ensures var list := Converted(Window(index.rows, from), convert);
            (UniqueIds(index.rows) ==> forall i, j | 0 <= i < j < |list| :: list[i].id != list[j].id) &&
            IdSet(list) <= SourceIds(index.rows)
  {
    var window := Window(index.rows, from);
    var list := Converted(window, convert);
    forall i | 0 <= i < |list| ensures list[i].id == window[i].id && list[i].id in SourceIds(index.rows) {
      ConvertKeepsKey(convert, window[i]);
      assert window[i] in window;
    }
  }

  /** Writing the converted window stores each row modified after `from`, converted. */
  lemma WindowWrittenStoresChanges(index: MediaIndex, bridged: map<int, Media>, from: int, convert: Conversion)
    requires UniqueIds(index.rows)
    ensures var after := Written(bridged, Converted(Window(index.rows, from), convert));
            forall r | r in index.rows && r.dateModified > from :: r.id in after && after[r.id] == Convert(convert, r)
  {
    var window := Window(index.rows, from);
    var list := Converted(window, convert);
    var after := Written(bridged, list);
    WindowKeys(index, from, convert);
    WrittenDistinct(bridged, list);
    forall r | r in index.rows && r.dateModified > from
      ensures r.id in after && after[r.id] == Convert(convert, r)
    {
      assert r in window;
      var i :| 0 <= i < |window| && window[i] == r;
      assert list[i] == Convert(convert, r);
      ConvertKeepsKey(convert, r);
    }
  }

  /** Writing the converted window leaves every other cached row as it was. */
  lemma WindowWrittenKeepsRest(index: MediaIndex, bridged: map<int, Media>, from: int, convert: Conversion)
    requires UniqueIds(index.rows)
    ensures var after := Written(bridged, Converted(Window(index.rows, from), convert));
            forall id | id in after ::
              (id in bridged && after[id] == bridged[id]) ||
              exists r | r in index.rows :: r.dateModified > from && after[id] == Convert(convert, r)
  {
    var window := Window(index.rows, from);
    var list := Converted(window, convert);
    WindowKeys(index, from, convert);
    WrittenKeys(bridged, list);
    WrittenDistinct(bridged, list);
    var after := Written(bridged, list);
    forall id | id in after
      ensures (id in bridged && after[id] == bridged[id]) ||
              exists r | r in index.rows :: r.dateModified > from && after[id] == Convert(convert, r)
    {
      if id in IdSet(list) {
        var i :| 0 <= i < |list| && list[i].id == id;
        assert window[i] in window;
        assert after[id] == Convert(convert, window[i]);
      }
    }
  }

  /** Writing the converted rows modified since the cache's newest date refreshes the cache. */
  lemma WindowWrittenIsRefreshed(index: MediaIndex, bridged: map<int, Media>, convert: Conversion)
    requires UniqueIds(index.rows) && bridged.Keys <= SourceIds(index.rows)
    ensures Refreshed(index, bridged, Written(bridged, Converted(Window(index.rows, From(bridged)), convert)), convert)
  {
    var from := From(bridged);
    WindowKeys(index, from, convert);
    WrittenKeys(bridged, Converted(Window(index.rows, from), convert));
    WindowWrittenStoresChanges(index, bridged, from, convert);
    WindowWrittenKeepsRest(index, bridged, from, convert);
  }

  lemma FromBound(cached: map<int, Media>, id: int)
    requires id in cached
    ensures SecondsOf(cached[id].dateModified) <= From(cached)
  {
  }

  /** A row brought in by the refresh is newer than the bridged cache's newest date. */
  lemma FromBelowNewRow(index: MediaIndex, bridged: map<int, Media>, after: map<int, Media>, convert: Conversion, id: int)
    requires Consistent(index) && Refreshed(index, bridged, after, convert)
    requires id in after && (id !in bridged || after[id] != bridged[id])
    ensures From(bridged) < From(after)
  {
    var r :| r in index.rows && r.dateModified > From(bridged) && after[id] == Convert(convert, r);
    FromBound(after, id);
    ConvertKeepsDate(convert, r);
  }

  /** Refreshing a cache never moves its newest date back. */
  lemma FromGrows(index: MediaIndex, bridged: map<int, Media>, after: map<int, Media>, convert: Conversion)
    requires Consistent(index) && Refreshed(index, bridged, after, convert)
    ensures From(bridged) <= From(after)
  {
    if bridged == map[] {
      if after != map[] {
        Witness(after.Keys);
        var id :| id in after.Keys;
        FromBelowNewRow(index, bridged, after, convert, id);
      }
    } else {
      var id :| id in bridged && SecondsOf(bridged[id].dateModified) == From(bridged);
      if after[id] != bridged[id] {
        FromBelowNewRow(index, bridged, after, convert, id);
      } else {
        FromBound(after, id);
      }
    }
  }

  /** Nothing in MediaStore is newer than a refreshed cache's newest date. */
  lemma RefreshedCoversSource(index: MediaIndex, bridged: map<int, Media>, after: map<int, Media>, convert: Conversion)
    requires Consistent(index) && Refreshed(index, bridged, after, convert)
    ensures forall r | r in index.rows :: r.dateModified <= From(after)
  {
    forall r | r in index.rows ensures r.dateModified <= From(after) {
      if r.dateModified > From(bridged) {
        ConvertKeepsDate(convert, r);
        FromBound(after, r.id);
      } else {
        FromGrows(index, bridged, after, convert);
      }
    }
  }

  /** A refreshed cache is a fixed point: the next request deletes nothing and fetches nothing. */
  lemma RefreshedIsFixpoint(index: MediaIndex, bridged: map<int, Media>, after: map<int, Media>, convert: Conversion)
    requires Consistent(index) && Refreshed(index, bridged, after, convert)
    ensures Requested(index, after, convert) == Fetch(Some([]), after)
  {
    RetainedAll(after, SourceIds(index.rows));
    FetchedWhenConsistent(index, after, convert);
    RefreshedCoversSource(index, bridged, after, convert);
    WindowEmpty(index.rows, From(after));
  }

  /**
   * A pass over a well-behaved MediaStore refreshes the bridged cache, so
   * it stores every row modified after the cache's newest date: always
   * with insert-or-replace, and with the aborting insert whenever the pass
   * succeeds.
   */
  lemma PassRefreshes(index: MediaIndex, cached: map<int, Media>, convert: Conversion)
    requires Consistent(index)
    ensures var bridged := Bridged(index, cached); var p := Synced(index, cached, convert);
            p.ok ==> Refreshed(index, bridged, p.rows, convert)
    ensures var bridged := Bridged(index, cached); var q := SyncedReplacing(index, cached, convert);
            q.ok && Refreshed(index, bridged, q.rows, convert)
  {
    var bridged := Bridged(index, cached);
    var f := Requested(index, cached, convert);
    FetchedWhenConsistent(index, bridged, convert);
    StoredWrites(f);
    if DestSeconds(bridged) == Some(SourceMax(index.rows)) {
      SameNewestDateIsRefreshed(index, bridged, convert);
      assert Written(bridged, []) == bridged;
    } else {
      WindowWrittenIsRefreshed(index, bridged, convert);
    }
  }

  /**
   * A second pass over an unchanged MediaStore changes nothing and
   * returns the same verdict, after any successful pass and after any
   * insert-or-replace pass.
   */
  lemma SecondPassChangesNothing(index: MediaIndex, cached: map<int, Media>, convert: Conversion)
    requires Consistent(index)
    ensures var p := Synced(index, cached, convert); p.ok ==> Synced(index, p.rows, convert) == p
    ensures var q := SyncedReplacing(index, cached, convert); SyncedReplacing(index, q.rows, convert) == q
  {
    var bridged := Bridged(index, cached);
    PassRefreshes(index, cached, convert);
    var p := Synced(index, cached, convert);
    if p.ok {
      RefreshedIsFixpoint(index, bridged, p.rows, convert);
    }
    RefreshedIsFixpoint(index, bridged, SyncedReplacing(index, cached, convert).rows, convert);
  }

  // ----- a file modified after it was cached -----

  /**
   * As written: once MediaStore reports a file the cache already holds as
   * modified after the cache's newest date, the fetched list holds that
   * file's id again, the aborting insert fails, and the pass leaves the
   * cache as the bridge made it; the next pass then fails the same way.
   */
  lemma ModifiedFileFails(index: MediaIndex, cached: map<int, Media>, convert: Conversion, r: SourceRow)
    requires Consistent(index)
    requires r in index.rows && r.id in cached
    requires r.dateModified > From(Bridged(index, cached))
    ensures !Synced(index, cached, convert).ok
    ensures Synced(index, Synced(index, cached, convert).rows, convert) == Synced(index, cached, convert)
  {
    var bridged := Bridged(index, cached);
    FetchedWhenConsistent(index, bridged, convert);
    assert DestSeconds(bridged) != Some(SourceMax(index.rows));
    var list := Converted(Window(index.rows, From(bridged)), convert);
    ConvertedMembers(Window(index.rows, From(bridged)), convert);
    assert Convert(convert, r) in list;
    assert !Insertable(bridged, list) by {
      var i :| 0 <= i < |list| && list[i] == Convert(convert, r);
      assert r.id in bridged;
    }
    RetainedAll(bridged, SourceIds(index.rows));
  }

  /**
   * An instance: the cache holds photo 1 as modified at 100 s, and
   * MediaStore now reports photo 1 as modified at 200 s. Every pass over
   * this MediaStore fails and leaves photo 1's old row in the cache.
   */
  lemma ModifiedPhotoExample()
    ensures var row := SourceRow(1, "a", 100, 200, 100, 10, "image/jpeg", None, 0, 1, 1, "/p/a.jpg",
                                 None, None, None, 0, "", "", 0.0);
            var index := MediaIndex([row], true, true, true);
            var convert := PhotoConversion((path: string) => None, (path: string) => path);
            var cached := map[1 := Convert(convert, row.(dateModified := 100))];
            var p := Synced(index, cached, convert);
            !p.ok && p.rows == cached && Synced(index, p.rows, convert) == p
  {
    var row := SourceRow(1, "a", 100, 200, 100, 10, "image/jpeg", None, 0, 1, 1, "/p/a.jpg",
                         None, None, None, 0, "", "", 0.0);
    var index := MediaIndex([row], true, true, true);
    var convert := PhotoConversion((path: string) => None, (path: string) => path);
    var earlier := row.(dateModified := 100);
    var cached := map[1 := Convert(convert, earlier)];
    assert SourceIds(index.rows) == {1};
    RetainedAll(cached, {1});
    ConvertKeepsKey(convert, earlier);
    ConvertKeepsDate(convert, earlier);
    FromBound(cached, 1);
    assert Consistent(index);
    ModifiedFileFails(index, cached, convert, row);
    StoredWrites(Requested(index, cached, convert));
  }

  /** With insert-or-replace, the same pass succeeds and stores the file's new row. */
  lemma ReplacingPassStoresModifiedFile(index: MediaIndex, cached: map<int, Media>, convert: Conversion, r: SourceRow)
    requires Consistent(index)
    requires r in index.rows && r.id in cached
    requires r.dateModified > From(Bridged(index, cached))
    ensures SyncedReplacing(index, cached, convert).ok
    ensures r.id in SyncedReplacing(index, cached, convert).rows
    ensures SyncedReplacing(index, cached, convert).rows[r.id] == Convert(convert, r)
  {
    PassRefreshes(index, cached, convert);
  }

  /**
   * As written, every pass over an unchanged, well-behaved MediaStore is
   * repeated exactly by the next one: a success changes nothing more, and
   * a failure is an insert conflict on a modified file, which recurs.
   */
  lemma PassIdempotent(index: MediaIndex, cached: map<int, Media>, convert: Conversion)
    requires Consistent(index)
    ensures Synced(index, Synced(index, cached, convert).rows, convert) == Synced(index, cached, convert)
  {
    SecondPassChangesNothing(index, cached, convert);
    if !Synced(index, cached, convert).ok {
      FailedPassHasModifiedFile(index, cached, convert);
      var r :| r in index.rows && r.id in cached && r.dateModified > From(Bridged(index, cached));
      ModifiedFileFails(index, cached, convert, r);
    }
  }

  /** Over a well-behaved MediaStore a pass fails only on a cached file modified after the cache's newest date. */
  lemma FailedPassHasModifiedFile(index: MediaIndex, cached: map<int, Media>, convert: Conversion)
    requires Consistent(index) && !Synced(index, cached, convert).ok
    ensures exists r | r in index.rows :: r.id in cached && r.dateModified > From(Bridged(index, cached))
  {
    var bridged := Bridged(index, cached);
    var window := Window(index.rows, From(bridged));
    var list := Converted(window, convert);
    FetchedWhenConsistent(index, bridged, convert);
    WindowKeys(index, From(bridged), convert);
    assert !Insertable(bridged, list);
    var i :| 0 <= i < |list| && list[i].id in bridged;
    ConvertKeepsKey(convert, window[i]);
    assert window[i] in window;
  }

  // ----- a file the cache lacks, dated no later than the cache's newest date -----

  /**
   * As written: a MediaStore row whose id the cache lacks, but whose date
   * is not after the bridged cache's newest date, is never fetched, so the
   * pass does not cache it, whichever insert it uses.
   */
  lemma UnseenOldFileNeverCached(index: MediaIndex, cached: map<int, Media>, convert: Conversion, r: SourceRow)
    requires UniqueIds(index.rows)
    requires r in index.rows && r.id !in cached
    requires r.dateModified <= From(Bridged(index, cached))
    ensures r.id !in Synced(index, cached, convert).rows
    ensures r.id !in SyncedReplacing(index, cached, convert).rows
  {
    var f := Requested(index, cached, convert);
    StoredWrites(f);
    if index.idsReadable && f.list.Some? {
      var bridged := Bridged(index, cached);
      var list := f.list.value;
      WrittenKeys(bridged, list);
      if r.id in IdSet(list) {
        var window := Window(index.rows, From(bridged));
        assert list == Converted(window, convert) || list == [];
        ConvertedIds(window, convert);
        var i :| 0 <= i < |list| && list[i].id == r.id;
        var w := window[i];
        assert w in window;
        SameIdSameRow(index.rows, w, r);
        assert false;
      }
    }
  }

  /** In a list with distinct ids, a row is known by its id. */
  lemma SameIdSameRow(rows: seq<SourceRow>, a: SourceRow, b: SourceRow)
    requires UniqueIds(rows) && a in rows && b in rows && a.id == b.id
    ensures a == b
  {
    var p :| 0 <= p < |rows| && rows[p] == a;
    var q :| 0 <= q < |rows| && rows[q] == b;
    assert p == q;
  }

  /**
   * An instance: the cache holds photo 1, modified at 100 s; MediaStore
   * lists photo 1 and a new photo 2, both modified at 100 s. The two
   * newest dates agree, so the pass succeeds without fetching, photo 2 is
   * not cached, and every later pass does the same.
   */
  lemma SameSecondFileExample()
    ensures var one := SourceRow(1, "a", 100, 100, 100, 10, "image/jpeg", None, 0, 1, 1, "/p/a.jpg",
                                 None, None, None, 0, "", "", 0.0);
            var two := one.(id := 2, data := "/p/b.jpg");
            var index := MediaIndex([one, two], true, true, true);
            var convert := PhotoConversion((path: string) => None, (path: string) => path);
            var cached := map[1 := Convert(convert, one)];
            var p := Synced(index, cached, convert);
            p.ok && p.rows == cached && 2 !in p.rows && Synced(index, p.rows, convert) == p
  {
    var one := SourceRow(1, "a", 100, 100, 100, 10, "image/jpeg", None, 0, 1, 1, "/p/a.jpg",
                         None, None, None, 0, "", "", 0.0);
    var two := one.(id := 2, data := "/p/b.jpg");
    var index := MediaIndex([one, two], true, true, true);
    var convert := PhotoConversion((path: string) => None, (path: string) => path);
    var cached := map[1 := Convert(convert, one)];
    assert SourceIds(index.rows) == {1, 2};
    RetainedAll(cached, {1, 2});
    ConvertKeepsKey(convert, one);
    ConvertKeepsDate(convert, one);
    assert DestSeconds(cached) == Some(100);
    assert SourceMax(index.rows) == 100;
  }

  /** A row the corrected request fetches: modified after the cached date, or not cached at all. */
  predicate IsPending(r: SourceRow, bridged: map<int, Media>, from: int) {
    r.dateModified > from || r.id !in bridged
  }

  /**
   * The corrected fetch selects the rows modified after `from` and also
   * the rows whose id the bridged cache lacks, whatever their date.
   */
  function Pending(rows: seq<SourceRow>, bridged: map<int, Media>, from: int): (w: seq<SourceRow>)
    ensures forall r | r in w :: r in rows && IsPending(r, bridged, from)
    ensures forall r | r in rows && IsPending(r, bridged, from) :: r in w
    ensures UniqueIds(rows) ==> UniqueIds(w)
    decreases |rows|
  {
    if rows == [] then []
    else
      var rest := Pending(rows[1..], bridged, from);
      assert forall r | r in rows :: r == rows[0] || r in rows[1..];
      if !IsPending(rows[0], bridged, from) then rest
      else
        assert UniqueIds(rows) ==> UniqueIds([rows[0]] + rest) by {
          if UniqueIds(rows) {
            UniqueIdsTail(rows);
            UniqueIdsCons(rows[0], rest);
          }
        }
        [rows[0]] + rest
  }

  /**
   * The corrected request's list once the bridge has run: empty only when
   * the newest dates agree and the cache already holds every MediaStore id;
   * otherwise the pending rows, converted.
   */
  function FetchedComplete(index: MediaIndex, bridged: map<int, Media>, convert: Conversion): (list: Option<seq<Media>>)
    ensures list.Some? <==>
              index.maxReadable &&
              ((DestSeconds(bridged) == Some(SourceMax(index.rows)) && SourceIds(index.rows) <= bridged.Keys) ||
               index.fetchReadable)
  {
    if !index.maxReadable then None
    else if DestSeconds(bridged) == Some(SourceMax(index.rows)) && SourceIds(index.rows) <= bridged.Keys then Some([])
    else if !index.fetchReadable then None
    else Some(Converted(Pending(index.rows, bridged, From(bridged)), convert))
  }

  /** What the corrected pass stores once the bridge has run, with insert-or-replace. */
  function CompleteStored(index: MediaIndex, bridged: map<int, Media>, convert: Conversion): Pass {
    StoredReplacing(Fetch(FetchedComplete(index, bridged, convert), bridged))
  }

  /** One kind's corrected pass: the ids query, the bridge, then the corrected request, stored. */
  function SyncedComplete(index: MediaIndex, cached: map<int, Media>, convert: Conversion): Pass {
    if !index.idsReadable then Pass(false, cached)
    else CompleteStored(index, Bridged(index, cached), convert)
  }

  /** A converted list keeps the ids of its rows, position by position. */
  lemma ConvertedIds(rows: seq<SourceRow>, convert: Conversion)
    ensures var list := Converted(rows, convert);
            |list| == |rows| && forall i | 0 <= i < |rows| :: list[i].id == rows[i].id
  {
    forall i | 0 <= i < |rows| ensures Converted(rows, convert)[i].id == rows[i].id {
      ConvertKeepsKey(convert, rows[i]);
    }
  }

  /** A list whose ids are those of MediaStore rows, one by one, holds only MediaStore ids. */
  lemma IdsFromRows(index: MediaIndex, rows: seq<SourceRow>, list: seq<Media>)
    requires forall r | r in rows :: r in index.rows
    requires |list| == |rows| && forall i | 0 <= i < |rows| :: list[i].id == rows[i].id
    ensures IdSet(list) <= SourceIds(index.rows)
  {
    forall id | id in IdSet(list) ensures id in SourceIds(index.rows) {
      var i :| 0 <= i < |list| && list[i].id == id;
      assert rows[i] in rows;
    }
  }

  /** A list that carries the id of every MediaStore row the cache lacks covers, with the cache, every MediaStore id. */
  lemma IdsCoverSource(index: MediaIndex, bridged: map<int, Media>, rows: seq<SourceRow>, list: seq<Media>)
    requires forall r | r in index.rows && r.id !in bridged :: r in rows
    requires |list| == |rows| && forall i | 0 <= i < |rows| :: list[i].id == rows[i].id
    ensures SourceIds(index.rows) <= bridged.Keys + IdSet(list)
  {
    forall id | id in SourceIds(index.rows) && id !in bridged ensures id in IdSet(list) {
      var r :| r in index.rows && r.id == id;
      var i :| 0 <= i < |rows| && rows[i] == r;
      assert list[i].id == id;
    }
  }

  /** Writing rows with distinct ids, converted, stores each of them. */
  lemma ConvertedWrittenStores(bridged: map<int, Media>, rows: seq<SourceRow>, convert: Conversion)
    requires UniqueIds(rows)
    ensures var after := Written(bridged, Converted(rows, convert));
            forall r | r in rows :: r.id in after && after[r.id] == Convert(convert, r)
  {
    ConvertedIds(rows, convert);
    var list := Converted(rows, convert);
    var after := Written(bridged, list);
    WrittenDistinct(bridged, list);
    forall r | r in rows ensures r.id in after && after[r.id] == Convert(convert, r) {
      var i :| 0 <= i < |rows| && rows[i] == r;
      assert list[i] == Convert(convert, r);
    }
  }

  /** When the corrected request takes its shortcut, the pass keeps the cache, which already holds every id. */
  lemma ShortcutPass(index: MediaIndex, bridged: map<int, Media>, convert: Conversion)
    requires index.maxReadable && bridged.Keys <= SourceIds(index.rows)
    requires DestSeconds(bridged) == Some(SourceMax(index.rows)) && SourceIds(index.rows) <= bridged.Keys
    ensures CompleteStored(index, bridged, convert) == Pass(true, bridged)
    ensures bridged.Keys == SourceIds(index.rows)
    ensures forall r | r in index.rows :: r.dateModified <= From(bridged) && r.id in bridged
  {
  }

  /** Otherwise the pass writes the pending rows, converted. */
  lemma PendingPass(index: MediaIndex, bridged: map<int, Media>, convert: Conversion)
    requires index.idsReadable && index.maxReadable && index.fetchReadable
    requires !(DestSeconds(bridged) == Some(SourceMax(index.rows)) && SourceIds(index.rows) <= bridged.Keys)
    ensures CompleteStored(index, bridged, convert) ==
              Pass(true, Written(bridged, Converted(Pending(index.rows, bridged, From(bridged)), convert)))
  {
  }

  /** Writing the pending rows leaves the cache holding exactly MediaStore's ids. */
  lemma PendingWrittenKeys(index: MediaIndex, bridged: map<int, Media>, convert: Conversion)
    requires bridged.Keys <= SourceIds(index.rows)
    ensures Written(bridged, Converted(Pending(index.rows, bridged, From(bridged)), convert)).Keys == SourceIds(index.rows)
  {
    var pending := Pending(index.rows, bridged, From(bridged));
    var list := Converted(pending, convert);
    ConvertedIds(pending, convert);
    IdsFromRows(index, pending, list);
    IdsCoverSource(index, bridged, pending, list);
    WrittenKeys(bridged, list);
  }

  /**
   * Corrected: over a well-behaved MediaStore the corrected pass succeeds,
   * leaves the cache holding exactly MediaStore's ids, and stores every
   * row the cache lacked or that was modified after its newest date,
   * converted.
   */
  lemma CompletePassCachesEverySource(index: MediaIndex, cached: map<int, Media>, convert: Conversion)
    requires Consistent(index)
    ensures var p := SyncedComplete(index, cached, convert);
            p.ok && p.rows.Keys == SourceIds(index.rows)
    ensures var bridged := Bridged(index, cached); var p := SyncedComplete(index, cached, convert);
            forall r | r in index.rows && (r.dateModified > From(bridged) || r.id !in bridged) ::
              r.id in p.rows && p.rows[r.id] == Convert(convert, r)
  {
    var bridged := Bridged(index, cached);
    assert bridged.Keys <= SourceIds(index.rows);
    if DestSeconds(bridged) == Some(SourceMax(index.rows)) && SourceIds(index.rows) <= bridged.Keys {
      ShortcutPass(index, bridged, convert);
    } else {
      PendingPass(index, bridged, convert);
      PendingWrittenKeys(index, bridged, convert);
      ConvertedWrittenStores(bridged, Pending(index.rows, bridged, From(bridged)), convert);
    }
  }
}
