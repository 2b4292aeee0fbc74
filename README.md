# Photos media cache: a Dafny model

This project models the core of the Photos Android app: the local media
cache and the background job that keeps it in step with Android's
MediaStore. It also models the app's global settings.

- **Entities** (`entities.dfy`): the `tbl_photos` and `tbl_videos` rows
  (`Photo`, `Video`), as one datatype with a constructor per entity.
- **Tables** (`tables.dfy`, `like.dfy`, `jvm.dfy`): the `Photos` / `Videos`
  DAOs over a cache table, a class holding a map from primary key to row.
  - The read queries are functions of the rows: `lastModified`, `count`,
    `get`, `exists`, the title filter with SQLite's `LIKE`, and the bucket
    and info views (`GROUP BY parent_path` with `COUNT`, `SUM`, `MAX`).
  - The statements are methods specified by transition functions:
    `insert` with Room's default ABORT conflict strategy, `delete`,
    `delete(row)` and `_delete(ids)`.
- **Album members** (`album_members.dfy`): the `tbl_album_members` table and
  its two triggers, which keep each album's `member_order` a gap-free
  numbering 0..n-1.
- **Conversion** (`transform.dfy`): `toPhoto` and the `Video(cursor,
  retriever)` factory turn a MediaStore row into a cache row.
  - Dates go from seconds to milliseconds with 64-bit wrap-around.
  - `getInt` keeps the low 32 bits.
  - A failed EXIF or metadata read becomes fixed defaults.
- **Sync** (`sync.dfy`): `request`, one pass per media kind, and `doWork`.
  A pass does four things:
  1. drops the cached rows whose id MediaStore no longer lists;
  2. compares the newest cached date (milliseconds / 1000, truncated) with
     MediaStore's newest date;
  3. fetches the rows modified after the cached date;
  4. inserts them.

  The job succeeds when both passes do. The model proves three things:
  - a successful pass *refreshes* the cache: it stores every MediaStore
    row modified after the cache's newest date, converted, and keeps every
    other cached row that MediaStore still lists;
  - a second pass over an unchanged MediaStore changes nothing and returns
    the same verdict;
  - a refresh is not the same as being up to date: a new file dated no
    later than the cache's newest date is never fetched.

  It also exposes the insert conflict described under Findings.
- **Settings** (`settings.dfy`, `color_scheme.dfy`): the preference keys
  and their defaults, and the `NightMode` / `FontFamily` savers, which store
  the enum's name and restore it with `valueOf`. It also covers the
  colour-scheme serializer: twelve ARGB ints at indices 0..11, then
  `isLight` at index 12. Its descriptor disagrees with what it writes.

In the source the file reads are I/O: the EXIF location, the video
metadata retriever, and `FileUtils.parent`. The model takes them as
function parameters. MediaStore is a snapshot value: its rows, plus
whether each of the three queries returns a cursor.

## Model

| member | source | states |
|---|---|---|
| `Jvm.ToInt` | app/src/main/java/com/prime/photos/core/SyncWorker.kt:137-142 | `getInt` yields a 32-bit value, and a value that already fits is unchanged |
| `Jvm.ToIntCongruent` | app/src/main/java/com/prime/photos/core/SyncWorker.kt:137 | narrowing to `Int` keeps the value modulo 2^32 |
| `Jvm.LargeValueNarrowsNegative` | app/src/main/java/com/prime/photos/core/Database.kt:22 | a 3,000,000,000-byte size read into the `Int` size column becomes negative |
| `Jvm.ToLong` | app/src/main/java/com/prime/photos/core/SyncWorker.kt:135-136 | `Long` multiplication yields a 64-bit value, exact while the product fits |
| `Jvm.ToLongCongruent` | app/src/main/java/com/prime/photos/core/SyncWorker.kt:135 | the 64-bit wrap keeps the value modulo 2^64 |
| `Jvm.Div1000` | app/src/main/java/com/prime/photos/core/SyncWorker.kt:232 | `Long` division by 1000 truncates toward zero: the remainder has the dividend's sign and is below 1000 in size |
| `Jvm.Div1000Monotone` | app/src/main/java/com/prime/photos/core/SyncWorker.kt:232 | truncating division by 1000 preserves order |
| `Jvm.Div1000OfMultiple` | app/src/main/java/com/prime/photos/core/SyncWorker.kt:232 | dividing `1000 * s` by 1000 gives `s` back |
| `SqlLike.Like` | app/src/main/java/com/prime/photos/core/Database.kt:320 | SQLite `s LIKE p`: `%` matches any run of characters, `_` any one character, and other characters match up to ASCII case; the properties below are proved about this definition |
| `SqlLike.Fold` | app/src/main/java/com/prime/photos/core/Database.kt:320 | the case folding SQLite `LIKE` applies by default: ASCII upper-case letters only |
| `SqlLike.Containing` | app/src/main/java/com/prime/photos/core/Database.kt:326 | the pattern `'%' || :query || '%'` the DAO filters build |
| `SqlLike.PercentMatchesAll` | app/src/main/java/com/prime/photos/core/Database.kt:320 | the pattern `%` matches every string |
| `SqlLike.PrefixPattern` | app/src/main/java/com/prime/photos/core/Database.kt:320 | a wildcard-free `q` then `%` matches exactly the strings starting with `q`, ignoring ASCII case |
| `SqlLike.LeadingPercent` | app/src/main/java/com/prime/photos/core/Database.kt:320 | a leading `%` matches iff the rest matches some suffix |
| `SqlLike.ContainingIsSubstring` | app/src/main/java/com/prime/photos/core/Database.kt:326 | the filter pattern `%q%` for a wildcard-free `q` matches iff `q` occurs in the string, ignoring ASCII case |
| `SqlLike.EmptyQueryMatchesAll` | app/src/main/java/com/prime/photos/core/Database.kt:326 | an empty query (`'%%'`) matches every title |
| `Tables.MaxOf` | app/src/main/java/com/prime/photos/core/Database.kt:293 | SQL `MAX` of a non-empty column is one of its values and bounds all of them |
| `Tables.LastModified` | app/src/main/java/com/prime/photos/core/Database.kt:293-294 | `lastModified()` is NULL iff the table is empty, otherwise a stored date no stored date exceeds |
| `Tables.Count` | app/src/main/java/com/prime/photos/core/Database.kt:332-333 | `count()` is zero exactly when `lastModified()` is NULL |
| `Tables.Get` | app/src/main/java/com/prime/photos/core/Database.kt:329-330 | `get(id)` finds a row iff the key is stored, and the row carries that id |
| `Tables.Exists` | app/src/main/java/com/prime/photos/core/Database.kt:335-336 | `exists(id)` holds iff `get(id)` finds a row |
| `Tables.TitleMatches` | app/src/main/java/com/prime/photos/core/Database.kt:326 | the filter `:query IS NULL OR title LIKE '%' || :query || '%'` on one row |
| `Tables.Search` | app/src/main/java/com/prime/photos/core/Database.kt:326-327 | `get(query)` keeps exactly the stored rows whose title matches the filter, unchanged |
| `Tables.SearchByTitle` | app/src/main/java/com/prime/photos/core/Database.kt:326-327 | a NULL or empty query returns the whole table; a wildcard-free query returns the rows whose title contains it |
| `Tables.SizeSum` | app/src/main/java/com/prime/photos/core/Database.kt:47 | `SUM(file_size)` over a set of stored keys: 0 for no rows, otherwise one row's size plus the sum over the rest |
| `Tables.SizeSumWithout` | app/src/main/java/com/prime/photos/core/Database.kt:47 | `SUM(file_size)` does not depend on the order the rows are visited in |
| `Tables.SizeSumFrame` | app/src/main/java/com/prime/photos/core/Database.kt:47 | `SUM(file_size)` over a group reads only that group's rows |
| `Tables.IdsUnder` | app/src/main/java/com/prime/photos/core/Database.kt:45-48 | the rows of one `GROUP BY parent_path` group |
| `Tables.Parents` | app/src/main/java/com/prime/photos/core/Database.kt:45-48 | the groups of `GROUP BY parent_path`: the directories some row lives in |
| `Tables.Summarise` | app/src/main/java/com/prime/photos/core/Database.kt:45-48 | one group's `COUNT(*)`, `SUM(file_size)` and `MAX(date_modified)`, with the bare columns taken from a row holding the maximum |
| `Tables.Buckets` | app/src/main/java/com/prime/photos/core/Database.kt:45-57 | the bucket view has one row per parent directory, with the group's count, size and newest date; its embedded row lies in that directory |
| `Tables.GetBuckets` | app/src/main/java/com/prime/photos/core/Database.kt:344-345 | `getBuckets(query)` keeps exactly the buckets whose path matches the filter |
| `Tables.GetBucket` | app/src/main/java/com/prime/photos/core/Database.kt:347-348 | `getBucket(path)` finds a bucket iff some row lives in `path`; it is then that directory's row of the bucket view, with at least one row counted |
| `Tables.GetInfo` | app/src/main/java/com/prime/photos/core/Database.kt:33-43 | the info view counts every row, sums their sizes into an `Int`, and its date equals `lastModified()` |
| `Tables.SummariseAdd` | app/src/main/java/com/prime/photos/core/Database.kt:45-48 | adding a row to a group adds one to its count and its size to the sum, and raises the newest date to its own if higher |
| `Tables.SummariseFrame` | app/src/main/java/com/prime/photos/core/Database.kt:45-48 | a group whose rows are unchanged keeps its aggregates |
| `Tables.BucketAfterInsert` | app/src/main/java/com/prime/photos/core/Database.kt:45-57 | storing a new row updates its directory's bucket incrementally, or creates the bucket with that row alone |
| `Tables.OtherBucketsAfterInsert` | app/src/main/java/com/prime/photos/core/Database.kt:45-57 | storing a row leaves every other directory's bucket aggregates unchanged |
| `Tables.Insertable` | app/src/main/java/com/prime/photos/core/Database.kt:299-300 | a plain `@Insert` (conflict strategy ABORT) of a list goes through iff no value's key is already stored and no two values share a key |
| `Tables.Written` | app/src/main/java/com/prime/photos/core/Database.kt:299-300 | the table after the list's rows are written one after another, each under its own primary key |
| `Tables.KeysOf` | app/src/main/java/com/prime/photos/core/Database.kt:299-300 | `insert(values)` returns one key per value, each the value's primary key |
| `Tables.WrittenKeys` | app/src/main/java/com/prime/photos/core/Database.kt:296-300 | writing rows leaves the stored keys plus the written keys |
| `Tables.WrittenValid` | app/src/main/java/com/prime/photos/core/Database.kt:296-300 | writing keeps each row under its own primary key and the table to one entity |
| `Tables.WrittenInsertable` | app/src/main/java/com/prime/photos/core/Database.kt:296-300 | without conflicts, an insert keeps every stored row, adds each value under its key, and grows the count by the number of values |
| `Tables.WrittenDistinct` | app/src/main/java/com/prime/photos/core/Database.kt:296-300 | writing values with distinct keys stores each under its key and leaves every other stored row as it was |
| `Tables.Retained` | app/src/main/java/com/prime/photos/core/Database.kt:309-315 | `_delete(ids)` keeps exactly the rows whose key is listed, unchanged, and removes the rest |
| `Tables.RetainedAll` | app/src/main/java/com/prime/photos/core/Database.kt:313 | `_delete(ids)` with every stored key listed removes nothing |
| `Tables.Table.Insert` | app/src/main/java/com/prime/photos/core/Database.kt:299-300 | the insert succeeds iff no key is already stored or repeated; then all values are stored and their keys returned; otherwise the table is unchanged |
| `Tables.Table.InsertOrReplace` | app/src/main/java/com/prime/photos/core/Database.kt:296-300 | insert with REPLACE: every value ends up stored under its key, and nothing aborts |
| `Tables.Table.Delete` | app/src/main/java/com/prime/photos/core/Database.kt:302-303 | `delete(id)` removes that key only and returns 1 if it was stored, else 0 |
| `Tables.Table.DeleteRow` | app/src/main/java/com/prime/photos/core/Database.kt:317-318 | `delete(row)` matches by primary key and removes that row only |
| `Tables.Table.DeleteNotIn` | app/src/main/java/com/prime/photos/core/Database.kt:309-315 | `_delete(ids)` leaves the retained rows and returns how many rows it removed |
| `AlbumMembers.IndexOf` | app/src/main/java/com/prime/photos/core/Database.kt:171-173 | finds the row with a given `(album_id, file_id)` primary key, or reports that there is none |
| `AlbumMembers.Up` | app/src/main/java/com/prime/photos/core/Database.kt:224-228 | the BEFORE INSERT trigger's UPDATE on one row: a member of the same album at or above the new order moves up by one |
| `AlbumMembers.Down` | app/src/main/java/com/prime/photos/core/Database.kt:231-235 | the AFTER DELETE trigger's UPDATE on one row: a member of the same album above the deleted order moves down by one |
| `AlbumMembers.ShiftedUp` | app/src/main/java/com/prime/photos/core/Database.kt:224-228 | the insert trigger's UPDATE applied to every row, in place |
| `AlbumMembers.ShiftedDown` | app/src/main/java/com/prime/photos/core/Database.kt:231-235 | the delete trigger's UPDATE applied to every row, in place |
| `AlbumMembers.Inserted` | app/src/main/java/com/prime/photos/core/Database.kt:224-228 | an album member insert: the BEFORE INSERT trigger's shift of the album's orders at or above the new order, then the new row |
| `AlbumMembers.Deleted` | app/src/main/java/com/prime/photos/core/Database.kt:231-235 | an album member delete: the row is removed, then the AFTER DELETE trigger's shift of the album's orders above it |
| `AlbumMembers.Bump` | app/src/main/java/com/prime/photos/core/Database.kt:226-227 | an album's orders at or above k move up by one |
| `AlbumMembers.Drop` | app/src/main/java/com/prime/photos/core/Database.kt:233-234 | an album's orders above k move down by one |
| `AlbumMembers.OrdersConcat` | app/src/main/java/com/prime/photos/core/Database.kt:195-199 | an album's orders over two row runs are the orders of each run, concatenated |
| `AlbumMembers.OrdersShiftedUp` | app/src/main/java/com/prime/photos/core/Database.kt:224-228 | the insert trigger bumps the target album's orders and leaves other albums' orders alone |
| `AlbumMembers.OrdersShiftedDown` | app/src/main/java/com/prime/photos/core/Database.kt:231-235 | the delete trigger drops the target album's orders and leaves other albums' orders alone |
| `AlbumMembers.BumpKeepsContiguous` | app/src/main/java/com/prime/photos/core/Database.kt:224-228 | opening a slot at k in 0..n of a numbering 0..n-1 and filling it yields a numbering 0..n |
| `AlbumMembers.DropKeepsContiguous` | app/src/main/java/com/prime/photos/core/Database.kt:231-235 | removing order k from a numbering 0..n-1 and closing the gap yields a numbering 0..n-2 |
| `AlbumMembers.InsertKeepsNumbering` | app/src/main/java/com/prime/photos/core/Database.kt:224-228 | an insert at an order within 0..n keeps the album gap-free; other albums keep their orders |
| `AlbumMembers.DeleteKeepsNumbering` | app/src/main/java/com/prime/photos/core/Database.kt:231-235 | a delete keeps the album gap-free with one member fewer; other albums keep their orders |
| `AlbumMembers.MemberTable.ReorderBeforeInsert` | app/src/main/java/com/prime/photos/core/Database.kt:224-228 | the trigger's row-by-row UPDATE leaves the shifted-up table |
| `AlbumMembers.MemberTable.ReorderAfterDelete` | app/src/main/java/com/prime/photos/core/Database.kt:231-235 | the trigger's row-by-row UPDATE leaves the shifted-down table |
| `AlbumMembers.MemberTable.Insert` | app/src/main/java/com/prime/photos/core/Database.kt:224-228 | an insert succeeds iff the key is new; the trigger's shift and the new row follow; otherwise the table is unchanged |
| `AlbumMembers.MemberTable.Delete` | app/src/main/java/com/prime/photos/core/Database.kt:231-235 | a delete removes the keyed row, if any, then applies the trigger's shift, and returns the count |
| `Transform.ToMillis` | app/src/main/java/com/prime/photos/core/SyncWorker.kt:135-136 | seconds times 1000 as a `Long`, exact while it fits |
| `Transform.SecondsOf` | app/src/main/java/com/prime/photos/core/SyncWorker.kt:232 | `lastModified()?.let { it / 1000 }`: a date in milliseconds read as seconds with Kotlin's truncating `Long` division |
| `Transform.MillisRoundTrip` | app/src/main/java/com/prime/photos/core/SyncWorker.kt:135-136 | seconds to milliseconds and back is the identity while the product fits a `Long` |
| `Transform.ToPhoto` | app/src/main/java/com/prime/photos/core/SyncWorker.kt:128-149 | `toPhoto` yields a photo under the MediaStore id |
| `Transform.ToPhotoColumns` | app/src/main/java/com/prime/photos/core/SyncWorker.kt:128-149 | `toPhoto` keeps title, mime type, path and description, scales the three dates to milliseconds, narrows size, orientation, height and width (each kept while it fits an `Int`), takes the parent of the path, and uses the EXIF location or 0.0, 0.0 |
| `Transform.Extract` | app/src/main/java/com/prime/photos/core/SyncWorker.kt:154-164 | the guarded block: an unreadable file yields nothing; a year that does not parse stops the block after the location, so the orientation is lost too |
| `Transform.ToVideo` | app/src/main/java/com/prime/photos/core/SyncWorker.kt:151-193 | the video factory yields a video under the MediaStore id |
| `Transform.ToVideoColumns` | app/src/main/java/com/prime/photos/core/SyncWorker.kt:166-193 | the video factory keeps title, mime type, path, description, tags, artist, album and resolution, scales the dates, narrows size, duration, height and width (each kept while it fits an `Int`), and uses the unknown string for a NULL category or language |
| `Transform.ToVideoMetadata` | app/src/main/java/com/prime/photos/core/SyncWorker.kt:154-190 | the location is the retriever's when it has one, else 0.0, 0.0; the year is the parsed year, else 0; the orientation is the parsed rotation when the year did not fail first, else 0; an unreadable file gives all zeros |
| `Transform.ConversionKeepsDate` | app/src/main/java/com/prime/photos/core/SyncWorker.kt:136 | both conversions store a modification date that reads back, in seconds, as MediaStore's date |
| `Sync.Convert` | app/src/main/java/com/prime/photos/core/SyncWorker.kt:234-252 | the `transform` each pass hands to `request`: `toPhoto` for photos, the video factory with the retriever for videos |
| `Sync.ConvertKeepsKey` | app/src/main/java/com/prime/photos/core/SyncWorker.kt:133 | the conversion keeps the MediaStore id, and yields a video iff the pass is the video pass |
| `Sync.ConvertKeepsDate` | app/src/main/java/com/prime/photos/core/SyncWorker.kt:171 | the converted row's date divided by 1000 is the MediaStore date |
| `Sync.SourceIds` | app/src/main/java/com/prime/photos/core/SyncWorker.kt:34-41 | the ids query lists exactly the ids of MediaStore's rows |
| `Sync.SourceMax` | app/src/main/java/com/prime/photos/core/SyncWorker.kt:49-56 | MediaStore's newest date: 0 on an empty collection, otherwise a row's date that no date exceeds |
| `Sync.From` | app/src/main/java/com/prime/photos/core/SyncWorker.kt:73 | the date the fetch starts after: the bridge's result, or 0 when it is null |
| `Sync.Bridged` | app/src/main/java/com/prime/photos/core/SyncWorker.kt:228-233 | the cache after the bridge's `_delete(keys)`: the rows whose id MediaStore still lists |
| `Sync.Window` | app/src/main/java/com/prime/photos/core/SyncWorker.kt:75-78 | the selection `date_modified > from` returns exactly the rows newer than `from`, and keeps ids unique |
| `Sync.Converted` | app/src/main/java/com/prime/photos/core/SyncWorker.kt:79-82 | the fetched list has one converted entry per cursor row, in cursor order |
| `Sync.ConvertedMembers` | app/src/main/java/com/prime/photos/core/SyncWorker.kt:79-82 | every fetched row appears converted in the list, and every list entry is a converted fetched row |
| `Sync.DestSeconds` | app/src/main/java/com/prime/photos/core/SyncWorker.kt:228-233 | the bridge's date is NULL iff the cache is empty; otherwise it is the newest cached date in seconds |
| `Sync.Fetched` | app/src/main/java/com/prime/photos/core/SyncWorker.kt:61-84 | `request` returns a list iff the newest-date query answers and either the dates agree or the fetch query answers |
| `Sync.FetchedIsChangedRows` | app/src/main/java/com/prime/photos/core/SyncWorker.kt:66-84 | the list is empty when the dates agree; otherwise it is exactly the MediaStore rows modified after the cached date, converted |
| `Sync.Requested` | app/src/main/java/com/prime/photos/core/SyncWorker.kt:25-85 | `request`'s result and the cache it leaves: null with the cache untouched when the ids query fails, otherwise the fetched list over the bridged cache |
| `Sync.Request` | app/src/main/java/com/prime/photos/core/SyncWorker.kt:25-85 | `request` on a table returns the specified list, and leaves the table as the bridge's `_delete` made it |
| `Sync.ConvertAll` | app/src/main/java/com/prime/photos/core/SyncWorker.kt:79-82 | the cursor loop converts every fetched row in order |
| `Sync.Stored` | app/src/main/java/com/prime/photos/core/SyncWorker.kt:236-238 | `if (!list.isNullOrEmpty()) db.insert(list)` with ABORT: a null list fails, an empty one succeeds unchanged, an insertable one is written, and a conflict fails with the bridged cache kept |
| `Sync.StoredReplacing` | app/src/main/java/com/prime/photos/core/SyncWorker.kt:236-238 | the same step with insert-or-replace: it fails only on a null list and otherwise writes the list |
| `Sync.Synced` | app/src/main/java/com/prime/photos/core/SyncWorker.kt:223-239 | one `async` block as written: `request`, then the ABORT insert |
| `Sync.SyncedReplacing` | app/src/main/java/com/prime/photos/core/SyncWorker.kt:223-239 | the same block with insert-or-replace |
| `Sync.IdsUnreadableKeepsCache` | app/src/main/java/com/prime/photos/core/SyncWorker.kt:34-41 | when the ids query yields no cursor, `request` returns null before the bridge runs: the pass fails, with either insert, and the cache keeps every row |
| `Sync.StoredWrites` | app/src/main/java/com/prime/photos/core/SyncWorker.kt:236-238 | a successful pass stores exactly the list on top of the bridged cache, and a failed one leaves the bridged cache; insert-or-replace fails only on a NULL list |
| `Sync.SyncKind` | app/src/main/java/com/prime/photos/core/SyncWorker.kt:223-239 | one `async` block: its verdict and the table it leaves are those of the specified pass |
| `Sync.SyncKindReplacing` | app/src/main/java/com/prime/photos/core/SyncWorker.kt:223-239 | the same block with insert-or-replace |
| `Sync.DoWork` | app/src/main/java/com/prime/photos/core/SyncWorker.kt:219-264 | the job succeeds iff both passes do, and each table ends as its pass leaves it |
| `Sync.FetchedIdsFromSource` | app/src/main/java/com/prime/photos/core/SyncWorker.kt:77-84 | a fetched list holds only MediaStore ids |
| `Sync.PassKeepsOnlySourceIds` | app/src/main/java/com/prime/photos/core/SyncWorker.kt:228-237 | after a pass with a readable ids query, whatever its verdict, the cache holds no id that MediaStore lacks |
| `Sync.FetchedWhenConsistent` | app/src/main/java/com/prime/photos/core/SyncWorker.kt:61-84 | over a well-behaved MediaStore, `request` never returns NULL |
| `Sync.WindowEmpty` | app/src/main/java/com/prime/photos/core/SyncWorker.kt:75 | nothing is fetched when no row is newer than the cached date |
| `Sync.SameNewestDateIsRefreshed` | app/src/main/java/com/prime/photos/core/SyncWorker.kt:66-69 | a cache that already has MediaStore's newest date counts as refreshed as it is |
| `Sync.WindowKeys` | app/src/main/java/com/prime/photos/core/SyncWorker.kt:77-84 | the fetched list's ids are distinct MediaStore ids |
| `Sync.WindowWrittenStoresChanges` | app/src/main/java/com/prime/photos/core/SyncWorker.kt:236-237 | storing the fetched list stores every row modified after the cached date, converted |
| `Sync.WindowWrittenKeepsRest` | app/src/main/java/com/prime/photos/core/SyncWorker.kt:236-237 | storing the fetched list leaves every other cached row as it was |
| `Sync.WindowWrittenIsRefreshed` | app/src/main/java/com/prime/photos/core/SyncWorker.kt:71-84 | storing the rows modified since the cached date refreshes the bridged cache: every such row is stored converted, and every other row is the bridged row |
| `Sync.FromBound` | app/src/main/java/com/prime/photos/core/SyncWorker.kt:73 | no cached date, in seconds, exceeds the date the fetch starts after |
| `Sync.FromBelowNewRow` | app/src/main/java/com/prime/photos/core/SyncWorker.kt:73 | a row brought in by the refresh is newer than the bridged cache's newest date |
| `Sync.FromGrows` | app/src/main/java/com/prime/photos/core/SyncWorker.kt:232 | refreshing never moves the cache's newest date back |
| `Sync.RefreshedCoversSource` | app/src/main/java/com/prime/photos/core/SyncWorker.kt:46-48 | after a refresh, no MediaStore date is newer than the cache's newest date |
| `Sync.RefreshedIsFixpoint` | app/src/main/java/com/prime/photos/core/SyncWorker.kt:66-69 | on a refreshed cache the next request deletes nothing and returns the empty list |
| `Sync.PassRefreshes` | app/src/main/java/com/prime/photos/core/SyncWorker.kt:219-257 | over a well-behaved MediaStore, a successful pass refreshes the cache (every row modified after the cache's newest date is stored); with insert-or-replace the pass always succeeds and refreshes it |
| `Sync.SecondPassChangesNothing` | app/src/main/java/com/prime/photos/core/SyncWorker.kt:219-263 | after a successful pass, or any insert-or-replace pass, a second pass over an unchanged MediaStore changes nothing and returns the same verdict |
| `Sync.PassIdempotent` | app/src/main/java/com/prime/photos/core/SyncWorker.kt:219-263 | as written, any pass over an unchanged, well-behaved MediaStore, successful or not, is repeated exactly by the next pass |
| `Sync.FailedPassHasModifiedFile` | app/src/main/java/com/prime/photos/core/SyncWorker.kt:236-237 | over a well-behaved MediaStore a pass fails only on a cached file modified after the cache's newest date |
| `Sync.ModifiedFileFails` | app/src/main/java/com/prime/photos/core/SyncWorker.kt:236-237 | as written, a cached file modified after the cached date makes the pass fail, and the next pass fails identically |
| `Sync.ModifiedPhotoExample` | app/src/main/java/com/prime/photos/core/SyncWorker.kt:236-237 | photo 1 cached at 100 s and reported at 200 s: every pass fails and keeps the old row |
| `Sync.ReplacingPassStoresModifiedFile` | app/src/main/java/com/prime/photos/core/SyncWorker.kt:236-237 | with insert-or-replace, the same pass succeeds and stores the file's new row |
| `Sync.UnseenOldFileNeverCached` | app/src/main/java/com/prime/photos/core/SyncWorker.kt:66-75 | as written, a MediaStore row the cache lacks, dated no later than the cache's newest date, is not cached by the pass, with either insert |
| `Sync.SameSecondFileExample` | app/src/main/java/com/prime/photos/core/SyncWorker.kt:66-75 | photo 1 cached at 100 s; MediaStore lists photo 1 and a new photo 2, both at 100 s: the pass succeeds, photo 2 stays uncached, and every later pass does the same |
| `Sync.Pending` | app/src/main/java/com/prime/photos/core/SyncWorker.kt:71-75 | the corrected selection returns exactly the rows modified after the cached date or whose id the cache lacks, and keeps ids unique |
| `Sync.FetchedComplete` | app/src/main/java/com/prime/photos/core/SyncWorker.kt:61-84 | the corrected request returns a list iff the newest-date query answers and either the shortcut applies (same newest date and every MediaStore id cached) or the fetch answers |
| `Sync.CompleteStored` | app/src/main/java/com/prime/photos/core/SyncWorker.kt:61-84 | the corrected request's list stored with insert-or-replace over the bridged cache |
| `Sync.SyncedComplete` | app/src/main/java/com/prime/photos/core/SyncWorker.kt:223-239 | the corrected block: null with the cache untouched when the ids query fails, otherwise the bridge and the corrected request, stored |
| `Sync.PendingWrittenKeys` | app/src/main/java/com/prime/photos/core/SyncWorker.kt:71-84 | storing the pending rows leaves the cache holding exactly MediaStore's ids |
| `Sync.ConvertedWrittenStores` | app/src/main/java/com/prime/photos/core/SyncWorker.kt:236-237 | storing converted rows with distinct ids stores each of them under its id |
| `Sync.CompletePassCachesEverySource` | app/src/main/java/com/prime/photos/core/SyncWorker.kt:61-84 | the corrected pass succeeds over a well-behaved MediaStore, leaves the cache holding exactly MediaStore's ids, and stores every row the cache lacked or that was modified after its newest date, converted |
| `ColorScheme.Deserialize` | app/src/main/java/com/prime/photos/settings/SettingsViewModel.kt:123-141 | decodes iff elements 0..11 are Ints at their own index and element 12 is a Boolean; colour i and `isLight` come from those elements |
| `ColorScheme.Serialize` | app/src/main/java/com/prime/photos/settings/SettingsViewModel.kt:152-168 | writes colour i as Int element i for i in 0..11 in the source's field order, then `isLight` as Boolean element 12; decoding gives the scheme back |
| `ColorScheme.DeserializeOnlySerialized` | app/src/main/java/com/prime/photos/settings/SettingsViewModel.kt:123-141 | whatever decodes is the encoding of the decoded scheme |
| `ColorScheme.Decimal` | app/src/main/java/com/prime/photos/settings/SettingsViewModel.kt:147 | the digits Kotlin writes for `color + i`: non-empty, two or more for i >= 10, all decimal digits |
| `ColorScheme.DecimalInjective` | app/src/main/java/com/prime/photos/settings/SettingsViewModel.kt:147 | distinct indices give distinct element names |
| `ColorScheme.ColorElements` | app/src/main/java/com/prime/photos/settings/SettingsViewModel.kt:146-148 | the loop declares n Int elements named `color0` up to `color(n-1)` |
| `ColorScheme.Descriptor` | app/src/main/java/com/prime/photos/settings/SettingsViewModel.kt:143-150 | the declared descriptor has 12 elements: Ints at 0..10 and the Boolean `isLight` at 11 |
| `ColorScheme.CorrectedDescriptor` | app/src/main/java/com/prime/photos/settings/SettingsViewModel.kt:143-150 | the corrected descriptor has 13 elements: Ints at 0..11 and `isLight` at 12 |
| `ColorScheme.ColorNamesUnique` | app/src/main/java/com/prime/photos/settings/SettingsViewModel.kt:143-150 | colour element names and `isLight` are pairwise distinct |
| `ColorScheme.Keyed` | app/src/main/java/com/prime/photos/settings/SettingsViewModel.kt:153 | a name-keyed encoding exists iff every written index is declared; each element is then keyed by its declared name |
| `ColorScheme.DecodedIsKeyed` | app/src/main/java/com/prime/photos/settings/SettingsViewModel.kt:124 | every decodable structure can be keyed by the corrected descriptor |
| `ColorScheme.DescriptorMismatch` | app/src/main/java/com/prime/photos/settings/SettingsViewModel.kt:143-167 | as declared, index 11 is Boolean but carries an Int, and index 12 is undeclared, so the encoding cannot be keyed |
| `ColorScheme.SerializeConformsCorrected` | app/src/main/java/com/prime/photos/settings/SettingsViewModel.kt:143-167 | under the corrected descriptor every element `serialize` writes has a declared index of its own kind |
| `ColorScheme.CorrectedDescriptorConforms` | app/src/main/java/com/prime/photos/settings/SettingsViewModel.kt:143-167 | with the corrected descriptor every element is declared with its kind, and the keys are color0..color11 and isLight, all distinct |
| `Settings.NightModeValueOf` | app/src/main/java/com/prime/photos/settings/SettingsViewModel.kt:45 | `NightMode.valueOf(s)` yields m iff `m.name == s`, otherwise nothing (the source throws) |
| `Settings.FontFamilyValueOf` | app/src/main/java/com/prime/photos/settings/SettingsViewModel.kt:55 | `FontFamily.valueOf(s)` yields f iff `f.name == s`, otherwise nothing |
| `Settings.NightModeSaverRoundTrip` | app/src/main/java/com/prime/photos/settings/SettingsViewModel.kt:39-47 | `restore(save(m)) == m` for every night mode, and names are distinct |
| `Settings.FontFamilySaverRoundTrip` | app/src/main/java/com/prime/photos/settings/SettingsViewModel.kt:49-57 | `restore(save(f)) == f` for every font family, and names are distinct |
| `Settings.Key.Name` | app/src/main/java/com/prime/photos/settings/SettingsViewModel.kt:39-88 | each preference key's name: the tag followed by the key's own suffix |
| `Settings.KeyNamesDistinct` | app/src/main/java/com/prime/photos/settings/SettingsViewModel.kt:39-88 | no two preference keys share a name |
| `Settings.Fits` | app/src/main/java/com/prime/photos/settings/SettingsViewModel.kt:39-88 | the value type each preference key is declared with |
| `Settings.Default` | app/src/main/java/com/prime/photos/settings/SettingsViewModel.kt:39-88 | each key's default has the key's declared type |
| `Settings.Save` | app/src/main/java/com/prime/photos/settings/SettingsViewModel.kt:39-88 | a saver stores a value iff it has the key's type and, for a scheme, the descriptor can key its encoding |
| `Settings.Restore` | app/src/main/java/com/prime/photos/settings/SettingsViewModel.kt:39-88 | a restored value always has the key's type |
| `Settings.SaveRestore` | app/src/main/java/com/prime/photos/settings/SettingsViewModel.kt:39-88 | whatever a saver stores, its restorer gives back |
| `Settings.RestoreOnlySaved` | app/src/main/java/com/prime/photos/settings/SettingsViewModel.kt:39-88 | a restorable stored value is exactly what saving the restored value stores |
| `Settings.Read` | app/src/main/java/com/prime/photos/settings/SettingsViewModel.kt:39-88 | reading a key yields a value of its type, and the default when the key is unset |
| `Settings.Write` | app/src/main/java/com/prime/photos/settings/SettingsViewModel.kt:39-88 | a write succeeds iff the saver does, and adds exactly the key's name to the store |
| `Settings.FreshStoreReadsDefaults` | app/src/main/java/com/prime/photos/settings/SettingsViewModel.kt:39-64 | a fresh store reads night mode `NO`, font `SYSTEM_DEFAULT`, and false for the three flags |
| `Settings.ReadAfterWrite` | app/src/main/java/com/prime/photos/settings/SettingsViewModel.kt:39-88 | a successful write is read back |
| `Settings.WriteKeepsOtherKeys` | app/src/main/java/com/prime/photos/settings/SettingsViewModel.kt:39-88 | a write leaves every other setting reading as before |
| `Settings.ColorsWriteFails` | app/src/main/java/com/prime/photos/settings/SettingsViewModel.kt:66-87 | with the declared descriptor, every colour-scheme write fails |
| `Settings.ColorsWriteCorrected` | app/src/main/java/com/prime/photos/settings/SettingsViewModel.kt:66-87 | with the corrected descriptor, a scheme saves under either colour key and reads back |

## Left out

- `Tables.Table.DeleteNotIn` returns the number of rows it removed, which
  is what `_delete` is meant to return. The source runs the `DELETE`
  through a Room `@RawQuery` with an `Int` result. Room reads such a result
  from the first column of the first result row and uses 0 when there is
  none, and a `DELETE` yields no row. So the source most likely returns 0.
  The count only reaches a log message, which is not modelled.
- I/O and Android services are not modelled:
  - the content-resolver queries and cursors;
  - `ExifInterface` and `MediaMetadataRetriever`;
  - `FileUtils.parent`;
  - logging;
  - WorkManager scheduling (`checkForUpdates`).

  The file reads and the parent function are parameters of the conversion.
  Each query is reduced to whether it returns a cursor.
- The id string the ids query builds (`GROUP_CONCAT` with quotes) is not
  modelled, and neither is SQLite's text-to-integer comparison in
  `NOT IN (...)`. `_delete` receives the set of ids directly.
- A cursor text column that is NULL where the entity's field is non-null
  (title, mime type, data, artist, album) is taken to be non-null. In the
  source this throws.
- `getFloat` rounding of the resolution is not modelled. Latitude,
  longitude and resolution are carried as reals.
- `Sync.DoWork` runs the video pass even when the photo pass's insert
  aborts. In the source the insert's exception cancels the sibling
  `async` block, so the video table may be left after its `_delete` but
  before its insert. The verdict is failure either way.
- The `Flow` variants of the queries (`stream`, `buckets`, `bucket`,
  `info`) are not modelled. They run the same SQL as the suspend variants
  the model covers, but re-emit on change, which is observation over time.
- The artist and album views and their queries (Database.kt:118-147 and
  the `artists`/`albums` DAO methods) are not modelled. They are not used
  by the cache reconciliation.
- The `Albums` table and its DAO are not modelled, and neither are the
  member table's foreign-key cascades (deleting a photo or album deletes
  its members).
- `Tables.GetBuckets`, `Tables.Buckets`: both bucket views end in
  `ORDER BY date_modified DESC`, so `getBuckets` lists directories newest
  first. The model returns a map keyed by path and does not capture that
  order.
- `Tables.Search`: the result is keyed by primary key. The list order SQL
  returns is unspecified and not modelled.
- `Tables.GetInfo`: it returns NULL on an empty table. There the source's
  aggregate row has NULL columns that the non-null `Info` cannot hold.
- The enum classes `NightMode` and `FontFamily` are not part of this model.
  Their constants are taken from the exhaustive `when` expressions in
  theme/Theme.kt:350-398.
- The preference store library and the JSON text form of the colour
  schemes are not modelled. A scheme is stored as its element sequence, and
  the JSON keying is modelled by `ColorScheme.Keyed`.
- `ColorScheme.Deserialize` decodes by position: element i is read at
  index i. The source's `deserialize` calls `decodeIntElement` for indices
  0..12 without a `decodeElementIndex` loop. That only works with a decoder
  that reads elements in order, which a JSON decoder does not. So
  `Settings.ColorsWriteCorrected` reads a scheme back only in the
  element-sequence store; under JSON the missing loop would still break the
  read.
- `Transform.ToPhotoColumns`, `Transform.ToVideoColumns`: every date,
  `date_taken` included, is scaled by 1000 as the source does. MediaStore
  documents `date_taken` in milliseconds already, so the stored value may
  be scaled twice. The model keeps the source's arithmetic.
- Compose `Color` to ARGB conversion is not modelled; a colour is its ARGB
  `Int`.
- The values of the default light and dark schemes are not modelled. They
  use named colours from a library outside this model, and are the
  `Palettes` parameter.

## Findings

| source | as written | input that shows it | evidently intended | confidence | as-written member | corrected member |
|---|---|---|---|---|---|---|
| app/src/main/java/com/prime/photos/core/SyncWorker.kt:236-237 | the fetched rows go to a plain `@Insert` (conflict strategy ABORT); the bridge only deletes ids MediaStore no longer lists, so a file modified after it was cached is fetched under an id the cache still holds | cache holds photo 1 modified at 100 s; MediaStore reports photo 1 modified at 200 s: the insert aborts, the pass fails, and every later pass fails the same way with the stale row kept | the modified file's new row replaces the cached one (insert-or-replace) and the pass succeeds | high; not executed | `Sync.ModifiedFileFails` | `Sync.ReplacingPassStoresModifiedFile` |
| app/src/main/java/com/prime/photos/settings/SettingsViewModel.kt:143-150 | the descriptor declares 11 Int elements (`0 until 11`) and then `isLight`, 12 elements in all, while `serialize`/`deserialize` use Int elements 0..11 and Boolean element 12 | any colour scheme: element 11 is written as an Int where a Boolean is declared, and element 12 has no declared name to be keyed by | twelve Int elements `color0`..`color11`, then `isLight` at index 12; under JSON `deserialize` also needs a `decodeElementIndex` loop, so the proved read-back holds for the element-sequence store | high for the mismatch; the runtime failure depends on the serialization format; not executed | `ColorScheme.DescriptorMismatch` | `ColorScheme.CorrectedDescriptorConforms` |
| app/src/main/java/com/prime/photos/core/SyncWorker.kt:66-75 | `request` returns nothing when the newest cached date equals MediaStore's newest date, and otherwise fetches only `date_modified > fromDate`; the comment at line 48 assumes every new file is newer than the cache | cache holds photo 1 at 100 s; MediaStore lists photo 1 and a new photo 2, both at 100 s (or photo 2 copied with an older date): the pass succeeds, photo 2 is never cached, and every later pass does the same | a pass also fetches the MediaStore rows whose id the cache lacks, and skips the fetch only when the dates agree and every id is cached | high; not executed | `Sync.UnseenOldFileNeverCached` | `Sync.CompletePassCachesEverySource` |
