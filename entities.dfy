/**
 * The rows of the local cache: the `tbl_photos` and `tbl_videos` entities.
 * Both kinds share their common columns, so one datatype with one
 * constructor per entity lets a single table model serve both DAOs; a
 * field name shared by the two constructors is the same column.
 * Dates are milliseconds, sizes bytes; latitude, longitude and the video
 * resolution are floating point in the source and are carried as reals.
 */
module Entities {
  import opened Wrappers

  datatype Media =
    | Photo(
        id: int, title: string, dateAdded: int, dateModified: int, dateTaken: int,
        size: int, mimeType: string, desc: Option<string>, orientation: int,
        height: int, width: int, path: string, parent: string,
        latitude: real, longitude: real)
    | Video(
        id: int, title: string, dateAdded: int, dateModified: int, dateTaken: int,
        size: int, mimeType: string, desc: Option<string>, category: string,
        language: string, tags: Option<string>, duration: int, orientation: int,
        height: int, width: int, path: string, parent: string,
        latitude: real, longitude: real, artist: string, album: string,
        resolution: real, year: int)
}
