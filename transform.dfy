/**
 * Turning one MediaStore cursor row into a cache entity: the `toPhoto`
 * cursor extension and the `Video(cursor, retriever)` factory. The cursor
 * row is a value; the file reads the source performs on the row's path
 * (the EXIF location of a photo, the metadata of a video) arrive as
 * parameters, and so does the parent-directory function of the path.
 */
module Transform {
  import opened Wrappers
  import opened Entities
  import Jvm

  /** A location read from a file: latitude, then longitude. */
  datatype LatLong = LatLong(latitude: real, longitude: real)

  /**
   * The columns of a MediaStore row that the two projections read. Both
   * conversions scale every date by 1000, so all three are read as seconds
   * (`DATE_TAKEN` included, although MediaStore documents that column in
   * milliseconds); numbers are the 64-bit values SQLite stores; the text
   * columns a projection may read as NULL are options.
   */
  datatype SourceRow = SourceRow(
    id: int, title: string, dateAdded: int, dateModified: int, dateTaken: int,
    size: int, mimeType: string, description: Option<string>, orientation: int,
    height: int, width: int, data: string,
    category: Option<string>, language: Option<string>, tags: Option<string>,
    duration: int, artist: string, album: string, resolution: real)

  /** The value MediaStore reports for a text column it does not know. */
  const UNKNOWN_STRING: string := "<unknown>"

  /** `seconds * 1000` on `Long`: a date in seconds as milliseconds, wrapping on overflow. */
  function ToMillis(seconds: int): (ms: int)
    ensures Jvm.IsLong(ms)
    ensures Jvm.IsLong(seconds * 1000) ==> ms == seconds * 1000
  {
    Jvm.ToLong(seconds * 1000)
  }

  /** `ms / 1000` on `Long`: a date in milliseconds as seconds. */
  function SecondsOf(ms: int): int {
    Jvm.Div1000(ms)
  }

  /** Converting seconds to milliseconds and back is the identity while the product fits a `Long`. */
  lemma MillisRoundTrip(seconds: int)
    requires Jvm.IsLong(seconds * 1000)
    ensures SecondsOf(ToMillis(seconds)) == seconds
  {
    Jvm.Div1000OfMultiple(seconds);
  }

  /** A photo row as the cache stores it, under the MediaStore id. */
  function ToPhoto(row: SourceRow, exif: Option<LatLong>, parentOf: string -> string): (m: Media)
    ensures m.Photo? && m.id == row.id
  {
    Photo(
      id := row.id,
      title := row.title,
      dateAdded := ToMillis(row.dateAdded),
      dateModified := ToMillis(row.dateModified),
      dateTaken := ToMillis(row.dateTaken),
      size := Jvm.ToInt(row.size),
      mimeType := row.mimeType,
      desc := row.description,
      orientation := Jvm.ToInt(row.orientation),
      height := Jvm.ToInt(row.height),
      width := Jvm.ToInt(row.width),
      path := row.data,
      parent := parentOf(row.data),
      latitude := if exif.Some? then exif.value.latitude else 0.0,
      longitude := if exif.Some? then exif.value.longitude else 0.0)
  }
  /**
   * The other columns of a photo: title, mime type, path and description
   * kept, the dates scaled to milliseconds, the ints narrowed (kept
   * while they fit an `Int`), the parent of the path, and the EXIF location
   * or 0.0, 0.0 when the file has none.
   */
  lemma ToPhotoColumns(row: SourceRow, exif: Option<LatLong>, parentOf: string -> string)
    ensures var m := ToPhoto(row, exif, parentOf);
            && m.title == row.title && m.mimeType == row.mimeType
            && m.dateAdded == ToMillis(row.dateAdded) && m.dateModified == ToMillis(row.dateModified)
            && m.dateTaken == ToMillis(row.dateTaken)
            && Jvm.IsInt(m.size) && Jvm.IsInt(m.orientation) && Jvm.IsInt(m.height) && Jvm.IsInt(m.width)
            && (Jvm.IsInt(row.size) ==> m.size == row.size)
            && (Jvm.IsInt(row.orientation) ==> m.orientation == row.orientation)
            && (Jvm.IsInt(row.height) ==> m.height == row.height)
            && (Jvm.IsInt(row.width) ==> m.width == row.width)
            && m.path == row.data && m.parent == parentOf(row.data) && m.desc == row.description
            && (exif.None? ==> m.latitude == 0.0 && m.longitude == 0.0)
            && (exif.Some? ==> m.latitude == exif.value.latitude && m.longitude == exif.value.longitude)
  {
  }


  /** The outcome of one `toInt()` on a metadata string: no string, an `Int`, or a string that does not parse. */
  datatype Reading = Absent | Parsed(value: int) | Malformed

  /**
   * What the metadata retriever yields for a file: either the data source
   * cannot be set, or the location (if any) and the year and rotation strings.
   */
  datatype Probe =
    | Unreadable
    | Readable(location: Option<LatLong>, year: Reading, rotation: Reading)

  /** The values the guarded block leaves behind: location, year, orientation. */
  datatype Metadata = Metadata(location: Option<LatLong>, year: Option<int>, orientation: Option<int>)

  /**
   * The guarded block of the video factory: its steps run in order and the
   * first failure skips the rest, keeping what the earlier steps assigned.
   */
  function Extract(probe: Probe): (md: Metadata)
    ensures probe.Unreadable? ==> md == Metadata(None, None, None)
    ensures probe.Readable? ==> md.location == probe.location
    ensures md.year.Some? <==> probe.Readable? && probe.year.Parsed?
    ensures md.orientation.Some? <==> probe.Readable? && !probe.year.Malformed? && probe.rotation.Parsed?
  {
    match probe
    case Unreadable => Metadata(None, None, None)
    case Readable(location, year, rotation) =>
      var y := if year.Parsed? then Some(year.value) else None;
      if year.Malformed? then Metadata(location, None, None)
      else Metadata(location, y, if rotation.Parsed? then Some(rotation.value) else None)
  }

  /** A video row as the cache stores it, under the MediaStore id. */
  function ToVideo(row: SourceRow, probe: Probe, parentOf: string -> string): (m: Media)
    ensures m.Video? && m.id == row.id
  {
    var md := Extract(probe);
    Video(
      id := row.id,
      title := row.title,
      dateAdded := ToMillis(row.dateAdded),
      dateModified := ToMillis(row.dateModified),
      dateTaken := ToMillis(row.dateTaken),
      size := Jvm.ToInt(row.size),
      mimeType := row.mimeType,
      desc := row.description,
      category := row.category.GetOr(UNKNOWN_STRING),
      language := row.language.GetOr(UNKNOWN_STRING),
      tags := row.tags,
      duration := Jvm.ToInt(row.duration),
      orientation := md.orientation.GetOr(0),
      height := Jvm.ToInt(row.height),
      width := Jvm.ToInt(row.width),
      path := row.data,
      parent := parentOf(row.data),
      latitude := if md.location.Some? then md.location.value.latitude else 0.0,
      longitude := if md.location.Some? then md.location.value.longitude else 0.0,
      artist := row.artist,
      album := row.album,
      resolution := row.resolution,
      year := md.year.GetOr(0))
  }
  /**
   * The cursor columns of a video: title, mime type, path, description,
   * tags, artist, album and resolution kept, the dates scaled, the
   * ints narrowed (kept while they fit an `Int`), the parent of the path,
   * and MediaStore's unknown string for a NULL category or language.
   */
  lemma ToVideoColumns(row: SourceRow, probe: Probe, parentOf: string -> string)
    ensures var m := ToVideo(row, probe, parentOf);
            && m.title == row.title && m.mimeType == row.mimeType
            && m.dateAdded == ToMillis(row.dateAdded) && m.dateModified == ToMillis(row.dateModified)
            && m.dateTaken == ToMillis(row.dateTaken)
            && Jvm.IsInt(m.size) && Jvm.IsInt(m.duration) && Jvm.IsInt(m.height) && Jvm.IsInt(m.width)
            && (Jvm.IsInt(row.size) ==> m.size == row.size)
            && (Jvm.IsInt(row.duration) ==> m.duration == row.duration)
            && (Jvm.IsInt(row.height) ==> m.height == row.height)
            && (Jvm.IsInt(row.width) ==> m.width == row.width)
            && m.resolution == row.resolution
            && m.path == row.data && m.parent == parentOf(row.data) && m.desc == row.description
            && m.category == row.category.GetOr(UNKNOWN_STRING) && m.language == row.language.GetOr(UNKNOWN_STRING)
            && m.tags == row.tags && m.artist == row.artist && m.album == row.album
  {
  }

  /**
   * The retriever's readings of a video, fail-soft: the location when the
   * file has one, else 0.0, 0.0; the year when it parsed, else 0; the
   * rotation when it parsed and the year did not fail first, else 0. An
   * unreadable file gives all zeros.
   */
  lemma ToVideoMetadata(row: SourceRow, probe: Probe, parentOf: string -> string)
    ensures var m := ToVideo(row, probe, parentOf);
            && m.latitude == (if probe.Readable? && probe.location.Some? then probe.location.value.latitude else 0.0)
            && m.longitude == (if probe.Readable? && probe.location.Some? then probe.location.value.longitude else 0.0)
            && m.year == (if probe.Readable? && probe.year.Parsed? then probe.year.value else 0)
            && m.orientation ==
                 (if probe.Readable? && !probe.year.Malformed? && probe.rotation.Parsed? then probe.rotation.value else 0)
  {
  }


  /**
   * Both conversions keep the MediaStore id, and the modification date
   * they store reads back, in seconds, as the row's own date: the cache's
   * `lastModified() / 1000` is comparable with MediaStore's dates.
   */
  lemma ConversionKeepsDate(row: SourceRow, exif: Option<LatLong>, probe: Probe, parentOf: string -> string)
    requires Jvm.IsLong(row.dateModified * 1000)
    ensures SecondsOf(ToPhoto(row, exif, parentOf).dateModified) == row.dateModified
    ensures SecondsOf(ToVideo(row, probe, parentOf).dateModified) == row.dateModified
  {
    MillisRoundTrip(row.dateModified);
  }
}
