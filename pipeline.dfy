/** The upload handler's processing, without its user interface: the parsed
    table is split into chunks of ten rows and the chunks are written to the
    archive, named after the uploaded file. */
module Pipeline {
  import opened Naming
  import opened Chunker
  import opened Archiver

  /** The chunk size the handler passes to `split_csv`. */
  const ChunkSize: int := 10

  /** Split the table into chunks of `ChunkSize` rows and build the archive.
      The archive is built exactly when every write fits the archive's limits
      (never for more than `ZipFileCountLimit * ChunkSize` rows). It then has
      `ceil(n / ChunkSize)` entries (none for a table without data rows);
      entry `j` is file number `j + 1` and holds rows
      `[ChunkSize*j, min(ChunkSize*(j + 1), n))` under the table's header. */
  method ProcessUpload<R>(t: Table<R>, uploadName: string, serialize: Table<R> -> Bytes)
    returns (archive: Option<seq<Entry>>)
    ensures archive.Some? <==> ArchiveFits(SplitCsv(t, ChunkSize), serialize)
    ensures |t.rows| > ZipFileCountLimit * ChunkSize ==> archive.None?
    ensures archive.Some? ==>
      (|archive.value| - 1) * ChunkSize < |t.rows| <= |archive.value| * ChunkSize
    ensures archive.Some? ==> forall j :: 0 <= j < |archive.value| ==>
      archive.value[j].path == ChunkPath(Stem(uploadName), j + 1) &&
      archive.value[j].data ==
        serialize(Table(t.header, t.rows[j * ChunkSize..Min(j * ChunkSize + ChunkSize, |t.rows|)]))
    ensures archive.Some? ==>
      archive.value == ArchiveEntries(SplitCsv(t, ChunkSize), Stem(uploadName), serialize)
  {
    var splitTables := SplitCsv(t, ChunkSize);
    archive := BuildArchive(splitTables, uploadName, serialize);
    if |t.rows| > ZipFileCountLimit * ChunkSize {
      TooManyRowsNoArchive(t, serialize);
    }
    if archive.Some? {
      var entries := archive.value;
      forall j | 0 <= j < |entries|
        ensures entries[j].data ==
          serialize(Table(t.header, t.rows[j * ChunkSize..Min(j * ChunkSize + ChunkSize, |t.rows|)]))
      {
        EntryHoldsRows(t, Stem(uploadName), serialize, j);
      }
    }
  }

  /** Entry `j` of the archive is file number `j + 1` and holds rows
      `[ChunkSize*j, min(ChunkSize*(j + 1), n))` under the table's header. */
  lemma EntryHoldsRows<R>(t: Table<R>, stem: string, serialize: Table<R> -> Bytes, j: nat)
    requires j < |SplitCsv(t, ChunkSize)|
    ensures j * ChunkSize < Min(j * ChunkSize + ChunkSize, |t.rows|)
    ensures ArchiveEntries(SplitCsv(t, ChunkSize), stem, serialize)[j] ==
      Entry(ChunkPath(stem, j + 1),
            serialize(Table(t.header, t.rows[j * ChunkSize..Min(j * ChunkSize + ChunkSize, |t.rows|)])))
  {
    ChunkRows(t, ChunkSize, j);
    assert (j + 1) * ChunkSize == j * ChunkSize + ChunkSize;
    ArchiveEntryOf(SplitCsv(t, ChunkSize), stem, serialize, j);
  }

  /** More than `ZipFileCountLimit * ChunkSize` (655,350) rows need more
      chunk files than an archive without ZIP64 extensions can hold, so no
      archive is built. */
  lemma TooManyRowsNoArchive<R>(t: Table<R>, serialize: Table<R> -> Bytes)
    requires |t.rows| > ZipFileCountLimit * ChunkSize
    ensures |SplitCsv(t, ChunkSize)| > ZipFileCountLimit
    ensures !ArchiveFits(SplitCsv(t, ChunkSize), serialize)
  {
    var c := |SplitCsv(t, ChunkSize)|;
    assert c * ChunkSize >= |t.rows|;
  }

  /** A table without data rows (only a header) gives an archive with no
      entry at all, not one header-only file. */
  lemma NoRowsNoEntries<R>(t: Table<R>, stem: string, serialize: Table<R> -> Bytes)
    requires |t.rows| == 0
    ensures ArchiveEntries(SplitCsv(t, ChunkSize), stem, serialize) == []
  {
    ArchiveEntryAt(SplitCsv(t, ChunkSize), stem, serialize);
  }

  /** 25 rows give three chunks: rows 0-9, 10-19 and 20-24, each under the
      table's header. */
  lemma TwentyFiveRowsChunks<R>(t: Table<R>)
    requires |t.rows| == 25
    ensures var chunks := SplitCsv(t, ChunkSize);
      |chunks| == 3 &&
      chunks[0] == Table(t.header, t.rows[0..10]) &&
      chunks[1] == Table(t.header, t.rows[10..20]) &&
      chunks[2] == Table(t.header, t.rows[20..25])
  {
    var chunks := SplitCsv(t, ChunkSize);
    assert |chunks| == 3 by {
      assert ChunkSize == 10;
      assert NumChunks(25, 10) == 3;
    }
    assert 0 * ChunkSize == 0 && 1 * ChunkSize == 10 && 2 * ChunkSize == 20 && 3 * ChunkSize == 30;
    ChunkRows(t, ChunkSize, 0);
    ChunkRows(t, ChunkSize, 1);
    ChunkRows(t, ChunkSize, 2);
  }

  /** 25 rows give three files, numbered 1 to 3, holding rows 0-9, 10-19
      and 20-24 under the table's header. */
  lemma TwentyFiveRows<R>(t: Table<R>, stem: string, serialize: Table<R> -> Bytes)
    requires |t.rows| == 25
    ensures var chunks := SplitCsv(t, ChunkSize);
      |chunks| == 3 && |chunks[0].rows| == 10 && |chunks[1].rows| == 10 && |chunks[2].rows| == 5
    ensures var entries := ArchiveEntries(SplitCsv(t, ChunkSize), stem, serialize);
      |entries| == 3 &&
      entries[0] == Entry(ChunkPath(stem, 1), serialize(Table(t.header, t.rows[0..10]))) &&
      entries[1] == Entry(ChunkPath(stem, 2), serialize(Table(t.header, t.rows[10..20]))) &&
      entries[2] == Entry(ChunkPath(stem, 3), serialize(Table(t.header, t.rows[20..25])))
  {
    var chunks := SplitCsv(t, ChunkSize);
    var entries := ArchiveEntries(chunks, stem, serialize);
    TwentyFiveRowsChunks(t);
    ArchiveEntryOf(chunks, stem, serialize, 0);
    assert entries[0] == Entry(ChunkPath(stem, 1), serialize(chunks[0]));
    ArchiveEntryOf(chunks, stem, serialize, 1);
    assert entries[1] == Entry(ChunkPath(stem, 2), serialize(chunks[1]));
    ArchiveEntryOf(chunks, stem, serialize, 2);
    assert entries[2] == Entry(ChunkPath(stem, 3), serialize(chunks[2]));
  }
}
