/** Archive assembly: one entry per chunk, appended in chunk order to an
    in-memory zip archive under the folder `split_files`. The archive is
    modelled by the logical sequence of its entries (path and content); the
    container format and compression are not modelled. */
module Archiver {
  import opened Naming
  import opened Chunker

  type Bytes = seq<bv8>

  /** One file of the archive: its path inside the archive and its bytes. */
  datatype Entry = Entry(path: string, data: Bytes)

  datatype Option<T> = None | Some(value: T)

  /** `zipfile`'s `ZIP_FILECOUNT_LIMIT`, `(1 << 16) - 1`: the most entries an
      archive without ZIP64 extensions can hold. */
  const ZipFileCountLimit: nat := 65535

  /** `zipfile`'s `ZIP64_LIMIT`, `(1 << 31) - 1`: the largest file size an
      archive without ZIP64 extensions can record. */
  const Zip64Limit: nat := 0x7FFF_FFFF

  /** Whether a file of `n` bytes may be written to an archive without ZIP64
      extensions. Before its own limit checks, `zipfile` asks for ZIP64 as
      soon as `n * 1.05 > ZIP64_LIMIT`, leaving a 5% margin for the
      compressed size; the floating-point product is at least 0.04 away from
      the limit at every integer, so the exact rational test is the same. */
  predicate SizeFits(n: nat) {
    n * 105 <= Zip64Limit * 100 && n <= Zip64Limit
  }

  /** The largest file that fits is 2,045,222,520 bytes, well below
      `Zip64Limit`. */
  lemma SizeFitsBound(n: nat)
    ensures SizeFits(n) <==> n <= 2_045_222_520
  {
  }

  /** The open zip archive, created with `allowZip64=False`. */
  class ZipArchive {
    var entries: seq<Entry>

    /** A new archive over an empty buffer holds no entry. */
    constructor ()
      ensures entries == []
    {
      entries := [];
    }

    /** `zip_file.writestr(path, data)`: appends the entry (a repeated path is
        appended again). Without ZIP64 extensions the write is refused, with
        `LargeZipFile`, when the data does not fit (`SizeFits`) or the archive
        already holds `ZipFileCountLimit` entries; `ok` is false then and
        nothing is written. */
    method WriteStr(path: string, data: Bytes) returns (ok: bool)
      modifies this
      ensures ok <==> |old(entries)| < ZipFileCountLimit && SizeFits(|data|)
      ensures entries == if ok then old(entries) + [Entry(path, data)] else old(entries)
    {
      var needsZip64 := |data| * 105 > Zip64Limit * 100;
      ok := !needsZip64 && |entries| < ZipFileCountLimit && |data| <= Zip64Limit;
      if ok {
        entries := entries + [Entry(path, data)];
      }
    }
  }

  /** Whether every write of the chunk loop passes the modelled limits of
      the archive: at most `ZipFileCountLimit` chunks, none serialized to a
      size that fails `SizeFits`. */
  predicate ArchiveFits<R>(chunks: seq<Table<R>>, serialize: Table<R> -> Bytes) {
    |chunks| <= ZipFileCountLimit &&
    forall j :: 0 <= j < |chunks| ==> SizeFits(|serialize(chunks[j])|)
  }

  /** The entries the chunk loop writes, as a definition by appending: the
      entries of all chunks but the last, followed by the last chunk's entry,
      numbered by its 1-based position. `serialize` stands for the CSV
      encoding of one chunk. */
  function ArchiveEntries<R>(chunks: seq<Table<R>>, stem: string, serialize: Table<R> -> Bytes): (es: seq<Entry>)
    ensures |es| == |chunks|
  {
    if |chunks| == 0 then []
    else
      var n := |chunks|;
      ArchiveEntries(chunks[..n - 1], stem, serialize) + [Entry(ChunkPath(stem, n), serialize(chunks[n - 1]))]
  }

  /** Entry `j` (0-based) is chunk `j + 1`'s file, holding that chunk's CSV. */
  lemma {:induction false} ArchiveEntryOf<R>(chunks: seq<Table<R>>, stem: string, serialize: Table<R> -> Bytes, j: nat)
    requires j < |chunks|
    ensures |ArchiveEntries(chunks, stem, serialize)| == |chunks|
    ensures ArchiveEntries(chunks, stem, serialize)[j] == Entry(ChunkPath(stem, j + 1), serialize(chunks[j]))
  {
    var n := |chunks|;
    if j < n - 1 {
      ArchiveEntryOf(chunks[..n - 1], stem, serialize, j);
    }
  }

  /** There is one entry per chunk, in chunk order: entry `j` (0-based) is
      chunk `j + 1`'s file, holding that chunk's CSV. */
  lemma ArchiveEntryAt<R>(chunks: seq<Table<R>>, stem: string, serialize: Table<R> -> Bytes)
    ensures |ArchiveEntries(chunks, stem, serialize)| == |chunks|
    ensures forall j :: 0 <= j < |chunks| ==>
      ArchiveEntries(chunks, stem, serialize)[j] == Entry(ChunkPath(stem, j + 1), serialize(chunks[j]))
  {
    forall j | 0 <= j < |chunks|
      ensures ArchiveEntries(chunks, stem, serialize)[j] == Entry(ChunkPath(stem, j + 1), serialize(chunks[j]))
    {
      ArchiveEntryOf(chunks, stem, serialize, j);
    }
  }

  /** Writing chunk `idx` (1-based) extends the entries of the chunks before it. */
  lemma AppendEntry<R>(chunks: seq<Table<R>>, idx: nat, stem: string, serialize: Table<R> -> Bytes)
    requires 1 <= idx <= |chunks|
    ensures ArchiveEntries(chunks[..idx], stem, serialize) ==
      ArchiveEntries(chunks[..idx - 1], stem, serialize) + [Entry(ChunkPath(stem, idx), serialize(chunks[idx - 1]))]
  {
    assert chunks[..idx][..idx - 1] == chunks[..idx - 1];
  }

  /** No two entries share a path. */
  lemma ArchivePathsDistinct<R>(chunks: seq<Table<R>>, stem: string, serialize: Table<R> -> Bytes)
    ensures forall i, j :: 0 <= i < j < |ArchiveEntries(chunks, stem, serialize)| ==>
      ArchiveEntries(chunks, stem, serialize)[i].path != ArchiveEntries(chunks, stem, serialize)[j].path
  {
    var es := ArchiveEntries(chunks, stem, serialize);
    forall i, j | 0 <= i < j < |es| ensures es[i].path != es[j].path {
      ArchiveEntryOf(chunks, stem, serialize, i);
      ArchiveEntryOf(chunks, stem, serialize, j);
      ChunkPathsDistinct(stem, i + 1, j + 1);
    }
  }

  /** The loop of the upload handler: for each chunk, numbered from 1, it
      takes the stem of the upload name, builds the chunk's path under
      `split_files`, serializes the chunk and writes it to a fresh archive.
      A refused write raises, which abandons the archive: the result is
      `None` exactly when some write exceeds the archive's limits. */
  method BuildArchive<R>(chunks: seq<Table<R>>, uploadName: string, serialize: Table<R> -> Bytes)
    returns (archive: Option<seq<Entry>>)
    ensures archive.Some? <==> ArchiveFits(chunks, serialize)
    ensures archive.Some? ==> archive.value == ArchiveEntries(chunks, Stem(uploadName), serialize)
    ensures archive.Some? ==> (
      |archive.value| == |chunks| &&
      forall j :: 0 <= j < |chunks| ==>
        archive.value[j].path == ChunkPath(Stem(uploadName), j + 1) &&
        archive.value[j].data == serialize(chunks[j]))
  {
    ghost var stem := Stem(uploadName);
    var zip := new ZipArchive();
    var idx := 1;
    while idx <= |chunks|
      invariant 1 <= idx <= |chunks| + 1
      invariant idx - 1 <= ZipFileCountLimit
      invariant forall j :: 0 <= j < idx - 1 ==> SizeFits(|serialize(chunks[j])|)
      invariant zip.entries == ArchiveEntries(chunks[..idx - 1], stem, serialize)
    {
      var splitTable := chunks[idx - 1];
      var originalFilename := Stem(uploadName);
      var newFilename := ChunkFileName(originalFilename, idx);
      var zipPath := Join(FolderName, newFilename);
      var csvBytes := serialize(splitTable);
      assert zipPath == ChunkPath(stem, idx);
      var ok := zip.WriteStr(zipPath, csvBytes);
      if !ok {
        assert |zip.entries| == idx - 1;
        assert idx - 1 >= ZipFileCountLimit || !SizeFits(|serialize(chunks[idx - 1])|);
        assert !ArchiveFits(chunks, serialize);
        return None;
      }
      AppendEntry(chunks, idx, stem, serialize);
      idx := idx + 1;
    }
    assert chunks[..|chunks|] == chunks;
    archive := Some(zip.entries);
    ArchiveEntryAt(chunks, stem, serialize);
  }

  /** Reading the archive back, with a decoder that inverts the serializer,
      gives chunks whose rows, concatenated in entry order, are the table's
      rows, and whose headers are all the table's header. */
  lemma ArchiveRoundTrip<R>(t: Table<R>, k: int, stem: string, serialize: Table<R> -> Bytes, decode: Bytes -> Table<R>)
    requires k > 0
    requires forall x :: decode(serialize(x)) == x
    ensures var entries := ArchiveEntries(SplitCsv(t, k), stem, serialize);
      var decoded := seq(|entries|, j requires 0 <= j < |entries| => decode(entries[j].data));
      ConcatRows(decoded) == t.rows &&
      forall j :: 0 <= j < |decoded| ==> decoded[j].header == t.header
  {
    var chunks := SplitCsv(t, k);
    var entries := ArchiveEntries(chunks, stem, serialize);
    ArchiveEntryAt(chunks, stem, serialize);
    var decoded := seq(|entries|, j requires 0 <= j < |entries| => decode(entries[j].data));
    assert decoded == chunks;
    ConcatChunks(t, k);
  }
}
