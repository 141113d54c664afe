# CSV splitter: chunking and archive assembly

A Dafny model of the processing core of a small CSV splitter application.
An uploaded CSV file is parsed into a table, the table's data rows are cut
into chunks of at most ten rows (`split_csv`), and each chunk is written as
its own CSV file, under the header of the original table, into an in-memory
zip archive inside the folder `split_files`. The files are named after the
upload: `split_files/<stem>1.csv`, `split_files/<stem>2.csv`, and so on,
where the stem is the upload's name without its final extension.

Modules:

- `Naming` (naming.dfy): the stem of the upload name (POSIX
  `os.path.splitext`), the decimal rendering of a chunk index (`str`), the
  POSIX `os.path.join` of the folder and the file name, and the chunk path
  built from them.
- `Chunker` (chunker.dfy): the table (`Table<R>`: header and rows, cells
  left abstract), Python floor division, the chunk count
  `(n - 1) // k + 1`, Python slicing with clamped bounds, `SplitCsv`
  itself, and the lemmas about the chunks it produces.
- `Archiver` (archiver.dfy): archive entries, the open zip archive as a
  class whose `WriteStr` appends an entry, the entry sequence the chunk
  loop produces (`ArchiveEntries`, defined by appending one entry per
  chunk), the loop itself (`BuildArchive`) proved against it, and lemmas
  about the entries.
- `Pipeline` (pipeline.dfy): the fixed chunk size 10 and the whole
  processing step from a parsed table to the archive's entries.

The CSV encoding of a chunk (`convert_df_to_csv`: pandas `to_csv` without
the index column, UTF-8 encoded) is a function-typed parameter `serialize`:
the model says which chunk is serialized into which entry, not how. The
round-trip lemma takes a decoder that inverts the serializer as a
hypothesis.

On the zero-row case: the chunk count `(n - 1) // k + 1` uses Python's
floor division, so for `n = 0` it is `(-1) // k + 1 = 0`. A table with a
header but no data rows therefore gives an archive with no entry (not one
header-only file). This is what the code does, and what `NumChunks` and
`Pipeline.NoRowsNoEntries` state; a reading of the formula that yields one
chunk for zero rows does not match the code. Dafny's `/` is Euclidean,
which agrees with floor division for a positive divisor; `FloorDiv` states
the floor property explicitly.

Since every operation is a function of its inputs, or a method whose
postcondition pins its result to such a function, running the pipeline
twice on the same table and upload name gives the same entries.

## Model

| member | source | states |
|---|---|---|
| `Pipeline.ChunkSize` | main.py:55 | The chunk size the handler passes, 10; used throughout `ProcessUpload`, `EntryHoldsRows` and `TooManyRowsNoArchive`. |
| `Chunker.FloorDiv` | main.py:19 | The result is the floor of `a / b` for a positive divisor (`b*q <= a < b*(q+1)`), including negative `a`, as Python's `//`. |
| `Chunker.NumChunks` | main.py:19 | `(n-1)//k + 1` is `ceil(n/k)`: `(c-1)*k < n <= c*k`, and it is zero exactly when there are no rows. |
| `Chunker.Slice` | main.py:21 | A Python slice with clamped bounds: its length is `min(hi,n) - lo` (or 0) and element `j` is `s[lo + j]`. |
| `Chunker.SplitCsv` | main.py:7-21 | `split_csv` returns `NumChunks(n, k)` chunks, and every chunk carries the original column header unchanged. |
| `Chunker.ChunkStartInRange` | main.py:19-21 | Every chunk index `i < NumChunks(n,k)` starts inside the table: `i*k < n`. |
| `Chunker.ChunkRows` | main.py:21 | Chunk `i` is exactly rows `[i*k, min((i+1)*k, n))` under the original header, and that range is non-empty. |
| `Chunker.ChunkSizes` | main.py:19-21 | Every chunk but the last has exactly `k` rows; the last has `n - k*(N-1)` rows, between 1 and `k`. |
| `Chunker.ConcatPrefix` | main.py:21 | The first `j` chunks, concatenated, are the first `min(j*k, n)` rows of the table. |
| `Chunker.ConcatChunks` | main.py:21 | Concatenating all chunks in order gives back the table's rows: nothing dropped, duplicated or reordered. |
| `Naming.LastIndexOf` | main.py:66 | Python's `rfind`: -1 or an index holding the character, with no occurrence after it. |
| `Naming.SplitExt` | main.py:66 | `os.path.splitext`: stem + extension is the name; the extension is empty or a '.' followed by text with no '.' and no '/'. |
| `Naming.NonDotFound` | main.py:66 | When the scan over the final component does not find it all dots, there is a non-dot character in the scanned range. |
| `Naming.SplitExtKeepsName` | main.py:66 | An extension is split off only when the final component has a non-dot character before it, so a hidden name keeps its leading dot. |
| `Naming.Stem` | main.py:66 | The stem is a prefix of the upload name. |
| `Naming.SplitExtOfFileName` | main.py:66 | For a plain file name `base.ext` (no '/', base not all dots, no '.' in ext) the stem is `base` and the extension `.ext`. |
| `Naming.SplitExtWithoutDot` | main.py:66 | A name without '.' has no extension: the stem is the whole name. |
| `Naming.SplitExtOfHiddenName` | main.py:66 | A name such as `.csv` (one leading dot, no other '.' or '/') has no extension. |
| `Naming.Decimal` | main.py:68 | `str(idx)` is a non-empty string of decimal digits without a leading zero. |
| `Naming.ParseDecimalOfDecimal` | main.py:68 | Reading the decimal rendering of `n` back gives `n`. |
| `Naming.DecimalInjective` | main.py:64-68 | Different chunk indices render as different strings. |
| `Naming.Join` | main.py:70 | POSIX `os.path.join`: an absolute file name replaces the folder; otherwise the name follows the folder after one '/' (no '/' is added when the folder already ends in one). |
| `Naming.FolderName` | main.py:62 | The folder inside the archive, `"split_files"`; its use is stated by `ChunkPathInFolder`. |
| `Naming.ChunkFileName` | main.py:68 | The f-string `f"{stem}{idx}.csv"`: it begins with the stem and ends in ".csv". |
| `Naming.ChunkFileNameIndex` | main.py:68 | Between the stem and ".csv" the file name holds only digits, and they read back as the chunk index. |
| `Naming.ChunkPath` | main.py:68-70 | The chunk's path is `split_files/` followed by its file name, or the file name alone when the stem is absolute; its meaning is stated by `ChunkPathInFolder`, `ChunkPathSplit` and `ChunkPathsDistinct`. |
| `Naming.ChunkPathInFolder` | main.py:62-70 | For a stem that is not an absolute path, the path of chunk `idx` is `"split_files/" + stem + str(idx) + ".csv"`. |
| `Naming.ChunkPathSplit` | main.py:62-70 | Every chunk path is the same prefix (folder and stem, or the stem alone if absolute), then `str(idx)`, then ".csv". |
| `Naming.ChunkPathsDistinct` | main.py:64-70 | Two different chunk indices never give the same path. |
| `Archiver.ZipArchive.constructor` | main.py:59-60 | An archive opened over an empty buffer has no entries. |
| `Archiver.ZipArchive.WriteStr` | main.py:74 | `writestr` on the archive opened at main.py:60 without ZIP64 extensions passes its entry-count and file-size checks exactly when fewer than 65,535 entries exist and the data fits `SizeFits` (the 5% margin of `zipfile`); it then appends exactly one entry (path, bytes) after the existing ones, and otherwise leaves the entries unchanged. |
| `Archiver.ArchiveEntries` | main.py:64-74 | The entries the loop writes: exactly as many as there are chunks; what each entry holds is stated by `ArchiveEntryOf`, `ArchiveEntryAt` and `ArchivePathsDistinct`. |
| `Archiver.SizeFits` | main.py:60 | A file may be written without ZIP64 extensions when `n * 1.05 <= 2**31 - 1` (and `n <= 2**31 - 1`); `SizeFitsBound` gives the threshold. |
| `Archiver.SizeFitsBound` | main.py:60 | The largest file that fits is 2,045,222,520 bytes: `SizeFits(n)` holds exactly for `n <= 2045222520`. |
| `Archiver.ArchiveFits` | main.py:60-74 | The loop's writes pass the modelled entry-count and file-size checks of an archive opened with `allowZip64=False`: at most 65,535 chunks, each serialized chunk fitting `SizeFits`. |
| `Archiver.ArchiveEntryOf` | main.py:64-74 | Entry `j` has the path of file number `j+1` and holds the serialization of chunk `j`. |
| `Archiver.ArchiveEntryAt` | main.py:64-74 | One entry per chunk, in chunk order: entry `j` has the path of file number `j+1` and the serialization of chunk `j`. |
| `Archiver.ArchivePathsDistinct` | main.py:64-74 | No two entries of the archive share a path. |
| `Archiver.BuildArchive` | main.py:59-74 | The enumerate-from-1 loop completes exactly when every write passes the modelled entry-count and file-size checks (`ArchiveFits`), and then has written exactly `ArchiveEntries(chunks, stem, serialize)`: one entry per chunk, path `Join("split_files", stem + str(j+1) + ".csv")`, content `serialize(chunk j)`. |
| `Archiver.ArchiveRoundTrip` | main.py:21-33 | With a decoder that inverts the serializer, decoding the entries in order gives chunks whose rows concatenate to the table's rows and whose headers are the table's header. |
| `Pipeline.ProcessUpload` | main.py:55-74 | An archive is built exactly when the chunks pass the modelled entry-count and file-size checks (`ArchiveFits`), never for more than 655,350 rows; it then has `ceil(n/10)` entries, and entry `j` is file `j+1` and holds rows `[10j, min(10j+10, n))` under the header. |
| `Pipeline.EntryHoldsRows` | main.py:55-74 | Entry `j` of the archive of a table split in chunks of 10 is file `j+1` and holds the non-empty row range `[10j, min(10j+10, n))` under the header. |
| `Pipeline.TooManyRowsNoArchive` | main.py:55-60 | More than 655,350 rows need more than 65,535 chunk files, so the archive's limits are exceeded. |
| `Pipeline.NoRowsNoEntries` | main.py:19-21 | A table with no data rows yields an archive with no entries. |
| `Pipeline.TwentyFiveRowsChunks` | main.py:7-21 | 25 rows split in chunks of 10 give exactly three chunks: rows 0-9, 10-19 and 20-24, each under the header. |
| `Pipeline.TwentyFiveRows` | main.py:55-74 | 25 rows yield three chunks of 10, 10 and 5 rows, and three entries: files 1, 2 and 3 holding rows 0-9, 10-19 and 20-24 under the header. |

## Left out

- The user interface (title, upload widget, table preview, messages, download button, error banner), main.py:36-56 and main.py:80-88: presentation only.
- Parsing the upload with `pd.read_csv` (main.py:47): a foreign library; the parsed table is the model's input, with its cells left abstract.
- The CSV text produced by `to_csv` and its UTF-8 encoding (main.py:33): library behaviour; it is the `serialize` parameter.
- The zip container format, DEFLATE compression and the `BytesIO` buffer and `seek` (main.py:59-60, main.py:77): the archive is modelled by its ordered list of (path, content) entries.
- `os.path.join` and `os.path.splitext` are modelled with the POSIX separator '/' only; on Windows (`ntpath`) both also treat '\\' (and a drive prefix) as a separator, so an upload name containing '\\' gets a different stem and the paths differ.
- The broad exception handler (main.py:87-88): a `LargeZipFile` raised by `writestr` for the entry-count or file-size limit is modelled as the `None` result; other errors raised by the library calls are not modelled.
- Archiver.ZipArchive.WriteStr: the third `LargeZipFile` condition of `writestr` (the entry's offset in the archive past `2**31 - 1` bytes) and the compressed-size check when an entry is closed are not modelled, because both depend on the DEFLATE output; the model builds an archive where the source fails once the compressed archive passes 2 GiB.
- Archiver.ZipArchive.WriteStr: `zipfile` cuts an entry name at its first NUL character and turns the platform separator into '/'; the model keeps the path as given (an upload name with a NUL is not considered).
- Archiver.ArchiveFits: covers only the entry-count and file-size checks; it does not include the offset and compressed-size checks above, so it can hold for chunks the source refuses once the compressed archive passes 2 GiB.
- Archiver.BuildArchive: inherits the gap of `ArchiveFits`: it returns an archive where the source would fail once the compressed archive passes 2 GiB.
- Pipeline.ProcessUpload: inherits the same gap, so it returns an archive where the source would fail for a compressed archive past 2 GiB.
- A chunk size of zero or less: the handler always passes 10, so `SplitCsv` and `NumChunks` require `k > 0` (zero would raise `ZeroDivisionError` at main.py:19).
