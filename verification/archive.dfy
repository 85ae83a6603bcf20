/**
 * An archive (the outer zip or the nested jar) as the program sees it through
 * `archive/zip`: an ordered list of entries, each reduced to the header fields
 * the program reads or writes and its decompressed content.
 *
 * The two entry-level calls the program makes are modelled with the rules
 * `archive/zip` applies to them: `File.Open` (read an entry's content) and
 * `Writer.CreateHeader` followed by writes (add an entry). Both know only the
 * Store and Deflate methods, and both treat a name ending in "/" as a
 * directory, which has no data and is always stored.
 */
module Archive {
  import opened Wrappers
  import opened Text
  import opened Errors

  /** A zip compression method, a 16-bit code as in `zip.FileHeader.Method`. */
  newtype Method = x: int | 0 <= x < 0x1_0000

  /** `zip.Store`: no compression. */
  const Store: Method := 0

  /** `zip.Deflate`: the method the program uses for every entry it rewrites. */
  const Deflate: Method := 8

  /** An entry's modification time; the program only ever copies it. */
  datatype Timestamp = Timestamp(unixNanos: int)

  /**
   * Decompressed content of an entry. Each element stands for one byte of the
   * Go `[]byte`/`string` holding it.
   */
  type Data = string

  /** One archive entry: full archive-relative name, method, time, content. */
  datatype Entry = Entry(name: string, compression: Method, modified: Timestamp, content: Data)

  /** `archive/zip` treats a name ending in "/" as a directory. */
  predicate IsDirectory(name: string) {
    HasSuffix(name, "/")
  }

  /** The methods `archive/zip` registers a compressor and a decompressor for. */
  predicate Supported(m: Method) {
    m == Store || m == Deflate
  }

  /** The entry can be opened and read to the end. */
  predicate Readable(e: Entry) {
    if IsDirectory(e.name) then e.content == [] else Supported(e.compression)
  }

  /** Every entry of the listing can be read. */
  predicate AllReadable(entries: seq<Entry>) {
    forall k | 0 <= k < |entries| :: Readable(entries[k])
  }

  /** `k` is the first entry of the listing that cannot be read. */
  predicate FirstUnreadable(entries: seq<Entry>, k: int) {
    0 <= k < |entries| && !Readable(entries[k])
    && forall j | 0 <= j < k :: Readable(entries[j])
  }

  /**
   * `File.Open` and reading to the end: a directory reads as empty and fails
   * if it carries data; any other entry needs a known method.
   */
  function Open(e: Entry): (r: Result<Data, Failure>)
    ensures r.Ok? <==> Readable(e)
    ensures r.Ok? ==> r.value == e.content
    ensures r.Err? && IsDirectory(e.name) ==> r.error == MalformedDirectory
    ensures r.Err? && !IsDirectory(e.name) ==> r.error == UnsupportedMethod
  {
    if IsDirectory(e.name) then
      if e.content == [] then Ok([]) else Err(MalformedDirectory)
    else if Supported(e.compression) then Ok(e.content)
    else Err(UnsupportedMethod)
  }

  /**
   * `Writer.CreateHeader` with the given name, method `m` and time, then writing
   * `data`: a directory name forces Store and accepts no data; any other name
   * needs a known method.
   */
  function Create(name: string, m: Method, modified: Timestamp, data: Data): (r: Result<Entry, Failure>)
    ensures r.Ok? <==> (if IsDirectory(name) then data == [] else Supported(m))
    ensures r.Ok? ==> r.value.name == name && r.value.modified == modified && r.value.content == data
    ensures r.Ok? ==> r.value.compression == (if IsDirectory(name) then Store else m)
  {
    if IsDirectory(name) then
      if data == [] then Ok(Entry(name, Store, modified, [])) else Err(WriteToDirectory)
    else if Supported(m) then Ok(Entry(name, m, modified, data))
    else Err(UnsupportedMethod)
  }
}
