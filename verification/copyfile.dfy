/**
 * `copyFileInZip`: an entry is written again under a fresh header built from
 * its name, method and modification time, and its content is copied over.
 */
module CopyFile {
  import opened Wrappers
  import opened Archive
  import opened Errors
  import opened Seqs

  /**
   * What a copy of `e` looks like once written: the same entry, except that
   * `archive/zip` stores every directory whatever method it was read with.
   */
  function AsWritten(e: Entry): Entry {
    if IsDirectory(e.name) then e.(compression := Store) else e
  }

  /** The copies of a listing, element by element. */
  function AsWrittenAll(entries: seq<Entry>): (r: seq<Entry>)
    ensures |r| == |entries|
    ensures forall k | 0 <= k < |entries| :: r[k] == AsWritten(entries[k])
  {
    seq(|entries|, k requires 0 <= k < |entries| => AsWritten(entries[k]))
  }

  /**
   * Copying succeeds exactly for a readable entry, and then reproduces it:
   * same name, method, time and content, except that a directory is stored.
   */
  function CopyEntry(e: Entry): (r: Result<Entry, Failure>)
    ensures r.Ok? <==> Readable(e)
    ensures r.Ok? ==> r.value == AsWritten(e)
    ensures r.Ok? && !IsDirectory(e.name) ==> r.value == e
    ensures r.Err? ==> r == Err(Open(e).error)
  {
    var data :- Open(e);
    Create(e.name, e.compression, e.modified, data)
  }

  /**
   * The copy loop over a listing: every entry is copied in order, and the
   * first entry that cannot be read ends the loop with the reason it gives.
   */
  function CopyAll(entries: seq<Entry>): (r: Result<seq<Entry>, Failure>)
    ensures r.Ok? <==> AllReadable(entries)
    ensures r.Ok? ==> r.value == AsWrittenAll(entries)
    ensures r.Err? ==> exists k :: FirstUnreadable(entries, k) && r.error == Open(entries[k]).error
  {
    var r := MapAll(entries, CopyEntry);
    if r.Err? then
      ghost var k :| 0 <= k < |entries| && CopyEntry(entries[k]) == Err(r.error)
        && forall j | 0 <= j < k :: CopyEntry(entries[j]).Ok?;
      assert FirstUnreadable(entries, k);
      r
    else r
  }

  /** A listing without directories is copied unchanged. */
  lemma AsWrittenKeepsFiles(entries: seq<Entry>)
    requires forall k | 0 <= k < |entries| :: !IsDirectory(entries[k].name)
    ensures AsWrittenAll(entries) == entries
  {
  }
}
