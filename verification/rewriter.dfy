/**
 * The nested-jar rewrite of `main`: every entry of the jar is written again
 * in its original order; entries named plugin.xml go through
 * `processPluginXml`, all others through `copyFileInZip`. The run stops at
 * the first entry that cannot be read, and after the loop if the jar held no
 * plugin.xml at all.
 */
module Rewriter {
  import opened Wrappers
  import opened Seqs
  import opened Paths
  import opened Archive
  import opened Errors
  import opened Descriptor
  import opened CopyFile

  const DescriptorName: string := "plugin.xml"

  /** The entry is a plugin descriptor: its base name is exactly "plugin.xml". */
  predicate IsDescriptor(e: Entry) {
    BaseName(e.name) == DescriptorName
  }

  /** Some entry of the listing is a plugin descriptor. */
  predicate HasDescriptor(entries: seq<Entry>) {
    exists k | 0 <= k < |entries| :: IsDescriptor(entries[k])
  }

  /**
   * `processPluginXml`: the entry is read, patched, and written under its
   * own name and time, deflated. It fails exactly when the entry cannot be
   * read; a directory named plugin.xml reads as empty and stays stored.
   */
  function PatchEntry(e: Entry): (r: Result<Entry, Failure>)
    ensures r.Ok? <==> Readable(e)
    ensures r.Err? ==> r == Err(Open(e).error)
    ensures r.Ok? ==> r.value.name == e.name && r.value.modified == e.modified
    ensures r.Ok? && !IsDirectory(e.name) ==>
      r.value.compression == Deflate && r.value.content == Patch(e.content)
    ensures r.Ok? && IsDirectory(e.name) ==> r.value.compression == Store && r.value.content == []
  {
    var text :- Open(e);
    Create(e.name, Deflate, e.modified, Patch(text))
  }

  /**
   * `out` is what the loop writes for `e`: same name and time; a directory
   * stored and empty; a plugin.xml file deflated with its text patched; any
   * other file unchanged.
   */
  predicate IsEntryRewrite(e: Entry, out: Entry) {
    && out.name == e.name
    && out.modified == e.modified
    && (IsDirectory(e.name) ==> out.compression == Store && out.content == [])
    && (!IsDirectory(e.name) && IsDescriptor(e) ==>
          out.compression == Deflate && out.content == Patch(e.content))
    && (!IsDirectory(e.name) && !IsDescriptor(e) ==> out == e)
  }

  /** One pass of the loop body: plugin.xml goes through the patch, anything else is copied. */
  function RewriteEntry(e: Entry): (r: Result<Entry, Failure>)
    ensures r.Ok? <==> Readable(e)
    ensures r.Ok? ==> IsEntryRewrite(e, r.value)
    ensures r.Err? ==> r == Err(Open(e).error)
  {
    if IsDescriptor(e) then PatchEntry(e) else CopyEntry(e)
  }

  /** `out` is a rewrite of `inner`, entry by entry, in the same order. */
  predicate IsRewriteOf(inner: seq<Entry>, out: seq<Entry>) {
    |out| == |inner| && forall k | 0 <= k < |inner| :: IsEntryRewrite(inner[k], out[k])
  }

  /**
   * The loop over the nested entries: every entry is rewritten in order; the
   * first entry that cannot be read ends the loop with the reason it gives.
   */
  function RewriteAll(inner: seq<Entry>): (r: Result<seq<Entry>, Failure>)
    ensures r.Ok? <==> AllReadable(inner)
    ensures r.Ok? ==> IsRewriteOf(inner, r.value)
    ensures r.Err? ==> exists k :: FirstUnreadable(inner, k) && r.error == Open(inner[k]).error
  {
    var r := MapAll(inner, RewriteEntry);
    if r.Err? then
      ghost var k :| 0 <= k < |inner| && RewriteEntry(inner[k]) == Err(r.error)
        && forall j | 0 <= j < k :: RewriteEntry(inner[j]).Ok?;
      assert FirstUnreadable(inner, k);
      r
    else r
  }

  /**
   * The rewritten jar listing. The loop runs first and stops at an entry it
   * cannot read; only after it completes is the absence of plugin.xml
   * reported as DescriptorNotFound.
   */
  function RewriteJar(inner: seq<Entry>): (r: Result<seq<Entry>, Failure>)
    ensures r.Ok? <==> AllReadable(inner) && HasDescriptor(inner)
    ensures AllReadable(inner) && !HasDescriptor(inner) ==> r == Err(DescriptorNotFound)
    ensures !AllReadable(inner) ==>
      r.Err? && exists k :: FirstUnreadable(inner, k) && r.error == Open(inner[k]).error
    ensures r.Ok? ==> IsRewriteOf(inner, r.value)
  {
    var out :- RewriteAll(inner);
    if HasDescriptor(inner) then Ok(out) else Err(DescriptorNotFound)
  }

  /** The rewrite relation leaves no freedom: it determines the output completely. */
  lemma RewriteIsUnique(inner: seq<Entry>, a: seq<Entry>, b: seq<Entry>)
    requires IsRewriteOf(inner, a) && IsRewriteOf(inner, b)
    ensures a == b
  {
    forall k | 0 <= k < |a|
      ensures a[k] == b[k]
    {
      if IsDirectory(inner[k].name) || IsDescriptor(inner[k]) {
        assert a[k].compression == b[k].compression;
      }
    }
  }

  /** A descriptor below a directory is recognised by its base name. */
  lemma NestedDescriptorMatches()
    ensures BaseName("META-INF/plugin.xml") == DescriptorName
  {
    BaseNameOfJoin("META-INF/", "plugin.xml", "");
    assert "META-INF/plugin.xml" == "META-INF/" + "plugin.xml" + "";
  }

  /** Another file in the same directory is not a descriptor. */
  lemma ManifestDoesNotMatch()
    ensures BaseName("META-INF/MANIFEST.MF") != DescriptorName
  {
    BaseNameOfJoin("META-INF/", "MANIFEST.MF", "");
    assert "META-INF/MANIFEST.MF" == "META-INF/" + "MANIFEST.MF" + "";
  }
}
