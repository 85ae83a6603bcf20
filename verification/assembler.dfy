/**
 * The output side of `main`: the name of the new archive, and its entries:
 * the rewritten jar under the jar's own name first, then every other outer
 * entry copied with `copyFileInZip`, in the original order.
 */
module Assembler {
  import opened Text
  import opened Wrappers
  import opened Archive
  import opened Errors
  import opened Seqs
  import opened CopyFile

  const ZipExtension: string := ".zip"
  const OutputSuffix: string := "k2.zip"

  /** `strings.TrimSuffix(zipPath, ".zip") + "k2.zip"`. */
  function OutputPath(zipPath: string): (r: string)
    ensures HasSuffix(r, OutputSuffix)
    ensures HasSuffix(zipPath, ZipExtension) ==>
      r == zipPath[..|zipPath| - |ZipExtension|] + OutputSuffix
    ensures !HasSuffix(zipPath, ZipExtension) ==> r == zipPath + OutputSuffix
    ensures |r| > |zipPath| && r != zipPath
  {
    TrimSuffix(zipPath, ZipExtension) + OutputSuffix
  }

  /** Two different inputs can share an output path: the derivation is not injective. */
  lemma OutputPathNotInjective()
    ensures OutputPath("plugins.zip") == OutputPath("plugins")
  {
    assert HasSuffix("plugins.zip", ZipExtension);
    assert "plugins.zip"[..7] == "plugins";
  }

  /** A bundle named plugin.zip is rewritten to plugink2.zip beside it. */
  lemma OutputPathExample()
    ensures OutputPath("/data/plugin.zip") == "/data/plugink2.zip"
  {
    assert HasSuffix("/data/plugin.zip", ZipExtension);
    assert "/data/plugin.zip"[..12] == "/data/plugin";
  }

  /** How many entries carry the name `name`. */
  function CountNamed(entries: seq<Entry>, name: string): nat {
    if entries == [] then 0
    else (if entries[0].name == name then 1 else 0) + CountNamed(entries[1..], name)
  }

  /**
   * The entries the copy loop writes after the jar: every entry whose full
   * name differs from `name`, in the original order.
   */
  function Others(outer: seq<Entry>, name: string): (r: seq<Entry>)
    ensures |r| == |outer| - CountNamed(outer, name)
    ensures forall e :: e in r <==> e in outer && e.name != name
  {
    if outer == [] then []
    else (if outer[0].name != name then [outer[0]] else []) + Others(outer[1..], name)
  }

  /** The copy loop keeps relative order: it distributes over concatenation. */
  lemma {:induction false} OthersAppend(a: seq<Entry>, b: seq<Entry>, name: string)
    ensures Others(a + b, name) == Others(a, name) + Others(b, name)
  {
    if a == [] {
      assert a + b == b;
    } else {
      assert (a + b)[1..] == a[1..] + b;
      OthersAppend(a[1..], b, name);
    }
  }

  /**
   * The jar's entry in the new archive: a header with the jar's own name and
   * time, deflated, and the new jar bytes written under it. Under a directory
   * name the header is stored and only empty content can be written.
   */
  function JarHeader(jar: Entry, jarData: Data): (r: Result<Entry, Failure>)
    ensures r.Ok? <==> !IsDirectory(jar.name) || jarData == []
    ensures r.Ok? ==> r.value.name == jar.name && r.value.modified == jar.modified
    ensures r.Ok? ==> r.value.content == jarData
    ensures r.Ok? && !IsDirectory(jar.name) ==> r.value.compression == Deflate
    ensures r.Err? ==> r.error == WriteToDirectory
  {
    Create(jar.name, Deflate, jar.modified, jarData)
  }

  /** Every entry the copy loop will reach, that is every one not named `name`, can be read. */
  predicate OthersReadable(outer: seq<Entry>, name: string) {
    forall k | 0 <= k < |outer| :: outer[k].name != name ==> Readable(outer[k])
  }

  /**
   * The entries of the new outer archive, in the order they are written: the
   * jar first, then a copy of every entry with another name. The first
   * write that fails ends the assembly.
   */
  function Assemble(outer: seq<Entry>, jar: Entry, jarData: Data): (r: Result<seq<Entry>, Failure>)
    ensures r.Ok? <==> JarHeader(jar, jarData).Ok? && OthersReadable(outer, jar.name)
    ensures r.Ok? ==> r.value != [] && |r.value| == 1 + |outer| - CountNamed(outer, jar.name)
    ensures r.Ok? ==> r.value[0].name == jar.name && r.value[0].modified == jar.modified
    ensures r.Ok? ==> r.value[0].content == jarData
    ensures r.Ok? && !IsDirectory(jar.name) ==> r.value[0].compression == Deflate
    ensures r.Ok? ==> forall k | 0 <= k < |r.value| :: r.value[k].name == jar.name <==> k == 0
    ensures r.Ok? ==> r.value[1..] == AsWrittenAll(Others(outer, jar.name))
    ensures r.Err? && JarHeader(jar, jarData).Err? ==> r.error == WriteToDirectory
    ensures r.Err? && JarHeader(jar, jarData).Ok? ==> exists k ::
      FirstUnreadable(Others(outer, jar.name), k) && r.error == Open(Others(outer, jar.name)[k]).error
  {
    var head :- JarHeader(jar, jarData);
    var others := Others(outer, jar.name);
    var rest := CopyAll(others);
    assert AllReadable(others) <==> OthersReadable(outer, jar.name) by {
      if OthersReadable(outer, jar.name) {
        forall k | 0 <= k < |others| ensures Readable(others[k]) {
          assert others[k] in others;
        }
      } else {
        var k :| 0 <= k < |outer| && outer[k].name != jar.name && !Readable(outer[k]);
        assert outer[k] in others;
        var j :| 0 <= j < |others| && others[j] == outer[k];
        assert !Readable(others[j]);
      }
    }
    if rest.Err? then
      ghost var k :| FirstUnreadable(others, k) && rest.error == Open(others[k]).error;
      assert FirstUnreadable(Others(outer, jar.name), k);
      Err(rest.error)
    else
      var written := [head] + rest.value;
      assert written[1..] == AsWrittenAll(others);
      forall k | 1 <= k < |written| ensures written[k].name != jar.name {
        assert written[k] == AsWritten(others[k - 1]);
        assert others[k - 1] in others;
      }
      Ok(written)
  }

  /** Entry names are pairwise distinct. */
  predicate DistinctNames(entries: seq<Entry>) {
    forall i, j | 0 <= i < j < |entries| :: entries[i].name != entries[j].name
  }

  /** No entry carries the name. */
  lemma {:induction false} CountNamedAbsent(entries: seq<Entry>, name: string)
    requires forall k | 0 <= k < |entries| :: entries[k].name != name
    ensures CountNamed(entries, name) == 0
  {
    if entries != [] {
      CountNamedAbsent(entries[1..], name);
    }
  }

  /** With distinct names, an entry's name occurs exactly once. */
  lemma {:induction false} CountNamedDistinct(entries: seq<Entry>, k: int)
    requires DistinctNames(entries) && 0 <= k < |entries|
    ensures CountNamed(entries, entries[k].name) == 1
  {
    var rest := entries[1..];
    if k == 0 {
      CountNamedAbsent(rest, entries[0].name);
    } else {
      assert entries[k] == rest[k - 1];
      CountNamedDistinct(rest, k - 1);
    }
  }

  /**
   * For an archive with distinct names, replacing the jar neither adds nor
   * drops entries: a new archive has as many entries as the old one.
   */
  lemma AssemblePreservesCount(outer: seq<Entry>, k: int, jarData: Data)
    requires DistinctNames(outer) && 0 <= k < |outer|
    ensures Assemble(outer, outer[k], jarData).Ok? ==>
      |Assemble(outer, outer[k], jarData).value| == |outer|
  {
    CountNamedDistinct(outer, k);
  }

  /** When no entry carries the name, the copy loop writes every entry unchanged. */
  lemma {:induction false} OthersKeepsAll(outer: seq<Entry>, name: string)
    requires forall k | 0 <= k < |outer| :: outer[k].name != name
    ensures Others(outer, name) == outer
  {
    if outer != [] {
      OthersKeepsAll(outer[1..], name);
    }
  }

  /**
   * When no other entry shares the name of the entry at position `k`, the
   * copy loop skips exactly that entry and writes all others in their
   * original order.
   */
  lemma OthersSkipsOne(outer: seq<Entry>, k: int)
    requires 0 <= k < |outer|
    requires forall j | 0 <= j < |outer| && j != k :: outer[j].name != outer[k].name
    ensures Others(outer, outer[k].name) == outer[..k] + outer[k + 1..]
  {
    var before, after := outer[..k], outer[k + 1..];
    assert forall j | 0 <= j < |before| :: before[j].name != outer[k].name by {
      forall j | 0 <= j < |before| ensures before[j].name != outer[k].name {
        assert before[j] == outer[j];
      }
    }
    assert forall j | 0 <= j < |after| :: after[j].name != outer[k].name by {
      forall j | 0 <= j < |after| ensures after[j].name != outer[k].name {
        assert after[j] == outer[k + 1 + j];
      }
    }
    calc {
      Others(outer, outer[k].name);
      { SplitAt(outer, k); }
      Others(before + ([outer[k]] + after), outer[k].name);
      { OthersAround(before, outer[k], after); }
      before + after;
    }
  }

  /** An entry whose name no other entry carries is the only one the copy loop skips. */
  lemma OthersAround(before: seq<Entry>, e: Entry, after: seq<Entry>)
    requires forall j | 0 <= j < |before| :: before[j].name != e.name
    requires forall j | 0 <= j < |after| :: after[j].name != e.name
    ensures Others(before + ([e] + after), e.name) == before + after
  {
    OthersDropsNamed(e, after);
    OthersAppend(before, [e] + after, e.name);
    OthersKeepsAll(before, e.name);
    OthersKeepsAll(after, e.name);
  }

  /** The entry carrying the name is dropped and the copy loop goes on with the rest. */
  lemma OthersDropsNamed(e: Entry, rest: seq<Entry>)
    ensures Others([e] + rest, e.name) == Others(rest, e.name)
  {
    assert ([e] + rest)[1..] == rest;
  }

  /**
   * For an archive with distinct names whose jar sits at position `k`, the
   * new archive, when it can be written, is the old one with the jar replaced
   * by its rewrite and moved to the front; everything else is copied and
   * keeps its place relative to the rest.
   */
  lemma AssembleMovesJarToFront(outer: seq<Entry>, k: int, jarData: Data)
    requires DistinctNames(outer) && 0 <= k < |outer|
    ensures var r := Assemble(outer, outer[k], jarData);
      r.Ok? ==> r.value == [JarHeader(outer[k], jarData).value] + AsWrittenAll(outer[..k] + outer[k + 1..])
  {
    assert forall j | 0 <= j < |outer| && j != k :: outer[j].name != outer[k].name by {
      forall j | 0 <= j < |outer| && j != k ensures outer[j].name != outer[k].name {
        if j < k {} else {}
      }
    }
    OthersSkipsOne(outer, k);
  }
}
