/**
 * One run of `main`, start to finish: open the bundle, locate the jar, read
 * it as a nested archive, rewrite it, and assemble the new outer archive
 * under the derived path. Any stage that fails ends the run with its reason.
 *
 * Zip decoding and encoding belong to `archive/zip` and are parameters here:
 * `readZip` opens the archive a path names (None when it is missing or not a
 * zip), `readJar` decodes the jar's bytes (None when they are not a readable
 * archive) and `writeJar` encodes the rewritten jar listing.
 */
module Pipeline {
  import opened Wrappers
  import opened Archive
  import opened Errors
  import opened Locator
  import opened Rewriter
  import opened Assembler
  import opened CopyFile
  import opened Paths
  import opened Descriptor

  /** What a successful run writes: the output path and the new archive's entries. */
  datatype Output = Output(path: string, entries: seq<Entry>)

  function Run(
    zipPath: string,
    readZip: string -> Option<seq<Entry>>,
    readJar: Data -> Option<seq<Entry>>,
    writeJar: seq<Entry> -> Data
  ): (r: Result<Output, Failure>)
    ensures zipPath == [] ==> r == Err(Usage)
    ensures zipPath != [] && readZip(zipPath).None? ==> r == Err(ZipUnreadable)
    ensures zipPath != [] && readZip(zipPath).Some? && FindJar(readZip(zipPath).value).None? ==>
      r == Err(JarNotFound)
    ensures r.Ok? ==> r.value.path == OutputPath(zipPath)
  {
    if zipPath == [] then Err(Usage)
    else
      match readZip(zipPath)
      case None => Err(ZipUnreadable)
      case Some(outer) =>
        match FindJar(outer)
        case None => Err(JarNotFound)
        case Some(k) =>
          var jar := outer[k];
          var jarBytes :- Open(jar);
          match readJar(jarBytes)
          case None => Err(JarUnreadable)
          case Some(inner) =>
            var rewritten :- RewriteJar(inner);
            var entries :- Assemble(outer, jar, writeJar(rewritten));
            Ok(Output(OutputPath(zipPath), entries))
  }

  /**
   * The located jar must be read whole and then decoded: an entry that
   * cannot be opened stops the run with the reason `archive/zip` gives, and
   * bytes that do not decode stop it with JarUnreadable.
   */
  lemma RunUnreadableJar(
    zipPath: string, readZip: string -> Option<seq<Entry>>,
    readJar: Data -> Option<seq<Entry>>, writeJar: seq<Entry> -> Data,
    outer: seq<Entry>, k: nat)
    requires zipPath != [] && readZip(zipPath) == Some(outer) && FindJar(outer) == Some(k)
    ensures !Readable(outer[k]) ==> Run(zipPath, readZip, readJar, writeJar) == Err(Open(outer[k]).error)
    ensures Readable(outer[k]) && readJar(outer[k].content).None? ==>
      Run(zipPath, readZip, readJar, writeJar) == Err(JarUnreadable)
  {
  }

  /**
   * Once the jar is found and decoded, the run fails as the jar rewrite
   * does; otherwise it writes what the assembly of the rewritten jar and the
   * other entries gives, or fails as that does.
   */
  lemma RunRewritesJar(
    zipPath: string, readZip: string -> Option<seq<Entry>>,
    readJar: Data -> Option<seq<Entry>>, writeJar: seq<Entry> -> Data,
    outer: seq<Entry>, k: nat, inner: seq<Entry>)
    requires zipPath != [] && readZip(zipPath) == Some(outer) && FindJar(outer) == Some(k)
    requires Readable(outer[k]) && readJar(outer[k].content) == Some(inner)
    ensures RewriteJar(inner).Err? ==>
      Run(zipPath, readZip, readJar, writeJar) == Err(RewriteJar(inner).error)
    ensures RewriteJar(inner).Ok? ==>
      var a := Assemble(outer, outer[k], writeJar(RewriteJar(inner).value));
      Run(zipPath, readZip, readJar, writeJar)
        == if a.Ok? then Ok(Output(OutputPath(zipPath), a.value)) else Err(a.error)
  {
  }

  /** `e` is the reason the first unreadable entry of the listing gives. */
  ghost predicate FirstReadFailure(entries: seq<Entry>, e: Failure) {
    exists j :: FirstUnreadable(entries, j) && e == Open(entries[j]).error
  }

  /**
   * Once the jar is rewritten, the assembly fails for one of two reasons: the
   * jar's own name is a directory that cannot take the new bytes, or an outer
   * entry that the copy loop reaches first cannot be read.
   */
  lemma RunAssemblyFailure(
    zipPath: string, readZip: string -> Option<seq<Entry>>,
    readJar: Data -> Option<seq<Entry>>, writeJar: seq<Entry> -> Data,
    outer: seq<Entry>, k: nat, inner: seq<Entry>)
    requires zipPath != [] && readZip(zipPath) == Some(outer) && FindJar(outer) == Some(k)
    requires Readable(outer[k]) && readJar(outer[k].content) == Some(inner)
    requires RewriteJar(inner).Ok?
    ensures var r, jarData := Run(zipPath, readZip, readJar, writeJar), writeJar(RewriteJar(inner).value);
      && (IsDirectory(outer[k].name) && jarData != [] ==> r == Err(WriteToDirectory))
      && ((!IsDirectory(outer[k].name) || jarData == []) && r.Err? ==>
            FirstReadFailure(Others(outer, outer[k].name), r.error))
  {
    var jarData := writeJar(RewriteJar(inner).value);
    var a := Assemble(outer, outer[k], jarData);
    RunRewritesJar(zipPath, readZip, readJar, writeJar, outer, k, inner);
    var r := Run(zipPath, readZip, readJar, writeJar);
    assert a.Err? ==> r == Err(a.error);
    assert a.Ok? ==> r.Ok?;
    if a.Err? && JarHeader(outer[k], jarData).Ok? {
      var others := Others(outer, outer[k].name);
      var j :| FirstUnreadable(others, j) && a.error == Open(others[j]).error;
      assert FirstReadFailure(others, r.error);
    }
  }

  /**
   * A directory entry named like the jar that comes first is selected; it
   * reads as empty, and when the decoder rejects empty bytes, as
   * `zip.NewReader` does, the run ends with JarUnreadable although a real
   * jar follows.
   */
  lemma RunPicksDirectoryFirst(
    zipPath: string, readZip: string -> Option<seq<Entry>>,
    readJar: Data -> Option<seq<Entry>>, writeJar: seq<Entry> -> Data,
    dir: Entry, jar: Entry)
    requires zipPath != [] && readZip(zipPath) == Some([dir, jar])
    requires dir.name == "lib/CodeLocatorPlugin.jar/" && dir.content == []
    requires IsPluginJar(jar.name)
    requires readJar([]).None?
    ensures Run(zipPath, readZip, readJar, writeJar) == Err(JarUnreadable)
  {
    DirectoryJarMatches();
    assert IsDirectory(dir.name);
    assert FindJar([dir, jar]) == Some(0);
    RunUnreadableJar(zipPath, readZip, readJar, writeJar, [dir, jar], 0);
  }

  /** A jar of a descriptor file and another file: the first is patched, the second copied. */
  lemma RewriteDescriptorAndFile(descriptor: Entry, other: Entry)
    requires IsDescriptor(descriptor) && !IsDescriptor(other)
    requires !IsDirectory(descriptor.name) && Supported(descriptor.compression)
    requires !IsDirectory(other.name) && Supported(other.compression)
    ensures RewriteJar([descriptor, other]) == Ok([
      Entry(descriptor.name, Deflate, descriptor.modified, Patch(descriptor.content)), other])
  {
    var inner := [descriptor, other];
    assert inner[0] == descriptor && inner[1] == other;
    assert HasDescriptor(inner);
    var expected := [Entry(descriptor.name, Deflate, descriptor.modified, Patch(descriptor.content)), other];
    assert IsEntryRewrite(inner[0], expected[0]) && IsEntryRewrite(inner[1], expected[1]);
    RewriteIsUnique(inner, RewriteJar(inner).value, expected);
  }

  /** An archive of the jar and one other file becomes the new jar followed by that file, unchanged. */
  lemma AssembleJarAndFile(jar: Entry, other: Entry, jarData: Data)
    requires !IsDirectory(jar.name) && jar.name != other.name
    requires !IsDirectory(other.name) && Supported(other.compression)
    ensures Assemble([jar, other], jar, jarData) == Ok([Entry(jar.name, Deflate, jar.modified, jarData), other])
  {
    var outer := [jar, other];
    var expected := [Entry(jar.name, Deflate, jar.modified, jarData), other];
    assert outer[1..] == [other];
    assert Others(outer, jar.name) == [other];
    assert AsWrittenAll([other]) == [other];
    assert OthersReadable(outer, jar.name);
    var a := Assemble(outer, jar, jarData);
    assert a.Ok?;
    var r := a.value;
    assert r[1..] == [other];
    assert r[0] == expected[0];
    assert r == [r[0]] + r[1..];
    assert r == expected;
  }

  /** None of the example names ends in a separator: none is a directory. */
  lemma ExampleNamesAreFiles()
    ensures !IsDirectory("lib/CodeLocatorPlugin-1.2.jar") && !IsDirectory("readme.txt")
    ensures !IsDirectory("META-INF/plugin.xml") && !IsDirectory("META-INF/MANIFEST.MF")
  {
  }

  /** The example jar: its descriptor is patched and its manifest copied. */
  lemma ExampleJarRewrite(descriptor: Entry, manifest: Entry)
    requires descriptor.name == "META-INF/plugin.xml" && Supported(descriptor.compression)
    requires descriptor.content == "<idea-plugin><name>X</name></idea-plugin>"
    requires manifest.name == "META-INF/MANIFEST.MF" && Supported(manifest.compression)
    ensures RewriteJar([descriptor, manifest]) == Ok([
      Entry(descriptor.name, Deflate, descriptor.modified,
            "<idea-plugin><name>X</name>" + Block + "</idea-plugin>"),
      manifest])
  {
    NestedDescriptorMatches();
    ManifestDoesNotMatch();
    ExampleNamesAreFiles();
    PatchExample();
    RewriteDescriptorAndFile(descriptor, manifest);
  }

  /** The example bundle: the jar is found first, and the readme is copied after it. */
  lemma ExampleBundle(jar: Entry, readme: Entry, jarData: Data)
    requires jar.name == "lib/CodeLocatorPlugin-1.2.jar"
    requires readme.name == "readme.txt" && Supported(readme.compression)
    ensures FindJar([jar, readme]) == Some(0)
    ensures Assemble([jar, readme], jar, jarData) == Ok([Entry(jar.name, Deflate, jar.modified, jarData), readme])
  {
    NestedJarMatches();
    ExampleNamesAreFiles();
    AssembleJarAndFile(jar, readme, jarData);
  }

  /**
   * A bundle holding lib/CodeLocatorPlugin-1.2.jar and readme.txt, whose jar
   * holds META-INF/plugin.xml and META-INF/MANIFEST.MF: the run writes
   * plugink2.zip next to plugin.zip, with the jar first (its descriptor
   * patched, its manifest untouched) and readme.txt copied after it.
   */
  lemma RunExample(
    readZip: string -> Option<seq<Entry>>,
    readJar: Data -> Option<seq<Entry>>, writeJar: seq<Entry> -> Data,
    jar: Entry, readme: Entry, descriptor: Entry, manifest: Entry)
    requires readZip("/data/plugin.zip") == Some([jar, readme])
    requires jar.name == "lib/CodeLocatorPlugin-1.2.jar" && Supported(jar.compression)
    requires readme.name == "readme.txt" && Supported(readme.compression)
    requires descriptor.name == "META-INF/plugin.xml" && Supported(descriptor.compression)
    requires descriptor.content == "<idea-plugin><name>X</name></idea-plugin>"
    requires manifest.name == "META-INF/MANIFEST.MF" && Supported(manifest.compression)
    requires readJar(jar.content) == Some([descriptor, manifest])
    ensures Run("/data/plugin.zip", readZip, readJar, writeJar)
      == Ok(Output("/data/plugink2.zip", [
        Entry(jar.name, Deflate, jar.modified, writeJar([
          Entry(descriptor.name, Deflate, descriptor.modified,
                "<idea-plugin><name>X</name>" + Block + "</idea-plugin>"),
          manifest])),
        readme]))
  {
    var outer, inner := [jar, readme], [descriptor, manifest];
    ExampleJarRewrite(descriptor, manifest);
    var jarData := writeJar(RewriteJar(inner).value);
    ExampleBundle(jar, readme, jarData);
    OutputPathExample();
    assert outer[0] == jar;
    ExampleNamesAreFiles();
    RunRewritesJar("/data/plugin.zip", readZip, readJar, writeJar, outer, 0, inner);
  }
}
