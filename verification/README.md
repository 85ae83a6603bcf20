# CodeLocatorSupportK2Mode in Dafny

`main.go` takes a plugin bundle (a zip) and marks the CodeLocator plugin
inside it as supporting both Kotlin plugin modes, K1 and K2. It runs as one
fail-fast pipeline:

1. **Locate the jar.** Scan the outer archive in order. Take the first entry
   whose base name starts with `CodeLocatorPlugin` and ends with `.jar`.
2. **Rewrite the jar.**
   - Read the jar and decode it as a nested archive.
   - Write every entry again, in order.
   - An entry whose base name is exactly `plugin.xml` is deflated. Its text
     gets an `<extensions>` block inserted before the first
     `</idea-plugin>`.
   - Every other entry is copied.
   - The first entry that cannot be read stops the run. If the loop
     completes without finding a `plugin.xml`, the run fails.
3. **Assemble the output.**
   - Write a new zip whose first entry is the rewritten jar, with the jar's
     name and modification time, deflated.
   - A copy of every outer entry whose name differs from the jar's follows,
     in its original order.
   - The output path is `strings.TrimSuffix(path, ".zip") + "k2.zip"`.

An archive is modelled as an ordered `seq<Entry>`. Each `Entry` carries a
name, a compression method, a modification time and its uncompressed
content.

The two entry-level calls into `archive/zip` are modelled with the rules
that library applies:
- `File.Open` plus a full read is `Archive.Open`.
- `Writer.CreateHeader` plus writing is `Archive.Create`.

Both calls know only the Store and Deflate methods. Both treat a name ending
in `/` as a directory: a directory has no data and is always written as
stored. Decoding and encoding whole archives is not modelled. `Pipeline.Run`
takes these as function parameters:
- `readZip`: the bundle at a path;
- `readJar`: the jar's bytes;
- `writeJar`: the rewritten listing.

The modules follow the program's stages:

| module | what it holds |
|---|---|
| `Wrappers` | `Option` and `Result` |
| `Seqs` | the two loop shapes: first match, and map-until-first-error |
| `Text` | prefix/suffix tests, `TrimSuffix`, substring search, `strings.Replace(s, pat, rep, 1)` |
| `Paths` | `filepath.Base` for `/`-separated paths |
| `Errors` | why a run stops |
| `Archive` | entries, methods, timestamps, and `archive/zip`'s entry open and create |
| `CopyFile` | `copyFileInZip` |
| `Locator` | the jar search |
| `Descriptor` | `processPluginXml`'s text substitution and its block |
| `Rewriter` | the nested-jar loop and `processPluginXml` on entries |
| `Assembler` | the output path and the new outer archive |
| `Pipeline` | `main` from start to finish |

Byte strings are modelled as `string`, one character per byte. No byte in
the constants is above 0x7F, and no operation decodes text.

## Model

| member | source | states |
|---|---|---|
| Seqs.First | main.go:34-40 | the position returned holds a match and no earlier position does; None exactly when nothing matches |
| Seqs.FirstIgnoresLater | main.go:37-40 | once a match exists, appending elements never changes the first match (the loop breaks) |
| Seqs.MapAll | main.go:76-93 | a loop that returns at the first error: it succeeds exactly when every element succeeds, with one result per element in order; otherwise it fails with the error of the first element that fails |
| Paths.BaseName | main.go:36 | an empty path has base name "."; the rest is stated by BaseNameSpec |
| Paths.BaseNameSpec | main.go:36 | `filepath.Base` is never empty; it is "/" exactly for a non-empty all-slash path; otherwise it is a slash-free segment that is preceded by a slash or the start and followed only by slashes |
| Paths.BaseNameOfJoin | main.go:36 | the base name of `dir/` + file + trailing slashes is the file name, for any directory part |
| Archive.Open | main.go:49-61 | reading an entry succeeds exactly when it is a directory without data, or a file whose method is Store or Deflate; it yields the content; otherwise it fails with MalformedDirectory or UnsupportedMethod |
| Archive.Create | main.go:193-200 | writing an entry succeeds exactly when a directory gets no data, or a file has method Store or Deflate; name, time and data are kept, and a directory is stored whatever method was asked for |
| CopyFile.CopyEntry | main.go:191-212 | copying succeeds exactly for a readable entry and reproduces it (name, method, time, content), except that a directory is stored; otherwise it fails with the read failure |
| CopyFile.AsWrittenKeepsFiles | main.go:191-212 | a listing without directories is copied unchanged |
| CopyFile.CopyAll | main.go:135-142 | the outer copy loop completes exactly when every entry it reaches is readable, and then yields their copies in order; otherwise it fails with the reason of the first unreadable entry |
| Locator.IsPluginJar | main.go:37 | a matching base name holds `CodeLocatorPlugin` and `.jar` one after the other, never overlapping |
| Locator.PrefixSuffixApart | main.go:37 | a name with both the prefix and the suffix is at least as long as the two together |
| Locator.FindJar | main.go:33-46 | the chosen index holds a `CodeLocatorPlugin*.jar` base name and no earlier entry does; None (not found) exactly when no entry matches |
| Locator.FindJarIgnoresLater | main.go:34-41 | entries after an existing match never change the jar selected |
| Locator.DirectoryJarMatches | main.go:36-37 | a directory entry `lib/CodeLocatorPlugin.jar/` matches too, because `filepath.Base` drops trailing slashes |
| Locator.NestedJarMatches | main.go:36-37 | `lib/CodeLocatorPlugin-1.2.jar` matches on its base name |
| Text.TrimSuffix | main.go:107 | with the suffix present, result + suffix is the input; without it, the input is unchanged |
| Text.IndexOf | main.go:163-171 | the index found is the first occurrence of the pattern; None exactly when the pattern does not occur |
| Text.IndexOfIsFirst | main.go:163-171 | IndexOf returns i if and only if i is the first occurrence |
| Text.ReplaceFirst | main.go:163-171 | `strings.Replace(s, pat, rep, 1)`: unchanged without an occurrence; otherwise the text before the first occurrence, then rep, then everything after that occurrence untouched, with the length adjusted by \|rep\| - \|pat\| |
| Text.FirstAtAfterInsert | main.go:163-171 | inserting text that creates no new occurrence before the first one moves the first occurrence right by the inserted length |
| Descriptor.Patch | main.go:163-171 | text without `</idea-plugin>` is returned unchanged; otherwise the block is inserted right before the first closing tag and everything else is kept |
| Descriptor.PatchLength | main.go:163-171 | a patched descriptor grows by exactly the block's length; one without the tag keeps its length |
| Descriptor.PatchIsNoOpIff | main.go:163-171 | patching leaves the text unchanged if and only if the closing tag does not occur |
| Descriptor.NoTagAtBlock | main.go:166-169 | no closing tag can start inside the inserted block or straddle its start |
| Descriptor.PatchMovesFirstTag | main.go:163-171 | after patching, the first closing tag is the original one, moved right by the block's length |
| Descriptor.PatchTwice | main.go:163-171 | patching twice inserts a second block before the same tag, so patching is not idempotent |
| Descriptor.PatchExample | main.go:163-171 | `<idea-plugin><name>X</name></idea-plugin>` becomes `<idea-plugin><name>X</name>` + block + `</idea-plugin>` |
| Rewriter.PatchEntry | main.go:148-188 | `processPluginXml` succeeds exactly for a readable entry. It keeps the name and time. A file comes out deflated with its text patched; a directory named plugin.xml stays stored and empty. Otherwise it fails with the read failure |
| Rewriter.RewriteEntry | main.go:78-92 | the loop body succeeds exactly for a readable entry and then writes that entry's rewrite; otherwise it fails with the read failure |
| Rewriter.RewriteAll | main.go:76-93 | the loop completes exactly when every nested entry is readable. It then yields a rewrite of the listing: same length and order; names and times kept; directories stored; every plugin.xml file deflated and patched, not just the first; every other file unchanged. Otherwise it fails with the reason of the first unreadable entry |
| Rewriter.RewriteJar | main.go:75-98 | the jar rewrite succeeds if and only if every entry is readable and some base name is `plugin.xml`. A completed loop without one fails with DescriptorNotFound. An unreadable entry fails first, with its own reason. On success the listing is a rewrite of the original |
| Rewriter.RewriteIsUnique | main.go:76-93 | the rewrite relation determines the output listing completely |
| Rewriter.NestedDescriptorMatches | main.go:78-79 | `META-INF/plugin.xml` is recognised as a descriptor |
| Rewriter.ManifestDoesNotMatch | main.go:78-79 | `META-INF/MANIFEST.MF` is not a descriptor |
| Assembler.OutputPath | main.go:107 | the output path ends in `k2.zip`; it is the stem plus `k2.zip` for a `.zip` input and the input plus `k2.zip` otherwise; it is longer than the input, so it never names the source |
| Assembler.OutputPathNotInjective | main.go:107 | `plugins.zip` and `plugins` get the same output path |
| Assembler.OutputPathExample | main.go:107 | `/data/plugin.zip` is written to `/data/plugink2.zip` |
| Assembler.JarHeader | main.go:119-132 | the jar's entry carries the jar's name and time and the new jar bytes, deflated. Under a directory name only empty bytes can be written, and anything else fails with WriteToDirectory |
| Assembler.Others | main.go:134-142 | the copy loop reaches exactly the entries whose name differs from the jar's, dropping one entry per occurrence of that name |
| Assembler.OthersAppend | main.go:135-142 | the copy loop keeps relative order: it distributes over concatenation |
| Assembler.OthersKeepsAll | main.go:135-142 | when no entry carries the jar's name, every entry is reached, in order |
| Assembler.OthersSkipsOne | main.go:135-142 | when no other entry shares the jar's name, the copy loop skips exactly the jar and keeps all others in order |
| Assembler.Assemble | main.go:119-142 | the new archive is written exactly when the jar's header accepts its bytes and every entry the copy loop reaches is readable. It then starts with the jar's name, time and new bytes (deflated unless the name is a directory). That name occurs only first, and the rest are copies of the other entries in order. A failure is WriteToDirectory when the jar's header refuses the bytes, and otherwise the reason of the first unreadable entry the copy loop reaches |
| Assembler.AssemblePreservesCount | main.go:119-142 | for distinct entry names, a new archive has exactly as many entries as the old one |
| Assembler.AssembleMovesJarToFront | main.go:119-142 | for distinct entry names, a new archive is the old one with the jar replaced by its rewrite and moved to the front, and every other entry copied in place |
| Pipeline.Run | main.go:14-145 | an empty path is a usage error; a path that does not open as a zip fails with ZipUnreadable; no matching jar means JarNotFound; a successful run writes to the derived output path |
| Pipeline.RunUnreadableJar | main.go:48-68 | a located jar that cannot be opened stops the run with the reason `archive/zip` gives; one whose bytes do not decode stops it with JarUnreadable |
| Pipeline.RunRewritesJar | main.go:74-142 | once the jar is decoded, the run fails as the jar rewrite fails. Otherwise it writes the assembly of the rewritten jar and the other entries to the derived path, or fails as the assembly does |
| Pipeline.RunAssemblyFailure | main.go:119-142 | after a successful jar rewrite, a jar named as a directory that gets bytes fails the run with WriteToDirectory; any other failure of the run is the reason of the first unreadable outer entry the copy loop reaches |
| Pipeline.RunPicksDirectoryFirst | main.go:33-68 | a directory `lib/CodeLocatorPlugin.jar/` listed before the real jar is selected; read as empty bytes that the decoder rejects, it ends the run with JarUnreadable |
| Pipeline.RewriteDescriptorAndFile | main.go:76-98 | a jar of a plugin.xml file and one other file becomes the patched, deflated descriptor followed by the other file unchanged |
| Pipeline.AssembleJarAndFile | main.go:119-142 | a bundle of the jar and one other file becomes the new jar, deflated, followed by that file unchanged |
| Pipeline.ExampleJarRewrite | main.go:76-93 | a jar with `META-INF/plugin.xml` and `META-INF/MANIFEST.MF` has its descriptor patched and deflated and its manifest copied |
| Pipeline.ExampleBundle | main.go:33-46 | in a bundle of `lib/CodeLocatorPlugin-1.2.jar` and `readme.txt`, the jar is found first and the readme is copied after it unchanged |
| Pipeline.RunExample | main.go:14-145 | that bundle becomes `/data/plugink2.zip`: the rewritten jar first (descriptor patched, manifest untouched), then `readme.txt` unchanged |

## Left out

- Zip encoding and decoding: headers, CRC-32, deflate. `readZip`, `readJar`
  and `writeJar` stand in for `zip.OpenReader`, `zip.NewReader` and
  `zip.NewWriter`, and entry content is the uncompressed bytes. A checksum
  or deflate-stream error inside an entry's compressed data is therefore
  not modelled. `readJar` is any decoder; `zip.NewReader` rejects empty
  bytes, and `Pipeline.RunPicksDirectoryFirst` takes that as a requirement.
- Failures of the operating system: `os.Create` and writes to the output
  file (main.go:108-112, 129-132, 137-140). A bundle that cannot be opened
  is covered only as `readZip` returning None.
- `jarWriter.Close` (main.go:101-104) closes a writer into an in-memory
  buffer. It is not modelled.
- The header-size checks of `Writer.CreateHeader`. The program writes only
  names it has read from an archive, and those fit the 16-bit length field.
- The partial output file that a late failure leaves behind, and
  `defer`/`Close` ordering. The model's `Result` carries no output on
  failure. That matches `main.go` only for failures before `os.Create`.
- Flag parsing and the messages printed (main.go:16-22, 44, 144). The empty
  path is kept as the `Usage` failure.
- `time.Time`. Modification times are opaque values that are only copied.
- `filepath.Base` with Windows `\` separators. The model follows the
  `/`-separated behaviour, including "." for an empty path.
- Header fields other than name, method and modification time.
  `copyFileInZip` builds a fresh header from those three, so comments,
  extra fields and external attributes are dropped.
- CopyFile.CopyEntry: `copyFileInZip` calls `CreateHeader` before
  `File.Open`, while the model opens first. Both fail for the same entries
  with the same reason, so the order does not show.
- Paths.BaseName: the function's own contract covers only the empty path;
  what the base name is, is stated by
  `Paths.BaseNameSpec` and `Paths.BaseNameOfJoin`.
- Pipeline.Run: its own contract covers the usage, unreadable-bundle,
  not-found and output-path cases only; the other outcomes are stated by
  `Pipeline.RunUnreadableJar` and `Pipeline.RunRewritesJar`.

Behaviour of `main.go` worth noting:

- Outer entries are not copied byte for byte. Each gets a new header from
  name, method and time, and a directory is always stored.
- The output path appends `k2.zip` to the path with `.zip` trimmed. For a
  path that does not end in `.zip`, this still yields a `.zip` name.
- A failure after the output file is created can leave a partial file.
- The outer copy loop compares full names. It drops every entry that shares
  the jar's name, duplicates included.
- The jar search compares base names only, so a directory entry named
  `CodeLocatorPlugin*.jar/` can be selected ahead of the real jar.
