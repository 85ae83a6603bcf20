/**
 * The jar locator of `main`: the first outer entry, in archive order, whose
 * base name starts with "CodeLocatorPlugin" and ends with ".jar".
 */
module Locator {
  import opened Wrappers
  import opened Seqs
  import opened Text
  import opened Paths
  import opened Archive

  const JarPrefix: string := "CodeLocatorPlugin"
  const JarSuffix: string := ".jar"

  /**
   * The name matches `CodeLocatorPlugin*.jar` in its last path segment; the
   * prefix and the suffix cannot overlap, since "." is not in the prefix.
   */
  predicate IsPluginJar(name: string)
    ensures IsPluginJar(name) ==> |BaseName(name)| >= |JarPrefix| + |JarSuffix|
  {
    var base := BaseName(name);
    PrefixSuffixApart(base);
    HasPrefix(base, JarPrefix) && HasSuffix(base, JarSuffix)
  }

  /** A name with the prefix and the suffix holds both one after the other. */
  lemma PrefixSuffixApart(base: string)
    ensures HasPrefix(base, JarPrefix) && HasSuffix(base, JarSuffix) ==>
      |base| >= |JarPrefix| + |JarSuffix|
  {
    if HasPrefix(base, JarPrefix) && HasSuffix(base, JarSuffix) {
      var i := |base| - |JarSuffix|;
      assert base[i] == base[i..][0] == '.';
      assert '.' !in JarPrefix;
      assert forall j | 0 <= j < |JarPrefix| :: base[j] == base[..|JarPrefix|][j] != '.';
    }
  }

  /** The outer entry's name matches. */
  predicate IsPluginJarEntry(e: Entry) {
    IsPluginJar(e.name)
  }

  /**
   * The position of the jar `main` selects: the first entry whose name
   * matches, or None when no entry matches.
   */
  function FindJar(outer: seq<Entry>): (r: Option<nat>)
    ensures r.Some? ==> r.value < |outer| && IsPluginJar(outer[r.value].name)
    ensures r.Some? ==> forall j | 0 <= j < r.value :: !IsPluginJar(outer[j].name)
    ensures r.None? <==> forall j | 0 <= j < |outer| :: !IsPluginJar(outer[j].name)
  {
    First(outer, IsPluginJarEntry)
  }

  /** Only the first match counts: entries after it never change the choice. */
  lemma FindJarIgnoresLater(outer: seq<Entry>, more: seq<Entry>)
    requires exists k | 0 <= k < |outer| :: IsPluginJar(outer[k].name)
    ensures FindJar(outer + more) == FindJar(outer)
  {
    var k :| 0 <= k < |outer| && IsPluginJar(outer[k].name);
    assert IsPluginJarEntry(outer[k]);
    FirstIgnoresLater(outer, more, IsPluginJarEntry);
  }

  /**
   * `filepath.Base` drops trailing separators, so a directory entry named
   * like the jar matches too, and being listed first it would be selected
   * ahead of the jar itself.
   */
  lemma DirectoryJarMatches()
    ensures IsPluginJar("lib/CodeLocatorPlugin.jar/")
  {
    var file := JarPrefix + JarSuffix;
    assert "lib/CodeLocatorPlugin.jar/" == "lib/" + file + "/";
    BaseNameOfJoin("lib/", file, "/");
    assert file[..|JarPrefix|] == JarPrefix;
    assert file[|file| - |JarSuffix|..] == JarSuffix;
  }

  /** A jar below a directory matches on its base name. */
  lemma NestedJarMatches()
    ensures IsPluginJar("lib/CodeLocatorPlugin-1.2.jar")
  {
    var file := JarPrefix + "-1.2" + JarSuffix;
    assert "lib/CodeLocatorPlugin-1.2.jar" == "lib/" + file + "";
    BaseNameOfJoin("lib/", file, "");
    assert file[..|JarPrefix|] == JarPrefix;
    assert file[|file| - |JarSuffix|..] == JarSuffix;
  }
}
