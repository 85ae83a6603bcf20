/**
 * The plugin descriptor patch of `processPluginXml`: one occurrence-limited
 * textual substitution that declares K1/K2 Kotlin plugin mode support just
 * before the descriptor's closing tag.
 */
module Descriptor {
  import opened Text

  /** The closing tag of a plugin descriptor. */
  const ClosingTag: string := "</idea-plugin>"

  /**
   * The extension block inserted before the closing tag, byte for byte (two
   * spaces of indentation, newline-terminated lines). It is written in short
   * pieces so that facts about its characters can be checked piece by piece.
   */
  const Block: string :=
    ExtensionsOpen + Namespace + ModeOpen + K1 + K2 + ExtensionsClose

  const ExtensionsOpen: string := "  <extensions defaultExtensionNs="
  const Namespace: string := "\"org.jetbrains.kotlin\">\n"
  const ModeOpen: string := "    <supportsKotlinPluginMode"
  const K1: string := " supportsK1=\"true\""
  const K2: string := " supportsK2=\"true\" />\n"
  const ExtensionsClose: string := "  </extensions>\n"

  /**
   * `strings.Replace(text, "</idea-plugin>", Block + "</idea-plugin>", 1)`:
   * the block goes in front of the first closing tag; text without the tag is
   * returned as it is.
   */
  function Patch(text: string): (r: string)
    ensures !Contains(text, ClosingTag) ==> r == text
    ensures forall i {:trigger FirstAt(text, ClosingTag, i)} ::
      FirstAt(text, ClosingTag, i) ==> r == text[..i] + Block + text[i..]
  {
    var r := ReplaceFirst(text, ClosingTag, Block + ClosingTag);
    assert forall i {:trigger FirstAt(text, ClosingTag, i)} ::
      FirstAt(text, ClosingTag, i) ==> r == text[..i] + Block + text[i..]
    by {
      forall i | FirstAt(text, ClosingTag, i)
        ensures r == text[..i] + Block + text[i..]
      {
        assert text[i..] == ClosingTag + text[i + |ClosingTag|..];
      }
    }
    r
  }

  /** The character facts about the two constants that the proofs below use. */
  lemma ConstantFacts()
    ensures |ClosingTag| == 14 && ClosingTag[0] == '<' && ClosingTag[6] == '-'
    ensures ' ' !in ClosingTag
    ensures |Block| == 142 && Block[0] == ' '
    ensures '-' !in Block
    ensures '<' !in Block[|Block| - 6..]
  {
    ClosingTagFacts();
    BlockFacts();
    BlockEndFacts();
  }

  /** The closing tag opens with '<', has '-' at position 6 and no space. */
  lemma ClosingTagFacts()
    ensures |ClosingTag| == 14 && ClosingTag[0] == '<' && ClosingTag[6] == '-'
    ensures ' ' !in ClosingTag
  {
  }

  /** The block opens with a space and holds no '-'. */
  lemma BlockFacts()
    ensures |Block| == 142 && Block[0] == ' '
    ensures '-' !in Block
  {
    BlockHasNoDash();
  }

  /** The block holds no '-', since none of its pieces does. */
  lemma BlockHasNoDash()
    ensures '-' !in Block
  {
    OpeningHasNoDash();
    ModeHasNoDash();
  }

  /** The pieces that open the block hold no '-'. */
  lemma OpeningHasNoDash()
    ensures '-' !in ExtensionsOpen && '-' !in Namespace && '-' !in ModeOpen
  {
  }

  /** The pieces that close the block hold no '-'. */
  lemma ModeHasNoDash()
    ensures '-' !in K1 && '-' !in K2 && '-' !in ExtensionsClose
  {
  }

  /** The block's last six characters hold no '<'. */
  lemma BlockEndFacts()
    ensures |Block| == 142 && '<' !in Block[|Block| - 6..]
  {
    assert Block[|Block| - 6..] == ExtensionsClose[|ExtensionsClose| - 6..] == "ions>\n";
  }

  /** Patching grows text that has the tag by exactly the block's length. */
  lemma PatchLength(text: string)
    ensures Contains(text, ClosingTag) ==> |Patch(text)| == |text| + |Block|
    ensures !Contains(text, ClosingTag) ==> |Patch(text)| == |text|
  {
    if Contains(text, ClosingTag) {
      var i := IndexOf(text, ClosingTag).value;
      assert FirstAt(text, ClosingTag, i);
    }
  }

  /** Patching changes the text exactly when the closing tag occurs in it. */
  lemma PatchIsNoOpIff(text: string)
    ensures Patch(text) == text <==> !Contains(text, ClosingTag)
  {
    PatchLength(text);
    ConstantFacts();
  }

  /**
   * A closing tag cannot start inside the inserted block, nor straddle the
   * point where the block begins.
   */
  lemma NoTagAtBlock(pre: string, post: string, j: int)
    requires |pre| - |ClosingTag| < j < |pre| + |Block|
    ensures !OccursAt(pre + Block + post, ClosingTag, j)
  {
    ConstantFacts();
    var r := pre + Block + post;
    var n := |ClosingTag|;
    var i := |pre|;
    if j < 0 || j + n > |r| {
    } else if j < i {
      assert r[j..j + n][i - j] == r[i] == Block[0];
      assert ClosingTag[i - j] in ClosingTag;
    } else if j + 6 < i + |Block| {
      assert r[j..j + n][6] == r[j + 6] == Block[j + 6 - i];
      assert Block[j + 6 - i] in Block;
    } else {
      assert r[j..j + n][0] == r[j] == Block[j - i];
      assert Block[j - i] == Block[|Block| - 6..][j - i - (|Block| - 6)];
    }
  }

  /**
   * After patching, the first closing tag sits right after the inserted
   * block: the tag occurs nowhere in the text before it or inside the block.
   */
  lemma PatchMovesFirstTag(text: string, i: int)
    requires FirstAt(text, ClosingTag, i)
    ensures FirstAt(Patch(text), ClosingTag, i + |Block|)
  {
    var pre, post := text[..i], text[i..];
    forall j | i - |ClosingTag| < j < i + |Block|
      ensures !OccursAt(pre + Block + post, ClosingTag, j)
    {
      NoTagAtBlock(pre, post, j);
    }
    FirstAtAfterInsert(text, ClosingTag, Block, i);
  }

  /**
   * Patching is not idempotent: patching an already patched descriptor
   * inserts a second block in front of the same closing tag.
   */
  lemma PatchTwice(text: string, i: int)
    requires FirstAt(text, ClosingTag, i)
    ensures Patch(Patch(text)) == text[..i] + Block + Block + text[i..]
    ensures Patch(Patch(text)) != Patch(text)
  {
    var once := Patch(text);
    PatchMovesFirstTag(text, i);
    var k := i + |Block|;
    assert Patch(once) == once[..k] + Block + once[k..];
    assert once[..k] == text[..i] + Block;
    assert once[k..] == text[i..];
    PatchIsNoOpIff(once);
    assert OccursAt(once, ClosingTag, k);
  }

  /** The descriptor of a minimal plugin gains the block right before its closing tag. */
  lemma PatchExample()
    ensures Patch("<idea-plugin><name>X</name></idea-plugin>")
         == "<idea-plugin><name>X</name>" + Block + "</idea-plugin>"
  {
    ConstantFacts();
    var pre := "<idea-plugin><name>X</name>";
    var text := pre + ClosingTag;
    assert text == "<idea-plugin><name>X</name></idea-plugin>";
    assert '-' !in pre[6..] && '<' !in pre[21..];
    forall j | 0 <= j < |pre|
      ensures !OccursAt(text, ClosingTag, j)
    {
      if j + 6 < |pre| {
        assert text[j..j + 14][6] == pre[j + 6] == pre[6..][j];
      } else {
        assert text[j..j + 14][0] == pre[j] == pre[21..][j - 21];
      }
    }
    assert OccursAt(text, ClosingTag, |pre|);
    assert text[..|pre|] == pre && text[|pre|..] == ClosingTag;
  }
}
