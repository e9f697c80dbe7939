/** `render_mermaid`: every `{{#mermaid SPEC}}` block becomes a mermaid diagram `div`. */
module Mermaid {
  import opened Shortcode
  import Nomnoml

  const Tag := "mermaid"
  const Prefix := "\n" + "<div class=\"mermaid\">\n"
  const Suffix := "\n</div>\n"

  /** The text with each mermaid block replaced by the diagram `div` around its spec. */
  function RenderMermaid(s: string): string
  {
    RenderBlocks(Tag, Prefix, Suffix, s)
  }

  /** The text comes back unchanged exactly when it holds no mermaid block; each matched block
      changes the length by the wrapper's length less what the block drops around its spec;
      and the blocks replaced are the leftmost, non-overlapping matches. */
  lemma MermaidLaws(s: string)
    ensures RenderMermaid(s) == s <==> NoBlock(Tag, s)
    ensures |RenderMermaid(s)| == |s| + Growth(MatchedFrom(Tag, s, 0), |Prefix| + |Suffix|)
    ensures Scanned(Tag, s, 0, MatchedFrom(Tag, s, 0))
  {
    RenderLaws(Tag, Prefix, Suffix, s);
  }

  /** A block after text without `{` becomes the diagram `div` around its spec; the text before
      it is kept and the text after it is rendered on its own. */
  lemma MermaidBlock(pre: string, ws: string, spec: string, post: string)
    requires '{' !in pre
    requires ws != [] && forall c :: c in ws ==> IsSpace(c)
    requires spec == [] || !IsSpace(spec[0])
    requires !HasClose(spec + "}")
    ensures RenderMermaid(pre + (Opener(Tag) + ws + spec + "}}") + post)
         == pre + (Prefix + spec + Suffix) + RenderMermaid(post)
  {
    RenderAroundBlock(Tag, Prefix, Suffix, pre, ws, spec, post);
  }

  /** The opener not followed by whitespace is no block: it is copied and the scan goes on. */
  lemma MermaidNeedsSpace(rest: string)
    requires rest == [] || !IsSpace(rest[0])
    ensures RenderMermaid(Opener(Tag) + rest) == Opener(Tag) + RenderMermaid(rest)
  {
    RenderOpenerWithoutSpace(Tag, Prefix, Suffix, rest);
  }

  /** Text without `{` is left as it is. */
  lemma MermaidPlain(s: string)
    requires '{' !in s
    ensures RenderMermaid(s) == s
  {
    RenderPlainPrefix(Tag, Prefix, Suffix, s, []);
    assert s + [] == s;
  }

  lemma OneLineParts()
    ensures "Some random text with " + (Opener(Tag) + " " + "part1" + "}}") + "..."
         == "Some random text with " + "{{#mermaid part1}}" + "..."
    ensures "Some random text with " + (Prefix + "part1" + Suffix)
         == "Some random text with " + Prefix + "part1" + Suffix
  {
  }

  /** The one-line example: the block inside the text becomes the `div` around `part1`. With
      Prefix and Suffix written out, the right-hand side is the string the test of mermaid.rs
      asserts, "Some random text with \n<div class=\"mermaid\">\npart1\n</div>\n...". */
  lemma MermaidOneLine()
    ensures RenderMermaid("Some random text with " + "{{#mermaid part1}}" + "...")
         == "Some random text with " + Prefix + "part1" + Suffix + "..."
  {
    NoCloseWithoutBrace("part1");
    MermaidBlock("Some random text with ", " ", "part1", "...");
    OneLineParts();
    MermaidPlain("...");
  }

  lemma TwoLinesParts()
    ensures "Some random text with " + (Opener(Tag) + " " + "part1\npart2\n" + "}}") + "..."
         == "Some random text with " + "{{#mermaid part1\npart2\n}}" + "..."
    ensures "Some random text with " + (Prefix + "part1\npart2\n" + Suffix)
         == "Some random text with " + Prefix + "part1\npart2\n" + Suffix
  {
  }

  /** The two-line example: the spec keeps its inner and trailing newline. With Prefix and
      Suffix written out, the right-hand side is the asserted string
      "Some random text with \n<div class=\"mermaid\">\npart1\npart2\n\n</div>\n...". */
  lemma MermaidTwoLines()
    ensures RenderMermaid("Some random text with " + "{{#mermaid part1\npart2\n}}" + "...")
         == "Some random text with " + Prefix + "part1\npart2\n" + Suffix + "..."
  {
    NoCloseWithoutBrace("part1\npart2\n");
    MermaidBlock("Some random text with ", " ", "part1\npart2\n", "...");
    TwoLinesParts();
    MermaidPlain("...");
  }

  lemma EmptySpecParts()
    ensures [] + (Opener(Tag) + "   " + [] + "}}") + []
         == "{{#mermaid" + "   }}"
    ensures [] + (Prefix + [] + Suffix)
         == [] + Prefix + [] + Suffix
  {
  }

  /** A whitespace-only body gives an empty spec, and the block is still replaced. */
  lemma MermaidEmptySpec()
    ensures RenderMermaid("{{#mermaid" + "   }}")
         == Prefix + Suffix
  {
    NoCloseWithoutBrace([]);
    MermaidBlock([], "   ", [], []);
    EmptySpecParts();
    MermaidPlain([]);
  }

  lemma BareTagParts()
    ensures Opener(Tag) + "}}" == "{{#mermaid" + "}}"
    ensures Opener(Tag) + "}}" == "{{#mermaid}}"
  {
  }

  /** `{{#mermaid}}` has no whitespace after the tag and is left as it is. */
  lemma MermaidBareTag()
    ensures RenderMermaid("{{#mermaid" + "}}") == "{{#mermaid}}"
  {
    MermaidNeedsSpace("}}");
    MermaidPlain("}}");
    BareTagParts();
  }

  lemma OtherTagParts()
    ensures [] + Opener("nomnoml") + " x}}" == "{{#nomnoml" + " x}}"
    ensures [] + Opener("nomnoml") + " x}}" == "{{#nomnoml x}}"
  {
  }

  /** A block of another kind is left as it is. */
  lemma MermaidIgnoresOtherTags()
    ensures RenderMermaid("{{#nomnoml" + " x}}") == "{{#nomnoml x}}"
  {
    RenderKeepsOtherOpener(Tag, Prefix, Suffix, [], "nomnoml", " x}}", 0);
    OtherTagParts();
  }

  lemma AsWrittenParts()
    ensures "Some random text with " + Opener(Tag) + " part1}}..."
         == "Some random text with " + "{{#mermaid part1}}" + "..."
    ensures ("Some random text with " + "{{#mermaid part1}}" + "...")[22] == '{'
    ensures ("Some random text with " + Prefix + "part1" + Suffix + "...")[22] == '\n'
  {
  }

  /** The one-line test of mermaid.rs calls `render_nomnoml`, a name mermaid.rs does not bring
      into scope, so as written the test does not build. Were nomnoml's rewriter imported, it
      would find no nomnoml block in the mermaid input and return it unchanged, not the `div`
      the test expects. */
  lemma MermaidTestAsWritten()
    ensures Nomnoml.RenderNomnoml("Some random text with " + "{{#mermaid part1}}" + "...")
         == "Some random text with " + "{{#mermaid part1}}" + "..."
    ensures Nomnoml.RenderNomnoml("Some random text with " + "{{#mermaid part1}}" + "...")
         != "Some random text with " + Prefix + "part1" + Suffix + "..."
  {
    RenderKeepsOtherOpener(Nomnoml.Tag, Nomnoml.Prefix, Nomnoml.Suffix,
                           "Some random text with ", Tag, " part1}}...", 0);
    AsWrittenParts();
  }

  lemma AsWrittenTwoLinesParts()
    ensures "Some random text with " + Opener(Tag) + " part1\npart2\n}}..."
         == "Some random text with " + "{{#mermaid part1\npart2\n}}" + "..."
    ensures ("Some random text with " + "{{#mermaid part1\npart2\n}}" + "...")[22] == '{'
    ensures ("Some random text with " + Prefix + "part1\npart2\n" + Suffix + "...")[22] == '\n'
  {
  }

  /** The two-line test of mermaid.rs also calls the out-of-scope `render_nomnoml`. Were it
      imported, it would return the mermaid input unchanged instead of the expected `div`. */
  lemma MermaidTwoLinesTestAsWritten()
    ensures Nomnoml.RenderNomnoml("Some random text with " + "{{#mermaid part1\npart2\n}}" + "...")
         == "Some random text with " + "{{#mermaid part1\npart2\n}}" + "..."
    ensures Nomnoml.RenderNomnoml("Some random text with " + "{{#mermaid part1\npart2\n}}" + "...")
         != "Some random text with " + Prefix + "part1\npart2\n" + Suffix + "..."
  {
    RenderKeepsOtherOpener(Nomnoml.Tag, Nomnoml.Prefix, Nomnoml.Suffix,
                           "Some random text with ", Tag, " part1\npart2\n}}...", 0);
    AsWrittenTwoLinesParts();
  }
}
