/** `render_nomnoml`: every `{{#nomnoml SPEC}}` block becomes a nomnoml source `script`. */
module Nomnoml {
  import opened Shortcode

  const Tag := "nomnoml"
  const Prefix := "\n" + "<script class=\"nomnoml-text\" type=\"text/plain\">\n"
  const Suffix := "\n</script>\n"

  /** The text with each nomnoml block replaced by the `script` around its spec. */
  function RenderNomnoml(s: string): string
  {
    RenderBlocks(Tag, Prefix, Suffix, s)
  }

  /** The text comes back unchanged exactly when it holds no nomnoml block; each matched block
      changes the length by the wrapper's length less what the block drops around its spec;
      and the blocks replaced are the leftmost, non-overlapping matches. */
  lemma NomnomlLaws(s: string)
    ensures RenderNomnoml(s) == s <==> NoBlock(Tag, s)
    ensures |RenderNomnoml(s)| == |s| + Growth(MatchedFrom(Tag, s, 0), |Prefix| + |Suffix|)
    ensures Scanned(Tag, s, 0, MatchedFrom(Tag, s, 0))
  {
    RenderLaws(Tag, Prefix, Suffix, s);
  }

  /** A block after text without `{` becomes the `script` around its spec; the text before
      it is kept and the text after it is rendered on its own. */
  lemma NomnomlBlock(pre: string, ws: string, spec: string, post: string)
    requires '{' !in pre
    requires ws != [] && forall c :: c in ws ==> IsSpace(c)
    requires spec == [] || !IsSpace(spec[0])
    requires !HasClose(spec + "}")
    ensures RenderNomnoml(pre + (Opener(Tag) + ws + spec + "}}") + post)
         == pre + (Prefix + spec + Suffix) + RenderNomnoml(post)
  {
    RenderAroundBlock(Tag, Prefix, Suffix, pre, ws, spec, post);
  }

  /** The opener not followed by whitespace is no block: it is copied and the scan goes on. */
  lemma NomnomlNeedsSpace(rest: string)
    requires rest == [] || !IsSpace(rest[0])
    ensures RenderNomnoml(Opener(Tag) + rest) == Opener(Tag) + RenderNomnoml(rest)
  {
    RenderOpenerWithoutSpace(Tag, Prefix, Suffix, rest);
  }

  /** Text without `{` is left as it is. */
  lemma NomnomlPlain(s: string)
    requires '{' !in s
    ensures RenderNomnoml(s) == s
  {
    RenderPlainPrefix(Tag, Prefix, Suffix, s, []);
    assert s + [] == s;
  }

  lemma OneLineParts()
    ensures "Some random text with " + (Opener(Tag) + " " + "part1" + "}}") + "..."
         == "Some random text with " + "{{#nomnoml part1}}" + "..."
    ensures "Some random text with " + (Prefix + "part1" + Suffix)
         == "Some random text with " + Prefix + "part1" + Suffix
  {
  }

  /** The one-line test: the block inside the text becomes the `script` around `part1`. With
      Prefix and Suffix written out, the right-hand side is the asserted string "Some random
      text with \n<script class=\"nomnoml-text\" type=\"text/plain\">\npart1\n</script>\n...". */
  lemma NomnomlOneLine()
    ensures RenderNomnoml("Some random text with " + "{{#nomnoml part1}}" + "...")
         == "Some random text with " + Prefix + "part1" + Suffix + "..."
  {
    NoCloseWithoutBrace("part1");
    NomnomlBlock("Some random text with ", " ", "part1", "...");
    OneLineParts();
    NomnomlPlain("...");
  }

  lemma TwoLinesParts()
    ensures "Some random text with " + (Opener(Tag) + " " + "part1\npart2\n" + "}}") + "..."
         == "Some random text with " + "{{#nomnoml part1\npart2\n}}" + "..."
    ensures "Some random text with " + (Prefix + "part1\npart2\n" + Suffix)
         == "Some random text with " + Prefix + "part1\npart2\n" + Suffix
  {
  }

  /** The two-line test: the spec keeps its inner and trailing newline. With Prefix and Suffix
      written out, the right-hand side is the asserted string "Some random text with \n<script
      class=\"nomnoml-text\" type=\"text/plain\">\npart1\npart2\n\n</script>\n...". */
  lemma NomnomlTwoLines()
    ensures RenderNomnoml("Some random text with " + "{{#nomnoml part1\npart2\n}}" + "...")
         == "Some random text with " + Prefix + "part1\npart2\n" + Suffix + "..."
  {
    NoCloseWithoutBrace("part1\npart2\n");
    NomnomlBlock("Some random text with ", " ", "part1\npart2\n", "...");
    TwoLinesParts();
    NomnomlPlain("...");
  }

  lemma EmptySpecParts()
    ensures [] + (Opener(Tag) + " \n" + [] + "}}") + []
         == "{{#nomnoml" + " \n}}"
    ensures [] + (Prefix + [] + Suffix)
         == [] + Prefix + [] + Suffix
  {
  }

  /** A whitespace-only body gives an empty spec, and the block is still replaced. */
  lemma NomnomlEmptySpec()
    ensures RenderNomnoml("{{#nomnoml" + " \n}}")
         == Prefix + Suffix
  {
    NoCloseWithoutBrace([]);
    NomnomlBlock([], " \n", [], []);
    EmptySpecParts();
    NomnomlPlain([]);
  }

  lemma FirstCloseParts()
    ensures [] + (Opener(Tag) + " " + "a" + "}}") + "}"
         == "{{#nomnoml a}}" + "}"
    ensures [] + (Prefix + "a" + Suffix)
         == [] + Prefix + "a" + Suffix
  {
  }

  /** The spec stops at the first `}}`: a third `}` stays behind in the text. */
  lemma NomnomlFirstClose()
    ensures RenderNomnoml("{{#nomnoml a}}" + "}")
         == Prefix + "a" + Suffix + "}"
  {
    NoCloseWithoutBrace("a");
    NomnomlBlock([], " ", "a", "}");
    FirstCloseParts();
    NomnomlPlain("}");
  }

  lemma BareTagParts()
    ensures Opener(Tag) + "}}" == "{{#nomnoml" + "}}"
    ensures Opener(Tag) + "}}" == "{{#nomnoml}}"
  {
  }

  /** `{{#nomnoml}}` has no whitespace after the tag and is left as it is. */
  lemma NomnomlBareTag()
    ensures RenderNomnoml("{{#nomnoml" + "}}") == "{{#nomnoml}}"
  {
    NomnomlNeedsSpace("}}");
    NomnomlPlain("}}");
    BareTagParts();
  }
}
