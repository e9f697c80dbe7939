/** `render_functionplot`: every `{{#functionplot SPEC}}` block becomes a `functionPlot(SPEC);` call
    inside a `script`. */
module Functionplot {
  import opened Shortcode

  const Tag := "functionplot"
  const Prefix := "\n" + "<script>\nfunctionPlot("
  const Suffix := ");\n</script>\n"

  /** The text with each functionplot block replaced by the `functionPlot` call on its spec. */
  function RenderFunctionplot(s: string): string
  {
    RenderBlocks(Tag, Prefix, Suffix, s)
  }

  /** The text comes back unchanged exactly when it holds no functionplot block; each matched block
      changes the length by the wrapper's length less what the block drops around its spec;
      and the blocks replaced are the leftmost, non-overlapping matches. */
  lemma FunctionplotLaws(s: string)
    ensures RenderFunctionplot(s) == s <==> NoBlock(Tag, s)
    ensures |RenderFunctionplot(s)| == |s| + Growth(MatchedFrom(Tag, s, 0), |Prefix| + |Suffix|)
    ensures Scanned(Tag, s, 0, MatchedFrom(Tag, s, 0))
  {
    RenderLaws(Tag, Prefix, Suffix, s);
  }

  /** A block after text without `{` becomes the `functionPlot` call around its spec; the text before
      it is kept and the text after it is rendered on its own. */
  lemma FunctionplotBlock(pre: string, ws: string, spec: string, post: string)
    requires '{' !in pre
    requires ws != [] && forall c :: c in ws ==> IsSpace(c)
    requires spec == [] || !IsSpace(spec[0])
    requires !HasClose(spec + "}")
    ensures RenderFunctionplot(pre + (Opener(Tag) + ws + spec + "}}") + post)
         == pre + (Prefix + spec + Suffix) + RenderFunctionplot(post)
  {
    RenderAroundBlock(Tag, Prefix, Suffix, pre, ws, spec, post);
  }

  /** The opener not followed by whitespace is no block: it is copied and the scan goes on. */
  lemma FunctionplotNeedsSpace(rest: string)
    requires rest == [] || !IsSpace(rest[0])
    ensures RenderFunctionplot(Opener(Tag) + rest) == Opener(Tag) + RenderFunctionplot(rest)
  {
    RenderOpenerWithoutSpace(Tag, Prefix, Suffix, rest);
  }

  /** Text without `{` is left as it is. */
  lemma FunctionplotPlain(s: string)
    requires '{' !in s
    ensures RenderFunctionplot(s) == s
  {
    RenderPlainPrefix(Tag, Prefix, Suffix, s, []);
    assert s + [] == s;
  }

  lemma ExampleParts()
    ensures "Plot: " + (Opener(Tag) + "  " + "data: d" + "}}") + " end"
         == "Plot: " + "{{#functionplot  data: d}}" + " end"
    ensures "Plot: " + (Prefix + "data: d" + Suffix)
         == "Plot: " + Prefix + "data: d" + Suffix
  {
  }

  /** The spec becomes the argument of the `functionPlot` call; the text on both sides is kept. */
  lemma FunctionplotExample()
    ensures RenderFunctionplot("Plot: " + "{{#functionplot  data: d}}" + " end")
         == "Plot: " + Prefix + "data: d" + Suffix + " end"
  {
    NoCloseWithoutBrace("data: d");
    FunctionplotBlock("Plot: ", "  ", "data: d", " end");
    ExampleParts();
    FunctionplotPlain(" end");
  }

  lemma BareTagParts()
    ensures Opener(Tag) + "}}" == "{{#functionplot" + "}}"
    ensures Opener(Tag) + "}}" == "{{#functionplot}}"
  {
  }

  /** `{{#functionplot}}` has no whitespace after the tag and is left as it is. */
  lemma FunctionplotBareTag()
    ensures RenderFunctionplot("{{#functionplot" + "}}") == "{{#functionplot}}"
  {
    FunctionplotNeedsSpace("}}");
    FunctionplotPlain("}}");
    BareTagParts();
  }
}
