/** `render_jsxgraph`: every `{{#jsxgraph SPEC}}` block becomes a JavaScript `script`. */
module Jsxgraph {
  import opened Shortcode

  const Tag := "jsxgraph"
  const Prefix := "\n" + "<script type=\"text/javascript\">\n"
  const Suffix := "\n</script>\n"

  /** The text with each jsxgraph block replaced by the JavaScript `script` around its spec. */
  function RenderJsxgraph(s: string): string
  {
    RenderBlocks(Tag, Prefix, Suffix, s)
  }

  /** The text comes back unchanged exactly when it holds no jsxgraph block; each matched block
      changes the length by the wrapper's length less what the block drops around its spec;
      and the blocks replaced are the leftmost, non-overlapping matches. */
  lemma JsxgraphLaws(s: string)
    ensures RenderJsxgraph(s) == s <==> NoBlock(Tag, s)
    ensures |RenderJsxgraph(s)| == |s| + Growth(MatchedFrom(Tag, s, 0), |Prefix| + |Suffix|)
    ensures Scanned(Tag, s, 0, MatchedFrom(Tag, s, 0))
  {
    RenderLaws(Tag, Prefix, Suffix, s);
  }

  /** A block after text without `{` becomes the JavaScript `script` around its spec; the text before
      it is kept and the text after it is rendered on its own. */
  lemma JsxgraphBlock(pre: string, ws: string, spec: string, post: string)
    requires '{' !in pre
    requires ws != [] && forall c :: c in ws ==> IsSpace(c)
    requires spec == [] || !IsSpace(spec[0])
    requires !HasClose(spec + "}")
    ensures RenderJsxgraph(pre + (Opener(Tag) + ws + spec + "}}") + post)
         == pre + (Prefix + spec + Suffix) + RenderJsxgraph(post)
  {
    RenderAroundBlock(Tag, Prefix, Suffix, pre, ws, spec, post);
  }

  /** The opener not followed by whitespace is no block: it is copied and the scan goes on. */
  lemma JsxgraphNeedsSpace(rest: string)
    requires rest == [] || !IsSpace(rest[0])
    ensures RenderJsxgraph(Opener(Tag) + rest) == Opener(Tag) + RenderJsxgraph(rest)
  {
    RenderOpenerWithoutSpace(Tag, Prefix, Suffix, rest);
  }

  /** Text without `{` is left as it is. */
  lemma JsxgraphPlain(s: string)
    requires '{' !in s
    ensures RenderJsxgraph(s) == s
  {
    RenderPlainPrefix(Tag, Prefix, Suffix, s, []);
    assert s + [] == s;
  }

  lemma ExampleParts()
    ensures "Board: " + (Opener(Tag) + " \n" + "initBoard(b)\n" + "}}") + " done"
         == "Board: " + "{{#jsxgraph \ninitBoard(b)\n}}" + " done"
    ensures "Board: " + (Prefix + "initBoard(b)\n" + Suffix)
         == "Board: " + Prefix + "initBoard(b)\n" + Suffix
  {
  }

  /** A board definition inside the text becomes the script around it. */
  lemma JsxgraphExample()
    ensures RenderJsxgraph("Board: " + "{{#jsxgraph \ninitBoard(b)\n}}" + " done")
         == "Board: " + Prefix + "initBoard(b)\n" + Suffix + " done"
  {
    NoCloseWithoutBrace("initBoard(b)\n");
    JsxgraphBlock("Board: ", " \n", "initBoard(b)\n", " done");
    ExampleParts();
    JsxgraphPlain(" done");
  }

  lemma BareTagParts()
    ensures Opener(Tag) + "}}" == "{{#jsxgraph" + "}}"
    ensures Opener(Tag) + "}}" == "{{#jsxgraph}}"
  {
  }

  /** `{{#jsxgraph}}` has no whitespace after the tag and is left as it is. */
  lemma JsxgraphBareTag()
    ensures RenderJsxgraph("{{#jsxgraph" + "}}") == "{{#jsxgraph}}"
  {
    JsxgraphNeedsSpace("}}");
    JsxgraphPlain("}}");
    BareTagParts();
  }

  lemma OtherTagParts()
    ensures [] + Opener("mermaid") + " x}}" == "{{#mermaid" + " x}}"
    ensures [] + Opener("mermaid") + " x}}" == "{{#mermaid x}}"
  {
  }

  /** A block of another kind is left as it is. */
  lemma JsxgraphIgnoresOtherTags()
    ensures RenderJsxgraph("{{#mermaid" + " x}}") == "{{#mermaid x}}"
  {
    RenderKeepsOtherOpener(Tag, Prefix, Suffix, [], "mermaid", " x}}", 0);
    OtherTagParts();
  }
}
