/** `render_railroad`: every `{{#railroad SPEC}}` block becomes a JavaScript `script`. */
module Railroad {
  import opened Shortcode

  const Tag := "railroad"
  const Prefix := "\n" + "<script type=\"text/javascript\">\n"
  const Suffix := "\n</script>\n"

  /** The text with each railroad block replaced by the JavaScript `script` around its spec. */
  function RenderRailroad(s: string): string
  {
    RenderBlocks(Tag, Prefix, Suffix, s)
  }

  /** The text comes back unchanged exactly when it holds no railroad block; each matched block
      changes the length by the wrapper's length less what the block drops around its spec;
      and the blocks replaced are the leftmost, non-overlapping matches. */
  lemma RailroadLaws(s: string)
    ensures RenderRailroad(s) == s <==> NoBlock(Tag, s)
    ensures |RenderRailroad(s)| == |s| + Growth(MatchedFrom(Tag, s, 0), |Prefix| + |Suffix|)
    ensures Scanned(Tag, s, 0, MatchedFrom(Tag, s, 0))
  {
    RenderLaws(Tag, Prefix, Suffix, s);
  }

  /** A block after text without `{` becomes the JavaScript `script` around its spec; the text before
      it is kept and the text after it is rendered on its own. */
  lemma RailroadBlock(pre: string, ws: string, spec: string, post: string)
    requires '{' !in pre
    requires ws != [] && forall c :: c in ws ==> IsSpace(c)
    requires spec == [] || !IsSpace(spec[0])
    requires !HasClose(spec + "}")
    ensures RenderRailroad(pre + (Opener(Tag) + ws + spec + "}}") + post)
         == pre + (Prefix + spec + Suffix) + RenderRailroad(post)
  {
    RenderAroundBlock(Tag, Prefix, Suffix, pre, ws, spec, post);
  }

  /** The opener not followed by whitespace is no block: it is copied and the scan goes on. */
  lemma RailroadNeedsSpace(rest: string)
    requires rest == [] || !IsSpace(rest[0])
    ensures RenderRailroad(Opener(Tag) + rest) == Opener(Tag) + RenderRailroad(rest)
  {
    RenderOpenerWithoutSpace(Tag, Prefix, Suffix, rest);
  }

  /** Text without `{` is left as it is. */
  lemma RailroadPlain(s: string)
    requires '{' !in s
    ensures RenderRailroad(s) == s
  {
    RenderPlainPrefix(Tag, Prefix, Suffix, s, []);
    assert s + [] == s;
  }

  lemma ExampleParts()
    ensures "Grammar: " + (Opener(Tag) + " " + "Diagram(x)" + "}}") + "."
         == "Grammar: " + "{{#railroad Diagram(x)}}" + "."
    ensures "Grammar: " + (Prefix + "Diagram(x)" + Suffix)
         == "Grammar: " + Prefix + "Diagram(x)" + Suffix
  {
  }

  /** A diagram definition inside the text becomes the script around it. */
  lemma RailroadExample()
    ensures RenderRailroad("Grammar: " + "{{#railroad Diagram(x)}}" + ".")
         == "Grammar: " + Prefix + "Diagram(x)" + Suffix + "."
  {
    NoCloseWithoutBrace("Diagram(x)");
    RailroadBlock("Grammar: ", " ", "Diagram(x)", ".");
    ExampleParts();
    RailroadPlain(".");
  }

  lemma BareTagParts()
    ensures Opener(Tag) + "}}" == "{{#railroad" + "}}"
    ensures Opener(Tag) + "}}" == "{{#railroad}}"
  {
  }

  /** `{{#railroad}}` has no whitespace after the tag and is left as it is. */
  lemma RailroadBareTag()
    ensures RenderRailroad("{{#railroad" + "}}") == "{{#railroad}}"
  {
    RailroadNeedsSpace("}}");
    RailroadPlain("}}");
    BareTagParts();
  }
}
