# mdBook HTML renderer: shortcode rewriters and render orchestration

This project models two parts of the HTML renderer of an mdBook fork and proves properties of them.

**Shortcode block rewriters.** `render_mermaid`, `render_nomnoml`, `render_jsxgraph`,
`render_railroad` and `render_functionplot` each run one `replace_all` with the pattern
`(?ms)\{\{#TAG\s+(?P<spec>.*?)\}\}`. Each matched block becomes a fixed HTML wrapper around
its spec.

- Module `Shortcode` models that pattern once, for any tag and wrapper. It runs in two steps:
  - `MatchedFrom` scans for the leftmost, non-overlapping matches.
  - `SpliceFrom` splices the wrapped specs into the text.
- A declarative description of the regex engine's semantics sits next to the scan:
  - `MatchesAt` / `IsMatch`: a greedy whitespace run, then a lazy spec up to the first `}}`, with newlines matched by `.`.
  - `Scanned`: the leftmost, non-overlapping sequence of matches.
- Lemmas show that the scan is exactly those semantics.
- Each of the modules `Mermaid`, `Nomnoml`, `Jsxgraph`, `Railroad` and `Functionplot` fixes the tag and wrapper. It then restates the general laws and proves the source's test cases and edge cases.
- `\s` is Unicode `White_Space` (`Shortcode.IsSpace`), which is what `\s` means in the regex crate's Unicode mode.

**Render orchestration** (`HbsRenderer`, after `hbs_renderer.rs`):
- `make_data` builds the book-level template context and the chapter entries (`MakeData`).
- The chapter loop of `render` (`RenderPages`):
  - reads each chapter, runs playpen, mermaid, nomnoml and jsxgraph on it, then converts it to HTML;
  - appends it to the print version and swaps the three per-page keys of the context;
  - renders and writes the page, and makes one filtered `index.html` write (`IndexFile`), from the first page, without its `<base href=` lines.
- The print page follows.
- `write_zip` extracts the bundled asset archives, each guarded by the predicate `buildfull || !exists` (`WriteZip`, `WriteArchive`).
- `Render` chains all of this.

Every method is proved equal to a specification function (`BookContext`, `Run`, `ZipSpec`,
`ArchiveSpec`, `RenderSpec`). Lemmas then relate those functions to independent
page-by-page descriptions (`Pages`, `WritesOf`, `PrintOf`, `AllArchiveFiles`).

Everything outside the renderer is a field of the `Env` datatype: the file system, the
markdown converter (`render_markdown`), the template engine, `path_to_root`, `render_playpen`,
the page target name and the archive contents. What is written is recorded in order as a
list of `Write`s. A run ends with an `Outcome`: the files written and the error, if any, that
stopped it.

Three behaviours of the code that the model keeps as they are:
- **Partial writes on error.** A failed render keeps the files written before the error, and an `Outcome` carries them.
- **What `index.html` keeps.** `index.html` is built with `str::lines` and `join("\n")`. That drops a final newline and a `'\r'` at the end of every line, including a last line with no newline after it. The `str::lines` of the Rust of the source's era removed that bare final `'\r'` too, and `StripCr` follows it; current Rust keeps it. So `IndexKeepsCleanPage` needs a page without `'\r'` and without a trailing newline.
- **A `{{#TAG` with no later `}}`.** Such an opener is retried at the next position, as `replace_all` does.

## Model

| member | source | states |
|---|---|---|
| Shortcode.SpaceRunEndIsMaximal | src/renderer/html_handlebars/helpers/nomnoml.rs:8 | `\s+` consumes the whole whitespace run after the tag: every character in it is whitespace and the next one is not |
| Shortcode.FindCloseIsFirst | src/renderer/html_handlebars/helpers/nomnoml.rs:8 | the lazy `.*?` stops at the first `}}` at or after the run; none is reported only when there is none |
| Shortcode.MatchAtIsPreferred | src/renderer/html_handlebars/helpers/nomnoml.rs:8 | the computed match at a position exists exactly when the pattern matches there, and it is the match the engine prefers (greedy run, lazy spec) |
| Shortcode.MatchUnique | src/renderer/html_handlebars/helpers/nomnoml.rs:8 | there is at most one preferred match at a position |
| Shortcode.MatchedOrdered | src/renderer/html_handlebars/helpers/nomnoml.rs:14 | the matches found lie inside the text, in order and without overlap |
| Shortcode.MatchedFromIsTheScan | src/renderer/html_handlebars/helpers/nomnoml.rs:14 | a list is the leftmost, non-overlapping sequence of matches if and only if it is the one the scan finds |
| Shortcode.ScannedUnique | src/renderer/html_handlebars/helpers/nomnoml.rs:14 | the leftmost, non-overlapping sequence of matches is unique |
| Shortcode.ScanIsMatched | src/renderer/html_handlebars/helpers/nomnoml.rs:14 | any leftmost, non-overlapping sequence of matches is what the scan returns |
| Shortcode.MatchedNoneIff | src/renderer/html_handlebars/helpers/nomnoml.rs:14 | the scan finds nothing exactly when no position of the text starts a block |
| Shortcode.MatchedAtMatch | src/renderer/html_handlebars/helpers/nomnoml.rs:14 | where a match starts, the scan reports it and resumes after its `}}` |
| Shortcode.MatchedSkips | src/renderer/html_handlebars/helpers/nomnoml.rs:14 | positions that start no match are passed over |
| Shortcode.NoBraceNoMatch | src/renderer/html_handlebars/helpers/nomnoml.rs:8 | a position that does not hold `{` starts no block |
| Shortcode.SpliceLength | src/renderer/html_handlebars/helpers/mermaid.rs:8 | the output is as long as the input plus, per match, the wrapper's length minus what the match drops around its spec |
| Shortcode.SpliceCopies | src/renderer/html_handlebars/helpers/nomnoml.rs:14 | text before the next match is copied verbatim |
| Shortcode.SpliceAtMatch | src/renderer/html_handlebars/helpers/nomnoml.rs:14 | at a match the output holds the wrapped spec, followed by the splice of the text after `}}` |
| Shortcode.RenderLaws | src/renderer/html_handlebars/helpers/nomnoml.rs:8-14 | the output equals the input exactly when the input holds no block; the length equation; the blocks replaced are the leftmost, non-overlapping matches |
| Shortcode.MatchedShift | src/renderer/html_handlebars/helpers/nomnoml.rs:14 | scanning the tail y of a text from an offset finds y's own matches, moved by the offset |
| Shortcode.SpliceShift | src/renderer/html_handlebars/helpers/nomnoml.rs:14 | splicing the tail y of a text gives what splicing y alone gives |
| Shortcode.RenderSuffix | src/renderer/html_handlebars/helpers/nomnoml.rs:14 | rendering x + y from where y starts is rendering y on its own |
| Shortcode.RenderPlainPrefix | src/renderer/html_handlebars/helpers/nomnoml.rs:14 | text without `{` in front of the rest is copied verbatim, and the rest is rendered on its own |
| Shortcode.OneBlockIsMatch | src/renderer/html_handlebars/helpers/nomnoml.rs:8 | opener, non-empty whitespace, a spec not starting with whitespace and `}}` form a match whose spec is exactly that spec |
| Shortcode.RenderOneBlock | src/renderer/html_handlebars/helpers/nomnoml.rs:8-14 | a well-formed block at the start of a text becomes prefix + spec + suffix and rendering resumes after its `}}` |
| Shortcode.RenderAroundBlock | src/renderer/html_handlebars/helpers/nomnoml.rs:8-14 | text without `{`, then a well-formed block, then more text: the text is kept, the block replaced, and the rest rendered on its own |
| Shortcode.RenderKeepsOtherOpener | src/renderer/html_handlebars/helpers/mermaid.rs:4 | an opener of a different tag is not a block and the text is left as it is |
| Shortcode.RenderOpenerWithoutSpace | src/renderer/html_handlebars/helpers/mermaid.rs:4 | the opener not followed by whitespace is not a block: it is copied and scanning continues after it |
| Mermaid.MermaidLaws | src/renderer/html_handlebars/helpers/mermaid.rs:4-8 | identity exactly without a mermaid block; length equation; leftmost, non-overlapping blocks |
| Mermaid.MermaidBlock | src/renderer/html_handlebars/helpers/mermaid.rs:4-8 | a mermaid block after plain text becomes the `<div class="mermaid">` wrapper around its spec |
| Mermaid.MermaidNeedsSpace | src/renderer/html_handlebars/helpers/mermaid.rs:4 | `{{#mermaid` followed by a non-space is copied unchanged |
| Mermaid.MermaidPlain | src/renderer/html_handlebars/helpers/mermaid.rs:8 | text without `{` is returned unchanged |
| Mermaid.MermaidOneLine | src/renderer/html_handlebars/helpers/mermaid.rs:16-21 | the one-line test input gives the expected string, produced by `render_mermaid` |
| Mermaid.MermaidTwoLines | src/renderer/html_handlebars/helpers/mermaid.rs:24-29 | the two-line spec is kept with its inner and trailing newline |
| Mermaid.MermaidEmptySpec | src/renderer/html_handlebars/helpers/mermaid.rs:4 | a whitespace-only body gives an empty spec that is still wrapped |
| Mermaid.MermaidBareTag | src/renderer/html_handlebars/helpers/mermaid.rs:4 | `{{#mermaid}}` is left unchanged |
| Mermaid.MermaidIgnoresOtherTags | src/renderer/html_handlebars/helpers/mermaid.rs:4 | `{{#nomnoml x}}` is left unchanged |
| Mermaid.MermaidTestAsWritten | src/renderer/html_handlebars/helpers/mermaid.rs:18-20 | the one-line test calls `render_nomnoml`, which is not in scope in mermaid.rs, so the test does not build; were nomnoml's function imported, it would return the input unchanged and not the expected `div` |
| Mermaid.MermaidTwoLinesTestAsWritten | src/renderer/html_handlebars/helpers/mermaid.rs:26-28 | the two-line test calls the same out-of-scope `render_nomnoml`; were it imported, it would return the input unchanged and not the expected `div` |
| Nomnoml.NomnomlLaws | src/renderer/html_handlebars/helpers/nomnoml.rs:8-14 | identity exactly without a nomnoml block; length equation; leftmost, non-overlapping blocks |
| Nomnoml.NomnomlBlock | src/renderer/html_handlebars/helpers/nomnoml.rs:8-14 | a nomnoml block after plain text becomes the nomnoml `script` around its spec |
| Nomnoml.NomnomlNeedsSpace | src/renderer/html_handlebars/helpers/nomnoml.rs:8 | `{{#nomnoml` followed by a non-space is copied unchanged |
| Nomnoml.NomnomlPlain | src/renderer/html_handlebars/helpers/nomnoml.rs:14 | text without `{` is returned unchanged |
| Nomnoml.NomnomlOneLine | src/renderer/html_handlebars/helpers/nomnoml.rs:23-28 | the one-line test input gives exactly the asserted string |
| Nomnoml.NomnomlTwoLines | src/renderer/html_handlebars/helpers/nomnoml.rs:31-36 | the two-line test input gives exactly the asserted string, trailing newline of the spec included |
| Nomnoml.NomnomlEmptySpec | src/renderer/html_handlebars/helpers/nomnoml.rs:8 | a whitespace-only body yields an empty spec that is still wrapped |
| Nomnoml.NomnomlFirstClose | src/renderer/html_handlebars/helpers/nomnoml.rs:8 | the block ends at the first `}}`; a third `}` stays in the text |
| Nomnoml.NomnomlBareTag | src/renderer/html_handlebars/helpers/nomnoml.rs:8 | `{{#nomnoml}}` is left unchanged |
| Jsxgraph.JsxgraphLaws | src/renderer/html_handlebars/helpers/jsxgraph.rs:4-8 | identity exactly without a jsxgraph block; length equation; leftmost, non-overlapping blocks |
| Jsxgraph.JsxgraphBlock | src/renderer/html_handlebars/helpers/jsxgraph.rs:4-8 | a jsxgraph block after plain text becomes the JavaScript `script` around its spec |
| Jsxgraph.JsxgraphNeedsSpace | src/renderer/html_handlebars/helpers/jsxgraph.rs:4 | `{{#jsxgraph` followed by a non-space is copied unchanged |
| Jsxgraph.JsxgraphPlain | src/renderer/html_handlebars/helpers/jsxgraph.rs:8 | text without `{` is returned unchanged |
| Jsxgraph.JsxgraphExample | src/renderer/html_handlebars/helpers/jsxgraph.rs:4-8 | a board definition inside text becomes the script around it, with the text after it kept |
| Jsxgraph.JsxgraphBareTag | src/renderer/html_handlebars/helpers/jsxgraph.rs:4 | `{{#jsxgraph}}` is left unchanged |
| Jsxgraph.JsxgraphIgnoresOtherTags | src/renderer/html_handlebars/helpers/jsxgraph.rs:4 | `{{#mermaid x}}` is left unchanged |
| Railroad.RailroadLaws | src/renderer/html_handlebars/helpers/railroad.rs:4-8 | identity exactly without a railroad block; length equation; leftmost, non-overlapping blocks |
| Railroad.RailroadBlock | src/renderer/html_handlebars/helpers/railroad.rs:4-8 | a railroad block after plain text becomes the JavaScript `script` around its spec |
| Railroad.RailroadNeedsSpace | src/renderer/html_handlebars/helpers/railroad.rs:4 | at least one whitespace character is needed after the tag |
| Railroad.RailroadPlain | src/renderer/html_handlebars/helpers/railroad.rs:8 | text without `{` is returned unchanged |
| Railroad.RailroadExample | src/renderer/html_handlebars/helpers/railroad.rs:4-8 | a concrete railroad block inside text becomes the script, with the surrounding text kept |
| Railroad.RailroadBareTag | src/renderer/html_handlebars/helpers/railroad.rs:4 | `{{#railroad}}` is left unchanged |
| Functionplot.FunctionplotLaws | src/renderer/html_handlebars/helpers/functionplot.rs:4-8 | identity exactly without a functionplot block; length equation; leftmost, non-overlapping blocks |
| Functionplot.FunctionplotBlock | src/renderer/html_handlebars/helpers/functionplot.rs:4-8 | a functionplot block after plain text becomes `functionPlot(` spec `);` inside a `script` |
| Functionplot.FunctionplotNeedsSpace | src/renderer/html_handlebars/helpers/functionplot.rs:4 | `{{#functionplot` followed by a non-space is copied unchanged |
| Functionplot.FunctionplotPlain | src/renderer/html_handlebars/helpers/functionplot.rs:8 | text without `{` is returned unchanged |
| Functionplot.FunctionplotExample | src/renderer/html_handlebars/helpers/functionplot.rs:4-8 | a concrete plot spec inside text becomes the `functionPlot(...)` call, with the text before and after it kept |
| Functionplot.FunctionplotBareTag | src/renderer/html_handlebars/helpers/functionplot.rs:4 | `{{#functionplot}}` is left unchanged |
| HbsRenderer.EntryFor | src/renderer/html_handlebars/hbs_renderer.rs:325-351 | an entry exists exactly for a spacer or a path that converts to a string; a chapter has keys `section`/`name`/`path`, an affix `name`/`path`, a spacer only `spacer = "_spacer_"` |
| HbsRenderer.CollectEntries | src/renderer/html_handlebars/hbs_renderer.rs:321-354 | all entries exist exactly when each item's does; then there is one per item, in order |
| HbsRenderer.BookContextShape | src/renderer/html_handlebars/hbs_renderer.rs:312-359 | the context fails, with the path error, exactly when some chapter path is not Unicode; otherwise it has `language = "en"`, `favicon = "favicon.png"`, title, description, `livereload` exactly when the book has one, and one entry per item in order |
| HbsRenderer.MakeData | src/renderer/html_handlebars/hbs_renderer.rs:309-360 | the loop that pushes chapter entries returns exactly the context described above |
| HbsRenderer.SplitAtNewlines | src/renderer/html_handlebars/hbs_renderer.rs:133 | at least one piece, and no piece holds a newline |
| HbsRenderer.StripAll | src/renderer/html_handlebars/hbs_renderer.rs:133 | one stripped line per line, in order |
| HbsRenderer.KeepLines | src/renderer/html_handlebars/hbs_renderer.rs:134 | no kept line contains `<base href=`; every kept line is one of the lines; every line without it is kept |
| HbsRenderer.JoinSplit | src/renderer/html_handlebars/hbs_renderer.rs:133-136 | joining the pieces between newlines with `"\n"` gives the text back |
| HbsRenderer.ContainsAroundNewline | src/renderer/html_handlebars/hbs_renderer.rs:136 | a text without newlines found in a + `"\n"` + b is found in a or in b |
| HbsRenderer.JoinAvoids | src/renderer/html_handlebars/hbs_renderer.rs:136 | lines that each avoid a non-empty text without newlines join into a text that avoids it |
| HbsRenderer.IndexHasNoBaseHref | src/renderer/html_handlebars/hbs_renderer.rs:133-136 | the content of `index.html` contains `<base href=` nowhere |
| HbsRenderer.KeepLinesKeepsAll | src/renderer/html_handlebars/hbs_renderer.rs:134 | lines that all avoid `<base href=` are all kept |
| HbsRenderer.KeepLinesOne | src/renderer/html_handlebars/hbs_renderer.rs:134 | a single line is kept exactly when it does not contain `<base href=` |
| HbsRenderer.KeepLinesAppend | src/renderer/html_handlebars/hbs_renderer.rs:133-135 | the filter works line by line: filtering a + b is filtering a followed by filtering b, so the kept lines stay in order with their multiplicity |
| HbsRenderer.DropsOneBaseLine | src/renderer/html_handlebars/hbs_renderer.rs:133-136 | one `<base href=` line among clean lines is removed and all other lines stay, in order |
| HbsRenderer.IndexKeepsCleanPage | src/renderer/html_handlebars/hbs_renderer.rs:133-136 | a page without `'\r'`, without a trailing newline and without `<base href=` becomes `index.html` unchanged |
| HbsRenderer.LinesOfCleanPage | src/renderer/html_handlebars/hbs_renderer.rs:133 | the lines of such a page are the pieces between its newlines |
| HbsRenderer.PageDataShape | src/renderer/html_handlebars/hbs_renderer.rs:90-108 | the three per-page keys hold the page's path, content and path to root; every other key keeps its value |
| HbsRenderer.PageDataTwice | src/renderer/html_handlebars/hbs_renderer.rs:90-108 | setting the per-page keys for a second page leaves nothing of the first |
| HbsRenderer.RenderPages | src/renderer/html_handlebars/hbs_renderer.rs:59-148 | the chapter loop, with its early returns, ends in exactly the state the page-by-page fold `Run` describes |
| HbsRenderer.RunStaysFailed | src/renderer/html_handlebars/hbs_renderer.rs:71-126 | after an error nothing more is read, rendered or written |
| HbsRenderer.PagesOne | src/renderer/html_handlebars/hbs_renderer.rs:63-66 | an item renders a page exactly when it is a chapter or affix with a non-empty path; a spacer renders none |
| HbsRenderer.PagesAppend | src/renderer/html_handlebars/hbs_renderer.rs:61-66 | the pages of a + b are the pages of a followed by those of b, so pages come in book order |
| HbsRenderer.PagesMembers | src/renderer/html_handlebars/hbs_renderer.rs:61-66 | a chapter is among the pages exactly when some item is a chapter or affix with that chapter and a non-empty path |
| HbsRenderer.RunSkips | src/renderer/html_handlebars/hbs_renderer.rs:64-66 | a spacer or a chapter with an empty path changes nothing: no page, no print content, no key change |
| HbsRenderer.PageStepMeets | src/renderer/html_handlebars/hbs_renderer.rs:66-143 | a page succeeds exactly when it can be read, its path is a string, the template renders, the page (and for the first page `index.html`) can be written; then the state agrees with the pages so far |
| HbsRenderer.AllPagesOkSnoc | src/renderer/html_handlebars/hbs_renderer.rs:123 | all pages succeed exactly when the earlier ones do and the new one does, counted as first when nothing came before |
| HbsRenderer.RunSucceedsIff | src/renderer/html_handlebars/hbs_renderer.rs:59-148 | the loop ends without error exactly when every page succeeds |
| HbsRenderer.RunAgrees | src/renderer/html_handlebars/hbs_renderer.rs:59-148 | after a loop without error: the print version is the pages' converted contents in order; the writes are each page, with `index.html` right after the first; the index flag is still set exactly when there was no page; the context is the book's with the last page's keys |
| HbsRenderer.RunNoPathError | src/renderer/html_handlebars/hbs_renderer.rs:91-99 | when every chapter path is a string (as `make_data` has checked) the loop never fails on the path conversion |
| HbsRenderer.IndexWritesAppend | src/renderer/html_handlebars/hbs_renderer.rs:123-143 | counting `index.html` writes adds up over concatenation |
| HbsRenderer.IndexWrittenOnce | src/renderer/html_handlebars/hbs_renderer.rs:60-143 | pages that all render make exactly one filtered `index.html` write (`IndexFile`) if there is a page, none otherwise |
| HbsRenderer.FirstPageWrites | src/renderer/html_handlebars/hbs_renderer.rs:116-141 | the first two writes are the first page and its filtered copy as `index.html` |
| HbsRenderer.ZipFiles | src/renderer/html_handlebars/hbs_renderer.rs:295-304 | the extracted writes are all asset files |
| HbsRenderer.ZipSpecMeets | src/renderer/html_handlebars/hbs_renderer.rs:289-307 | extraction succeeds exactly when every non-directory entry can be created; it then writes exactly those entries, in order |
| HbsRenderer.ZipFilesMembers | src/renderer/html_handlebars/hbs_renderer.rs:297-303 | a file is written exactly when the archive has it as an entry whose name does not end with `/` |
| HbsRenderer.ZipStaysFailed | src/renderer/html_handlebars/hbs_renderer.rs:302-303 | after a failed entry the later entries change nothing |
| HbsRenderer.WriteZip | src/renderer/html_handlebars/hbs_renderer.rs:289-307 | the loop over entries, skipping directories and stopping at the first failure, is `ZipSpec` |
| HbsRenderer.ArchiveMeets | src/renderer/html_handlebars/hbs_renderer.rs:241-287 | an archive fails only if it is extracted and a file cannot be created; otherwise it writes its files on a full rebuild or when its directory is missing, and nothing when it is present |
| HbsRenderer.WriteArchive | src/renderer/html_handlebars/hbs_renderer.rs:241-287 | each `write_*` function is the archive step above |
| HbsRenderer.AssetsMeet | src/renderer/html_handlebars/hbs_renderer.rs:231-235 | when no archive fails, the writes are those of every extracted archive, in order |
| HbsRenderer.ArchiveFilesAreAssets | src/renderer/html_handlebars/hbs_renderer.rs:231-235 | the archives write only asset files |
| HbsRenderer.AssetsStep | src/renderer/html_handlebars/hbs_renderer.rs:231-235 | the first archive stops the sequence with its error, or its files come before the rest |
| HbsRenderer.PreprocessPlain | src/renderer/html_handlebars/hbs_renderer.rs:78-83 | text without `{` after playpen is passed through the three wired rewriters unchanged |
| HbsRenderer.PreprocessKeepsUnwired | src/renderer/html_handlebars/hbs_renderer.rs:78-83 | a block of a tag starting with none of `m`, `n`, `j` survives the wired rewriters |
| HbsRenderer.RailroadNotWired | src/renderer/html_handlebars/hbs_renderer.rs:79-82 | railroad blocks reach the markdown converter unrendered: `render_railroad` is never called |
| HbsRenderer.FunctionplotNotWired | src/renderer/html_handlebars/hbs_renderer.rs:79-82 | functionplot blocks reach the markdown converter unrendered: `render_functionplot` is never called |
| HbsRenderer.Render | src/renderer/html_handlebars/hbs_renderer.rs:30-238 | `render` with its early returns is `RenderSpec`: context, destination, pages, print page, archives |
| HbsRenderer.RenderRefusesNonUnicode | src/renderer/html_handlebars/hbs_renderer.rs:47-57 | a chapter path that is not Unicode stops the render with the path error before anything is written |
| HbsRenderer.RenderMeets | src/renderer/html_handlebars/hbs_renderer.rs:30-238 | the render succeeds exactly when every stage does; it then writes the pages, the print page (rendered once, `path = "print.md"`, the pages' contents in order) and the extracted archives' files |
| HbsRenderer.PrintContextAfterPages | src/renderer/html_handlebars/hbs_renderer.rs:150-162 | the print page's context does not depend on which page came last |
| HbsRenderer.NoIndexAmongAssets | src/renderer/html_handlebars/hbs_renderer.rs:231-235 | asset files are never `index.html` writes |
| HbsRenderer.RenderIndexOnce | src/renderer/html_handlebars/hbs_renderer.rs:60-143 | a successful render makes exactly one filtered `index.html` write (`IndexFile`) if the book has a page, none otherwise |
| HbsRenderer.RenderStartsWithIndex | src/renderer/html_handlebars/hbs_renderer.rs:116-141 | a successful render with a page first writes that page, then its filtered copy as `index.html` |

## Left out

- Theme files: copying `book.js`, `book.css`, `favicon.png`, `jquery.js`, the highlighter files (`hbs_renderer.rs:175-226`) and `copy_files_except_ext` (`hbs_renderer.rs:229`) are file copies of fixed buffers. They are left out, and so are their errors: in the model the print page is followed directly by the archives.
- The template engine: loading the theme, registering the `index` template and the `toc`/`previous`/`next` helpers (`hbs_renderer.rs:32-45`). Rendering is the function `Env.template` from context to HTML or failure; the early returns when `String::from_utf8` fails on the theme or `register_template_string` fails (`hbs_renderer.rs:39`) are not modelled.
- `render_markdown`, `render_playpen` and `path_to_root` are not part of this model. They are the uninterpreted functions `Env.markdown`, `Env.playpen` and `Env.pathToRoot`. The playpen helper's file inclusion, escapes and `editable` flag belong to it.
- `book.iter()` is not part of this model: the book's items are given as the already flattened sequence that the iterator yields.
- File system: chapter reading is `Env.read`; the parent of the source path is `Env.parent`; the page target `dest/path.html` is `Env.htmlTarget`; whether a target can be created (including its parent directories) is `Env.writable`; destination creation is `Env.destReady`. A write whose creation succeeded is assumed to succeed. Each of these is fixed for the whole run, so the model does not capture how earlier writes change the file system for later steps. For example, a chapter whose page lies under `mermaid/` creates that directory, and the later `exists` check at `hbs_renderer.rs:272` then skips the mermaid archive; in the model `Env.dirExists` does not change.
- `index.html` is not read back from disk: the page just rendered is used. That misses an aliasing case. When the first page's target is `dest/index.html` itself (a chapter `index.md`), `File::create` at `hbs_renderer.rs:126` truncates that page before it is read back at `hbs_renderer.rs:128`. The source then writes an empty `index.html`, where the model writes the filtered page.
- Page targets are never compared with `index.html`: `Env.htmlTarget` is opaque, and a page write (`PageFile`) and the filtered copy (`IndexFile`) are separate kinds of write. So when a later chapter's target is `dest/index.html` (`hbs_renderer.rs:116-120`), that page, `<base href=` lines included, replaces the filtered copy; the model does not show this.
- The replacement is modelled as a literal insertion of the captured spec between the wrapper's two halves. The regex crate's expansion of the replacement template may treat `$` specially, for example by turning `$$` into `$` over the expansion. A spec containing `$` is where the model and the crate could differ.
- Zip decoding: `ZipArchive::new`, `by_index` and `include_bytes!` are a foreign library. An archive is the list of its entries (`Env.archive`), and decoding errors are left out.
- Errors are a datatype of kinds (`Error`), not boxed `io::Error` messages; logging (`debug!`, `info!`, `println!`) is left out.
- HbsRenderer.RunAgrees: says nothing about the context after a failed page. That state is still determined exactly, by `Run`, which `RenderPages` is proved to equal.

## Findings

| source | as written | input that shows it | evidently intended | confidence | as-written member | corrected member |
|---|---|---|---|---|---|---|
| src/renderer/html_handlebars/helpers/mermaid.rs:18 | the one-line test calls `render_nomnoml`, which mermaid.rs does not bring into scope, so the test does not build | were nomnoml's function imported, `"Some random text with {{#mermaid part1}}..."` would come back unchanged, not with the `div` the test asserts | call `render_mermaid`, which gives the asserted string | not executed | Mermaid.MermaidTestAsWritten | Mermaid.MermaidOneLine |
| src/renderer/html_handlebars/helpers/mermaid.rs:26 | the two-line test calls the same out-of-scope `render_nomnoml` | were it imported, `"Some random text with {{#mermaid part1\npart2\n}}..."` would come back unchanged | call `render_mermaid`, which gives the asserted string | not executed | Mermaid.MermaidTwoLinesTestAsWritten | Mermaid.MermaidTwoLines |
