/**
 * The HTML renderer's orchestration over a book: `make_data` builds the template context,
 * the page loop of `render` rewrites every chapter, accumulates the print version, swaps the
 * per-page keys and writes `index.html` once, the print page follows, and the bundled asset
 * archives are extracted unless they are already there.
 *
 * The file system, the markdown converter, the template engine, `path_to_root` and the
 * playpen helper are opaque: they are the fields of an `Env`. What is written is recorded,
 * in order, as a list of `Write`s.
 */
module HbsRenderer {
  import opened Wrappers
  import Shortcode
  import Mermaid
  import Nomnoml
  import Jsxgraph
  import Railroad
  import Functionplot

  // ---------------------------------------------------------------------------------------
  // The book and the world it is rendered in

  /** A chapter's path relative to the source directory; `to_str` fails on one that is not
      valid Unicode. */
  datatype Path = Path(text: string) | NonUnicode(raw: seq<bv8>)

  /** `Path::to_str`. */
  function ToStr(p: Path): Option<string> {
    match p
    case Path(t) => Some(t)
    case NonUnicode(_) => None
  }

  /** The path equals `PathBuf::new()`. */
  predicate IsEmpty(p: Path) {
    p.Path? && p.text == []
  }

  datatype Chapter = Chapter(name: string, path: Path)

  /** One entry of the book in the order the book's iterator yields it: a numbered chapter
      (`BookItem::Chapter`) with its section number, an affix (an unnumbered chapter), or a
      spacer. */
  datatype BookItem = Numbered(section: string, chapter: Chapter) | Affix(chapter: Chapter) | Spacer

  datatype Book = Book(title: string, description: string, livereload: Option<string>,
                       items: seq<BookItem>, buildFull: bool)

  /** A value of the template context: a string, or the list of chapter entries. */
  datatype Value = Text(text: string) | Entries(entries: seq<map<string, string>>)

  type Data = map<string, Value>

  /** A file the renderer writes: a chapter's page, `index.html`, `print.html`, or a file of
      an asset archive. Targets are relative to the destination directory. */
  datatype Write =
    | PageFile(target: string, html: string)
    | IndexFile(html: string)
    | PrintFile(html: string)
    | AssetFile(name: string, data: seq<bv8>)

  datatype ZipEntry = ZipEntry(name: string, data: seq<bv8>)

  datatype Error =
    | PathNotUnicode
    | DestinationUnavailable
    | ReadFailed(path: Path)
    | TemplateFailed
    | WriteFailed(target: string)

  /** What the renderer cannot see into: reading a chapter's source, the parent directory
      of its source file, the playpen helper, markdown conversion, `path_to_root`, the
      `index` template, the page's target name (`dest/path.html`), whether the destination
      directory can be created, which targets can be written, which asset directories
      already exist, and the entries of each bundled archive. */
  datatype Env = Env(
    read: Path -> Option<string>,
    parent: Path -> Option<string>,
    playpen: (string, string) -> string,
    markdown: string -> string,
    pathToRoot: Path -> string,
    template: Data -> Option<string>,
    htmlTarget: Path -> string,
    destReady: bool,
    writable: string -> bool,
    dirExists: string -> bool,
    archive: string -> seq<ZipEntry>)

  // ---------------------------------------------------------------------------------------
  // make_data

  /** The chapter entry of one item, or None when its path is not valid Unicode. */
  function EntryFor(item: BookItem): (r: Option<map<string, string>>)
    ensures r.Some? <==> item.Spacer? || ToStr(item.chapter.path).Some?
    ensures r.Some? && item.Spacer? ==> r.value == map["spacer" := "_spacer_"]
    ensures r.Some? && !item.Spacer? ==>
              && r.value.Keys == (if item.Numbered? then {"section", "name", "path"} else {"name", "path"})
              && r.value["name"] == item.chapter.name
              && Some(r.value["path"]) == ToStr(item.chapter.path)
              && (item.Numbered? ==> r.value["section"] == item.section)
  {
    match item
    case Spacer => Some(map["spacer" := "_spacer_"])
    case Affix(ch) =>
      (match ToStr(ch.path)
       case Some(p) => Some(map["name" := ch.name, "path" := p])
       case None => None)
    case Numbered(s, ch) =>
      match ToStr(ch.path)
      case Some(p) => Some(map["section" := s, "name" := ch.name, "path" := p])
      case None => None
  }

  /** The entries of all items, one per item and in order, or None when some item has none. */
  function CollectEntries(items: seq<BookItem>): (r: Option<seq<map<string, string>>>)
    ensures r.Some? <==> forall k :: 0 <= k < |items| ==> EntryFor(items[k]).Some?
    ensures r.Some? ==> |r.value| == |items|
    ensures r.Some? ==> forall k :: 0 <= k < |items| ==> EntryFor(items[k]) == Some(r.value[k])
  {
    if items == [] then Some([])
    else
      var init := items[..|items| - 1];
      assert forall k :: 0 <= k < |init| ==> init[k] == items[k];
      match CollectEntries(init)
      case None => None
      case Some(es) =>
        match EntryFor(items[|items| - 1])
        case None => None
        case Some(e) => Some(es + [e])
  }

  /** The book-level keys of the context. */
  function BookKeys(book: Book): Data {
    var d := map["language" := Text("en"), "title" := Text(book.title),
                 "description" := Text(book.description), "favicon" := Text("favicon.png")];
    match book.livereload
    case Some(l) => d["livereload" := Text(l)]
    case None => d
  }

  /** What `make_data` returns for the book. */
  function BookContext(book: Book): Result<Data, Error> {
    match CollectEntries(book.items)
    case Some(es) => Success(BookKeys(book)["chapters" := Entries(es)])
    case None => Failure(PathNotUnicode)
  }

  /** The context fails to build exactly when some chapter's path is not valid Unicode; when
      it builds, it holds the language, the title, the description, the favicon, the live
      reload address exactly when the book has one, and one chapter entry per item, in order. */
  lemma BookContextShape(book: Book)
    ensures BookContext(book).Failure? <==>
              exists k :: 0 <= k < |book.items| && !book.items[k].Spacer?
                          && ToStr(book.items[k].chapter.path).None?
    ensures BookContext(book).Failure? ==> BookContext(book).error == PathNotUnicode
    ensures BookContext(book).Success? ==>
              var d := BookContext(book).value;
              && d["language"] == Text("en") && d["favicon"] == Text("favicon.png")
              && d["title"] == Text(book.title) && d["description"] == Text(book.description)
              && ("livereload" in d <==> book.livereload.Some?)
              && (book.livereload.Some? ==> d["livereload"] == Text(book.livereload.value))
              && d["chapters"].Entries?
              && |d["chapters"].entries| == |book.items|
              && forall k :: 0 <= k < |book.items| ==> EntryFor(book.items[k]) == Some(d["chapters"].entries[k])
  {
    var r := CollectEntries(book.items);
    if r.None? {
      var k :| 0 <= k < |book.items| && EntryFor(book.items[k]).None?;
      assert !book.items[k].Spacer? && ToStr(book.items[k].chapter.path).None?;
    }
  }

  /** `make_data`: the book-level keys, then one chapter entry per item. */
  method MakeData(book: Book) returns (r: Result<Data, Error>)
    ensures r == BookContext(book)
  {
    var data: Data := map[];
    data := data["language" := Text("en")];
    data := data["title" := Text(book.title)];
    data := data["description" := Text(book.description)];
    data := data["favicon" := Text("favicon.png")];
    if book.livereload.Some? {
      data := data["livereload" := Text(book.livereload.value)];
    }
    var chapters: seq<map<string, string>> := [];
    var i := 0;
    while i < |book.items|
      invariant 0 <= i <= |book.items|
      invariant CollectEntries(book.items[..i]) == Some(chapters)
    {
      var item := book.items[i];
      var chapter: map<string, string> := map[];
      match item {
        case Affix(ch) =>
          chapter := chapter["name" := ch.name];
          match ToStr(ch.path) {
            case Some(p) => chapter := chapter["path" := p];
            case None => return Failure(PathNotUnicode);
          }
        case Numbered(s, ch) =>
          chapter := chapter["section" := s];
          chapter := chapter["name" := ch.name];
          match ToStr(ch.path) {
            case Some(p) => chapter := chapter["path" := p];
            case None => return Failure(PathNotUnicode);
          }
        case Spacer =>
          chapter := chapter["spacer" := "_spacer_"];
      }
      assert EntryFor(item) == Some(chapter);
      assert book.items[..i + 1][..i] == book.items[..i];
      chapters := chapters + [chapter];
      i := i + 1;
    }
    assert book.items[..i] == book.items;
    data := data["chapters" := Entries(chapters)];
    return Success(data);
  }

  // ---------------------------------------------------------------------------------------
  // The base-href filter of index.html

  /** The pieces of s between its '\n' characters: one more piece than there are newlines. */
  function SplitAtNewlines(s: string): (r: seq<string>)
    ensures |r| >= 1
    ensures forall k :: 0 <= k < |r| ==> '\n' !in r[k]
  {
    if s == [] then [[]]
    else
      var rest := SplitAtNewlines(s[1..]);
      if s[0] == '\n' then [[]] + rest
      else [[s[0]] + rest[0]] + rest[1..]
  }

  /** One trailing '\r' removed. */
  function StripCr(l: string): string {
    if l != [] && l[|l| - 1] == '\r' then l[..|l| - 1] else l
  }

  function StripAll(ls: seq<string>): (r: seq<string>)
    ensures |r| == |ls| && forall k :: 0 <= k < |ls| ==> r[k] == StripCr(ls[k])
  {
    if ls == [] then [] else [StripCr(ls[0])] + StripAll(ls[1..])
  }

  /** `str::lines`: the pieces between newlines, where a final newline ends the last line
      instead of starting an empty one, each without one trailing '\r'. */
  function Lines(s: string): seq<string> {
    if s == [] then []
    else
      var pieces := SplitAtNewlines(s);
      if pieces[|pieces| - 1] == [] then StripAll(pieces[..|pieces| - 1]) else StripAll(pieces)
  }

  /** `t` occurs in `s` at index i. */
  predicate OccursAt(s: string, t: string, i: nat) {
    i + |t| <= |s| && s[i..i + |t|] == t
  }

  /** `t` occurs in `s`. */
  predicate Contains(s: string, t: string) {
    exists i: nat :: i <= |s| && OccursAt(s, t, i)
  }

  const BaseHref := "<base href="

  /** The lines that do not contain `<base href=`, in order. */
  function KeepLines(ls: seq<string>): (r: seq<string>)
    ensures forall k :: 0 <= k < |r| ==> !Contains(r[k], BaseHref)
    ensures forall k :: 0 <= k < |r| ==> r[k] in ls
    ensures forall k :: 0 <= k < |ls| && !Contains(ls[k], BaseHref) ==> ls[k] in r
  {
    if ls == [] then []
    else if Contains(ls[0], BaseHref) then KeepLines(ls[1..])
    else [ls[0]] + KeepLines(ls[1..])
  }

  /** The lines joined with "\n" between them. */
  function Join(ls: seq<string>): string {
    if ls == [] then []
    else if |ls| == 1 then ls[0]
    else ls[0] + "\n" + Join(ls[1..])
  }

  /** The content of `index.html`: the page's lines without those holding a base href. */
  function IndexContent(html: string): string {
    Join(KeepLines(Lines(html)))
  }

  /** Joining the pieces between newlines gives the text back. */
  lemma {:induction false} JoinSplit(s: string)
    ensures Join(SplitAtNewlines(s)) == s
  {
    if s != [] {
      var rest := SplitAtNewlines(s[1..]);
      JoinSplit(s[1..]);
      if s[0] == '\n' {
        assert SplitAtNewlines(s) == [[]] + rest;
        assert ([[]] + rest)[1..] == rest;
        assert s == [] + "\n" + s[1..];
      } else if |rest| == 1 {
        assert SplitAtNewlines(s) == [[s[0]] + rest[0]];
        assert s == [s[0]] + s[1..];
      } else {
        var r := SplitAtNewlines(s);
        assert r == [[s[0]] + rest[0]] + rest[1..];
        assert r[1..] == rest[1..];
        assert Join(rest) == rest[0] + "\n" + Join(rest[1..]);
        assert s == [s[0]] + s[1..];
      }
    }
  }

  /** An occurrence of a text without newlines covers no newline. */
  lemma OccurrenceAvoidsNewline(s: string, t: string, i: nat)
    requires OccursAt(s, t, i) && '\n' !in t
    ensures forall p :: i <= p < i + |t| ==> s[p] != '\n'
  {
    forall p | i <= p < i + |t| ensures s[p] != '\n' {
      assert s[p] == t[p - i];
    }
  }

  /** An occurrence in a + "\n" + b of a text without newlines lies in a or in b. */
  lemma ContainsAroundNewline(a: string, b: string, t: string)
    requires '\n' !in t
    ensures Contains(a + "\n" + b, t) ==> Contains(a, t) || Contains(b, t)
  {
    var s := a + "\n" + b;
    if !Contains(s, t) {
      return;
    }
    var i: nat :| i <= |s| && OccursAt(s, t, i);
    OccurrenceAvoidsNewline(s, t, i);
    assert s[|a|] == '\n';
    if i + |t| <= |a| {
      assert a[i..i + |t|] == s[i..i + |t|];
      assert i <= |a| && OccursAt(a, t, i);
    } else {
      assert i > |a|;
      var j: nat := i - |a| - 1;
      assert b[j..j + |t|] == s[i..i + |t|];
      assert j <= |b| && OccursAt(b, t, j);
    }
  }

  /** Lines none of which contains a text without newlines join into a text without it. */
  lemma {:induction false} JoinAvoids(ls: seq<string>, t: string)
    requires t != [] && '\n' !in t
    requires forall k :: 0 <= k < |ls| ==> !Contains(ls[k], t)
    ensures !Contains(Join(ls), t)
  {
    if |ls| == 1 {
      assert Join(ls) == ls[0];
    } else if |ls| > 1 {
      JoinAvoids(ls[1..], t);
      assert Join(ls) == ls[0] + "\n" + Join(ls[1..]);
      ContainsAroundNewline(ls[0], Join(ls[1..]), t);
    }
  }

  /** `index.html` contains `<base href=` nowhere. */
  lemma IndexHasNoBaseHref(html: string)
    ensures !Contains(IndexContent(html), BaseHref)
  {
    JoinAvoids(KeepLines(Lines(html)), BaseHref);
  }

  /** Lines that all avoid `<base href=` are all kept. */
  lemma {:induction false} KeepLinesKeepsAll(ls: seq<string>)
    requires forall k :: 0 <= k < |ls| ==> !Contains(ls[k], BaseHref)
    ensures KeepLines(ls) == ls
  {
    if ls != [] {
      KeepLinesKeepsAll(ls[1..]);
    }
  }

  /** A single line is kept exactly when it avoids `<base href=`. */
  lemma KeepLinesOne(line: string)
    ensures KeepLines([line]) == if Contains(line, BaseHref) then [] else [line]
  {
    assert [line][1..] == [];
  }

  /** The filter works line by line: filtering a + b is filtering a, then b, so the kept lines
      stay in their order and each keeps its multiplicity. */
  lemma {:induction false} KeepLinesAppend(a: seq<string>, b: seq<string>)
    ensures KeepLines(a + b) == KeepLines(a) + KeepLines(b)
    decreases |a|
  {
    if a == [] {
      assert a + b == b;
    } else {
      assert (a + b)[0] == a[0] && (a + b)[1..] == a[1..] + b;
      KeepLinesAppend(a[1..], b);
    }
  }

  /** One line with `<base href=` among clean lines is dropped and the others stay in order. */
  lemma DropsOneBaseLine(a: seq<string>, line: string, b: seq<string>)
    requires forall k :: 0 <= k < |a| ==> !Contains(a[k], BaseHref)
    requires Contains(line, BaseHref)
    requires forall k :: 0 <= k < |b| ==> !Contains(b[k], BaseHref)
    ensures KeepLines(a + [line] + b) == a + b
  {
    KeepLinesAppend(a + [line], b);
    KeepLinesAppend(a, [line]);
    KeepLinesOne(line);
    KeepLinesKeepsAll(a);
    KeepLinesKeepsAll(b);
    assert a + [] == a;
  }

  /** A page without '\r', without a trailing newline and without `<base href=` on any line
      becomes `index.html` unchanged. */
  lemma IndexKeepsCleanPage(html: string)
    requires '\r' !in html
    requires html == [] || html[|html| - 1] != '\n'
    requires forall k :: 0 <= k < |Lines(html)| ==> !Contains(Lines(html)[k], BaseHref)
    ensures IndexContent(html) == html
  {
    if html != [] {
      LinesOfCleanPage(html);
      KeepLinesKeepsAll(Lines(html));
      JoinSplit(html);
    }
  }

  /** The lines of a non-empty text without '\r' and without a trailing newline are the
      pieces between its newlines. */
  lemma LinesOfCleanPage(html: string)
    requires html != [] && '\r' !in html && html[|html| - 1] != '\n'
    ensures Lines(html) == SplitAtNewlines(html)
  {
    var pieces := SplitAtNewlines(html);
    LastPieceEnds(html);
    assert Lines(html) == StripAll(pieces);
    forall k | 0 <= k < |pieces| ensures '\r' !in pieces[k] {
      PiecesHaveNoCr(html, k);
    }
    StripAllKeeps(pieces);
  }

  /** Stripping lines that hold no '\r' changes nothing. */
  lemma StripAllKeeps(ls: seq<string>)
    requires forall k :: 0 <= k < |ls| ==> '\r' !in ls[k]
    ensures StripAll(ls) == ls
  {
    forall k | 0 <= k < |ls| ensures StripCr(ls[k]) == ls[k] {
      if ls[k] != [] {
        assert ls[k][|ls[k]| - 1] in ls[k];
      }
    }
  }

  /** The last piece of a text that does not end with a newline is not empty. */
  lemma {:induction false} LastPieceEnds(s: string)
    requires s != [] && s[|s| - 1] != '\n'
    ensures SplitAtNewlines(s)[|SplitAtNewlines(s)| - 1] != []
  {
    var r := SplitAtNewlines(s);
    var rest := SplitAtNewlines(s[1..]);
    if |s| == 1 {
      assert s[1..] == [];
      assert r == [[s[0]] + rest[0]];
    } else {
      assert s[1..][|s[1..]| - 1] == s[|s| - 1];
      LastPieceEnds(s[1..]);
      if s[0] == '\n' {
        assert r == [[]] + rest;
      } else {
        assert r == [[s[0]] + rest[0]] + rest[1..];
        assert r[|r| - 1] == if |rest| == 1 then [s[0]] + rest[0] else rest[|rest| - 1];
      }
    }
  }

  /** No piece of a text without '\r' holds '\r'. */
  lemma {:induction false} PiecesHaveNoCr(s: string, k: nat)
    requires '\r' !in s && k < |SplitAtNewlines(s)|
    ensures '\r' !in SplitAtNewlines(s)[k]
  {
    if s != [] {
      var rest := SplitAtNewlines(s[1..]);
      assert '\r' !in s[1..];
      if s[0] == '\n' {
        if k > 0 { PiecesHaveNoCr(s[1..], k - 1); }
      } else if k == 0 {
        PiecesHaveNoCr(s[1..], 0);
      } else {
        PiecesHaveNoCr(s[1..], k);
      }
    }
  }

  // ---------------------------------------------------------------------------------------
  // The chapter loop of render

  const IndexTarget := "index.html"
  const PrintTarget := "print.html"
  const PrintSource := "print.md"

  /** The three per-page keys. */
  const PageKeys := {"path", "content", "path_to_root"}

  /** The context with the three per-page keys set for one page. */
  function PageData(d: Data, path: string, content: string, root: string): Data {
    d["path" := Text(path)]["content" := Text(content)]["path_to_root" := Text(root)]
  }

  /** The per-page keys hold the page's values and every other key keeps its value. */
  lemma PageDataShape(d: Data, path: string, content: string, root: string)
    ensures PageData(d, path, content, root).Keys == d.Keys + PageKeys
    ensures var r := PageData(d, path, content, root);
            r["path"] == Text(path) && r["content"] == Text(content) && r["path_to_root"] == Text(root)
    ensures forall k :: k in d && k !in PageKeys ==> PageData(d, path, content, root)[k] == d[k]
  {
  }

  /** The chapter's source after the wired rewriters: playpen links, then mermaid, nomnoml and
      jsxgraph blocks, each on the output of the one before; all four are skipped when the
      source file has no parent directory. */
  function Preprocess(env: Env, path: Path, src: string): string {
    match env.parent(path)
    case Some(dir) => Jsxgraph.RenderJsxgraph(Nomnoml.RenderNomnoml(Mermaid.RenderMermaid(env.playpen(src, dir))))
    case None => src
  }

  /** The state the loop carries from one item to the next: the context, the print version
      so far, whether `index.html` is still to be written, the files written so far, and the
      error that ended the loop. */
  datatype Pass = Pass(data: Data, printed: string, index: bool, out: seq<Write>, failed: Option<Error>)

  function Init(base: Data): Pass {
    Pass(base, [], true, [], None)
  }

  /** The item renders a page: a chapter or affix with a non-empty path. */
  predicate IsPage(item: BookItem) {
    !item.Spacer? && !IsEmpty(item.chapter.path)
  }

  /** One page: read, rewrite and convert the source, append it to the print version, set the
      per-page keys, render the template, write the page, and write `index.html` from the
      first page. Each step that can fail ends the loop with its error. */
  function PageStep(env: Env, st: Pass, ch: Chapter): Pass {
    match env.read(ch.path)
    case None => st.(failed := Some(ReadFailed(ch.path)))
    case Some(src) =>
      var content := env.markdown(Preprocess(env, ch.path, src));
      var printed := st.printed + content;
      (match ToStr(ch.path)
       case None => st.(data := st.data - {"path"}, printed := printed, failed := Some(PathNotUnicode))
       case Some(p) =>
         var data := PageData(st.data, p, content, env.pathToRoot(ch.path));
         (match env.template(data)
          case None => st.(data := data, printed := printed, failed := Some(TemplateFailed))
          case Some(html) =>
            var target := env.htmlTarget(ch.path);
            if !env.writable(target) then
              st.(data := data, printed := printed, failed := Some(WriteFailed(target)))
            else
              var out := st.out + [PageFile(target, html)];
              if !st.index then st.(data := data, printed := printed, out := out)
              else if !env.writable(IndexTarget) then
                st.(data := data, printed := printed, out := out, failed := Some(WriteFailed(IndexTarget)))
              else st.(data := data, printed := printed, index := false, out := out + [IndexFile(IndexContent(html))])))
  }

  /** One item of the loop: a page is rendered, anything else is skipped, and nothing happens
      once an error has ended the loop. */
  function Step(env: Env, st: Pass, item: BookItem): Pass {
    if st.failed.Some? || !IsPage(item) then st else PageStep(env, st, item.chapter)
  }

  /** The loop over the items, from the context `make_data` built. */
  function Run(env: Env, base: Data, items: seq<BookItem>): Pass {
    if items == [] then Init(base)
    else Step(env, Run(env, base, items[..|items| - 1]), items[|items| - 1])
  }

  /** Once an error has ended the loop, the later items change nothing. */
  lemma {:induction false} RunStaysFailed(env: Env, base: Data, items: seq<BookItem>, i: nat)
    requires i <= |items| && Run(env, base, items[..i]).failed.Some?
    ensures Run(env, base, items) == Run(env, base, items[..i])
  {
    if i < |items| {
      var init := items[..|items| - 1];
      assert init[..i] == items[..i];
      RunStaysFailed(env, base, init, i);
      assert items[..|items|] == items;
    } else {
      assert items[..i] == items;
    }
  }

  lemma RemoveInsert(m: Data, k: string, v: Value)
    ensures (m - {k})[k := v] == m[k := v]
  {
  }

  /** The chapter loop of `render`: each chapter or affix with a non-empty path is rendered to
      its page, its converted content is appended to the print version, and the first one is
      also written, filtered, to `index.html`. */
  method RenderPages(env: Env, base: Data, items: seq<BookItem>) returns (st: Pass)
    ensures st == Run(env, base, items)
  {
    var data := base;
    var printed: string := [];
    var index := true;
    var out: seq<Write> := [];
    var i := 0;
    while i < |items|
      invariant 0 <= i <= |items|
      invariant Run(env, base, items[..i]) == Pass(data, printed, index, out, None)
    {
      var item := items[i];
      var before := Pass(data, printed, index, out, None);
      assert items[..i + 1][..i] == items[..i];
      assert Run(env, base, items[..i + 1]) == Step(env, before, item);
      if IsPage(item) {
        var ch := item.chapter;
        var src := env.read(ch.path);
        if src.None? {
          st := Pass(data, printed, index, out, Some(ReadFailed(ch.path)));
          RunStaysFailed(env, base, items, i + 1);
          return;
        }
        var content := src.value;
        var dir := env.parent(ch.path);
        if dir.Some? {
          content := env.playpen(content, dir.value);
          content := Mermaid.RenderMermaid(content);
          content := Nomnoml.RenderNomnoml(content);
          content := Jsxgraph.RenderJsxgraph(content);
        }
        content := env.markdown(content);
        printed := printed + content;
        data := data - {"path"};
        var p := ToStr(ch.path);
        if p.None? {
          st := Pass(data, printed, index, out, Some(PathNotUnicode));
          RunStaysFailed(env, base, items, i + 1);
          return;
        }
        RemoveInsert(before.data, "path", Text(p.value));
        data := data["path" := Text(p.value)];
        RemoveInsert(data, "content", Text(content));
        data := data - {"content"};
        data := data["content" := Text(content)];
        RemoveInsert(data, "path_to_root", Text(env.pathToRoot(ch.path)));
        data := data - {"path_to_root"};
        data := data["path_to_root" := Text(env.pathToRoot(ch.path))];
        assert data == PageData(before.data, p.value, content, env.pathToRoot(ch.path));
        var rendered := env.template(data);
        if rendered.None? {
          st := Pass(data, printed, index, out, Some(TemplateFailed));
          RunStaysFailed(env, base, items, i + 1);
          return;
        }
        var target := env.htmlTarget(ch.path);
        if !env.writable(target) {
          st := Pass(data, printed, index, out, Some(WriteFailed(target)));
          RunStaysFailed(env, base, items, i + 1);
          return;
        }
        out := out + [PageFile(target, rendered.value)];
        if index {
          if !env.writable(IndexTarget) {
            st := Pass(data, printed, index, out, Some(WriteFailed(IndexTarget)));
            RunStaysFailed(env, base, items, i + 1);
            return;
          }
          // index.html is the page just written, read back and filtered line by line.
          out := out + [IndexFile(IndexContent(rendered.value))];
          index := false;
        }
      }
      i := i + 1;
    }
    assert items[..i] == items;
    st := Pass(data, printed, index, out, None);
  }

  // ---------------------------------------------------------------------------------------
  // What the chapter loop produces, page by page

  /** The chapters that render a page, in book order. */
  function Pages(items: seq<BookItem>): (r: seq<Chapter>)
    ensures |r| <= |items|
  {
    if items == [] then []
    else Pages(items[..|items| - 1]) + (if IsPage(items[|items| - 1]) then [items[|items| - 1].chapter] else [])
  }

  /** One item renders a page exactly when it is a chapter or affix with a non-empty path. */
  lemma PagesOne(item: BookItem)
    ensures Pages([item]) == if IsPage(item) then [item.chapter] else []
  {
    assert [item][..0] == [];
  }

  /** The pages of a + b are the pages of a followed by those of b: book order is kept. */
  lemma {:induction false} PagesAppend(a: seq<BookItem>, b: seq<BookItem>)
    ensures Pages(a + b) == Pages(a) + Pages(b)
    decreases |b|
  {
    if b == [] {
      assert a + b == a;
    } else {
      var init := b[..|b| - 1];
      var last := b[|b| - 1];
      assert (a + b)[..|a + b| - 1] == a + init;
      assert (a + b)[|a + b| - 1] == last;
      PagesAppend(a, init);
      var tail := if IsPage(last) then [last.chapter] else [];
      assert Pages(a + b) == Pages(a + init) + tail;
      assert Pages(b) == Pages(init) + tail;
      Shortcode.AppendAssoc(Pages(a), Pages(init), tail);
    }
  }

  /** A chapter is among the pages exactly when some item renders it as a page. */
  lemma {:induction false} PagesMembers(items: seq<BookItem>, ch: Chapter)
    ensures ch in Pages(items) <==>
            exists k :: 0 <= k < |items| && IsPage(items[k]) && items[k].chapter == ch
    decreases |items|
  {
    if items != [] {
      var init := items[..|items| - 1];
      var last := items[|items| - 1];
      PagesMembers(init, ch);
      if ch in Pages(items) {
        if ch in Pages(init) {
          var k :| 0 <= k < |init| && IsPage(init[k]) && init[k].chapter == ch;
          assert items[k] == init[k];
        } else {
          assert IsPage(items[|items| - 1]) && items[|items| - 1].chapter == ch;
        }
      }
      if exists k :: 0 <= k < |items| && IsPage(items[k]) && items[k].chapter == ch {
        var k :| 0 <= k < |items| && IsPage(items[k]) && items[k].chapter == ch;
        if k < |init| {
          assert init[k] == items[k];
          assert ch in Pages(init);
        }
      }
    }
  }

  /** The converted content of a chapter (empty when it cannot be read). */
  function ContentOf(env: Env, ch: Chapter): string {
    match env.read(ch.path)
    case Some(src) => env.markdown(Preprocess(env, ch.path, src))
    case None => []
  }

  /** The context a chapter's page is rendered with: the book's context and its own three keys. */
  function PageContext(env: Env, base: Data, ch: Chapter): Data {
    var p := match ToStr(ch.path) case Some(p) => p case None => [];
    PageData(base, p, ContentOf(env, ch), env.pathToRoot(ch.path))
  }

  /** Every step of a page succeeds: the source is read, the path is a string, the template
      renders, the page can be written and, for the first page, so can `index.html`. */
  predicate PageOk(env: Env, base: Data, ch: Chapter, first: bool) {
    && env.read(ch.path).Some?
    && ToStr(ch.path).Some?
    && env.template(PageContext(env, base, ch)).Some?
    && env.writable(env.htmlTarget(ch.path))
    && (first ==> env.writable(IndexTarget))
  }

  /** The print version: the converted contents of the pages, in order. */
  function PrintOf(env: Env, ps: seq<Chapter>): string {
    if ps == [] then [] else PrintOf(env, ps[..|ps| - 1]) + ContentOf(env, ps[|ps| - 1])
  }

  /** The files one page writes: the page, then `index.html` when it is the first. */
  function PageWrites(env: Env, base: Data, ch: Chapter, first: bool): seq<Write> {
    match env.template(PageContext(env, base, ch))
    case Some(html) => [PageFile(env.htmlTarget(ch.path), html)] + (if first then [IndexFile(IndexContent(html))] else [])
    case None => []
  }

  /** The files the pages write, in order. */
  function WritesOf(env: Env, base: Data, ps: seq<Chapter>): seq<Write> {
    if ps == [] then []
    else WritesOf(env, base, ps[..|ps| - 1]) + PageWrites(env, base, ps[|ps| - 1], |ps| == 1)
  }

  /** The context after the pages: the book's context with the last page's keys. */
  function DataAfter(env: Env, base: Data, ps: seq<Chapter>): Data {
    if ps == [] then base else PageContext(env, base, ps[|ps| - 1])
  }

  /** Setting the per-page keys twice leaves only the second page's values. */
  lemma PageDataTwice(d: Data, p: string, c: string, r: string, p': string, c': string, r': string)
    ensures PageData(PageData(d, p, c, r), p', c', r') == PageData(d, p', c', r')
  {
  }

  /** The loop state agrees with the pages so far. */
  predicate Agrees(env: Env, base: Data, st: Pass, ps: seq<Chapter>) {
    && st.printed == PrintOf(env, ps)
    && st.out == WritesOf(env, base, ps)
    && st.index == (ps == [])
    && st.data == DataAfter(env, base, ps)
  }

  /** One page on a state that agrees with the pages before it succeeds exactly when the page
      does, and then agrees with the pages including it. */
  lemma PageStepMeets(env: Env, base: Data, st: Pass, ps: seq<Chapter>, ch: Chapter)
    requires st.failed.None? && Agrees(env, base, st, ps)
    ensures PageStep(env, st, ch).failed.None? <==> PageOk(env, base, ch, ps == [])
    ensures PageStep(env, st, ch).failed.None? ==> Agrees(env, base, PageStep(env, st, ch), ps + [ch])
  {
    assert (ps + [ch])[..|ps|] == ps;
    if env.read(ch.path).Some? && ToStr(ch.path).Some? && ps != [] {
      var last := ps[|ps| - 1];
      PageDataTwice(base, match ToStr(last.path) case Some(p) => p case None => [],
                    ContentOf(env, last), env.pathToRoot(last.path),
                    ToStr(ch.path).value, ContentOf(env, ch), env.pathToRoot(ch.path));
    }
  }

  /** Every page succeeds, the first one including its `index.html`. */
  predicate AllPagesOk(env: Env, base: Data, ps: seq<Chapter>) {
    forall k :: 0 <= k < |ps| ==> PageOk(env, base, ps[k], k == 0)
  }

  lemma AllPagesOkSnoc(env: Env, base: Data, ps: seq<Chapter>, ch: Chapter)
    ensures AllPagesOk(env, base, ps + [ch]) <==> AllPagesOk(env, base, ps) && PageOk(env, base, ch, ps == [])
  {
    var qs := ps + [ch];
    assert forall k :: 0 <= k < |ps| ==> qs[k] == ps[k];
    assert qs[|ps|] == ch;
    if AllPagesOk(env, base, qs) {
      assert PageOk(env, base, qs[|ps|], |ps| == 0);
    }
  }

  /** The loop ends without error exactly when every page succeeds. */
  lemma {:induction false} RunSucceedsIff(env: Env, base: Data, items: seq<BookItem>)
    ensures Run(env, base, items).failed.None? <==> AllPagesOk(env, base, Pages(items))
  {
    if items != [] {
      var init := items[..|items| - 1];
      var item := items[|items| - 1];
      RunSucceedsIff(env, base, init);
      var st0 := Run(env, base, init);
      var ps0 := Pages(init);
      assert Run(env, base, items) == Step(env, st0, item);
      if IsPage(item) {
        assert Pages(items) == ps0 + [item.chapter];
        AllPagesOkSnoc(env, base, ps0, item.chapter);
        if st0.failed.None? {
          RunAgrees(env, base, init);
          PageStepMeets(env, base, st0, ps0, item.chapter);
        }
      } else {
        assert Pages(items) == ps0 + [] == ps0;
      }
    }
  }

  /** A loop that ends without error has written each page in order, with `index.html` right
      after the first, holds the pages' converted contents in order as the print version,
      still has `index.html` to write exactly when there was no page, and holds the book's
      context with the last page's keys. */
  lemma {:induction false} RunAgrees(env: Env, base: Data, items: seq<BookItem>)
    requires Run(env, base, items).failed.None?
    ensures Agrees(env, base, Run(env, base, items), Pages(items))
  {
    if items != [] {
      var init := items[..|items| - 1];
      var item := items[|items| - 1];
      var st0 := Run(env, base, init);
      assert st0.failed.None?;
      RunAgrees(env, base, init);
      var ps0 := Pages(init);
      if IsPage(item) {
        assert Pages(items) == ps0 + [item.chapter];
        PageStepMeets(env, base, st0, ps0, item.chapter);
      } else {
        assert Pages(items) == ps0 + [] == ps0;
      }
    }
  }

  /** An item that renders no page (a spacer, or a chapter with an empty path) changes nothing. */
  lemma RunSkips(env: Env, base: Data, items: seq<BookItem>, item: BookItem)
    requires !IsPage(item)
    ensures Run(env, base, items + [item]) == Run(env, base, items)
  {
    assert (items + [item])[..|items|] == items;
  }

  /** After a successful `make_data` every chapter path is a string, so the page loop never
      stops on an unconvertible path. */
  lemma {:induction false} RunNoPathError(env: Env, base: Data, items: seq<BookItem>)
    requires forall k :: 0 <= k < |items| && !items[k].Spacer? ==> ToStr(items[k].chapter.path).Some?
    ensures Run(env, base, items).failed != Some(PathNotUnicode)
  {
    if items != [] {
      var init := items[..|items| - 1];
      assert forall k :: 0 <= k < |init| ==> init[k] == items[k];
      RunNoPathError(env, base, init);
    }
  }

  /** The number of `index.html` writes. */
  function IndexWrites(ws: seq<Write>): nat {
    if ws == [] then 0 else (if ws[0].IndexFile? then 1 else 0) + IndexWrites(ws[1..])
  }

  lemma {:induction false} IndexWritesAppend(a: seq<Write>, b: seq<Write>)
    ensures IndexWrites(a + b) == IndexWrites(a) + IndexWrites(b)
  {
    if a == [] {
      assert a + b == b;
    } else {
      assert (a + b)[1..] == a[1..] + b;
      IndexWritesAppend(a[1..], b);
    }
  }

  /** Pages that all render write `index.html` once when there is a page and never otherwise. */
  lemma {:induction false} IndexWrittenOnce(env: Env, base: Data, ps: seq<Chapter>)
    requires forall k :: 0 <= k < |ps| ==> env.template(PageContext(env, base, ps[k])).Some?
    ensures IndexWrites(WritesOf(env, base, ps)) == if ps == [] then 0 else 1
  {
    if ps != [] {
      var init := ps[..|ps| - 1];
      assert forall k :: 0 <= k < |init| ==> init[k] == ps[k];
      IndexWrittenOnce(env, base, init);
      var last := ps[|ps| - 1];
      var html := env.template(PageContext(env, base, last)).value;
      var w := PageWrites(env, base, last, |ps| == 1);
      IndexWritesAppend(WritesOf(env, base, init), w);
      if |ps| > 1 {
        assert w == [PageFile(env.htmlTarget(last.path), html)];
        assert w[1..] == [];
      } else {
        assert w == [PageFile(env.htmlTarget(last.path), html), IndexFile(IndexContent(html))];
        assert w[1..][1..] == [];
      }
    }
  }

  /** The first two files the pages write are the first page and the filtered copy of it. */
  lemma {:induction false} FirstPageWrites(env: Env, base: Data, ps: seq<Chapter>)
    requires ps != [] && env.template(PageContext(env, base, ps[0])).Some?
    ensures var html := env.template(PageContext(env, base, ps[0])).value;
            && |WritesOf(env, base, ps)| >= 2
            && WritesOf(env, base, ps)[..2]
               == [PageFile(env.htmlTarget(ps[0].path), html), IndexFile(IndexContent(html))]
  {
    var init := ps[..|ps| - 1];
    if |ps| > 1 {
      assert init[0] == ps[0];
      FirstPageWrites(env, base, init);
      var w := WritesOf(env, base, init);
      var p := PageWrites(env, base, ps[|ps| - 1], false);
      assert WritesOf(env, base, ps) == w + p;
      assert (w + p)[..2] == w[..2];
    } else {
      assert WritesOf(env, base, ps) == [] + PageWrites(env, base, ps[0], true);
    }
  }

  // ---------------------------------------------------------------------------------------
  // The bundled asset archives

  /** A file written by `render` and what went wrong, if anything stopped it. Files written
      before an error stay written. */
  datatype Outcome = Outcome(out: seq<Write>, err: Option<Error>)

  predicate EndsWith(s: string, suffix: string) {
    |suffix| <= |s| && s[|s| - |suffix|..] == suffix
  }

  /** An archive entry is a directory when its name ends with '/'. */
  predicate IsDirEntry(e: ZipEntry) {
    EndsWith(e.name, "/")
  }

  /** `write_zip`: every entry that is not a directory becomes a file under the destination,
      in archive order; a file that cannot be created stops the extraction. */
  function ZipSpec(env: Env, es: seq<ZipEntry>): Outcome {
    if es == [] then Outcome([], None)
    else
      var prev := ZipSpec(env, es[..|es| - 1]);
      var e := es[|es| - 1];
      if prev.err.Some? || IsDirEntry(e) then prev
      else if !env.writable(e.name) then Outcome(prev.out, Some(WriteFailed(e.name)))
      else Outcome(prev.out + [AssetFile(e.name, e.data)], None)
  }

  /** The files of the entries that are not directories, in order. */
  function ZipFiles(es: seq<ZipEntry>): (r: seq<Write>)
    ensures forall k :: 0 <= k < |r| ==> r[k].AssetFile?
  {
    if es == [] then []
    else
      var e := es[|es| - 1];
      ZipFiles(es[..|es| - 1]) + (if IsDirEntry(e) then [] else [AssetFile(e.name, e.data)])
  }

  /** The extraction succeeds exactly when every file entry can be created, and then it has
      written exactly the file entries, in order. */
  lemma {:induction false} ZipSpecMeets(env: Env, es: seq<ZipEntry>)
    ensures ZipSpec(env, es).err.None? <==>
              forall k :: 0 <= k < |es| && !IsDirEntry(es[k]) ==> env.writable(es[k].name)
    ensures ZipSpec(env, es).err.None? ==> ZipSpec(env, es).out == ZipFiles(es)
  {
    if es != [] {
      var init := es[..|es| - 1];
      assert forall k :: 0 <= k < |init| ==> init[k] == es[k];
      ZipSpecMeets(env, init);
    }
  }

  /** A file is extracted exactly when the archive has it as an entry whose name does not end
      with '/'. */
  lemma {:induction false} ZipFilesMembers(es: seq<ZipEntry>, name: string, data: seq<bv8>)
    ensures AssetFile(name, data) in ZipFiles(es) <==> ZipEntry(name, data) in es && !EndsWith(name, "/")
  {
    if es != [] {
      var init := es[..|es| - 1];
      ZipFilesMembers(init, name, data);
      assert es == init + [es[|es| - 1]];
    }
  }

  /** `write_zip`. */
  method WriteZip(env: Env, es: seq<ZipEntry>) returns (o: Outcome)
    ensures o == ZipSpec(env, es)
  {
    var out: seq<Write> := [];
    var i := 0;
    while i < |es|
      invariant 0 <= i <= |es|
      invariant ZipSpec(env, es[..i]) == Outcome(out, None)
    {
      assert es[..i + 1][..i] == es[..i];
      var e := es[i];
      if !EndsWith(e.name, "/") {
        if !env.writable(e.name) {
          o := Outcome(out, Some(WriteFailed(e.name)));
          ZipStaysFailed(env, es, i + 1);
          return;
        }
        out := out + [AssetFile(e.name, e.data)];
      }
      i := i + 1;
    }
    assert es[..i] == es;
    o := Outcome(out, None);
  }

  /** Once an entry has failed, the later entries change nothing. */
  lemma {:induction false} ZipStaysFailed(env: Env, es: seq<ZipEntry>, i: nat)
    requires i <= |es| && ZipSpec(env, es[..i]).err.Some?
    ensures ZipSpec(env, es) == ZipSpec(env, es[..i])
  {
    if i < |es| {
      var init := es[..|es| - 1];
      assert init[..i] == es[..i];
      ZipStaysFailed(env, init, i);
      assert es[..|es|] == es;
    } else {
      assert es[..i] == es;
    }
  }

  /** An archive is extracted on a full rebuild or when its directory is missing. */
  predicate ShouldExtract(buildFull: bool, dirExists: bool) {
    buildFull || !dirExists
  }

  /** The bundled archives, in the order they are written. */
  const AssetNames := ["fontawesome", "nomnoml", "mermaid", "mathjax", "jsxgraph"]

  /** `write_fontawesome`, `write_nomnoml` and the others: the archive named after its target
      directory, extracted or skipped. */
  function ArchiveSpec(env: Env, buildFull: bool, name: string): Outcome {
    if ShouldExtract(buildFull, env.dirExists(name)) then ZipSpec(env, env.archive(name))
    else Outcome([], None)
  }

  /** The files an archive contributes when nothing fails. */
  function ArchiveFiles(env: Env, buildFull: bool, name: string): seq<Write> {
    if ShouldExtract(buildFull, env.dirExists(name)) then ZipFiles(env.archive(name)) else []
  }

  /** An archive fails only when it is extracted and one of its files cannot be created; when
      it does not fail it has written its files if it is a full rebuild or its directory is
      missing, and nothing otherwise. */
  lemma ArchiveMeets(env: Env, buildFull: bool, name: string)
    ensures ArchiveSpec(env, buildFull, name).err.None? <==>
              (buildFull || !env.dirExists(name)) ==>
                forall k :: 0 <= k < |env.archive(name)| && !IsDirEntry(env.archive(name)[k]) ==>
                  env.writable(env.archive(name)[k].name)
    ensures ArchiveSpec(env, buildFull, name).err.None? ==>
              ArchiveSpec(env, buildFull, name).out
              == if buildFull || !env.dirExists(name) then ZipFiles(env.archive(name)) else []
  {
    ZipSpecMeets(env, env.archive(name));
  }

  /** One `write_*` function. */
  method WriteArchive(env: Env, buildFull: bool, name: string) returns (o: Outcome)
    ensures o == ArchiveSpec(env, buildFull, name)
  {
    if buildFull || !env.dirExists(name) {
      o := WriteZip(env, env.archive(name));
    } else {
      o := Outcome([], None);
    }
  }

  /** The archives one after the other, stopping at the first that fails. */
  function AssetsSpec(env: Env, buildFull: bool, names: seq<string>): Outcome {
    if names == [] then Outcome([], None)
    else
      var a := ArchiveSpec(env, buildFull, names[0]);
      if a.err.Some? then a
      else
        var r := AssetsSpec(env, buildFull, names[1..]);
        Outcome(a.out + r.out, r.err)
  }

  /** The files of all archives, in order. */
  function AllArchiveFiles(env: Env, buildFull: bool, names: seq<string>): seq<Write> {
    if names == [] then [] else ArchiveFiles(env, buildFull, names[0]) + AllArchiveFiles(env, buildFull, names[1..])
  }

  /** When no archive fails, the files written are those of every archive that is extracted,
      in order. */
  lemma {:induction false} AssetsMeet(env: Env, buildFull: bool, names: seq<string>)
    ensures AssetsSpec(env, buildFull, names).err.None? ==>
              AssetsSpec(env, buildFull, names).out == AllArchiveFiles(env, buildFull, names)
  {
    if names != [] {
      ArchiveMeets(env, buildFull, names[0]);
      AssetsMeet(env, buildFull, names[1..]);
    }
  }

  /** The archives write only asset files. */
  lemma {:induction false} ArchiveFilesAreAssets(env: Env, buildFull: bool, names: seq<string>)
    ensures forall k :: 0 <= k < |AllArchiveFiles(env, buildFull, names)| ==>
              AllArchiveFiles(env, buildFull, names)[k].AssetFile?
  {
    if names != [] {
      ArchiveFilesAreAssets(env, buildFull, names[1..]);
      var a := ArchiveFiles(env, buildFull, names[0]);
      var r := AllArchiveFiles(env, buildFull, names[1..]);
      assert forall k :: 0 <= k < |a + r| ==> (a + r)[k] == if k < |a| then a[k] else r[k - |a|];
    }
  }

  // ---------------------------------------------------------------------------------------
  // The wired rewriters

  /** Text that reaches the rewriters without a `{` leaves them as playpen returned it. */
  lemma PreprocessPlain(env: Env, path: Path, src: string)
    requires env.parent(path).Some? && '{' !in env.playpen(src, env.parent(path).value)
    ensures Preprocess(env, path, src) == env.playpen(src, env.parent(path).value)
  {
    var s := env.playpen(src, env.parent(path).value);
    Mermaid.MermaidPlain(s);
    Nomnoml.NomnomlPlain(s);
    Jsxgraph.JsxgraphPlain(s);
  }

  /** A block whose tag starts with none of the wired tags' first letters passes the three
      wired rewriters unchanged. */
  lemma PreprocessKeepsUnwired(env: Env, path: Path, src: string, pre: string, other: string, post: string)
    requires env.parent(path).Some?
    requires env.playpen(src, env.parent(path).value) == pre + Shortcode.Opener(other) + post
    requires '{' !in pre && '{' !in other && '{' !in post
    requires other != [] && other[0] !in {'m', 'n', 'j'}
    ensures Preprocess(env, path, src) == pre + Shortcode.Opener(other) + post
  {
    Shortcode.RenderKeepsOtherOpener(Mermaid.Tag, Mermaid.Prefix, Mermaid.Suffix, pre, other, post, 0);
    Shortcode.RenderKeepsOtherOpener(Nomnoml.Tag, Nomnoml.Prefix, Nomnoml.Suffix, pre, other, post, 0);
    Shortcode.RenderKeepsOtherOpener(Jsxgraph.Tag, Jsxgraph.Prefix, Jsxgraph.Suffix, pre, other, post, 0);
  }

  /** `render_railroad` is not wired in: a railroad block reaches the markdown converter as
      it was written. */
  lemma RailroadNotWired(env: Env, path: Path, src: string, pre: string, post: string)
    requires env.parent(path).Some?
    requires env.playpen(src, env.parent(path).value) == pre + Shortcode.Opener(Railroad.Tag) + post
    requires '{' !in pre && '{' !in post
    ensures Preprocess(env, path, src) == pre + Shortcode.Opener(Railroad.Tag) + post
  {
    PreprocessKeepsUnwired(env, path, src, pre, Railroad.Tag, post);
  }

  /** `render_functionplot` is not wired in: a functionplot block reaches the markdown
      converter as it was written. */
  lemma FunctionplotNotWired(env: Env, path: Path, src: string, pre: string, post: string)
    requires env.parent(path).Some?
    requires env.playpen(src, env.parent(path).value) == pre + Shortcode.Opener(Functionplot.Tag) + post
    requires '{' !in pre && '{' !in post
    ensures Preprocess(env, path, src) == pre + Shortcode.Opener(Functionplot.Tag) + post
  {
    PreprocessKeepsUnwired(env, path, src, pre, Functionplot.Tag, post);
  }

  // ---------------------------------------------------------------------------------------
  // render

  /** The context of the print page: the book's context with `path = "print.md"`, the print
      version as content, and the path to the root from `print.md`. */
  function PrintContext(env: Env, base: Data, ps: seq<Chapter>): Data {
    PageData(base, PrintSource, PrintOf(env, ps), env.pathToRoot(Path(PrintSource)))
  }

  /** What `render` writes and how it ends: the context, the destination, the pages, the print
      page and the asset archives, stopping at the first error. */
  function RenderSpec(book: Book, env: Env): Outcome {
    match BookContext(book)
    case Failure(e) => Outcome([], Some(e))
    case Success(base) =>
      if !env.destReady then Outcome([], Some(DestinationUnavailable))
      else
        var st := Run(env, base, book.items);
        if st.failed.Some? then Outcome(st.out, st.failed)
        else
          var data := PageData(st.data, PrintSource, st.printed, env.pathToRoot(Path(PrintSource)));
          match env.template(data)
          case None => Outcome(st.out, Some(TemplateFailed))
          case Some(html) =>
            if !env.writable(PrintTarget) then Outcome(st.out, Some(WriteFailed(PrintTarget)))
            else
              var a := AssetsSpec(env, book.buildFull, AssetNames);
              Outcome(st.out + [PrintFile(html)] + a.out, a.err)
  }

  /** `HtmlHandlebars::render`. */
  method Render(book: Book, env: Env) returns (o: Outcome)
    ensures o == RenderSpec(book, env)
  {
    var ctx := MakeData(book);
    if ctx.Failure? {
      return Outcome([], Some(ctx.error));
    }
    if !env.destReady {
      return Outcome([], Some(DestinationUnavailable));
    }
    var st := RenderPages(env, ctx.value, book.items);
    if st.failed.Some? {
      return Outcome(st.out, st.failed);
    }
    var data := st.data;
    var root := env.pathToRoot(Path(PrintSource));
    RemoveInsert(data, "path", Text(PrintSource));
    data := data - {"path"};
    data := data["path" := Text(PrintSource)];
    RemoveInsert(data, "content", Text(st.printed));
    data := data - {"content"};
    data := data["content" := Text(st.printed)];
    RemoveInsert(data, "path_to_root", Text(root));
    data := data - {"path_to_root"};
    data := data["path_to_root" := Text(root)];
    assert data == PageData(st.data, PrintSource, st.printed, root);
    var rendered := env.template(data);
    if rendered.None? {
      return Outcome(st.out, Some(TemplateFailed));
    }
    if !env.writable(PrintTarget) {
      return Outcome(st.out, Some(WriteFailed(PrintTarget)));
    }
    var out := st.out + [PrintFile(rendered.value)];
    ghost var names := AssetNames;
    assert RenderSpec(book, env) == After(out, AssetsSpec(env, book.buildFull, names));
    var a := WriteArchive(env, book.buildFull, "fontawesome");
    AssetsStep(env, book.buildFull, names, out);
    out, names := out + a.out, names[1..];
    if a.err.Some? {
      return Outcome(out, a.err);
    }
    a := WriteArchive(env, book.buildFull, "nomnoml");
    AssetsStep(env, book.buildFull, names, out);
    out, names := out + a.out, names[1..];
    if a.err.Some? {
      return Outcome(out, a.err);
    }
    a := WriteArchive(env, book.buildFull, "mermaid");
    AssetsStep(env, book.buildFull, names, out);
    out, names := out + a.out, names[1..];
    if a.err.Some? {
      return Outcome(out, a.err);
    }
    a := WriteArchive(env, book.buildFull, "mathjax");
    AssetsStep(env, book.buildFull, names, out);
    out, names := out + a.out, names[1..];
    if a.err.Some? {
      return Outcome(out, a.err);
    }
    a := WriteArchive(env, book.buildFull, "jsxgraph");
    AssetsStep(env, book.buildFull, names, out);
    out, names := out + a.out, names[1..];
    if a.err.Some? {
      return Outcome(out, a.err);
    }
    assert names == [] && out + [] == out;
    return Outcome(out, None);
  }

  /** The files already written, then what an outcome adds. */
  function After(done: seq<Write>, o: Outcome): Outcome {
    Outcome(done + o.out, o.err)
  }

  /** The first archive either stops the sequence with its error or adds its files before
      the rest. */
  lemma AssetsStep(env: Env, buildFull: bool, names: seq<string>, done: seq<Write>)
    requires names != []
    ensures ArchiveSpec(env, buildFull, names[0]).err.Some? ==>
              After(done, AssetsSpec(env, buildFull, names)) == After(done, ArchiveSpec(env, buildFull, names[0]))
    ensures ArchiveSpec(env, buildFull, names[0]).err.None? ==>
              After(done, AssetsSpec(env, buildFull, names))
              == After(done + ArchiveSpec(env, buildFull, names[0]).out, AssetsSpec(env, buildFull, names[1..]))
  {
    var a := ArchiveSpec(env, buildFull, names[0]);
    var r := AssetsSpec(env, buildFull, names[1..]);
    if a.err.None? {
      assert AssetsSpec(env, buildFull, names) == Outcome(a.out + r.out, r.err);
      Shortcode.AppendAssoc(done, a.out, r.out);
    }
  }

  // ---------------------------------------------------------------------------------------
  // What render promises

  /** A book with a chapter path that is not valid Unicode is refused before anything is
      written. */
  lemma RenderRefusesNonUnicode(book: Book, env: Env, k: nat)
    requires k < |book.items| && !book.items[k].Spacer? && ToStr(book.items[k].chapter.path).None?
    ensures RenderSpec(book, env) == Outcome([], Some(PathNotUnicode))
  {
    BookContextShape(book);
  }

  /** Every stage succeeds: the context, the destination, every page, the print page and
      every archive. */
  predicate RenderOk(book: Book, env: Env) {
    && BookContext(book).Success?
    && env.destReady
    && AllPagesOk(env, BookContext(book).value, Pages(book.items))
    && env.template(PrintContext(env, BookContext(book).value, Pages(book.items))).Some?
    && env.writable(PrintTarget)
    && AssetsSpec(env, book.buildFull, AssetNames).err.None?
  }

  /** `render` succeeds exactly when every stage does, and then it has written the pages (with
      `index.html` after the first), the print page rendered from the book's context and the
      pages' contents in order, and the files of every archive that is extracted. */
  lemma RenderMeets(book: Book, env: Env)
    ensures RenderSpec(book, env).err.None? <==> RenderOk(book, env)
    ensures RenderOk(book, env) ==>
              var base := BookContext(book).value;
              var ps := Pages(book.items);
              RenderSpec(book, env).out
              == WritesOf(env, base, ps)
                 + [PrintFile(env.template(PrintContext(env, base, ps)).value)]
                 + AllArchiveFiles(env, book.buildFull, AssetNames)
  {
    if BookContext(book).Success? && env.destReady {
      var base := BookContext(book).value;
      RunSucceedsIff(env, base, book.items);
      var st := Run(env, base, book.items);
      if st.failed.None? {
        RunAgrees(env, base, book.items);
        PrintContextAfterPages(env, base, Pages(book.items));
        AssetsMeet(env, book.buildFull, AssetNames);
      }
    }
  }

  /** The print page's context does not depend on which page came last. */
  lemma PrintContextAfterPages(env: Env, base: Data, ps: seq<Chapter>)
    ensures PageData(DataAfter(env, base, ps), PrintSource, PrintOf(env, ps), env.pathToRoot(Path(PrintSource)))
            == PrintContext(env, base, ps)
  {
    if ps != [] {
      var last := ps[|ps| - 1];
      PageDataTwice(base, match ToStr(last.path) case Some(p) => p case None => [],
                    ContentOf(env, last), env.pathToRoot(last.path),
                    PrintSource, PrintOf(env, ps), env.pathToRoot(Path(PrintSource)));
    }
  }

  lemma {:induction false} NoIndexAmongAssets(ws: seq<Write>)
    requires forall k :: 0 <= k < |ws| ==> ws[k].AssetFile?
    ensures IndexWrites(ws) == 0
  {
    if ws != [] {
      NoIndexAmongAssets(ws[1..]);
    }
  }

  /** A render in which every stage succeeds writes `index.html` exactly once when the book
      has a page and never otherwise. */
  lemma RenderIndexOnce(book: Book, env: Env)
    requires RenderOk(book, env)
    ensures IndexWrites(RenderSpec(book, env).out) == if Pages(book.items) == [] then 0 else 1
  {
    RenderMeets(book, env);
    var base := BookContext(book).value;
    var ps := Pages(book.items);
    var pages := WritesOf(env, base, ps);
    var printPage := [PrintFile(env.template(PrintContext(env, base, ps)).value)];
    var assets := AllArchiveFiles(env, book.buildFull, AssetNames);
    IndexWrittenOnce(env, base, ps);
    IndexWritesAppend(pages, printPage);
    IndexWritesAppend(pages + printPage, assets);
    ArchiveFilesAreAssets(env, book.buildFull, AssetNames);
    NoIndexAmongAssets(assets);
    assert IndexWrites(printPage) == 0 by {
      assert printPage[1..] == [];
    }
  }

  /** When the book has a page, a render in which every stage succeeds first writes the first
      page and then `index.html`, the first page with its base-href lines filtered out. */
  lemma RenderStartsWithIndex(book: Book, env: Env)
    requires RenderOk(book, env) && Pages(book.items) != []
    ensures var ch := Pages(book.items)[0];
            var html := env.template(PageContext(env, BookContext(book).value, ch)).value;
            && |RenderSpec(book, env).out| >= 2
            && RenderSpec(book, env).out[..2] == [PageFile(env.htmlTarget(ch.path), html), IndexFile(IndexContent(html))]
  {
    RenderMeets(book, env);
    var base := BookContext(book).value;
    var ps := Pages(book.items);
    var pages := WritesOf(env, base, ps);
    FirstPageWrites(env, base, ps);
    var rest := [PrintFile(env.template(PrintContext(env, base, ps)).value)] + AllArchiveFiles(env, book.buildFull, AssetNames);
    assert (pages + rest)[..2] == pages[..2];
  }
}
