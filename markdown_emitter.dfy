/**
  Markdown emission of pdf_to_markdown.py: the element loop of
  `extract_images_and_convert_to_markdown`, which dispatches on each
  element's category and appends one line per text element, and for an
  Image element one `![Image](./<path>)` line per image path of the
  element's page that no earlier Image element emitted (`inserted_images`).

  The specification is a fold over the elements (Emit) that also records,
  for every line, whether it came from an Image element and for which page.
 */
module MarkdownEmitter {
  import opened Wrappers
  import opened PyStrings
  import PdfImages

  /** One layout element: category label, text, page number and optional table markup (`text_as_html`). */
  datatype Element = Element(category: string, text: string, pageNumber: int, textAsHtml: Option<string>)

  /** A line of `md_lines`, with its provenance: an element's text, or an image path emitted for a page. */
  datatype Block = TextBlock(line: string) | ImageBlock(page: int, path: string)

  /** The loop state: what `md_lines` holds so far, and `inserted_images`. */
  datatype EmitState = EmitState(blocks: seq<Block>, inserted: set<string>)

  /** The module-level settings the function reads: `pdfFileName`, `output_dir`, the Markdown file name. */
  const PdfFileName: string := "1"
  const OutputDir: string := PdfFileName
  const MarkdownPath: string := PdfFileName + ".md"

  function ImageLine(path: string): string {
    "![Image](./" + path + ")\n"
  }

  function Render(b: Block): string {
    match b
    case TextBlock(line) => line
    case ImageBlock(_, path) => ImageLine(path)
  }

  function Lines(bs: seq<Block>): seq<string> {
    seq(|bs|, k requires 0 <= k < |bs| => Render(bs[k]))
  }

  /** `image_map.get(page_num, [])`. */
  function PathsFor(m: PdfImages.ImageMap, page: int): seq<string> {
    if page in m then m[page] else []
  }

  /** `hasattr(el.metadata, "text_as_html") and el.metadata.text_as_html`. */
  predicate HasTableHtml(el: Element) {
    el.textAsHtml.Some? && el.textAsHtml.value != ""
  }

  /**
    The line a non-Image element contributes. The List branch (text whose
    stripped form starts with "- ") and the fallback give the same line, so
    every category other than Title, Header, Subheader and Table emits its
    text verbatim.
   */
  function LineFor(el: Element, convert: string -> string): (line: string)
    ensures el.category == "Title" ==> line == "# " + el.text + "\n"
    ensures el.category == "Header" || el.category == "Subheader" ==> line == "## " + el.text + "\n"
    ensures el.category == "Table" && HasTableHtml(el) ==> line == convert(el.textAsHtml.value) + "\n"
    ensures el.category == "Table" && !HasTableHtml(el) ==> line == el.text + "\n"
    ensures el.category !in ["Title", "Header", "Subheader", "Table"] ==> line == el.text + "\n"
  {
    if el.category == "List" && StartsWith(Strip(el.text), "- ") then el.text + "\n"
    else if el.category == "Title" then "# " + el.text + "\n"
    else if el.category == "Header" || el.category == "Subheader" then "## " + el.text + "\n"
    else if el.category == "Table" then
      (if HasTableHtml(el) then convert(el.textAsHtml.value) + "\n" else el.text + "\n")
    else el.text + "\n"
  }

  ghost predicate Distinct(s: seq<string>) {
    forall i, j :: 0 <= i < j < |s| ==> s[i] != s[j]
  }

  function Elems(s: seq<string>): set<string> {
    set x | x in s
  }

  /**
    The paths of `paths` the inner loop emits, in order, when `inserted`
    holds at its start: those not yet inserted, each once.
   */
  function Fresh(paths: seq<string>, inserted: set<string>): (f: seq<string>)
    ensures Elems(f) == Elems(paths) - inserted
    ensures Distinct(f)
    ensures |f| <= |paths|
    decreases |paths|
  {
    if paths == [] then []
    else
      var f := Fresh(paths[..|paths| - 1], inserted);
      var q := paths[|paths| - 1];
      assert Elems(paths) == Elems(paths[..|paths| - 1]) + {q} by {
        assert paths == paths[..|paths| - 1] + [q];
      }
      if q in inserted || q in f then f
      else
        assert Elems(f + [q]) == Elems(f) + {q};
        f + [q]
  }

  function ImageBlocks(page: int, paths: seq<string>): seq<Block> {
    seq(|paths|, k requires 0 <= k < |paths| => ImageBlock(page, paths[k]))
  }

  /** One iteration of the element loop. */
  function ElementStep(st: EmitState, el: Element, m: PdfImages.ImageMap, convert: string -> string): EmitState {
    if el.category == "Image" then
      var f := Fresh(PathsFor(m, el.pageNumber), st.inserted);
      EmitState(st.blocks + ImageBlocks(el.pageNumber, f), st.inserted + Elems(f))
    else
      EmitState(st.blocks + [TextBlock(LineFor(el, convert))], st.inserted)
  }

  /** The state after the element loop has run over `els`. */
  function Emit(els: seq<Element>, m: PdfImages.ImageMap, convert: string -> string): EmitState
    decreases |els|
  {
    if els == [] then EmitState([], {})
    else ElementStep(Emit(els[..|els| - 1], m, convert), els[|els| - 1], m, convert)
  }

  /** The element loop's state after `idx + 1` elements is one step on from its state after `idx`. */
  lemma EmitStep(els: seq<Element>, idx: nat, m: PdfImages.ImageMap, convert: string -> string)
    requires idx < |els|
    ensures Emit(els[..idx + 1], m, convert) == ElementStep(Emit(els[..idx], m, convert), els[idx], m, convert)
  {
    assert els[..idx + 1][..idx] == els[..idx];
  }

  lemma LinesAppend(a: seq<Block>, b: seq<Block>)
    ensures Lines(a + b) == Lines(a) + Lines(b)
  {
  }

  lemma ImageBlocksSnoc(page: int, f: seq<string>, q: string)
    ensures ImageBlocks(page, f + [q]) == ImageBlocks(page, f) + [ImageBlock(page, q)]
  {
  }

  /**
    The inner loop of the Image branch: each path of the page not yet in
    `inserted_images` is emitted as a reference line and added to the set.
   */
  method EmitPageImages(page: int, paths: seq<string>, ghost blocks: seq<Block>, mdLines: seq<string>, inserted: set<string>)
    returns (mdLines': seq<string>, inserted': set<string>)
    requires mdLines == Lines(blocks)
    ensures mdLines' == Lines(blocks + ImageBlocks(page, Fresh(paths, inserted)))
    ensures inserted' == inserted + Elems(Fresh(paths, inserted))
  {
    mdLines', inserted' := mdLines, inserted;
    for j := 0 to |paths|
      invariant mdLines' == Lines(blocks + ImageBlocks(page, Fresh(paths[..j], inserted)))
      invariant inserted' == inserted + Elems(Fresh(paths[..j], inserted))
    {
      var imgPath := paths[j];
      assert paths[..j + 1][..j] == paths[..j];
      ghost var f := Fresh(paths[..j], inserted);
      if imgPath !in inserted' {
        ImageBlocksSnoc(page, f, imgPath);
        LinesAppend(blocks + ImageBlocks(page, f), [ImageBlock(page, imgPath)]);
        assert blocks + ImageBlocks(page, f + [imgPath]) == (blocks + ImageBlocks(page, f)) + [ImageBlock(page, imgPath)];
        mdLines' := mdLines' + [ImageLine(imgPath)];
        inserted' := inserted' + {imgPath};
      }
    }
    assert paths[..|paths|] == paths;
  }

  /**
    The element loop of `extract_images_and_convert_to_markdown` (before the
    final join): `md_lines` is the rendering of Emit.
   */
  method ConvertToMarkdown(elements: seq<Element>, imageMap: PdfImages.ImageMap, convert: string -> string)
    returns (mdLines: seq<string>)
    ensures mdLines == Lines(Emit(elements, imageMap, convert).blocks)
  {
    mdLines := [];
    var inserted: set<string> := {};
    ghost var st := EmitState([], {});
    for idx := 0 to |elements|
      invariant st == Emit(elements[..idx], imageMap, convert)
      invariant mdLines == Lines(st.blocks) && inserted == st.inserted
    {
      var el := elements[idx];
      EmitStep(elements, idx, imageMap, convert);
      // The Title, Header/Subheader, Table and List tests that precede the
      // Image test all ask for other categories, so testing for Image first
      // selects the same branch.
      if el.category == "Image" {
        mdLines, inserted := EmitPageImages(el.pageNumber, PathsFor(imageMap, el.pageNumber), st.blocks, mdLines, inserted);
      } else {
        var line := TextLine(el, convert);
        LinesAppend(st.blocks, [TextBlock(line)]);
        mdLines := mdLines + [line];
      }
      st := ElementStep(st, el, imageMap, convert);
    }
    assert elements[..|elements|] == elements;
  }

  /** The line one element other than an image emits, tested in the order the loop tests it. */
  method TextLine(el: Element, convert: string -> string) returns (line: string)
    ensures line == LineFor(el, convert)
  {
    var cat, text := el.category, el.text;
    if cat == "List" && StartsWith(Strip(text), "- ") {
      line := text + "\n";
    } else if cat == "Title" {
      line := "# " + text + "\n";
    } else if cat == "Header" || cat == "Subheader" {
      line := "## " + text + "\n";
    } else if cat == "Table" {
      if el.textAsHtml.Some? && el.textAsHtml.value != "" {
        line := convert(el.textAsHtml.value) + "\n";
      } else {
        line := text + "\n";
      }
    } else {
      line := text + "\n";
    }
  }

  /**
    `extract_images_and_convert_to_markdown` as a whole: extract and save the
    images into `output_dir`, emit the lines, and write them joined by "\n"
    to `<pdfFileName>.md`. The element list comes from the layout loader.
   */
  method ExtractImagesAndConvertToMarkdown(pdf: PdfImages.Pdf, elements: seq<Element>, convert: string -> string)
    returns (saved: map<string, PdfImages.SavedImage>, mdPath: string, content: string)
    ensures PdfImages.SavedExactly(pdf, OutputDir, saved)
    ensures mdPath == MarkdownPath
    ensures content == Join("\n", Lines(Emit(elements, PdfImages.ImageMapOf(pdf, OutputDir), convert).blocks))
  {
    var imageMap;
    imageMap, saved := PdfImages.ExtractImages(pdf, OutputDir);
    var mdLines := ConvertToMarkdown(elements, imageMap, convert);
    mdPath := MarkdownPath;
    content := Join("\n", mdLines);
  }
}
