# PDF to Markdown: image extraction, emission and reference reconciliation

This project models two steps of a PDF-to-Markdown pipeline and proves
properties of the model.

The **converter** (`extract_images_and_convert_to_markdown` in
pdf_to_markdown.py) works in three steps:

- It saves every embedded image of the PDF named `1` as
  `1/page<p>_img<i>.png` and records the paths per page.
- It walks the layout elements and emits one Markdown line per element
  according to its category. Image elements emit `![Image](./<path>)` lines
  for their page's images, and no image path is emitted twice.
- It writes the lines, joined by newlines, to `1.md`.

The **reconciler** (`rename_images_with_prefix` in rename_images.py) works
in five steps:

- It scans a Markdown file for `![alt](./1/<name>)` and `![alt](./1\<name>)`
  references.
- It copies each referenced file that is in the image directory to
  `<prefix>_<name>`.
- It rewrites the references.
- It deletes the unreferenced files.
- It deletes the originals of the copies.

Its command line takes a file name and an optional prefix.

Both programs change local lists, sets, dictionaries and the file system
step by step. The model mirrors this with methods whose loops update the
same collections. Each method is proved equal to a specification function,
or, for the saved images of `PdfImages.ExtractImages`, to satisfy a
specification predicate; the properties are lemmas about those functions. The file system is a
value: a method takes the old one and returns the new one.

Modules:

- `PyStrings` (py_strings.dfy): the Python string operations the code uses.
  These are `str.strip`, `str.startswith`, `str.replace` (leftmost,
  non-overlapping, every occurrence; an empty pattern inserts the
  replacement before every character and at the end) and `str.join`.
- `PdfImages` (pdf_images.dfy): the `image_map` loop, the file names, and
  `os.path.join`.
- `MarkdownEmitter` (markdown_emitter.dfy): the element dispatch loop with
  its `inserted_images` set, and the whole converter step.
- `EmitterProperties` (emitter_properties.dfy): de-duplication, page
  ownership, bounds and ordering of the emitted lines.
- `ReferenceScan` (reference_scan.dfy): `re.findall` with the pattern
  `!\[.*?\]\((\.\/1[\/\\]([^)]+))\)`, written out as a scanner. The alt text
  is lazy and never crosses a newline. The name is the longest run without
  `)`. After a hit, the search resumes past its `)`.
- `Reconciler` (reconciler.dfy): the copy, rewrite, prune and finalize loops,
  and `rename_images_with_prefix` itself.
- `ReconcilerProperties` (reconciler_properties.dfy): what a run leaves in
  the directory and in the text, including the caveats below.
- `ReconcilerCli` (reconciler_cli.dfy): the `__main__` argument rules and
  exit status.
- `PipelineLinks` (pipeline_links.dfy): a single converter image line is
  recognised by the reconciler, with its file name, and a run on it keeps
  just that image under its prefixed name.

The model reproduces five behaviours of the code as written:

- **Fixed directory.** The scan pattern only recognises the directory `1`,
  whatever file name the command line is given.
- **Taken prefixed name.** When `<prefix>_<name>` already exists in the
  directory, the copy overwrites it and a later loop deletes it. Neither the
  image nor a copy survives.
- **Second run.** A second run with the same prefix prefixes the names
  again.
- **Overlapping references.** `str.replace` rewrites every occurrence of a
  reference text, also inside a longer reference to a missing file.
- **File named `1`.** `old_ref.replace(old_name, new_name)` replaces every
  `1` of `./1/1`, so the reference to a file named `1` becomes
  `./<new>/<new>` and points into a directory that does not exist.

## Model

| member | source | states |
|---|---|---|
| `PyStrings.Strip` | pdf_to_markdown.py:231 | `str.strip()`: the leading and then the trailing whitespace removed; its properties are `PyStrings.StripTrims` |
| `PyStrings.StripTrims` | pdf_to_markdown.py:231 | the stripped text has no whitespace at either end, an all-whitespace text strips to the empty one, and a text without surrounding whitespace is kept |
| `PyStrings.TrimStart` | pdf_to_markdown.py:231 | the result is a suffix of the input; everything dropped is whitespace in the sense of `str.isspace`, and the result does not start with whitespace |
| `PyStrings.TrimEnd` | pdf_to_markdown.py:231 | the result is a prefix of the input; everything dropped is whitespace, and the result does not end with whitespace |
| `PyStrings.StartsWith` | pdf_to_markdown.py:231 | `str.startswith`: the text is at least as long as the prefix and begins with it |
| `PyStrings.Join` | pdf_to_markdown.py:256 | `"\n".join(md_lines)`: no parts give the empty text; otherwise the text starts with the first part and is as long as all parts plus one separator between each two |
| `PyStrings.Replace` | rename_images.py:55-56 | `str.replace`: every occurrence, found left to right without overlap, is replaced; its behaviour is stated by the `Replace…` lemmas below |
| `PyStrings.ReplaceWithoutOccurrence` | rename_images.py:55-56 | `str.replace` with a pattern that occurs nowhere returns the text unchanged |
| `PyStrings.ReplaceKeepsFirst` | rename_images.py:55-56 | a first character that cannot start the pattern is kept, and the search moves on by one |
| `PyStrings.ReplaceSkipsPrefix` | rename_images.py:55-56 | `str.replace` leaves a leading part in which the pattern cannot start, and continues on the rest |
| `PyStrings.ReplaceLeading` | rename_images.py:55-56 | an occurrence at the start is replaced and the search resumes after it |
| `PyStrings.ReplaceShort` | rename_images.py:55-56 | a text shorter than the pattern is returned unchanged |
| `PyStrings.ReplaceNoStart` | rename_images.py:55-56 | a leading part at none of whose positions the pattern occurs is kept, and the replacing continues on the rest |
| `PyStrings.OccurrenceInTail` | rename_images.py:55-56 | an occurrence in the text after a first occurrence is an occurrence in the whole text, shifted |
| `PyStrings.ReplaceOnlyOccurrence` | rename_images.py:55-56 | when the pattern occurs at exactly one position, only that occurrence is replaced and the text around it is kept |
| `PdfImages.DigitChar` | pdf_to_markdown.py:214 | the character for a decimal digit has that digit's value |
| `PdfImages.NatToString` | pdf_to_markdown.py:214 | the formatted page or image number is a non-empty run of decimal digits |
| `PdfImages.NatToStringRoundTrip` | pdf_to_markdown.py:214 | reading the formatted number's digits back gives the number |
| `PdfImages.ImageFileName` | pdf_to_markdown.py:214 | the file name `page<p>_img<i>.png`; distinct pairs give distinct names by `PdfImages.ImageFileNameInjective` |
| `PdfImages.ImagePath` | pdf_to_markdown.py:214 | the path `<output_dir>/page<p>_img<i>.png`; distinct pairs give distinct paths by `PdfImages.ImagePathInjective` |
| `PdfImages.JoinPath` | pdf_to_markdown.py:214 | `os.path.join` with `/`; its shape is `PdfImages.JoinPathShape` |
| `PdfImages.JoinPathShape` | pdf_to_markdown.py:214 | the joined path starts with the directory, ends with the name, and holds at most one `/` between them |
| `PdfImages.ImageFileNameInjective` | pdf_to_markdown.py:214 | distinct (page, index) pairs get distinct file names `page<p>_img<i>.png` |
| `PdfImages.JoinPathInjective` | pdf_to_markdown.py:214 | joining one directory with distinct names gives distinct paths |
| `PdfImages.ImagePathInjective` | pdf_to_markdown.py:214 | distinct (page, index) pairs get distinct image paths |
| `PdfImages.SaveMode` | pdf_to_markdown.py:215-219 | an image with fewer than 5 channels is saved as it is, any other after conversion to RGB |
| `PdfImages.PagePaths` | pdf_to_markdown.py:211-220 | page p's list holds, in order, the path of image i for i = 1..k_p |
| `PdfImages.ImageMapOf` | pdf_to_markdown.py:209-220 | the finished `image_map`: its keys are exactly the pages 1..N, each mapped to that page's paths |
| `PdfImages.ImageMapShape` | pdf_to_markdown.py:209-210 | every page 1..N has an entry, even without images; no other key exists; and no path appears twice, within a page or across pages |
| `PdfImages.ExtractImages` | pdf_to_markdown.py:207-220 | the loop builds exactly that map, and the saved files are exactly one per embedded image, at its path, in its save mode, whichever colour branch runs |
| `MarkdownEmitter.HasTableHtml` | pdf_to_markdown.py:238 | the element's metadata has `text_as_html` and it is not empty |
| `MarkdownEmitter.PathsFor` | pdf_to_markdown.py:246 | `image_map.get(page_num, [])`: the page's list of paths, or no paths for a page the map lacks |
| `MarkdownEmitter.ImageLine` | pdf_to_markdown.py:248 | the line `![Image](./<path>)` and a newline; that the reconciler reads the file name back from it is `PipelineLinks.ImageLineRecognised` |
| `MarkdownEmitter.LineFor` | pdf_to_markdown.py:231-251 | Title gives `# text`, Header and Subheader give `## text`; a Table with non-empty HTML gives the converted HTML, otherwise its text; List (with or without a leading `- `) and every other category give the text; each followed by a newline |
| `MarkdownEmitter.Fresh` | pdf_to_markdown.py:246-249 | the paths one Image element emits are exactly its page's paths not yet inserted, each once, no more than the page has |
| `MarkdownEmitter.ElementStep` | pdf_to_markdown.py:226-251 | one element: an Image element appends the image lines of its page's fresh paths and inserts them; any other element appends its one line; the `EmitterProperties` lemmas state what this keeps |
| `MarkdownEmitter.Emit` | pdf_to_markdown.py:226-251 | the state after the elements, one `ElementStep` each in element order, from no lines and no inserted paths; `EmitterProperties` states its properties |
| `MarkdownEmitter.EmitPageImages` | pdf_to_markdown.py:246-249 | the inner loop appends the fresh paths' image lines and adds them to `inserted_images` |
| `MarkdownEmitter.TextLine` | pdf_to_markdown.py:231-251 | the branches for an element other than an image compute exactly the line `MarkdownEmitter.LineFor` specifies |
| `MarkdownEmitter.ConvertToMarkdown` | pdf_to_markdown.py:223-251 | the element loop produces the lines of the element-by-element emission, in element order |
| `MarkdownEmitter.ExtractImagesAndConvertToMarkdown` | pdf_to_markdown.py:203-258 | the images are saved as above, and `1.md` receives the emitted lines joined by newlines |
| `EmitterProperties.EmitNoDuplicateImages` | pdf_to_markdown.py:224-249 | no image path appears in two emitted lines; the emitted paths are exactly `inserted_images` |
| `EmitterProperties.FreshIsSubsequence` | pdf_to_markdown.py:246-249 | an Image element emits its page's paths in list order |
| `EmitterProperties.ImageElementEmitsOwnPage` | pdf_to_markdown.py:244-249 | one Image element emits only lines for paths of its own page, tagged with that page |
| `EmitterProperties.ReferencesBelongToTheirPage` | pdf_to_markdown.py:244-249 | across the whole output, every image line names a path of the page whose Image element emitted it |
| `EmitterProperties.ExhaustedPageEmitsNothing` | pdf_to_markdown.py:246-247 | once every path of a page is inserted, an Image element of that page changes nothing |
| `EmitterProperties.ImageElementExhaustsPage` | pdf_to_markdown.py:246-249 | after an Image element, all of its page's paths are inserted |
| `EmitterProperties.InsertedGrows` | pdf_to_markdown.py:246-249 | `inserted_images` only grows along the element sequence |
| `EmitterProperties.LaterImageElementEmitsNothing` | pdf_to_markdown.py:244-249 | a second Image element of the same page emits nothing |
| `EmitterProperties.PageReferenceBound` | pdf_to_markdown.py:244-249 | a page's image lines never outnumber its paths, and once any is emitted all of them are |
| `EmitterProperties.BlocksPartition` | pdf_to_markdown.py:223-251 | every emitted line is either a text line or an image line |
| `EmitterProperties.TextLinesInElementOrder` | pdf_to_markdown.py:226-251 | each non-Image element contributes exactly one line, in element order |
| `EmitterProperties.LineCount` | pdf_to_markdown.py:223-256 | `md_lines` has one entry per non-Image element plus one per inserted image path |
| `EmitterProperties.InsertedFromSeenPages` | pdf_to_markdown.py:246-249 | every inserted path belongs to the page of some Image element |
| `EmitterProperties.FreshOfUnseen` | pdf_to_markdown.py:246-249 | a page whose paths are all new is emitted whole |
| `EmitterProperties.FirstImageElementEmitsWholePage` | pdf_to_markdown.py:244-249 | the first Image element of a page emits all of its page's paths, in order, when paths are unique |
| `EmitterProperties.FirstImageElementEmitsExtractedPage` | pdf_to_markdown.py:209-249 | for the map the extraction builds, the first Image element of page p emits `1/page<p>_img<i>.png` for every image i of page p, in order |
| `ReferenceScan.CloseAfter` | rename_images.py:21 | the name stops at the first `)` |
| `ReferenceScan.TailAt` | rename_images.py:21 | a tail is `](./1`, a `/` or `\`, at least one character other than `)`, then `)` |
| `ReferenceScan.AltFrom` | rename_images.py:21 | every hit of the lazy alt-text search is a genuine reference starting at the given `![` |
| `ReferenceScan.MatchAt` | rename_images.py:21-22 | every hit at a position is a genuine reference there |
| `ReferenceScan.FindAll` | rename_images.py:21-22 | every collected match is a genuine `![alt](./1<sep><name>)` in the text, with the reference and name the two groups capture; name non-empty and without `)`; matches in text order and non-overlapping |
| `ReferenceScan.FindImageRefs` | rename_images.py:22 | `re.findall` over the whole text: the scan from position 0, whose hits are stated by `ReferenceScan.FindAll` |
| `ReferenceScan.ReferencedNames` | rename_images.py:25 | the names, one per match, in match order, duplicates kept |
| `ReferenceScan.NoTailNoReference` | rename_images.py:21-22 | without a `](./1<sep>…)` tail there is no match |
| `ReferenceScan.NoBangNoReference` | rename_images.py:21-22 | a text without `!` has no match |
| `ReferenceScan.NoBangNoMatch` | rename_images.py:21-22 | no match starts in a stretch without `!` |
| `ReferenceScan.SkipNoMatch` | rename_images.py:21-22 | the scan passes over a stretch where no match starts |
| `ReferenceScan.NoMatchToEnd` | rename_images.py:21-22 | where no match starts from a position to the end, the scan finds nothing more |
| `ReferenceScan.TailFound` | rename_images.py:21 | a `](./1<sep>` followed by characters other than `)` and a `)` is a tail ending at that `)` |
| `ReferenceScan.AltFound` | rename_images.py:21 | the lazy alt text stops at the first position where a tail starts |
| `ReferenceScan.HitAt` | rename_images.py:22 | a match at a position is the next hit, and the search resumes after its `)` |
| `ReferenceScan.SkipOne` | rename_images.py:22 | where no match starts at a position, the search moves on by one |
| `ReferenceScan.HitThen` | rename_images.py:22 | with no match before a hit, the matches are that hit and then those found after it |
| `ReferenceScan.FindsAt` | rename_images.py:21-22 | a reference laid out at given positions is the match there, with the reference and name its two groups capture |
| `ReferenceScan.FindsLaidOut` | rename_images.py:21-22 | a well-formed reference laid out at a position is the match there, with its reference and name |
| `ReferenceScan.FindsLaidOutAlone` | rename_images.py:21-22 | such a reference, with no other match starting before it from a position or after it, is all the scan finds from there |
| `ReferenceScan.FindsReference` | rename_images.py:21-22 | a well-formed reference is found where it stands, with its reference and name, and the search resumes right after it |
| `ReferenceScan.FindsLoneReference` | rename_images.py:21-25 | a well-formed reference with no other match starting before or after it is the one and only match, with its reference and name |
| `ReferenceScan.SecondReferenceLayout` | rename_images.py:21 | where the second of two references stands in their text |
| `ReferenceScan.FindsFirstReference` | rename_images.py:21-22 | the first of two references is the match where it stands |
| `ReferenceScan.FindsSecondReference` | rename_images.py:21-22 | from the end of the first of two references, the scan finds the second alone |
| `ReferenceScan.FindsTwoReferences` | rename_images.py:21-25 | two well-formed references with no other match before, between or after them are the two matches, in text order |
| `ReferenceScan.OtherDirectoryNotRecognised` | rename_images.py:21 | a reference into any directory other than `1`, such as `2`, `10` or `1a`, is not matched |
| `Reconciler.NewName` | rename_images.py:38 | `f"{prefix}_{old_name}"`; distinct names get distinct new names by `ReconcilerProperties.NewNameInjective` |
| `Reconciler.RenameMap` | rename_images.py:29-44 | the keys are exactly the referenced names in the directory listing, each mapped to `prefix + "_" + name` |
| `Reconciler.CopyPass` | rename_images.py:35-43 | the copies add exactly the prefixed names and change no other file |
| `Reconciler.Unreferenced` | rename_images.py:64-65 | the listed files no reference names, the ones the prune loop removes |
| `Reconciler.Reconciled` | rename_images.py:43-72 | the directory after copying, pruning the unreferenced files and removing the renamed originals; its names and contents are `ReconcilerProperties.ReconciledNames` and `ReconcilerProperties.ReconciledContent` |
| `Reconciler.RewriteAll` | rename_images.py:48-56 | the rewrite loop as a fold over the matches in text order, each copied name substituting its new reference for every occurrence of its reference in the current text; what it yields is stated by `ReconcilerProperties.RewriteWithoutRenames`, `ReconcilerProperties.LoneReferenceRewritten`, `ReconcilerProperties.MissingReferenceKept` and `ReconcilerProperties.OverlappingReferenceRewritten` |
| `Reconciler.RewrittenMarkdown` | rename_images.py:16-56 | the text written back: the rewrite loop over the text's matches with the rename map of the copy loop; what it yields is stated by `ReconcilerProperties.LoneReferenceRewritten`, `ReconcilerProperties.FileNamedOneRewritten`, `ReconcilerProperties.MissingReferenceKept` and `ReconcilerProperties.OverlappingReferenceRewritten` |
| `Reconciler.ReconciledDirectory` | rename_images.py:29-72 | the image directory left behind by the copy, prune and finalize loops for the text's referenced names; its names and contents are `ReconcilerProperties.ReconciledNames` and `ReconcilerProperties.ReconciledContent` |
| `Reconciler.CopyReferenced` | rename_images.py:33-45 | the copy loop yields exactly that directory and that rename map |
| `Reconciler.RewriteReferences` | rename_images.py:48-56 | the rewrite loop yields the sequential rewrite of the text |
| `Reconciler.PruneUnreferenced` | rename_images.py:64-67 | the prune loop removes exactly the listed files no reference names |
| `Reconciler.RemoveOriginals` | rename_images.py:70-72 | the finalize loop removes exactly the renamed originals |
| `Reconciler.RenameImagesWithPrefix` | rename_images.py:5-74 | a missing Markdown file or image directory raises FileNotFound with nothing changed (the read and the listing come first); otherwise the text file is replaced by the rewritten text and the directory by the reconciled one, nothing else changes |
| `ReconcilerProperties.NewNameInjective` | rename_images.py:38 | distinct names get distinct prefixed names |
| `ReconcilerProperties.ReconciledNames` | rename_images.py:43-72 | afterwards the directory holds exactly the prefixed names of the referenced, listed files that were not already present; every original is gone |
| `ReconcilerProperties.CopyPassKeepsContent` | rename_images.py:35-43 | when no prefixed name is taken, each copy has its original's content |
| `ReconcilerProperties.ReconciledContent` | rename_images.py:43-72 | when no prefixed name is taken, the directory is exactly one copy per referenced, listed file, with its content |
| `ReconcilerProperties.TakenPrefixedNameIsLost` | rename_images.py:43-72 | when the prefixed name is already taken, neither the original nor a prefixed copy survives |
| `ReconcilerProperties.NoReferenceEmptiesDirectory` | rename_images.py:48-67 | a text without a recognised reference is written back unchanged and every image is deleted |
| `ReconcilerProperties.OtherDirectoryEmptiesDirectory` | rename_images.py:21-67 | a reference into any directory other than `1`, such as `10`, leaves the text unchanged, and every image is deleted |
| `ReconcilerProperties.RewriteWithoutRenames` | rename_images.py:52 | matches whose names were not copied leave the text unchanged |
| `ReconcilerProperties.MissingReferencesUntouched` | rename_images.py:35-67 | when no referenced name is in the directory, nothing is copied, the text is written back as it was, and every image is deleted |
| `ReconcilerProperties.RewritableName` | rename_images.py:55 | the name does not occur in `./1<sep><name>` at any of the four positions before the name itself |
| `ReconcilerProperties.RewritableByFirstChars` | rename_images.py:55 | a name is rewritable when its first character is none of `.`, `/`, `1` and `\`, or when it is `1` followed by a character other than a separator, as in `1.png` or `1__a.png` |
| `ReconcilerProperties.RewriteRefName` | rename_images.py:55 | `old_ref.replace(old_name, new_name)` changes only the name part of a rewritable name's reference |
| `ReconcilerProperties.FileNamedOneRef` | rename_images.py:55 | for the file named `1`, `old_ref.replace` turns `./1<sep>1` into `./<new><sep><new>`, rewriting the directory as well |
| `ReconcilerProperties.OneMatchRewrite` | rename_images.py:48-56 | a text whose only match names a listed file gets that match's reference, with the name replaced inside it, substituted everywhere |
| `ReconcilerProperties.ReplaceLoneRefBy` | rename_images.py:56 | when the reference text occurs in the Markdown only at the reference, replacing it by any text changes nothing around it |
| `ReconcilerProperties.LoneRefRewrittenTo` | rename_images.py:21-56 | a lone reference to a listed file becomes whatever `old_ref.replace(old_name, new_name)` gives, the rest of the text unchanged |
| `ReconcilerProperties.FileNamedOneRewritten` | rename_images.py:21-56 | a lone reference to a listed file named `1` comes out as `./<new><sep><new>`, pointing into a directory that does not exist |
| `ReconcilerProperties.ReplaceLoneRef` | rename_images.py:56 | when the reference text occurs in the Markdown only at the reference, replacing it changes nothing around it |
| `ReconcilerProperties.SingleNameReconciled` | rename_images.py:43-72 | one referenced, listed file with a free prefixed name: the directory ends up holding only its copy |
| `ReconcilerProperties.LoneReferenceRewritten` | rename_images.py:21-56 | a lone reference to a listed file with a rewritable name, whose reference text occurs only there, is rewritten to the prefixed name, the rest of the text unchanged |
| `ReconcilerProperties.LoneReferenceRun` | rename_images.py:5-74 | a whole run on a text with one such reference: the reference names the prefixed copy, and the directory holds only that copy with the original's content |
| `ReconcilerProperties.SecondRunPrefixesAgain` | rename_images.py:35-72 | a second run with the same prefix, on a rewritten text that is again a lone reference, prefixes the reference and the file again, and the file keeps the original's content |
| `ReconcilerProperties.TwoNamesReconciled` | rename_images.py:43-72 | of a listed name with a free prefixed name and a missing name, only the first's copy is left, with its content |
| `ReconcilerProperties.RewriteFirstOfTwo` | rename_images.py:48-56 | of a listed match followed by a missing one, only the first is substituted |
| `ReconcilerProperties.PairOutcome` | rename_images.py:35-72 | a text whose matches are a listed and then a missing name: the text gets the first reference substituted, and the directory keeps only its copy |
| `ReconcilerProperties.MissingReferenceKept` | rename_images.py:21-72 | a reference to a listed file with a rewritable name followed by one to a missing file: when the first reference text occurs only where it stands, only it is rewritten, the missing file's reference is kept as written, and the directory holds only the one copy |
| `ReconcilerProperties.OverlapFound` | rename_images.py:21-25 | in a text of two references whose second name extends the first, the scan finds both, with their references and names |
| `ReconcilerProperties.OverlapReplaced` | rename_images.py:56 | when the second reference's name extends the first's, substituting the first reference text also rewrites the start of the second |
| `ReconcilerProperties.OverlappingReferenceRewritten` | rename_images.py:21-72 | so a run on `![a](./1/a.png)![b](./1/a.png2)` with only `a.png` listed rewrites both references, to `p_a.png` and to the missing `p_a.png2` |
| `ReconcilerProperties.ReplaceSegment` | rename_images.py:56 | text that cannot start the pattern, then the pattern: the text is kept and the pattern replaced |
| `ReconcilerProperties.ReplaceLastSegment` | rename_images.py:56 | the pattern once between two stretches that cannot start it: only it is replaced |
| `ReconcilerProperties.ReplaceTwice` | rename_images.py:56 | both occurrences of the pattern, between stretches that cannot start it, are replaced |
| `ReconcilerCli.ParseArgs` | rename_images.py:80-96 | fewer than one argument is a usage error; the Markdown path is `<name>.md`, the directory `<name>`, the prefix the second argument or `<name>_` |
| `ReconcilerCli.RunCli` | rename_images.py:80-102 | exit status 1, nothing changed, on a usage error or a missing file or directory; otherwise status 0 and the reconciled file system |
| `ReconcilerCli.DefaultPrefixDoublesUnderscore` | rename_images.py:90-91 | with the default prefix a file `n` becomes `<name>__n` |
| `ReconcilerCli.DefaultPrefixSecondRun` | rename_images.py:5-96 | run twice as `rename_images.py 1` on a lone reference, a file `n` becomes `1__n` and then `1__1__n`, in the text and in the directory, keeping its content |
| `PipelineLinks.ImageFileNameHasNoParen` | pdf_to_markdown.py:214 | an extracted image's file name starts with `p` and holds no `)` |
| `PipelineLinks.ImageLineLayout` | pdf_to_markdown.py:248 | an image line for a file in the output directory is a reference into `./1/` |
| `PipelineLinks.ImageRefOccursOnce` | pdf_to_markdown.py:248 | the reference text of an image line occurs in it only inside the reference |
| `PipelineLinks.ImageLineRecognised` | pdf_to_markdown.py:248 | the reconciler's scan finds the converter's image line, with the image's file name |
| `PipelineLinks.ImageLineReconciled` | pdf_to_markdown.py:248 | reconciling a Markdown file holding one converter image line keeps just that image, renamed, and points the line at it |

## Left out

- Locating poppler and changing `PATH` at import time are not modelled. This is environment probing.
- The OCR and layout loaders are not modelled. They are library calls; their element list is an input.
- Plotting and PDF annotation are not modelled. This is drawing and floating-point geometry.
- Pixmap decoding and CMYK-to-RGB conversion are not modelled. The model keeps only the channel-count branch and the fact that a file is saved.
- PdfImages.ExtractImages: an embedded image is its channel count; the `xref` lookup is not modelled.
- HTML-to-Markdown conversion is the parameter `convert`. It is a foreign library.
- Reading and writing are not separate effects. The file system is a value; the converter returns the saved images and the Markdown text instead of writing them.
- Text encoding is not modelled. Strings are sequences of characters.
- `print` output is not modelled.
- The exception handler in `main` is not modelled. It lies outside the converter function.
- MarkdownEmitter.ConvertToMarkdown: tests for `Image` first and then computes the line with the remaining branches in the source's order. This selects the same branch as the source, because the tests that precede `Image` in the source (Title, Header and Subheader, Table, and List) each ask for a different category.
- The image directory is flat: every entry is a regular file. Subdirectories, which the `isfile` filter would skip, are not modelled.
- A Markdown file stored inside the image directory is not modelled.
- `shutil.copy2` failures and metadata are not modelled. The copy loop assumes every copy succeeds; the code has no handling for a failed copy.
- The order in which the directory is listed is not modelled. The prune and finalize loops remove a set, so the order does not change the result.
- Exit status 1 for an error raised by the reconciler is Python's status for an uncaught exception. The traceback is not modelled.
- PdfImages.JoinPath: paths are joined with `/`, as `os.path.join` does on POSIX. On Windows the separator is `\`, and the converter's image lines read `![Image](./1\page<p>_img<i>.png)`; the reconciler's scan accepts both separators, and `ReferenceScan.FindsLoneReference` and `ReconcilerProperties.LoneReferenceRun` hold for either.
- ReconcilerProperties.MissingReferenceKept: covers one listed and one missing reference, in that order, and requires the listed reference text to occur only where it stands. `ReconcilerProperties.OverlappingReferenceRewritten` shows the requirement is needed: `![a](./1/a.png)![b](./1/a.png2)` with only `a.png` listed and prefix `p` becomes `![a](./1/p_a.png)![b](./1/p_a.png2)`.
- ReconcilerProperties.LoneReferenceRun: requires the reference text to occur in the Markdown only at the reference; where it also occurs elsewhere, `str.replace` rewrites that occurrence too.
- Behaviours of the code as written that the model keeps:
  - **Reference directory.** References are recognised only under `./1/` or `./1\`, whatever file name the command line is given (`ReferenceScan.OtherDirectoryNotRecognised`).
  - **Second run.** A second run with the same prefix prefixes the names again (`ReconcilerProperties.SecondRunPrefixesAgain`).
  - **File named `1`.** Its reference has the directory rewritten too (`ReconcilerProperties.FileNamedOneRewritten`).
  - **Unprefixed name.** The rewritten text still contains the unprefixed name, as the tail of the prefixed one (`ReconcilerProperties.LoneReferenceRun`).
  - **Failed copy.** A failed `shutil.copy2` raises, and the code does not catch it; the model assumes every copy succeeds.
