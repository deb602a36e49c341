/**
  What the element loop guarantees about the Markdown it emits: no image
  path is referenced twice, an Image element only references its own page's
  paths and in their order, a page never gets more references than it has
  images, a page's first Image element exhausts it, and text lines appear
  one per non-Image element in element order.
 */
module EmitterProperties {
  import opened MarkdownEmitter
  import PdfImages

  /** The image paths referenced by `bs`, in order. */
  function EmittedPaths(bs: seq<Block>): seq<string>
    decreases |bs|
  {
    if bs == [] then []
    else EmittedPaths(bs[..|bs| - 1]) + (if bs[|bs| - 1].ImageBlock? then [bs[|bs| - 1].path] else [])
  }

  /** The text lines of `bs`, in order. */
  function TextLines(bs: seq<Block>): seq<string>
    decreases |bs|
  {
    if bs == [] then []
    else TextLines(bs[..|bs| - 1]) + (if bs[|bs| - 1].TextBlock? then [bs[|bs| - 1].line] else [])
  }

  /** How many references of `bs` were emitted by Image elements of page `p`. */
  function CountPage(bs: seq<Block>, p: int): nat
    decreases |bs|
  {
    if bs == [] then 0
    else CountPage(bs[..|bs| - 1], p) + (if bs[|bs| - 1].ImageBlock? && bs[|bs| - 1].page == p then 1 else 0)
  }

  /** The lines the non-Image elements of `els` contribute, in element order. */
  function NonImageLines(els: seq<Element>, convert: string -> string): seq<string>
    decreases |els|
  {
    if els == [] then []
    else
      var el := els[|els| - 1];
      NonImageLines(els[..|els| - 1], convert) + (if el.category == "Image" then [] else [LineFor(el, convert)])
  }

  /** `a` is `b` with some elements left out, the rest in order. */
  predicate IsSubsequence(a: seq<string>, b: seq<string>)
    decreases |b|
  {
    if b == [] then a == []
    else
      || (a != [] && a[|a| - 1] == b[|b| - 1] && IsSubsequence(a[..|a| - 1], b[..|b| - 1]))
      || IsSubsequence(a, b[..|b| - 1])
  }

  lemma {:induction false} SplitViews(a: seq<Block>, b: seq<Block>, p: int)
    ensures EmittedPaths(a + b) == EmittedPaths(a) + EmittedPaths(b)
    ensures TextLines(a + b) == TextLines(a) + TextLines(b)
    ensures CountPage(a + b, p) == CountPage(a, p) + CountPage(b, p)
    decreases |b|
  {
    if b == [] {
      assert a + b == a;
    } else {
      var b' := b[..|b| - 1];
      assert (a + b)[..|a + b| - 1] == a + b';
      SplitViews(a, b', p);
    }
  }

  lemma {:induction false} ImageBlocksViews(page: int, f: seq<string>, p: int)
    ensures EmittedPaths(ImageBlocks(page, f)) == f
    ensures TextLines(ImageBlocks(page, f)) == []
    ensures CountPage(ImageBlocks(page, f), p) == if p == page then |f| else 0
    decreases |f|
  {
    if f != [] {
      var f' := f[..|f| - 1];
      assert ImageBlocks(page, f)[..|f| - 1] == ImageBlocks(page, f');
      ImageBlocksViews(page, f', p);
      assert f == f' + [f[|f| - 1]];
    }
  }

  /** How one element step changes the three views of the output. */
  lemma StepViews(st: EmitState, el: Element, m: PdfImages.ImageMap, convert: string -> string, p: int)
    ensures var next := ElementStep(st, el, m, convert);
      var f := Fresh(PathsFor(m, el.pageNumber), st.inserted);
      if el.category == "Image" then
        && EmittedPaths(next.blocks) == EmittedPaths(st.blocks) + f
        && TextLines(next.blocks) == TextLines(st.blocks)
        && CountPage(next.blocks, p) == CountPage(st.blocks, p) + (if p == el.pageNumber then |f| else 0)
      else
        && EmittedPaths(next.blocks) == EmittedPaths(st.blocks)
        && TextLines(next.blocks) == TextLines(st.blocks) + [LineFor(el, convert)]
        && CountPage(next.blocks, p) == CountPage(st.blocks, p)
  {
    var f := Fresh(PathsFor(m, el.pageNumber), st.inserted);
    if el.category == "Image" {
      SplitViews(st.blocks, ImageBlocks(el.pageNumber, f), p);
      ImageBlocksViews(el.pageNumber, f, p);
    } else {
      var b := [TextBlock(LineFor(el, convert))];
      SplitViews(st.blocks, b, p);
      assert b[..0] == [];
    }
  }

  lemma DisjointConcatDistinct(a: seq<string>, b: seq<string>)
    requires Distinct(a) && Distinct(b)
    requires forall x :: x in b ==> x !in a
    ensures Distinct(a + b)
  {
    var s := a + b;
    forall i, j | 0 <= i < j < |s|
      ensures s[i] != s[j]
    {
      if j < |a| {
        assert s[i] == a[i] && s[j] == a[j];
      } else if i < |a| {
        assert s[j] == b[j - |a|] && b[j - |a|] in b;
        assert s[i] == a[i];
      } else {
        assert s[i] == b[i - |a|] && s[j] == b[j - |a|];
      }
    }
  }

  /**
    No image path is referenced twice in the whole output, and
    `inserted_images` is exactly the set of referenced paths.
   */
  lemma {:induction false} EmitNoDuplicateImages(els: seq<Element>, m: PdfImages.ImageMap, convert: string -> string)
    ensures Distinct(EmittedPaths(Emit(els, m, convert).blocks))
    ensures Elems(EmittedPaths(Emit(els, m, convert).blocks)) == Emit(els, m, convert).inserted
    decreases |els|
  {
    if els != [] {
      var prev := els[..|els| - 1];
      var el := els[|els| - 1];
      var st := Emit(prev, m, convert);
      EmitNoDuplicateImages(prev, m, convert);
      StepViews(st, el, m, convert, 0);
      if el.category == "Image" {
        var f := Fresh(PathsFor(m, el.pageNumber), st.inserted);
        var e := EmittedPaths(st.blocks);
        assert forall x :: x in f ==> x in Elems(f);
        DisjointConcatDistinct(e, f);
        assert Elems(e + f) == Elems(e) + Elems(f);
      }
    }
  }

  lemma {:induction false} FreshIsSubsequence(paths: seq<string>, inserted: set<string>)
    ensures IsSubsequence(Fresh(paths, inserted), paths)
    decreases |paths|
  {
    if paths != [] {
      var prefix := paths[..|paths| - 1];
      var f := Fresh(prefix, inserted);
      FreshIsSubsequence(prefix, inserted);
      var q := paths[|paths| - 1];
      if !(q in inserted || q in f) {
        assert (f + [q])[..|f + [q]| - 1] == f;
      }
    }
  }

  /**
    An Image element emits references to its own page's paths only, in the
    page's order, namely every one of them not already emitted, each once.
   */
  lemma ImageElementEmitsOwnPage(st: EmitState, el: Element, m: PdfImages.ImageMap, convert: string -> string)
    requires el.category == "Image"
    ensures var f := Fresh(PathsFor(m, el.pageNumber), st.inserted);
      && ElementStep(st, el, m, convert).blocks == st.blocks + ImageBlocks(el.pageNumber, f)
      && IsSubsequence(f, PathsFor(m, el.pageNumber))
      && Elems(f) == Elems(PathsFor(m, el.pageNumber)) - st.inserted
      && Distinct(f)
  {
    FreshIsSubsequence(PathsFor(m, el.pageNumber), st.inserted);
  }

  /** Every reference in `bs` names a path of the page it was emitted for. */
  ghost predicate RefsInOwnPage(bs: seq<Block>, m: PdfImages.ImageMap) {
    forall k :: 0 <= k < |bs| && bs[k].ImageBlock? ==> bs[k].path in PathsFor(m, bs[k].page)
  }

  /** Every reference in the output names a path of the page whose Image element emitted it. */
  lemma {:induction false} ReferencesBelongToTheirPage(els: seq<Element>, m: PdfImages.ImageMap, convert: string -> string)
    ensures RefsInOwnPage(Emit(els, m, convert).blocks, m)
    decreases |els|
  {
    if els != [] {
      var prev := els[..|els| - 1];
      var el := els[|els| - 1];
      var st := Emit(prev, m, convert);
      ReferencesBelongToTheirPage(prev, m, convert);
      var bs := Emit(els, m, convert).blocks;
      var f := Fresh(PathsFor(m, el.pageNumber), st.inserted);
      var added := if el.category == "Image" then ImageBlocks(el.pageNumber, f) else [TextBlock(LineFor(el, convert))];
      assert bs == st.blocks + added;
      forall k | 0 <= k < |bs| && bs[k].ImageBlock?
        ensures bs[k].path in PathsFor(m, bs[k].page)
      {
        if k < |st.blocks| {
          assert bs[k] == st.blocks[k];
          assert st.blocks[k].path in PathsFor(m, st.blocks[k].page);
        } else {
          assert bs[k] == added[k - |st.blocks|];
          assert el.category == "Image";
          assert bs[k] == ImageBlock(el.pageNumber, f[k - |st.blocks|]);
          assert f[k - |st.blocks|] in Elems(f);
          assert f[k - |st.blocks|] in Elems(PathsFor(m, el.pageNumber));
        }
      }
    }
  }

  /** Once every path of its page has been emitted, an Image element emits nothing. */
  lemma ExhaustedPageEmitsNothing(st: EmitState, el: Element, m: PdfImages.ImageMap, convert: string -> string)
    requires el.category == "Image"
    requires forall x :: x in PathsFor(m, el.pageNumber) ==> x in st.inserted
    ensures ElementStep(st, el, m, convert) == st
  {
    var f := Fresh(PathsFor(m, el.pageNumber), st.inserted);
    assert Elems(f) == {};
    DistinctCard(f);
    assert ImageBlocks(el.pageNumber, f) == [];
    assert st.blocks + [] == st.blocks;
  }

  /** After an Image element, every path of its page has been emitted. */
  lemma ImageElementExhaustsPage(st: EmitState, el: Element, m: PdfImages.ImageMap, convert: string -> string)
    requires el.category == "Image"
    ensures forall x :: x in PathsFor(m, el.pageNumber) ==> x in ElementStep(st, el, m, convert).inserted
  {
    var paths := PathsFor(m, el.pageNumber);
    forall x | x in paths
      ensures x in ElementStep(st, el, m, convert).inserted
    {
      assert x in Elems(paths);
    }
  }

  /** `inserted_images` only grows. */
  lemma {:induction false} InsertedGrows(els: seq<Element>, k: nat, m: PdfImages.ImageMap, convert: string -> string)
    requires k <= |els|
    ensures Emit(els[..k], m, convert).inserted <= Emit(els, m, convert).inserted
    decreases |els| - k
  {
    if k < |els| {
      assert els[..|els|][..k] == els[..k];
      var prev := els[..|els| - 1];
      assert prev[..k] == els[..k];
      InsertedGrows(prev, k, m, convert);
    } else {
      assert els[..k] == els;
    }
  }

  /** A later Image element of a page that already had one emits nothing. */
  lemma LaterImageElementEmitsNothing(els: seq<Element>, i: nat, j: nat, m: PdfImages.ImageMap, convert: string -> string)
    requires i < j < |els|
    requires els[i].category == "Image" && els[j].category == "Image"
    requires els[i].pageNumber == els[j].pageNumber
    ensures Emit(els[..j + 1], m, convert) == Emit(els[..j], m, convert)
  {
    var st := Emit(els[..i], m, convert);
    assert els[..i + 1][..i] == els[..i];
    ImageElementExhaustsPage(st, els[i], m, convert);
    assert els[..j][..i + 1] == els[..i + 1];
    InsertedGrows(els[..j], i + 1, m, convert);
    assert els[..j + 1][..j] == els[..j];
    ExhaustedPageEmitsNothing(Emit(els[..j], m, convert), els[j], m, convert);
  }

  /**
    A page never gets more references than it has paths; once it has any,
    all of its paths have been emitted.
   */
  lemma {:induction false} PageReferenceBound(els: seq<Element>, m: PdfImages.ImageMap, convert: string -> string, p: int)
    ensures CountPage(Emit(els, m, convert).blocks, p) <= |PathsFor(m, p)|
    ensures CountPage(Emit(els, m, convert).blocks, p) > 0 ==>
      forall x :: x in PathsFor(m, p) ==> x in Emit(els, m, convert).inserted
    decreases |els|
  {
    if els != [] {
      var prev := els[..|els| - 1];
      var el := els[|els| - 1];
      var st := Emit(prev, m, convert);
      PageReferenceBound(prev, m, convert, p);
      StepViews(st, el, m, convert, p);
      if el.category == "Image" && el.pageNumber == p {
        ImageElementExhaustsPage(st, el, m, convert);
        if CountPage(st.blocks, p) > 0 {
          ExhaustedPageEmitsNothing(st, el, m, convert);
        }
      }
    }
  }

  lemma {:induction false} BlocksPartition(bs: seq<Block>)
    ensures |bs| == |TextLines(bs)| + |EmittedPaths(bs)|
    decreases |bs|
  {
    if bs != [] {
      BlocksPartition(bs[..|bs| - 1]);
    }
  }

  lemma {:induction false} DistinctCard(s: seq<string>)
    requires Distinct(s)
    ensures |Elems(s)| == |s|
    decreases |s|
  {
    if s != [] {
      var s' := s[..|s| - 1];
      assert Elems(s) == Elems(s') + {s[|s| - 1]} by {
        assert s == s' + [s[|s| - 1]];
      }
      assert s[|s| - 1] !in Elems(s');
      DistinctCard(s');
    }
  }

  /** The non-Image elements contribute their lines in element order, one each. */
  lemma {:induction false} TextLinesInElementOrder(els: seq<Element>, m: PdfImages.ImageMap, convert: string -> string)
    ensures TextLines(Emit(els, m, convert).blocks) == NonImageLines(els, convert)
    decreases |els|
  {
    if els != [] {
      var prev := els[..|els| - 1];
      TextLinesInElementOrder(prev, m, convert);
      StepViews(Emit(prev, m, convert), els[|els| - 1], m, convert, 0);
    }
  }

  /** `md_lines` has one entry per non-Image element plus one per distinct emitted image path. */
  lemma LineCount(els: seq<Element>, m: PdfImages.ImageMap, convert: string -> string)
    ensures |Emit(els, m, convert).blocks| == |NonImageLines(els, convert)| + |Emit(els, m, convert).inserted|
  {
    var bs := Emit(els, m, convert).blocks;
    BlocksPartition(bs);
    TextLinesInElementOrder(els, m, convert);
    EmitNoDuplicateImages(els, m, convert);
    DistinctCard(EmittedPaths(bs));
  }

  /** Every path in `inserted` belongs to the page of some Image element of `els`. */
  ghost predicate FromSeenPages(els: seq<Element>, m: PdfImages.ImageMap, inserted: set<string>) {
    forall x :: x in inserted ==>
      exists i :: 0 <= i < |els| && els[i].category == "Image" && x in PathsFor(m, els[i].pageNumber)
  }

  lemma {:induction false} InsertedFromSeenPages(els: seq<Element>, m: PdfImages.ImageMap, convert: string -> string)
    ensures FromSeenPages(els, m, Emit(els, m, convert).inserted)
    decreases |els|
  {
    if els != [] {
      var prev := els[..|els| - 1];
      var el := els[|els| - 1];
      var st := Emit(prev, m, convert);
      InsertedFromSeenPages(prev, m, convert);
      var f := Fresh(PathsFor(m, el.pageNumber), st.inserted);
      forall x | x in Emit(els, m, convert).inserted
        ensures exists i :: 0 <= i < |els| && els[i].category == "Image" && x in PathsFor(m, els[i].pageNumber)
      {
        if x in st.inserted {
          var i :| 0 <= i < |prev| && prev[i].category == "Image" && x in PathsFor(m, prev[i].pageNumber);
          assert els[i] == prev[i];
        } else {
          assert el.category == "Image" && x in Elems(f);
          assert els[|els| - 1] == el;
        }
      }
    }
  }

  lemma {:induction false} FreshOfUnseen(paths: seq<string>, inserted: set<string>)
    requires Distinct(paths)
    requires forall x :: x in paths ==> x !in inserted
    ensures Fresh(paths, inserted) == paths
    decreases |paths|
  {
    if paths != [] {
      var prefix := paths[..|paths| - 1];
      var q := paths[|paths| - 1];
      FreshOfUnseen(prefix, inserted);
      assert q !in prefix;
      assert prefix + [q] == paths;
    }
  }

  /**
    With an image map that lists no path twice (as the extraction builds it),
    the first Image element of a page emits all of that page's paths, in order.
   */
  lemma FirstImageElementEmitsWholePage(els: seq<Element>, el: Element, m: PdfImages.ImageMap, convert: string -> string)
    requires PdfImages.PathsUnique(m)
    requires el.category == "Image"
    requires forall i :: 0 <= i < |els| && els[i].category == "Image" ==> els[i].pageNumber != el.pageNumber
    ensures ElementStep(Emit(els, m, convert), el, m, convert).blocks
         == Emit(els, m, convert).blocks + ImageBlocks(el.pageNumber, PathsFor(m, el.pageNumber))
  {
    var p := el.pageNumber;
    var paths := PathsFor(m, p);
    var st := Emit(els, m, convert);
    InsertedFromSeenPages(els, m, convert);
    FreshOfUnseen(paths, st.inserted);
  }

  /**
    Taken together with the extraction: the first Image element of page `p`
    references `page<p>_img1.png` ... `page<p>_img<k>.png` under `output_dir`,
    all of them and in that order.
   */
  lemma FirstImageElementEmitsExtractedPage(pdf: PdfImages.Pdf, els: seq<Element>, el: Element, convert: string -> string)
    requires el.category == "Image" && 1 <= el.pageNumber <= |pdf|
    requires forall i :: 0 <= i < |els| && els[i].category == "Image" ==> els[i].pageNumber != el.pageNumber
    ensures var m := PdfImages.ImageMapOf(pdf, OutputDir);
      ElementStep(Emit(els, m, convert), el, m, convert).blocks
        == Emit(els, m, convert).blocks + ImageBlocks(el.pageNumber, PdfImages.PagePaths(pdf, OutputDir, el.pageNumber))
  {
    var m := PdfImages.ImageMapOf(pdf, OutputDir);
    PdfImages.ImageMapShape(pdf, OutputDir);
    FirstImageElementEmitsWholePage(els, el, m, convert);
  }
}
