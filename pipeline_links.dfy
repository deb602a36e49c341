/**
  How the two programs meet: a single image line the converter writes for
  the PDF named `1` is recognised by the reconciler, with its file name,
  and a run on it keeps just that image under its prefixed name.
 */
module PipelineLinks {
  import opened PdfImages
  import opened MarkdownEmitter
  import opened ReferenceScan
  import opened Reconciler
  import opened ReconcilerProperties
  import opened PyStrings

  /** The file name of an extracted image holds no `)`, so the reference pattern takes all of it. */
  lemma ImageFileNameHasNoParen(page: nat, index: nat)
    ensures var n := ImageFileName(page, index);
      n != [] && n[0] == 'p' && forall t :: 0 <= t < |n| ==> n[t] != ')'
  {
    var p := NatToString(page);
    var i := NatToString(index);
    var n := ImageFileName(page, index);
    forall t | 0 <= t < |n|
      ensures n[t] != ')'
    {
      if 4 <= t < 4 + |p| {
        assert n[t] == p[t - 4];
      } else if 8 + |p| <= t < 8 + |p| + |i| {
        assert n[t] == i[t - 8 - |p|];
      }
    }
  }

  /** An image line for a file in the output directory is a reference in `RefText` form. */
  lemma ImageLineLayout(name: string)
    ensures ImageLine(OutputDir + "/" + name) == RefText([], "Image", '/', name, "\n")
  {
  }

  /** The reference text of an image line occurs in it only inside the reference. */
  lemma ImageRefOccursOnce(name: string)
    ensures OccursOnlyAt(RefText([], "Image", '/', name, "\n"), "./1" + ['/'] + name, 9)
  {
    var s := RefText([], "Image", '/', name, "\n");
    var ref := "./1" + ['/'] + name;
    ReferenceLayout([], "Image", '/', name, "\n");
    assert s[9..9 + |ref|] == ref;
    forall k: nat | k < |s| && OccursAt(s, ref, k)
      ensures k == 9
    {
      assert s[k] == s[k..k + |ref|][0] == '.';
    }
  }

  /** The reconciler finds the converter's image line, with the extracted file's own name. */
  lemma ImageLineRecognised(page: nat, index: nat)
    ensures FindImageRefs(ImageLine(ImagePath(OutputDir, page, index))) ==
      [RefMatch("./1/" + ImageFileName(page, index), ImageFileName(page, index), 0, 9)]
  {
    ImageFileNameHasNoParen(page, index);
    ImageLineLayout(ImageFileName(page, index));
    FindsLoneReference([], "Image", '/', ImageFileName(page, index), "\n");
  }

  /**
    Reconciling a Markdown file that holds one converter image line keeps
    just that image, under its prefixed name, and points the line at it.
   */
  lemma ImageLineReconciled(page: nat, index: nat, dir: Directory, prefix: string)
    requires ImageFileName(page, index) in dir && NewName(prefix, ImageFileName(page, index)) !in dir
    ensures RewrittenMarkdown(ImageLine(ImagePath(OutputDir, page, index)), dir, prefix)
      == ImageLine(OutputDir + "/" + NewName(prefix, ImageFileName(page, index)))
    ensures ReconciledDirectory(dir, ImageLine(ImagePath(OutputDir, page, index)), prefix)
      == map[NewName(prefix, ImageFileName(page, index)) := dir[ImageFileName(page, index)]]
  {
    var n := ImageFileName(page, index);
    ImageFileNameHasNoParen(page, index);
    ImageLineLayout(n);
    ImageLineLayout(NewName(prefix, n));
    RewritableByFirstChars('/', n);
    ImageRefOccursOnce(n);
    LoneReferenceRun([], "Image", '/', n, "\n", dir, prefix);
  }
}
