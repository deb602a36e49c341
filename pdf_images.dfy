/**
  Image extraction of pdf_to_markdown.py: every embedded image of every page
  is saved as `<output_dir>/page<p>_img<i>.png` (both numbers 1-based) and
  the page number -> saved paths map (`image_map`) is built.

  The PDF is modelled as its list of pages, each the list of its embedded
  images; of an image only its channel count (`pix.n`) is kept, since that
  alone decides whether it is saved directly or converted to RGB first.
 */
module PdfImages {

  /** An embedded raster image, reduced to its number of colour channels. */
  datatype EmbeddedImage = EmbeddedImage(channels: int)

  /** The pages of a PDF, in order, each with its images in `get_images()` order. */
  type Pdf = seq<seq<EmbeddedImage>>

  /** What was written at an image path: the pixmap as it was, or its RGB conversion. */
  datatype SavedImage = SavedAsIs(channels: int) | ConvertedToRgb(sourceChannels: int)

  type ImageMap = map<int, seq<string>>

  predicate IsDigit(c: char) {
    '0' <= c <= '9'
  }

  function DigitChar(d: nat): (c: char)
    requires d < 10
    ensures IsDigit(c) && c as int - '0' as int == d
  {
    ('0' as int + d) as char
  }

  /** Python's `str(n)` for a non-negative integer, as the f-strings use it. */
  function NatToString(n: nat): (s: string)
    ensures s != [] && forall t :: 0 <= t < |s| ==> IsDigit(s[t])
  {
    if n < 10 then [DigitChar(n)] else NatToString(n / 10) + [DigitChar(n % 10)]
  }

  /** The value of a decimal numeral. */
  function DigitsValue(s: string): nat
    requires forall t :: 0 <= t < |s| ==> IsDigit(s[t])
  {
    if s == [] then 0
    else
      assert IsDigit(s[|s| - 1]);
      DigitsValue(s[..|s| - 1]) * 10 + (s[|s| - 1] as int - '0' as int)
  }

  /** Reading back the numeral gives the number: distinct numbers print differently. */
  lemma {:induction false} NatToStringRoundTrip(n: nat)
    ensures DigitsValue(NatToString(n)) == n
  {
    var s := NatToString(n);
    if n >= 10 {
      NatToStringRoundTrip(n / 10);
      assert s[..|s| - 1] == NatToString(n / 10);
    }
  }

  /** `f"page{page_num}_img{img_index}.png"`. */
  function ImageFileName(page: nat, index: nat): string {
    "page" + NatToString(page) + "_img" + NatToString(index) + ".png"
  }

  /** posixpath.join(dir, name) for a relative `name`. */
  function JoinPath(dir: string, name: string): string {
    if dir == [] || dir[|dir| - 1] == '/' then dir + name else dir + "/" + name
  }

  /** The joined path starts with the directory, ends with the name, and holds at most one `/` between them. */
  lemma JoinPathShape(dir: string, name: string)
    ensures var r := JoinPath(dir, name);
      && |dir| + |name| <= |r| <= |dir| + 1 + |name|
      && r[..|dir|] == dir && r[|r| - |name|..] == name
      && forall t :: |dir| <= t < |r| - |name| ==> r[t] == '/'
  {
  }

  function ImagePath(dir: string, page: nat, index: nat): string {
    JoinPath(dir, ImageFileName(page, index))
  }

  /** Stripping a common prefix. */
  lemma DropCommonPrefix(c: string, u: string, v: string)
    requires c + u == c + v
    ensures u == v
  {
    assert u == (c + u)[|c|..];
    assert v == (c + v)[|c|..];
  }

  /** In `a + x`, with `a` all digits and `x` starting with a non-digit, the digits end at `|a|`. */
  lemma DigitRunEnd(a: string, x: string)
    requires forall t :: 0 <= t < |a| ==> IsDigit(a[t])
    requires x != [] && !IsDigit(x[0])
    ensures forall t :: 0 <= t < |a| ==> IsDigit((a + x)[t])
    ensures !IsDigit((a + x)[|a|])
  {
  }

  /** Two digit strings, each followed by a non-digit, that start a common text are equal. */
  lemma DigitRunsAgree(a: string, b: string, x: string, y: string)
    requires forall t :: 0 <= t < |a| ==> IsDigit(a[t])
    requires forall t :: 0 <= t < |b| ==> IsDigit(b[t])
    requires x != [] && !IsDigit(x[0]) && y != [] && !IsDigit(y[0])
    requires a + x == b + y
    ensures a == b && x == y
  {
    DigitRunEnd(a, x);
    DigitRunEnd(b, y);
    assert |a| == |b|;
    assert a == (a + x)[..|a|];
    assert b == (b + y)[..|b|];
    DropCommonPrefix(a, x, y);
  }

  /** Distinct (page, index) pairs give distinct file names. */
  lemma ImageFileNameInjective(p: nat, i: nat, q: nat, j: nat)
    requires ImageFileName(p, i) == ImageFileName(q, j)
    ensures p == q && i == j
  {
    var P, I, Q, J := NatToString(p), NatToString(i), NatToString(q), NatToString(j);
    var x, y := "_img" + I + ".png", "_img" + J + ".png";
    assert ImageFileName(p, i) == "page" + (P + x);
    assert ImageFileName(q, j) == "page" + (Q + y);
    DropCommonPrefix("page", P + x, Q + y);
    DigitRunsAgree(P, Q, x, y);
    assert x == "_img" + (I + ".png") && y == "_img" + (J + ".png");
    DropCommonPrefix("_img", I + ".png", J + ".png");
    DigitRunsAgree(I, J, ".png", ".png");
    NatToStringRoundTrip(p);
    NatToStringRoundTrip(q);
    NatToStringRoundTrip(i);
    NatToStringRoundTrip(j);
  }

  lemma JoinPathInjective(dir: string, a: string, b: string)
    requires JoinPath(dir, a) == JoinPath(dir, b)
    ensures a == b
  {
    var sep := if dir == [] || dir[|dir| - 1] == '/' then dir else dir + "/";
    assert JoinPath(dir, a) == sep + a && JoinPath(dir, b) == sep + b;
    assert a == (sep + a)[|sep|..];
    assert b == (sep + b)[|sep|..];
  }

  /** Distinct (page, index) pairs are saved at distinct paths of the same directory. */
  lemma ImagePathInjective(dir: string, p: nat, i: nat, q: nat, j: nat)
    requires ImagePath(dir, p, i) == ImagePath(dir, q, j)
    ensures p == q && i == j
  {
    JoinPathInjective(dir, ImageFileName(p, i), ImageFileName(q, j));
    ImageFileNameInjective(p, i, q, j);
  }

  /** The `pix.n < 5` branch: grey or RGB saved as is, anything wider converted to RGB. */
  function SaveMode(img: EmbeddedImage): (r: SavedImage)
    ensures r.SavedAsIs? <==> img.channels < 5
  {
    if img.channels < 5 then SavedAsIs(img.channels) else ConvertedToRgb(img.channels)
  }

  /** Page `page`'s image paths in extraction order. */
  function PagePaths(pdf: Pdf, dir: string, page: nat): (r: seq<string>)
    requires 1 <= page <= |pdf|
    ensures |r| == |pdf[page - 1]|
    ensures forall k :: 0 <= k < |r| ==> r[k] == ImagePath(dir, page, k + 1)
  {
    seq(|pdf[page - 1]|, k requires 0 <= k < |pdf[page - 1]| => ImagePath(dir, page, k + 1))
  }

  /** The `image_map` the extraction builds. */
  function ImageMapOf(pdf: Pdf, dir: string): (m: ImageMap)
    ensures forall p :: p in m <==> 1 <= p <= |pdf|
  {
    map p | 1 <= p <= |pdf| :: PagePaths(pdf, dir, p)
  }

  /** No path is listed twice, within one page or across pages. */
  ghost predicate PathsUnique(m: ImageMap) {
    forall p, i, q, j ::
      p in m && q in m && 0 <= i < |m[p]| && 0 <= j < |m[q]| && m[p][i] == m[q][j] ==> p == q && i == j
  }

  /** Every page 1..N has an entry, even without images, and no image path is listed twice. */
  lemma ImageMapShape(pdf: Pdf, dir: string)
    ensures forall p :: p in ImageMapOf(pdf, dir) <==> 1 <= p <= |pdf|
    ensures PathsUnique(ImageMapOf(pdf, dir))
  {
    var m := ImageMapOf(pdf, dir);
    forall p, i, q, j | p in m && q in m && 0 <= i < |m[p]| && 0 <= j < |m[q]| && m[p][i] == m[q][j]
      ensures p == q && i == j
    {
      ImagePathInjective(dir, p, i + 1, q, j + 1);
    }
  }

  /** Image `i` of page `p` exists and comes before image `index` of page `page`. */
  predicate Before(pdf: Pdf, p: int, i: int, page: int, index: int) {
    1 <= p <= |pdf| && 1 <= i <= |pdf[p - 1]| && (p < page || (p == page && i < index))
  }

  /** `saved` holds exactly the images before image `index` of page `page`, each at its path in its save mode. */
  ghost predicate SavedUpTo(pdf: Pdf, dir: string, saved: map<string, SavedImage>, page: int, index: int) {
    && (forall p, i :: Before(pdf, p, i, page, index) ==>
          ImagePath(dir, p, i) in saved && saved[ImagePath(dir, p, i)] == SaveMode(pdf[p - 1][i - 1]))
    && (forall path :: path in saved ==>
          exists p, i :: Before(pdf, p, i, page, index) && path == ImagePath(dir, p, i))
  }

  /** `saved` holds exactly the document's images. */
  ghost predicate SavedExactly(pdf: Pdf, dir: string, saved: map<string, SavedImage>) {
    SavedUpTo(pdf, dir, saved, |pdf| + 1, 1)
  }

  /** Saving one more image extends the saved set by exactly that image, overwriting nothing. */
  lemma SaveStep(pdf: Pdf, dir: string, saved: map<string, SavedImage>, page: nat, index: nat)
    requires 1 <= page <= |pdf| && 1 <= index <= |pdf[page - 1]|
    requires SavedUpTo(pdf, dir, saved, page, index)
    ensures SavedUpTo(pdf, dir, saved[ImagePath(dir, page, index) := SaveMode(pdf[page - 1][index - 1])], page, index + 1)
  {
    var path := ImagePath(dir, page, index);
    var saved' := saved[path := SaveMode(pdf[page - 1][index - 1])];
    forall p, i | Before(pdf, p, i, page, index + 1)
      ensures ImagePath(dir, p, i) in saved' && saved'[ImagePath(dir, p, i)] == SaveMode(pdf[p - 1][i - 1])
    {
      if Before(pdf, p, i, page, index) {
        if ImagePath(dir, p, i) == path {
          ImagePathInjective(dir, p, i, page, index);
        }
      }
    }
    forall x | x in saved'
      ensures exists p, i :: Before(pdf, p, i, page, index + 1) && x == ImagePath(dir, p, i)
    {
      if x == path {
        assert Before(pdf, page, index, page, index + 1);
      } else {
        var p, i :| Before(pdf, p, i, page, index) && x == ImagePath(dir, p, i);
        assert Before(pdf, p, i, page, index + 1);
      }
    }
  }

  /** Having saved every image of a page is having saved everything before the next page. */
  lemma NextPage(pdf: Pdf, dir: string, saved: map<string, SavedImage>, page: nat)
    requires 1 <= page <= |pdf|
    requires SavedUpTo(pdf, dir, saved, page, |pdf[page - 1]| + 1)
    ensures SavedUpTo(pdf, dir, saved, page + 1, 1)
  {
    forall x | x in saved
      ensures exists p, i :: Before(pdf, p, i, page + 1, 1) && x == ImagePath(dir, p, i)
    {
      var p, i :| Before(pdf, p, i, page, |pdf[page - 1]| + 1) && x == ImagePath(dir, p, i);
      assert Before(pdf, p, i, page + 1, 1);
    }
  }

  /**
    The first loop of `extract_images_and_convert_to_markdown`: for every page
    (numbered from 1) an entry, then for every image (numbered from 1) a saved
    file and its path appended to the page's list, whichever branch saved it.
   */
  method ExtractImages(pdf: Pdf, outputDir: string) returns (imageMap: ImageMap, saved: map<string, SavedImage>)
    ensures forall p :: p in imageMap <==> 1 <= p <= |pdf|
    ensures forall p :: 1 <= p <= |pdf| ==> imageMap[p] == PagePaths(pdf, outputDir, p)
    ensures imageMap == ImageMapOf(pdf, outputDir)
    ensures SavedExactly(pdf, outputDir, saved)
  {
    imageMap, saved := map[], map[];
    var pageNum := 1;
    while pageNum <= |pdf|
      invariant 1 <= pageNum <= |pdf| + 1
      invariant forall p :: p in imageMap <==> 1 <= p < pageNum
      invariant forall p :: 1 <= p < pageNum ==> imageMap[p] == PagePaths(pdf, outputDir, p)
      invariant SavedUpTo(pdf, outputDir, saved, pageNum, 1)
    {
      imageMap := imageMap[pageNum := []];
      var images := pdf[pageNum - 1];
      var imgIndex := 1;
      while imgIndex <= |images|
        invariant 1 <= imgIndex <= |images| + 1
        invariant forall p :: p in imageMap <==> 1 <= p <= pageNum
        invariant forall p :: 1 <= p < pageNum ==> imageMap[p] == PagePaths(pdf, outputDir, p)
        invariant imageMap[pageNum] == PagePaths(pdf, outputDir, pageNum)[..imgIndex - 1]
        invariant SavedUpTo(pdf, outputDir, saved, pageNum, imgIndex)
      {
        var pix := images[imgIndex - 1];
        var imgPath := ImagePath(outputDir, pageNum, imgIndex);
        SaveStep(pdf, outputDir, saved, pageNum, imgIndex);
        if pix.channels < 5 {
          saved := saved[imgPath := SavedAsIs(pix.channels)];
        } else {
          saved := saved[imgPath := ConvertedToRgb(pix.channels)];
        }
        assert PagePaths(pdf, outputDir, pageNum)[..imgIndex] == PagePaths(pdf, outputDir, pageNum)[..imgIndex - 1] + [imgPath];
        imageMap := imageMap[pageNum := imageMap[pageNum] + [imgPath]];
        imgIndex := imgIndex + 1;
      }
      assert PagePaths(pdf, outputDir, pageNum)[..imgIndex - 1] == PagePaths(pdf, outputDir, pageNum);
      NextPage(pdf, outputDir, saved, pageNum);
      pageNum := pageNum + 1;
    }
  }
}
