/**
  The command line of rename_images.py: `rename_images.py <name> [prefix]`
  works on `<name>.md` and the directory `<name>`, with `<name>_` as the
  default prefix. Exit status 1 means a usage error or an error raised by
  the reconciler (Python's status for an uncaught exception), 0 success.
 */
module ReconcilerCli {
  import opened Wrappers
  import opened ReferenceScan
  import opened Reconciler
  import opened ReconcilerProperties

  datatype Invocation = Invocation(markdownPath: string, imageDirPath: string, prefix: string)

  /** The argument rules; `argv[0]` is the script name. `None` is the usage error. */
  function ParseArgs(argv: seq<string>): (r: Option<Invocation>)
    ensures r.None? <==> |argv| < 2
    ensures r.Some? ==> r.value.markdownPath == argv[1] + ".md" && r.value.imageDirPath == argv[1]
    ensures r.Some? ==> r.value.prefix == (if |argv| < 3 then argv[1] + "_" else argv[2])
  {
    if |argv| < 2 then None
    else
      var fileName := argv[1];
      var prefix := if |argv| < 3 then fileName + "_" else argv[2];
      Some(Invocation(fileName + ".md", fileName, prefix))
  }

  /** Parse the arguments and run the reconciler once. */
  method RunCli(argv: seq<string>, fs: FileSystem) returns (after: FileSystem, exitCode: int)
    ensures exitCode == 0 || exitCode == 1
    ensures exitCode == 0 <==> |argv| >= 2 && argv[1] + ".md" in fs.textFiles && argv[1] in fs.directories
    ensures exitCode == 1 ==> after == fs
    ensures exitCode == 0 ==>
      var inv := ParseArgs(argv).value;
      var md := fs.textFiles[inv.markdownPath];
      var dir := fs.directories[inv.imageDirPath];
      after == FileSystem(
        fs.textFiles[inv.markdownPath := RewrittenMarkdown(md, dir, inv.prefix)],
        fs.directories[inv.imageDirPath := ReconciledDirectory(dir, md, inv.prefix)])
  {
    var parsed := ParseArgs(argv);
    if parsed.None? {
      return fs, 1;
    }
    var inv := parsed.value;
    var outcome;
    after, outcome := RenameImagesWithPrefix(fs, inv.markdownPath, inv.imageDirPath, inv.prefix);
    exitCode := if outcome.Completed? then 0 else 1;
  }

  /** With the default prefix a file `n` becomes `<name>__n`: two underscores. */
  lemma DefaultPrefixDoublesUnderscore(script: string, fileName: string, n: string)
    ensures NewName(ParseArgs([script, fileName]).value.prefix, n) == fileName + "__" + n
  {
  }

  /**
    `rename_images.py 1` run twice on a Markdown text with one lone
    reference: the default prefix `1_` makes the name `1__name` after the
    first run and `1__1__name` after the second, and the one file left
    keeps the original's content.
   */
  lemma DefaultPrefixSecondRun(script: string, pre: string, alt: string, sep: char, name: string, post: string, dir: Directory)
    requires LoneReference(pre, alt, sep, name, post) && RewritableName(sep, name)
    requires LoneReference(pre, alt, sep, "1__" + name, post)
    requires name in dir && "1__" + name !in dir
    ensures var prefix := ParseArgs([script, "1"]).value.prefix;
      var md := RewrittenMarkdown(RefText(pre, alt, sep, name, post), dir, prefix);
      var dir' := ReconciledDirectory(dir, RefText(pre, alt, sep, name, post), prefix);
      && md == RefText(pre, alt, sep, "1__" + name, post)
      && RewrittenMarkdown(md, dir', prefix) == RefText(pre, alt, sep, "1__1__" + name, post)
      && ReconciledDirectory(dir', md, prefix) == map["1__1__" + name := dir[name]]
  {
    var prefix := ParseArgs([script, "1"]).value.prefix;
    assert prefix == "1_";
    assert NewName(prefix, name) == "1__" + name;
    assert NewName(prefix, "1__" + name) == "1__1__" + name;
    RewritableByFirstChars(sep, "1__" + name);
    LoneReferenceRun(pre, alt, sep, name, post, dir, prefix);
    SecondRunPrefixesAgain(pre, alt, sep, name, post, dir, prefix);
  }
}
