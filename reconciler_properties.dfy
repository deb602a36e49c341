/**
  What one run of the reconciler does to the image directory and to the
  Markdown text, and what a second run does.
 */
module ReconcilerProperties {
  import opened PyStrings
  import opened ReferenceScan
  import opened Reconciler

  /** Distinct originals get distinct prefixed names. */
  lemma NewNameInjective(prefix: string, a: string, b: string)
    ensures NewName(prefix, a) == NewName(prefix, b) ==> a == b
  {
    if NewName(prefix, a) == NewName(prefix, b) {
      assert a == NewName(prefix, a)[|prefix| + 1..];
      assert b == NewName(prefix, b)[|prefix| + 1..];
    }
  }

  /**
    After a run the directory holds exactly the prefixed names of the
    referenced, listed files that were not already in it: every original
    file is gone, and so is any file that already carried a prefixed name.
   */
  lemma ReconciledNames(dir: Directory, refs: seq<string>, prefix: string)
    ensures Reconciled(dir, refs, prefix).Keys == NewNames(refs, dir.Keys, prefix) - dir.Keys
  {
    var copied := CopyPass(dir, refs, dir.Keys, prefix);
    var renamed := RenameMap(refs, dir.Keys, prefix);
    assert renamed.Keys == set o | o in refs && o in dir;
  }

  /** When no prefixed name is taken yet, every copy holds the content its original had. */
  lemma {:induction false} CopyPassKeepsContent(dir: Directory, refs: seq<string>, inventory: set<string>, prefix: string)
    requires inventory <= dir.Keys
    requires NewNames(refs, inventory, prefix) !! dir.Keys
    ensures forall o :: o in refs && o in inventory ==> CopyPass(dir, refs, inventory, prefix)[NewName(prefix, o)] == dir[o]
  {
    if refs != [] {
      var init := refs[..|refs| - 1];
      var o := refs[|refs| - 1];
      assert refs == init + [o];
      assert NewNames(init, inventory, prefix) <= NewNames(refs, inventory, prefix);
      CopyPassKeepsContent(dir, init, inventory, prefix);
      if o in inventory {
        forall o' | o' in init && o' in inventory
          ensures NewName(prefix, o') != NewName(prefix, o) || o' == o
        {
          NewNameInjective(prefix, o', o);
        }
      }
    }
  }

  /**
    When no prefixed name is taken yet, the directory after a run is
    exactly one prefixed copy of each referenced, listed file, with that
    file's content.
   */
  lemma ReconciledContent(dir: Directory, refs: seq<string>, prefix: string)
    requires NewNames(refs, dir.Keys, prefix) !! dir.Keys
    ensures Reconciled(dir, refs, prefix).Keys == NewNames(refs, dir.Keys, prefix)
    ensures forall o :: o in refs && o in dir ==> Reconciled(dir, refs, prefix)[NewName(prefix, o)] == dir[o]
  {
    ReconciledNames(dir, refs, prefix);
    CopyPassKeepsContent(dir, refs, dir.Keys, prefix);
  }

  /**
    When the prefixed name of a referenced file is already taken, the copy
    overwrites that file and a later loop deletes it: neither the original
    nor a prefixed copy survives.
   */
  lemma TakenPrefixedNameIsLost(dir: Directory, refs: seq<string>, prefix: string, o: string)
    requires o in refs && o in dir && NewName(prefix, o) in dir
    ensures o !in Reconciled(dir, refs, prefix)
    ensures NewName(prefix, o) !in Reconciled(dir, refs, prefix)
  {
    ReconciledNames(dir, refs, prefix);
  }

  /** A text without a recognised reference leaves the text as it was and deletes every image. */
  lemma NoReferenceEmptiesDirectory(md: string, dir: Directory, prefix: string)
    requires FindImageRefs(md) == []
    ensures RewrittenMarkdown(md, dir, prefix) == md
    ensures ReconciledDirectory(dir, md, prefix) == map[]
  {
    ReconciledNames(dir, [], prefix);
  }

  /** A reference into any directory but `1` (such as `2`, `10` or `1a`) counts for nothing. */
  lemma OtherDirectoryEmptiesDirectory(alt: string, dirName: string, name: string, dir: Directory, prefix: string)
    requires forall t :: 0 <= t < |alt| ==> alt[t] != ']'
    requires forall t :: 0 <= t < |dirName| ==> dirName[t] != ']'
    requires forall t :: 0 <= t < |name| ==> name[t] != ']'
    requires !(dirName != [] && dirName[0] == '1' && (|dirName| == 1 || IsSep(dirName[1])))
    ensures RewrittenMarkdown(DirRefText(alt, dirName, name), dir, prefix) == DirRefText(alt, dirName, name)
    ensures ReconciledDirectory(dir, DirRefText(alt, dirName, name), prefix) == map[]
  {
    OtherDirectoryNotRecognised(alt, dirName, name);
    NoReferenceEmptiesDirectory(DirRefText(alt, dirName, name), dir, prefix);
  }

  /** Matches whose names were not copied leave the text unchanged. */
  lemma {:induction false} RewriteWithoutRenames(content: string, ms: seq<RefMatch>, renamed: map<string, string>)
    requires forall j :: 0 <= j < |ms| ==> ms[j].name !in renamed
    ensures RewriteAll(content, ms, renamed) == content
  {
    if ms != [] {
      RewriteWithoutRenames(content, ms[..|ms| - 1], renamed);
    }
  }

  /**
    When no referenced name is in the directory, nothing is copied: the
    text is written back as it was and every image is deleted.
   */
  lemma MissingReferencesUntouched(md: string, dir: Directory, prefix: string)
    requires forall n :: n in ReferencedNames(FindImageRefs(md)) ==> n !in dir
    ensures RewrittenMarkdown(md, dir, prefix) == md
    ensures ReconciledDirectory(dir, md, prefix) == map[]
  {
    var ms := FindImageRefs(md);
    var refs := ReferencedNames(ms);
    var renamed := RenameMap(refs, dir.Keys, prefix);
    assert renamed == map[];
    forall j | 0 <= j < |ms|
      ensures ms[j].name !in renamed
    {
    }
    RewriteWithoutRenames(md, ms, renamed);
    ReconciledNames(dir, refs, prefix);
    assert NewNames(refs, dir.Keys, prefix) == {};
  }

  /**
    `old_ref.replace(old_name, new_name)` on the reference text `./1<sep>name`
    meets the name only at its own place: the name occurs at none of the
    four positions of `./1<sep>`.
   */
  predicate RewritableName(sep: char, name: string) {
    forall k: nat :: k < 4 ==> !OccursAt("./1" + [sep] + name, name, k)
  }

  /**
    Names that do not start with `.`, `/`, `\` or `1`, and names that start
    with `1` followed by anything but a separator (such as `1.png` or the
    `1__…` names of the default prefix for `1`), are rewritable.
   */
  lemma RewritableByFirstChars(sep: char, name: string)
    requires IsSep(sep) && name != []
    requires name[0] !in "./1\\" || (name[0] == '1' && |name| >= 2 && !IsSep(name[1]))
    ensures RewritableName(sep, name)
  {
  }

  /** Inside a reference, only the file name part is replaced when the name is rewritable. */
  lemma RewriteRefName(sep: char, name: string, newName: string)
    requires name != [] && RewritableName(sep, name)
    ensures Replace("./1" + [sep] + name, name, newName) == "./1" + [sep] + newName
  {
    ReplaceNoStart("./1" + [sep], name, name, newName);
    ReplaceLeading(name, [], newName);
    assert name + [] == name;
  }

  /** A file named `1`: the name also matches the directory, so both are replaced. */
  lemma {:induction false} FileNamedOneRef(sep: char, rep: string)
    requires IsSep(sep)
    ensures Replace("./1" + [sep] + "1", "1", rep) == "./" + rep + [sep] + rep
  {
    assert "./1" + [sep] + "1" == "./" + ("1" + ([sep] + "1"));
    ReplaceSkipsPrefix("./", "1" + ([sep] + "1"), "1", rep);
    ReplaceLeading("1", [sep] + "1", rep);
    ReplaceSkipsPrefix([sep], "1", "1", rep);
    ReplaceLeading("1", [], rep);
    assert "1" + [] == "1";
  }

  /**
    `RefText(pre, alt, sep, name, post)` holds exactly one recognised
    reference, and its reference text `./1<sep>name` occurs nowhere else
    in the Markdown text.
   */
  predicate LoneReference(pre: string, alt: string, sep: char, name: string, post: string) {
    var md := RefText(pre, alt, sep, name, post);
    && WellFormedRef(alt, sep, name)
    && NoMatchIn(md, 0, |pre|)
    && NoMatchIn(md, |pre| + 9 + |alt| + |name|, |md|)
    && OccursOnlyAt(md, "./1" + [sep] + name, |pre| + 4 + |alt|)
  }

  /** The reference text inside `![alt](...)`, when it occurs only there, is replaced by `newRef` and nothing else is. */
  lemma {:induction false} ReplaceLoneRefBy(pre: string, alt: string, sep: char, name: string, post: string, newRef: string)
    requires OccursOnlyAt(RefText(pre, alt, sep, name, post), "./1" + [sep] + name, |pre| + 4 + |alt|)
    ensures Replace(RefText(pre, alt, sep, name, post), "./1" + [sep] + name, newRef)
      == (pre + "![" + alt + "](") + newRef + (")" + post)
  {
    RefTextCut(pre, alt, sep, name, post);
    ReplaceOnlyOccurrence(pre + "![" + alt + "](", "./1" + [sep] + name, ")" + post, newRef);
  }

  /** The same, when the new reference names another file in `./1`. */
  lemma {:induction false} ReplaceLoneRef(pre: string, alt: string, sep: char, name: string, post: string, newName: string)
    requires OccursOnlyAt(RefText(pre, alt, sep, name, post), "./1" + [sep] + name, |pre| + 4 + |alt|)
    ensures Replace(RefText(pre, alt, sep, name, post), "./1" + [sep] + name, "./1" + [sep] + newName)
      == RefText(pre, alt, sep, newName, post)
  {
    ReplaceLoneRefBy(pre, alt, sep, name, post, "./1" + [sep] + newName);
    RefTextCut(pre, alt, sep, newName, post);
  }

  /** A reference text cut at its reference: `pre![alt](`, `./1<sep>name`, `)post`. */
  lemma {:induction false} RefTextCut(pre: string, alt: string, sep: char, name: string, post: string)
    ensures RefText(pre, alt, sep, name, post)
      == (pre + "![" + alt + "](") + ("./1" + [sep] + name) + (")" + post)
  {
    assert "](./1" == "](" + "./1";
  }

  /** One listed, referenced name whose prefixed name is free: the directory keeps only its copy. */
  lemma SingleNameReconciled(dir: Directory, name: string, prefix: string)
    requires name in dir && NewName(prefix, name) !in dir
    ensures Reconciled(dir, [name], prefix) == map[NewName(prefix, name) := dir[name]]
  {
    assert NewNames([name], dir.Keys, prefix) == {NewName(prefix, name)};
    ReconciledContent(dir, [name], prefix);
  }

  /** The rewrite of a lone reference to a listed file. */
  lemma LoneReferenceRewritten(pre: string, alt: string, sep: char, name: string, post: string, dir: Directory, prefix: string)
    requires LoneReference(pre, alt, sep, name, post) && RewritableName(sep, name)
    requires name in dir
    ensures ReferencedNames(FindImageRefs(RefText(pre, alt, sep, name, post))) == [name]
    ensures RewrittenMarkdown(RefText(pre, alt, sep, name, post), dir, prefix)
      == RefText(pre, alt, sep, NewName(prefix, name), post)
  {
    var m := RefMatch("./1" + [sep] + name, name, |pre|, |pre| + 4 + |alt|);
    FindsLoneReference(pre, alt, sep, name, post);
    assert ReferencedNames([m]) == [name];
    var renamed := RenameMap([name], dir.Keys, prefix);
    assert renamed == map[name := NewName(prefix, name)];
    var md := RefText(pre, alt, sep, name, post);
    var newRef := "./1" + [sep] + NewName(prefix, name);
    RewriteRefName(sep, name, NewName(prefix, name));
    assert Replace(m.ref, m.name, renamed[m.name]) == newRef;
    assert [m][..0] == [];
    assert RewriteAll(md, [m], renamed) == Replace(md, m.ref, newRef);
    ReplaceLoneRef(pre, alt, sep, name, post, NewName(prefix, name));
  }

  /**
    A Markdown text with a single reference `![alt](./1/name)` to a listed
    file: the reference now names the prefixed copy, the rest of the text
    is as it was, and the directory holds only that copy, with the
    original's content.
   */
  lemma LoneReferenceRun(pre: string, alt: string, sep: char, name: string, post: string, dir: Directory, prefix: string)
    requires LoneReference(pre, alt, sep, name, post) && RewritableName(sep, name)
    requires name in dir && NewName(prefix, name) !in dir
    ensures RewrittenMarkdown(RefText(pre, alt, sep, name, post), dir, prefix)
      == RefText(pre, alt, sep, NewName(prefix, name), post)
    ensures ReconciledDirectory(dir, RefText(pre, alt, sep, name, post), prefix)
      == map[NewName(prefix, name) := dir[name]]
  {
    LoneReferenceRewritten(pre, alt, sep, name, post, dir, prefix);
    SingleNameReconciled(dir, name, prefix);
  }

  /**
    A lone reference to a listed file named `1` (the parameter `one`):
    `old_ref.replace` also replaces the directory `1`, so the reference
    comes out as `./<new>/<new>`, pointing into a directory that does not
    exist.
   */
  lemma {:induction false} FileNamedOneRewritten(pre: string, alt: string, sep: char, one: string, post: string,
                                                 dir: Directory, prefix: string)
    requires one == "1"
    requires LoneReference(pre, alt, sep, one, post) && one in dir
    ensures RewrittenMarkdown(RefText(pre, alt, sep, one, post), dir, prefix)
      == pre + "![" + alt + "](./" + NewName(prefix, one) + [sep] + NewName(prefix, one) + ")" + post
  {
    var n := NewName(prefix, one);
    var newRef := "./" + n + [sep] + n;
    assert Replace("./1" + [sep] + one, one, n) == newRef by {
      FileNamedOneRef(sep, n);
    }
    LoneRefRewrittenTo(pre, alt, sep, one, post, dir, prefix, newRef);
    assert (pre + "![" + alt + "](") + newRef + (")" + post)
      == pre + "![" + alt + "](./" + n + [sep] + n + ")" + post;
  }

  /** A lone reference to a listed file becomes `newRef`, whatever the name's rewrite of the reference gives. */
  lemma {:induction false} LoneRefRewrittenTo(pre: string, alt: string, sep: char, name: string, post: string,
                                             dir: Directory, prefix: string, newRef: string)
    requires LoneReference(pre, alt, sep, name, post) && name in dir
    requires Replace("./1" + [sep] + name, name, NewName(prefix, name)) == newRef
    ensures RewrittenMarkdown(RefText(pre, alt, sep, name, post), dir, prefix)
      == (pre + "![" + alt + "](") + newRef + (")" + post)
  {
    var m := RefMatch("./1" + [sep] + name, name, |pre|, |pre| + 4 + |alt|);
    var md := RefText(pre, alt, sep, name, post);
    assert FindImageRefs(md) == [m] by {
      FindsLoneReference(pre, alt, sep, name, post);
    }
    assert RewrittenMarkdown(md, dir, prefix) == Replace(md, m.ref, newRef) by {
      OneMatchRewrite(md, m, dir, prefix);
    }
    ReplaceLoneRefBy(pre, alt, sep, name, post, newRef);
  }

  /** A text whose only hit names a listed file: that hit's reference is substituted everywhere. */
  lemma OneMatchRewrite(md: string, m: RefMatch, dir: Directory, prefix: string)
    requires FindImageRefs(md) == [m] && m.name in dir
    ensures RewrittenMarkdown(md, dir, prefix) == Replace(md, m.ref, Replace(m.ref, m.name, NewName(prefix, m.name)))
  {
    assert ReferencedNames([m]) == [m.name];
    var renamed := RenameMap([m.name], dir.Keys, prefix);
    assert renamed == map[m.name := NewName(prefix, m.name)];
    assert [m][..0] == [];
    assert RewriteAll(md, [m], renamed) == Replace(md, m.ref, Replace(m.ref, m.name, renamed[m.name]));
  }

  /**
    Running again with the same prefix prefixes the names a second time:
    when the rewritten text is again a lone reference, the reference and
    the one file left now carry the prefix twice.
   */
  lemma SecondRunPrefixesAgain(pre: string, alt: string, sep: char, name: string, post: string, dir: Directory, prefix: string)
    requires LoneReference(pre, alt, sep, name, post) && RewritableName(sep, name)
    requires LoneReference(pre, alt, sep, NewName(prefix, name), post) && RewritableName(sep, NewName(prefix, name))
    requires name in dir && NewName(prefix, name) !in dir
    ensures var md := RewrittenMarkdown(RefText(pre, alt, sep, name, post), dir, prefix);
      var dir' := ReconciledDirectory(dir, RefText(pre, alt, sep, name, post), prefix);
      && RewrittenMarkdown(md, dir', prefix) == RefText(pre, alt, sep, NewName(prefix, NewName(prefix, name)), post)
      && ReconciledDirectory(dir', md, prefix) == map[NewName(prefix, NewName(prefix, name)) := dir[name]]
  {
    var once := NewName(prefix, name);
    LoneReferenceRun(pre, alt, sep, name, post, dir, prefix);
    var dir' := map[once := dir[name]];
    assert |NewName(prefix, once)| > |once|;
    LoneReferenceRun(pre, alt, sep, once, post, dir', prefix);
  }

  /**
    A reference to a listed file followed by one to a missing file: when
    the first reference text occurs only where it stands, only it is
    rewritten, the reference to the missing file is kept as written, and
    the directory holds only the one copy.
   */
  lemma MissingReferenceKept(pre: string, alt1: string, sep1: char, name1: string, mid: string,
                             alt2: string, sep2: char, name2: string, post: string, dir: Directory, prefix: string)
    requires WellFormedRef(alt1, sep1, name1) && WellFormedRef(alt2, sep2, name2) && RewritableName(sep1, name1)
    requires var md := TwoRefText(pre, alt1, sep1, name1, mid, alt2, sep2, name2, post);
      var end1 := |pre| + 9 + |alt1| + |name1|;
      && NoMatchIn(md, 0, |pre|)
      && NoMatchIn(md, end1, end1 + |mid|)
      && NoMatchIn(md, end1 + |mid| + 9 + |alt2| + |name2|, |md|)
      && OccursOnlyAt(md, "./1" + [sep1] + name1, |pre| + 4 + |alt1|)
    requires name1 in dir && name2 !in dir && NewName(prefix, name1) !in dir
    ensures RewrittenMarkdown(TwoRefText(pre, alt1, sep1, name1, mid, alt2, sep2, name2, post), dir, prefix)
      == TwoRefText(pre, alt1, sep1, NewName(prefix, name1), mid, alt2, sep2, name2, post)
    ensures ReconciledDirectory(dir, TwoRefText(pre, alt1, sep1, name1, mid, alt2, sep2, name2, post), prefix)
      == map[NewName(prefix, name1) := dir[name1]]
  {
    var inner := RefText([], alt2, sep2, name2, post);
    var md := TwoRefText(pre, alt1, sep1, name1, mid, alt2, sep2, name2, post);
    var end1 := |pre| + 9 + |alt1| + |name1|;
    var n1 := NewName(prefix, name1);
    var m1 := RefMatch("./1" + [sep1] + name1, name1, |pre|, |pre| + 4 + |alt1|);
    var m2 := RefMatch("./1" + [sep2] + name2, name2, end1 + |mid|, end1 + |mid| + 4 + |alt2|);
    assert FindImageRefs(md) == [m1, m2] by {
      FindsTwoReferences(pre, alt1, sep1, name1, mid, alt2, sep2, name2, post);
    }
    PairOutcome(md, m1, m2, dir, prefix);
    assert Replace(m1.ref, m1.name, n1) == "./1" + [sep1] + n1 by {
      RewriteRefName(sep1, name1, n1);
    }
    assert Replace(md, m1.ref, "./1" + [sep1] + n1)
        == TwoRefText(pre, alt1, sep1, n1, mid, alt2, sep2, name2, post) by {
      assert md == RefText(pre, alt1, sep1, name1, mid + inner);
      ReplaceLoneRef(pre, alt1, sep1, name1, mid + inner, n1);
    }
  }

  /** The outcome for a text whose hits are a listed name and then a missing one. */
  lemma PairOutcome(md: string, m1: RefMatch, m2: RefMatch, dir: Directory, prefix: string)
    requires FindImageRefs(md) == [m1, m2]
    requires m1.name in dir && m2.name !in dir && NewName(prefix, m1.name) !in dir
    ensures RewrittenMarkdown(md, dir, prefix)
      == Replace(md, m1.ref, Replace(m1.ref, m1.name, NewName(prefix, m1.name)))
    ensures ReconciledDirectory(dir, md, prefix) == map[NewName(prefix, m1.name) := dir[m1.name]]
  {
    assert ReferencedNames([m1, m2]) == [m1.name, m2.name];
    RewriteFirstOfTwo(md, m1, m2, dir, prefix);
    TwoNamesReconciled(dir, m1.name, m2.name, prefix);
  }

  /** Of two referenced names, one listed with a free prefixed name and one missing, only the copy of the first is left. */
  lemma TwoNamesReconciled(dir: Directory, listed: string, missing: string, prefix: string)
    requires listed in dir && missing !in dir && NewName(prefix, listed) !in dir
    ensures Reconciled(dir, [listed, missing], prefix) == map[NewName(prefix, listed) := dir[listed]]
  {
    assert NewNames([listed, missing], dir.Keys, prefix) == {NewName(prefix, listed)};
    ReconciledContent(dir, [listed, missing], prefix);
  }

  /** Of two matches, a listed one and then a missing one, only the first is substituted. */
  lemma RewriteFirstOfTwo(md: string, m1: RefMatch, m2: RefMatch, dir: Directory, prefix: string)
    requires m1.name in dir && m2.name !in dir
    ensures RewriteAll(md, [m1, m2], RenameMap(ReferencedNames([m1, m2]), dir.Keys, prefix))
      == Replace(md, m1.ref, Replace(m1.ref, m1.name, NewName(prefix, m1.name)))
  {
    assert ReferencedNames([m1, m2]) == [m1.name, m2.name];
    var renamed := RenameMap([m1.name, m2.name], dir.Keys, prefix);
    assert renamed == map[m1.name := NewName(prefix, m1.name)];
    assert [m1, m2][..1] == [m1] && [m1][..0] == [];
    assert RewriteAll(md, [m1, m2], renamed) == RewriteAll(md, [m1], renamed);
    assert RewriteAll(md, [m1], renamed) == Replace(md, m1.ref, Replace(m1.ref, m1.name, renamed[m1.name]));
  }

  /**
    Without the condition of `MissingReferenceKept` a missing file's
    reference is rewritten too: when the missing name extends a listed
    one (`a.png2` and `a.png`), the listed reference text is also the
    start of the missing one, and both come out prefixed. For instance
    `![a](./1/a.png)![b](./1/a.png2)` with only `a.png` listed and prefix
    `p` becomes `![a](./1/p_a.png)![b](./1/p_a.png2)`, and `p_a.png2`
    does not exist.
   */
  lemma {:induction false} OverlappingReferenceRewritten(alt1: string, name: string, alt2: string, tail: string, dir: Directory, prefix: string)
    requires WellFormedRef(alt1, '/', name) && WellFormedRef(alt2, '/', name + tail) && RewritableName('/', name)
    requires forall t :: 0 <= t < |alt1| ==> alt1[t] != '.'
    requires forall t :: 0 <= t < |alt2| ==> alt2[t] != '.'
    requires forall t :: 0 <= t < |tail| ==> tail[t] != '.'
    requires name in dir && name + tail !in dir && NewName(prefix, name) !in dir
    ensures RewrittenMarkdown(TwoRefText([], alt1, '/', name, [], alt2, '/', name + tail, []), dir, prefix)
      == TwoRefText([], alt1, '/', NewName(prefix, name), [], alt2, '/', NewName(prefix, name) + tail, [])
    ensures ReconciledDirectory(dir, TwoRefText([], alt1, '/', name, [], alt2, '/', name + tail, []), prefix)
      == map[NewName(prefix, name) := dir[name]]
  {
    var md := TwoRefText([], alt1, '/', name, [], alt2, '/', name + tail, []);
    var n1 := NewName(prefix, name);
    var ref := "./1" + ['/'] + name;
    var newRef := "./1" + ['/'] + n1;
    var m1 := RefMatch(ref, name, 0, 4 + |alt1|);
    var m2 := RefMatch("./1" + ['/'] + (name + tail), name + tail, 9 + |alt1| + |name|, 13 + |alt1| + |name| + |alt2|);
    OverlapFound(alt1, name, alt2, tail);
    PairOutcome(md, m1, m2, dir, prefix);
    assert Replace(ref, name, n1) == newRef by {
      RewriteRefName('/', name, n1);
    }
    OverlapReplaced(alt1, name, alt2, tail, n1);
  }

  /** The scan of that text finds both references. */
  lemma {:induction false} OverlapFound(alt1: string, name: string, alt2: string, tail: string)
    requires WellFormedRef(alt1, '/', name) && WellFormedRef(alt2, '/', name + tail)
    ensures FindImageRefs(TwoRefText([], alt1, '/', name, [], alt2, '/', name + tail, [])) ==
      [RefMatch("./1" + ['/'] + name, name, 0, 4 + |alt1|),
       RefMatch("./1" + ['/'] + (name + tail), name + tail, 9 + |alt1| + |name|, 13 + |alt1| + |name| + |alt2|)]
  {
    FindsTwoReferences([], alt1, '/', name, [], alt2, '/', name + tail, []);
  }

  /** In that text, both the listed reference and the start of the longer one are substituted. */
  lemma {:induction false} OverlapReplaced(alt1: string, name: string, alt2: string, tail: string, newName: string)
    requires forall t :: 0 <= t < |alt1| ==> alt1[t] != '.'
    requires forall t :: 0 <= t < |alt2| ==> alt2[t] != '.'
    requires forall t :: 0 <= t < |tail| ==> tail[t] != '.'
    ensures Replace(TwoRefText([], alt1, '/', name, [], alt2, '/', name + tail, []), "./1" + ['/'] + name, "./1" + ['/'] + newName)
      == TwoRefText([], alt1, '/', newName, [], alt2, '/', newName + tail, [])
  {
    var p1 := "![" + alt1 + "](";
    var p2 := ")![" + alt2 + "](";
    var p3 := tail + ")";
    OverlapLayout(alt1, name, alt2, tail);
    OverlapLayout(alt1, newName, alt2, tail);
    NoDotAround(alt1, "![", "](");
    NoDotAround(alt2, ")![", "](");
    NoDotAround(tail, [], ")");
    assert [] + tail + ")" == p3;
    ReplaceTwice(p1, p2, p3, "./1" + ['/'] + name, "./1" + ['/'] + newName);
  }

  /** The text of two references whose second name extends the first, cut at both reference texts. */
  lemma {:induction false} OverlapLayout(alt1: string, name: string, alt2: string, tail: string)
    ensures TwoRefText([], alt1, '/', name, [], alt2, '/', name + tail, [])
      == ("![" + alt1 + "](") + ("./1" + ['/'] + name) + (")![" + alt2 + "](") + ("./1" + ['/'] + name) + (tail + ")")
  {
    var ref := "./1" + ['/'] + name;
    calc {
      TwoRefText([], alt1, '/', name, [], alt2, '/', name + tail, []);
      RefText([], alt1, '/', name, [] + RefText([], alt2, '/', name + tail, []));
      { assert RefText([], alt2, '/', name + tail, []) == "![" + alt2 + "](" + ref + (tail + ")"); }
      RefText([], alt1, '/', name, "![" + alt2 + "](" + ref + (tail + ")"));
      ("![" + alt1 + "](") + ref + (")![" + alt2 + "](") + ref + (tail + ")");
    }
  }

  /** `open + text + close` holds no `.` when none of the three does. */
  lemma NoDotAround(text: string, open: string, close: string)
    requires forall t :: 0 <= t < |text| ==> text[t] != '.'
    requires forall t :: 0 <= t < |open| ==> open[t] != '.'
    requires forall t :: 0 <= t < |close| ==> close[t] != '.'
    ensures forall t :: 0 <= t < |open + text + close| ==> (open + text + close)[t] != '.'
  {
  }

  /** Text that cannot start a pattern, then the pattern: the text is kept, the pattern replaced. */
  lemma ReplaceSegment(p: string, q: string, pat: string, rep: string)
    requires pat != []
    requires forall k :: 0 <= k < |p| ==> p[k] != pat[0]
    ensures Replace(p + pat + q, pat, rep) == p + rep + Replace(q, pat, rep)
  {
    assert p + pat + q == p + (pat + q);
    ReplaceSkipsPrefix(p, pat + q, pat, rep);
    ReplaceLeading(pat, q, rep);
  }

  /** The pattern once, between two stretches that cannot start it: only it is replaced. */
  lemma ReplaceLastSegment(p: string, q: string, pat: string, rep: string)
    requires pat != []
    requires forall k :: 0 <= k < |p| ==> p[k] != pat[0]
    requires forall k :: 0 <= k < |q| ==> q[k] != pat[0]
    ensures Replace(p + pat + q, pat, rep) == p + rep + q
  {
    ReplaceSegment(p, q, pat, rep);
    ReplaceSkipsPrefix(q, [], pat, rep);
    assert q + [] == q;
  }

  /** Both occurrences of a pattern, with text around them that cannot start it, are replaced. */
  lemma {:induction false} ReplaceTwice(p1: string, p2: string, p3: string, pat: string, rep: string)
    requires pat != []
    requires forall k :: 0 <= k < |p1| ==> p1[k] != pat[0]
    requires forall k :: 0 <= k < |p2| ==> p2[k] != pat[0]
    requires forall k :: 0 <= k < |p3| ==> p3[k] != pat[0]
    ensures Replace(p1 + pat + p2 + pat + p3, pat, rep) == p1 + rep + p2 + rep + p3
  {
    var q := p2 + pat + p3;
    assert p1 + pat + p2 + pat + p3 == p1 + pat + q;
    assert p1 + rep + p2 + rep + p3 == p1 + rep + (p2 + rep + p3);
    ReplaceLastSegment(p2, p3, pat, rep);
    ReplaceSegment(p1, q, pat, rep);
  }
}
