/**
  The resource reconciler of rename_images.py: it copies every image the
  Markdown file references to a prefixed name, rewrites the references,
  deletes the unreferenced images and then the originals of the copies.

  The file system is a value: text files by path, and image directories
  (flat: file name to bytes) by path. The operation takes one file system
  and returns the next one. An error leaves the file system as it was.
 */
module Reconciler {
  import opened PyStrings
  import opened ReferenceScan

  type Bytes = seq<bv8>

  /** One image directory: file name to file content. */
  type Directory = map<string, Bytes>

  datatype FileSystem = FileSystem(textFiles: map<string, string>, directories: map<string, Directory>)

  datatype Error = FileNotFound(path: string)

  datatype Outcome = Completed | Raised(error: Error)

  /** `f"{prefix}_{old_name}"`. */
  function NewName(prefix: string, oldName: string): string {
    prefix + "_" + oldName
  }

  /** `renamed_images` after the copy loop: each referenced name that was in the directory listing. */
  function RenameMap(refs: seq<string>, inventory: set<string>, prefix: string): (r: map<string, string>)
    ensures forall o :: o in r <==> o in refs && o in inventory
    ensures forall o :: o in r ==> r[o] == NewName(prefix, o)
  {
    if refs == [] then map[]
    else
      var o := refs[|refs| - 1];
      var r := RenameMap(refs[..|refs| - 1], inventory, prefix);
      assert refs == refs[..|refs| - 1] + [o];
      if o in inventory then r[o := NewName(prefix, o)] else r
  }

  /** The names the copy loop creates. */
  function NewNames(refs: seq<string>, inventory: set<string>, prefix: string): set<string> {
    set o | o in refs && o in inventory :: NewName(prefix, o)
  }

  /**
    The directory after the copy loop: for each reference in order, when
    its name was listed, the file is copied, with its current content, to
    the prefixed name, replacing any file there. Nothing is removed.
   */
  function CopyPass(dir: Directory, refs: seq<string>, inventory: set<string>, prefix: string): (r: Directory)
    requires inventory <= dir.Keys
    ensures r.Keys == dir.Keys + NewNames(refs, inventory, prefix)
    ensures forall n :: n in dir && n !in NewNames(refs, inventory, prefix) ==> r[n] == dir[n]
  {
    if refs == [] then dir
    else
      var o := refs[|refs| - 1];
      var d := CopyPass(dir, refs[..|refs| - 1], inventory, prefix);
      assert refs == refs[..|refs| - 1] + [o];
      assert NewNames(refs, inventory, prefix) ==
        NewNames(refs[..|refs| - 1], inventory, prefix) + (if o in inventory then {NewName(prefix, o)} else {});
      if o in inventory then d[NewName(prefix, o) := d[o]] else d
  }

  /** The listed files that no reference names. */
  function Unreferenced(inventory: set<string>, refs: seq<string>): set<string> {
    set img | img in inventory && img !in refs
  }

  /** The directory after the copy, prune and finalize loops. */
  function Reconciled(dir: Directory, refs: seq<string>, prefix: string): Directory {
    (CopyPass(dir, refs, dir.Keys, prefix) - Unreferenced(dir.Keys, refs)) - RenameMap(refs, dir.Keys, prefix).Keys
  }

  /**
    The rewrite loop: for each match in text order whose name was copied,
    the reference with the name replaced is substituted for every
    occurrence of the reference in the current text.
   */
  function RewriteAll(content: string, ms: seq<RefMatch>, renamed: map<string, string>): string {
    if ms == [] then content
    else
      var c := RewriteAll(content, ms[..|ms| - 1], renamed);
      var m := ms[|ms| - 1];
      if m.name in renamed then Replace(c, m.ref, Replace(m.ref, m.name, renamed[m.name])) else c
  }

  /** The Markdown text written back. */
  function RewrittenMarkdown(md: string, dir: Directory, prefix: string): string {
    var ms := FindImageRefs(md);
    RewriteAll(md, ms, RenameMap(ReferencedNames(ms), dir.Keys, prefix))
  }

  /** The image directory left behind. */
  function ReconciledDirectory(dir: Directory, md: string, prefix: string): Directory {
    Reconciled(dir, ReferencedNames(FindImageRefs(md)), prefix)
  }

  /** The copy loop. */
  method CopyReferenced(dir: Directory, refs: seq<string>, inventory: set<string>, prefix: string)
    returns (d: Directory, renamed: map<string, string>)
    requires inventory <= dir.Keys
    ensures d == CopyPass(dir, refs, inventory, prefix)
    ensures renamed == RenameMap(refs, inventory, prefix)
  {
    d := dir;
    renamed := map[];
    for i := 0 to |refs|
      invariant d == CopyPass(dir, refs[..i], inventory, prefix)
      invariant renamed == RenameMap(refs[..i], inventory, prefix)
    {
      assert refs[..i + 1][..i] == refs[..i];
      var oldName := refs[i];
      if oldName in inventory {
        var newName := prefix + "_" + oldName;
        d := d[newName := d[oldName]];
        renamed := renamed[oldName := newName];
      }
    }
    assert refs[..|refs|] == refs;
  }

  /** The rewrite loop. */
  method RewriteReferences(content: string, ms: seq<RefMatch>, renamed: map<string, string>) returns (c: string)
    ensures c == RewriteAll(content, ms, renamed)
  {
    c := content;
    for i := 0 to |ms|
      invariant c == RewriteAll(content, ms[..i], renamed)
    {
      assert ms[..i + 1][..i] == ms[..i];
      var oldRef := ms[i].ref;
      var oldName := ms[i].name;
      if oldName in renamed {
        var newRef := Replace(oldRef, oldName, renamed[oldName]);
        c := Replace(c, oldRef, newRef);
      }
    }
    assert ms[..|ms|] == ms;
  }

  /** The prune loop: every listed file that no reference names is deleted. */
  method PruneUnreferenced(d: Directory, inventory: set<string>, refs: seq<string>) returns (r: Directory)
    requires inventory <= d.Keys
    ensures r == d - Unreferenced(inventory, refs)
  {
    r := d;
    var remaining := inventory;
    while remaining != {}
      invariant remaining <= inventory
      invariant r == d - Unreferenced(inventory - remaining, refs)
      decreases |remaining|
    {
      var img :| img in remaining;
      if img !in refs {
        r := r - {img};
      }
      assert Unreferenced(inventory - (remaining - {img}), refs) ==
        Unreferenced(inventory - remaining, refs) + (if img !in refs then {img} else {});
      remaining := remaining - {img};
    }
    assert inventory - remaining == inventory;
  }

  /** The finalize loop: the original of every copied file is deleted. */
  method RemoveOriginals(d: Directory, renamed: map<string, string>) returns (r: Directory)
    requires renamed.Keys <= d.Keys
    ensures r == d - renamed.Keys
  {
    r := d;
    var remaining := renamed.Keys;
    while remaining != {}
      invariant remaining <= renamed.Keys
      invariant r == d - (renamed.Keys - remaining)
      decreases |remaining|
    {
      var oldName :| oldName in remaining;
      r := r - {oldName};
      assert renamed.Keys - (remaining - {oldName}) == (renamed.Keys - remaining) + {oldName};
      remaining := remaining - {oldName};
    }
  }

  /**
    `rename_images_with_prefix`: read the Markdown file, list the image
    directory, copy, rewrite, write back, prune, finalize.
   */
  method RenameImagesWithPrefix(fs: FileSystem, mdPath: string, imageDirPath: string, prefix: string)
    returns (after: FileSystem, outcome: Outcome)
    ensures mdPath !in fs.textFiles ==> after == fs && outcome == Raised(FileNotFound(mdPath))
    ensures mdPath in fs.textFiles && imageDirPath !in fs.directories ==>
      after == fs && outcome == Raised(FileNotFound(imageDirPath))
    ensures mdPath in fs.textFiles && imageDirPath in fs.directories ==>
      var md := fs.textFiles[mdPath];
      var dir := fs.directories[imageDirPath];
      && outcome == Completed
      && after == FileSystem(
           fs.textFiles[mdPath := RewrittenMarkdown(md, dir, prefix)],
           fs.directories[imageDirPath := ReconciledDirectory(dir, md, prefix)])
  {
    if mdPath !in fs.textFiles {
      return fs, Raised(FileNotFound(mdPath));
    }
    var mdContent := fs.textFiles[mdPath];
    var imageMatches := FindImageRefs(mdContent);
    var referencedImages := ReferencedNames(imageMatches);
    if imageDirPath !in fs.directories {
      return fs, Raised(FileNotFound(imageDirPath));
    }
    var dir := fs.directories[imageDirPath];
    var allImages := dir.Keys;
    var copied, renamedImages := CopyReferenced(dir, referencedImages, allImages, prefix);
    mdContent := RewriteReferences(mdContent, imageMatches, renamedImages);
    var textFiles := fs.textFiles[mdPath := mdContent];
    var pruned := PruneUnreferenced(copied, allImages, referencedImages);
    var finalDir := RemoveOriginals(pruned, renamedImages);
    after := FileSystem(textFiles, fs.directories[imageDirPath := finalDir]);
    outcome := Completed;
  }
}
