/**
 * Step 5 of both orchestrators: the document is written to
 * `app-specs.md.tmp` in the specs directory and then renamed over
 * `app-specs.md`, so that a reader never sees half a document.
 */
module Output {
  import opened Types
  import opened Tree
  import opened Fs

  const OutputName := "app-specs.md"
  const TempName := "app-specs.md.tmp"

  /**
   * `writeFileSync(tmp)`, then `renameSync(tmp, output)`; false when either
   * throws. Only the two names are touched, and on success the output
   * holds the markdown and the temporary file is gone.
   */
  method WriteOutput(fs: FileSystem, markdown: string) returns (ok: bool)
    requires fs.Valid()
    modifies fs
    ensures fs.Valid()
    ensures ok ==> fs.ReadFile([OutputName]) == Some(markdown) && Child(fs.root, TempName).None?
    ensures ok ==> old(Child(fs.root, OutputName)).None? || old(Child(fs.root, OutputName)).value.File?
    ensures ok ==> old(Child(fs.root, TempName)).None? || old(Child(fs.root, TempName)).value.File?
    ensures Child(fs.root, OutputName) == old(Child(fs.root, OutputName)) || Child(fs.root, OutputName) == Some(File(markdown))
    ensures forall a :: a != TempName && a != OutputName ==> Child(fs.root, a) == old(Child(fs.root, a))
  {
    ghost var root0 := fs.root;
    ok := fs.WriteFile([TempName], markdown);
    if !ok {
      return;
    }
    TopLevelPut(root0, TempName, File(markdown));
    LookupChild(root0, TempName);
    ghost var root1 := fs.root;
    LookupChild(root1, TempName);
    ok := fs.Rename([TempName], [OutputName]);
    if !ok {
      return;
    }
    TopLevelRemove(root1, TempName);
    TopLevelPut(Remove(root1, [TempName]), OutputName, File(markdown));
    LookupChild(root0, OutputName);
    LookupChild(fs.root, OutputName);
  }
}
