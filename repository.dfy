/**
 * The repository path resolver: a working-tree root, the control directory
 * below it, and the operations that map repository-relative names onto
 * paths inside the control directory, probe the filesystem for them, and
 * create directories there.
 */
module Repo {
  import opened Wrappers
  import opened Paths
  import opened Fs

  /** The fixed name of the control directory. */
  const ControlDir: string := ".git"

  /** mkdir's result: success, or the one abstract I/O error, which carries
      the normalised path it could not create. */
  datatype Outcome = Ok | Err(path: string)

  datatype Repository = Repository(worktree: string, gitdir: string) {

    /** The values `New` builds: the control directory is `.git` below the
        working tree.  The members below are proved for every value. */
    predicate Consistent()
    {
      gitdir == Join(worktree, ControlDir)
    }

    /** The path for a repository-relative name: the control directory
        joined with it.  A relative name lands below the control directory;
        an absolute one replaces it. */
    function Path(name: string): (p: string)
      ensures IsAbsolute(name) ==> p == name
      ensures gitdir != "" && !IsAbsolute(name) ==>
        Components(p) == Components(gitdir) + Locate(Components(name))
    {
      JoinComponents(gitdir, name);
      Join(gitdir, name)
    }

    /** The path for `name` if its parent directory exists, else nothing. */
    function File(e: Entries, name: string): (r: Option<string>)
      ensures r.Some? ==> r.value == Path(name)
      ensures r.Some? <==>
        var cs := Components(Path(name));
        |cs| > 0 && cs[|cs| - 1] != RootDir && PresentAt(e, cs[..|cs| - 1])
    {
      var path := Path(name);
      match Parent(path)
      case None => None
      case Some(parent) => if !PresentAt(e, parent) then None else Some(path)
    }

    /** The path for `name` if it exists and is a directory, else nothing. */
    function Dir(e: Entries, name: string): (r: Option<string>)
      ensures r.Some? ==> r.value == Path(name)
      ensures r.Some? <==> IsDir(e, Path(name))
      ensures r.None? <==> !Exists(e, Path(name)) || IsFile(e, Path(name))
    {
      var path := Path(name);
      if !Exists(e, path) then None
      else if !IsDir(e, path) then None
      else Some(path)
    }

    /** The location mkdir creates for `name`: that of the normalised path,
        which is the location of the joined path itself. */
    function MkdirTarget(name: string): (k: Key)
      ensures k == Locate(Components(Path(name)))
    {
      NormalizedComponents(Path(name));
      Locate(Components(Normalized(Path(name))))
    }

    /** Creates the directory for `name` and every missing ancestor. */
    method Mkdir(fs: FileSystem, name: string) returns (r: Outcome)
      requires fs.Valid()
      modifies fs
      ensures fs.Valid()
      ensures r.Ok? <==> Clear(old(fs.entries), MkdirTarget(name))
      ensures fs.entries == if r.Ok? then Created(old(fs.entries), MkdirTarget(name)) else old(fs.entries)
      ensures r.Err? ==> r.path == Normalized(Path(name))
    {
      var target := Normalize(Path(name));
      var ok := fs.CreateDirAll(target);
      if ok {
        r := Ok;
      } else {
        r := Err(target);
      }
    }
  }

  /** Repository::new: the control directory is the root joined with `.git`. */
  function New(root: string): (r: Repository)
    ensures r.worktree == root && r.Consistent()
    ensures Components(r.gitdir) == Components(root) + [Normal(ControlDir)]
    ensures r.gitdir != "" && !EndsWithSeparator(r.gitdir)
  {
    ControlDirComponents(root);
    Repository(root, Join(root, ControlDir))
  }

  lemma ControlDirComponents(root: string)
    ensures Components(Join(root, ControlDir)) == Components(root) + [Normal(ControlDir)]
    ensures Join(root, ControlDir) != "" && !EndsWithSeparator(Join(root, ControlDir))
  {
    NameComponents(ControlDir);
    assert !IsAbsolute(ControlDir);
    if root == "" {
      assert Join(root, ControlDir) == ControlDir;
      EmptyComponents();
    } else {
      JoinComponents(root, ControlDir);
    }
    var g := Join(root, ControlDir);
    assert g[|g| - 1] == ControlDir[|ControlDir| - 1];
  }

  /** The fold in mkdir: rebuilds `p` one component at a time. */
  method Normalize(p: string) returns (q: string)
    ensures q == Normalized(p)
    ensures Components(q) == Components(p)
  {
    var cs := Components(p);
    q := "";
    var i := 0;
    while i < |cs|
      invariant 0 <= i <= |cs|
      invariant q == Rebuild(cs[..i])
    {
      assert cs[..i + 1][..i] == cs[..i];
      q := Join(q, AsPath(cs[i]));
      i := i + 1;
    }
    assert cs[..|cs|] == cs;
    NormalizedComponents(p);
  }

  // -----------------------------------------------------------------------

  /** The control directory's location is never a root, and it ends in `.git`. */
  lemma ControlDirLocation(root: string)
    ensures var g := Locate(Components(New(root).gitdir));
      |g| > 0 && g[|g| - 1] == Normal(ControlDir) && !IsRootKey(g)
  {
    var c := Components(root);
    var g := Locate(Components(New(root).gitdir));
    if |c| > 0 && c[0] == CurDir {
      assert g == c[1..] + [Normal(ControlDir)];
    } else {
      assert g == c + [Normal(ControlDir)];
    }
  }

  /** A relative name without `..` resolves inside the control directory:
      the control directory's location is a prefix of the result, and
      every component after it is a plain name. */
  lemma PathInsideControlDir(root: string, name: string)
    requires !IsAbsolute(name)
    requires forall i :: 0 <= i < |Components(name)| ==> Components(name)[i] != ParentDir
    ensures var g := Locate(Components(New(root).gitdir));
      var k := Locate(Components(New(root).Path(name)));
      |g| <= |k| && k[..|g|] == g && forall i :: |g| <= i < |k| ==> k[i].Normal?
  {
    var r := New(root);
    var gc := Components(r.gitdir);
    var tail := Locate(Components(name));
    assert Components(r.Path(name)) == gc + tail;
    LocateConcat(gc, tail);
    PlainComponents(name);
    var g := Locate(gc);
    var k := g + tail;
    assert k[..|g|] == g;
    forall i | |g| <= i < |k| ensures k[i].Normal? {
      assert k[i] == tail[i - |g|];
    }
  }

  /** An absolute name replaces the control directory (an instance of
      Path's first postcondition). */
  lemma AbsoluteNameReplaces(root: string)
    ensures New(root).Path("/etc") == "/etc"
  {
  }

  /** For a root written without a trailing separator, `description` is
      `<root>/.git/description`. */
  lemma DescriptionPath(root: string)
    requires root != "" && !EndsWithSeparator(root)
    ensures New(root).Path("description") == root + "/.git/description"
  {
    var g := root + [Separator] + ControlDir;
    assert Join(root, ControlDir) == g;
    assert g[|g| - 1] == 't';
    assert Join(g, "description") == g + [Separator] + "description";
    assert g + [Separator] + "description" == root + "/.git/description";
  }

  /** file() on a plain name is gated by the control directory alone: it
      returns the path exactly when the control directory exists. */
  lemma FileReadiness(root: string, name: string, e: Entries)
    requires ValidName(name)
    ensures New(root).File(e, name) ==
      if Locate(Components(New(root).gitdir)) in e then Some(New(root).Path(name)) else None
  {
    var r := New(root);
    NameComponents(name);
    var gc := Components(r.gitdir);
    var cs := Components(r.Path(name));
    assert cs == gc + [Normal(name)];
    assert cs[..|cs| - 1] == gc;
    ControlDirLocation(root);
  }

  /** mkdir(".") targets the control directory itself: the trailing `.` is
      dropped by normalisation. */
  lemma MkdirDotIsControlDir(root: string)
    ensures New(root).MkdirTarget(".") == Locate(Components(New(root).gitdir))
  {
    var r := New(root);
    assert Components(".") == [CurDir] + Body(Split(""));
    EmptyComponents();
  }

  /** A fresh working tree: the root is an existing directory and holds no
      control directory yet. */
  predicate FreshRoot(root: string, e: Entries)
  {
    IsDir(e, root) && Locate(Components(New(root).gitdir)) !in e
  }

  /** On a fresh working tree, mkdir(".") meets no file, so it succeeds. */
  lemma MkdirDotSucceedsOnFreshRoot(root: string, e: Entries)
    requires Tree(e) && FreshRoot(root, e)
    ensures Clear(e, New(root).MkdirTarget("."))
  {
    var c := Components(root);
    MkdirDotIsControlDir(root);
    LocateConcat(c, [Normal(ControlDir)]);
    ChildClear(e, Locate(c), Normal(ControlDir));
  }

  /** mkdir(".") on a fresh working tree succeeds, and afterwards
      `<root>/.git` is a directory. */
  lemma ControlDirAfterMkdirDot(root: string, e: Entries)
    requires Tree(e) && FreshRoot(root, e)
    ensures Clear(e, New(root).MkdirTarget("."))
    ensures IsDir(Created(e, New(root).MkdirTarget(".")), Join(root, ControlDir))
  {
    var k := New(root).MkdirTarget(".");
    MkdirDotSucceedsOnFreshRoot(root, e);
    MkdirDotIsControlDir(root);
    ControlDirLocation(root);
    CreatedTarget(e, k);
  }

  /** mkdir(".") on a fresh working tree succeeds, and afterwards file()
      yields the path of every plain name. */
  lemma FileAfterMkdirDot(root: string, name: string, e: Entries)
    requires ValidName(name)
    requires Tree(e) && FreshRoot(root, e)
    ensures Clear(e, New(root).MkdirTarget("."))
    ensures New(root).File(Created(e, New(root).MkdirTarget(".")), name) == Some(New(root).Path(name))
  {
    ControlDirAfterMkdirDot(root, e);
    MkdirDotIsControlDir(root);
    FileReadiness(root, name, Created(e, New(root).MkdirTarget(".")));
    ControlDirLocation(root);
  }

  /** After a successful mkdir(name), dir(name) finds the directory. */
  lemma DirAfterMkdir(root: string, name: string, e: Entries)
    requires Clear(e, New(root).MkdirTarget(name))
    ensures New(root).Dir(Created(e, New(root).MkdirTarget(name)), name) == Some(New(root).Path(name))
  {
    var r := New(root);
    var k := r.MkdirTarget(name);
    var e' := Created(e, k);
    var cs := Components(r.Path(name));
    assert |cs| > 0 by {
      if !IsAbsolute(name) {
        assert cs == Components(r.gitdir) + Locate(Components(name));
      }
    }
    assert Locate(cs) == k;
    CreatedTarget(e, k);
    assert DirectoryAt(e', cs);
  }

  /** When dir(name) already finds a directory, mkdir(name) succeeds and
      changes nothing. */
  lemma MkdirOnExistingDir(root: string, name: string, e: Entries)
    requires Tree(e)
    requires New(root).Dir(e, name).Some?
    ensures Clear(e, New(root).MkdirTarget(name))
    ensures Created(e, New(root).MkdirTarget(name)) == e
  {
    CreateExistingDir(e, New(root).MkdirTarget(name));
  }

  /** Running mkdir twice on the same name: the second call succeeds and
      leaves the filesystem as the first left it. */
  method MkdirTwice(r: Repository, fs: FileSystem, name: string) returns (first: Outcome, second: Outcome)
    requires fs.Valid()
    modifies fs
    ensures fs.Valid()
    ensures first.Ok? ==> second.Ok? && fs.entries == Created(old(fs.entries), r.MkdirTarget(name))
    ensures first.Err? ==> second.Err? && fs.entries == old(fs.entries)
  {
    first := r.Mkdir(fs, name);
    if first.Ok? {
      CreatedIdempotent(old(fs.entries), r.MkdirTarget(name));
    }
    second := r.Mkdir(fs, name);
  }
}
