/**
 * An abstract filesystem: a map from locations to entry kinds, with the
 * read-only probes Path::exists and Path::is_dir and the one mutation the
 * resolver uses, std::fs::create_dir_all.
 */
module Fs {
  import opened Paths

  datatype Kind = Dir | File

  /** A location: the components of a path without a leading `.`. */
  type Key = seq<Component>

  type Entries = map<Key, Kind>

  /** The working directory ([]) and the filesystem root ([RootDir]) always
      exist as directories and are never entries of the map. */
  predicate IsRootKey(k: Key)
  {
    k == [] || k == [RootDir]
  }

  /** Every entry hangs below a directory: its parent is a root or a
      directory entry. */
  ghost predicate Tree(e: Entries)
  {
    forall k :: k in e ==>
      !IsRootKey(k) &&
      (IsRootKey(k[..|k| - 1]) || (k[..|k| - 1] in e && e[k[..|k| - 1]] == Dir))
  }

  /** Something exists at the place `cs` names; the empty path names nothing. */
  predicate PresentAt(e: Entries, cs: seq<Component>)
  {
    |cs| > 0 && (IsRootKey(Locate(cs)) || Locate(cs) in e)
  }

  predicate DirectoryAt(e: Entries, cs: seq<Component>)
  {
    |cs| > 0 && (IsRootKey(Locate(cs)) || (Locate(cs) in e && e[Locate(cs)] == Dir))
  }

  predicate FileAt(e: Entries, cs: seq<Component>)
  {
    |cs| > 0 && !IsRootKey(Locate(cs)) && Locate(cs) in e && e[Locate(cs)] == File
  }

  /** Path::exists. */
  predicate Exists(e: Entries, p: string)
  {
    PresentAt(e, Components(p))
  }

  /** Path::is_dir. */
  predicate IsDir(e: Entries, p: string)
  {
    DirectoryAt(e, Components(p))
  }

  predicate IsFile(e: Entries, p: string)
  {
    FileAt(e, Components(p))
  }

  /** The probes agree: something that exists is a directory or a file,
      never both. */
  lemma ProbesAgree(e: Entries, p: string)
    ensures Exists(e, p) <==> IsDir(e, p) || IsFile(e, p)
    ensures !(IsDir(e, p) && IsFile(e, p))
  {
  }

  /** The length of the shortest prefix of `k` that is not a root. */
  function First(k: Key): nat
  {
    if |k| > 0 && k[0] == RootDir then 2 else 1
  }

  /** No prefix of `k` shorter than `n` is an existing file. */
  predicate ClearBelow(e: Entries, k: Key, n: int)
  {
    forall i :: First(k) <= i < n && i <= |k| ==> (k[..i] in e ==> e[k[..i]] == Dir)
  }

  /** `e` once create_dir_all has dealt with the non-root prefixes of `k`
      shorter than `n`, outermost first: each missing one becomes a
      directory, each present one is left as it is. */
  function AddDirs(e: Entries, k: Key, n: int): Entries
    requires n <= |k| + 1
    decreases n
  {
    if n <= First(k) then e
    else
      var m := AddDirs(e, k, n - 1);
      if k[..n - 1] in m then m else m[k[..n - 1] := Dir]
  }

  /** create_dir_all succeeds on `k` exactly when no prefix of `k`, the
      whole of `k` included, is an existing file. */
  predicate Clear(e: Entries, k: Key)
  {
    ClearBelow(e, k, |k| + 1)
  }

  /** The filesystem after a successful create_dir_all of `k`. */
  function Created(e: Entries, k: Key): Entries
  {
    AddDirs(e, k, |k| + 1)
  }

  // ---------------------------------------------------------------------

  /** A prefix at least `First(k)` long is never a root. */
  lemma PrefixNotRoot(k: Key, i: int)
    requires First(k) <= i <= |k|
    ensures !IsRootKey(k[..i])
  {
    if i == 1 {
      assert k[..1] == [k[0]];
    }
  }

  /** The steps keep every existing entry as it is. */
  lemma {:induction false} AddDirsKeeps(e: Entries, k: Key, n: int)
    requires n <= |k| + 1
    ensures forall q :: q in e ==> q in AddDirs(e, k, n) && AddDirs(e, k, n)[q] == e[q]
    decreases n
  {
    if n > First(k) {
      AddDirsKeeps(e, k, n - 1);
    }
  }

  /** Every entry the steps add is a directory on a prefix of `k` that is at
      least `First(k)` and less than `n` long. */
  lemma {:induction false} AddDirsNew(e: Entries, k: Key, n: int)
    requires n <= |k| + 1
    ensures forall q :: q in AddDirs(e, k, n) && q !in e ==>
      AddDirs(e, k, n)[q] == Dir && First(k) <= |q| < n && q == k[..|q|]
    decreases n
  {
    if n > First(k) {
      var m := AddDirs(e, k, n - 1);
      var q := k[..n - 1];
      assert AddDirs(e, k, n) == if q in m then m else m[q := Dir];
      AddDirsNew(e, k, n - 1);
    }
  }

  /** Every prefix the steps dealt with is present afterwards, and a
      directory when none of them was a file. */
  lemma {:induction false} AddDirsCovers(e: Entries, k: Key, n: int)
    requires n <= |k| + 1
    ensures forall i :: First(k) <= i < n ==> k[..i] in AddDirs(e, k, n)
    ensures ClearBelow(e, k, n) ==>
      forall i :: First(k) <= i < n ==> AddDirs(e, k, n)[k[..i]] == Dir
    decreases n
  {
    if n > First(k) {
      var m := AddDirs(e, k, n - 1);
      var r := AddDirs(e, k, n);
      var q := k[..n - 1];
      assert r == if q in m then m else m[q := Dir];
      AddDirsCovers(e, k, n - 1);
      AddDirsKeeps(e, k, n - 1);
      AddDirsNew(e, k, n - 1);
      forall i | First(k) <= i < n
        ensures k[..i] in r && (ClearBelow(e, k, n) ==> r[k[..i]] == Dir)
      {
        if i == n - 1 {
          assert k[..i] == q;
        }
      }
    }
  }

  /** The steps change nothing when every prefix they deal with is there. */
  lemma {:induction false} AddDirsPresent(e: Entries, k: Key, n: int)
    requires n <= |k| + 1
    requires forall i :: First(k) <= i < n ==> k[..i] in e
    ensures AddDirs(e, k, n) == e
    decreases n
  {
    if n > First(k) {
      AddDirsPresent(e, k, n - 1);
    }
  }

  /** What create_dir_all leaves: existing entries keep their kind; each new
      entry is a directory on a non-root prefix of `k`; when nothing on the
      way is a file, every non-root prefix of `k` is a directory. */
  lemma CreatedShape(e: Entries, k: Key)
    ensures forall q :: q in e ==> q in Created(e, k) && Created(e, k)[q] == e[q]
    ensures forall q :: q in Created(e, k) && q !in e ==>
      Created(e, k)[q] == Dir && !IsRootKey(q) && |q| <= |k| && q == k[..|q|]
    ensures Clear(e, k) ==>
      forall i :: First(k) <= i <= |k| ==> k[..i] in Created(e, k) && Created(e, k)[k[..i]] == Dir
  {
    AddDirsKeeps(e, k, |k| + 1);
    AddDirsNew(e, k, |k| + 1);
    AddDirsCovers(e, k, |k| + 1);
    forall q | q in Created(e, k) && q !in e ensures !IsRootKey(q) {
      PrefixNotRoot(k, |q|);
    }
  }

  /** After a successful create_dir_all the target itself is a directory. */
  lemma CreatedTarget(e: Entries, k: Key)
    requires Clear(e, k)
    ensures IsRootKey(k) || (k in Created(e, k) && Created(e, k)[k] == Dir)
  {
    if !IsRootKey(k) {
      assert First(k) <= |k| by {
        if |k| > 0 && k[0] == RootDir {
          assert k != [RootDir];
        }
      }
      AddDirsCovers(e, k, |k| + 1);
      assert k[..|k|] == k;
    }
  }

  /** In a tree every non-root ancestor of an entry is a directory entry. */
  lemma {:induction false} AncestorsAreDirs(e: Entries, q: Key)
    requires Tree(e) && q in e
    ensures forall i :: 1 <= i < |q| && !IsRootKey(q[..i]) ==> q[..i] in e && e[q[..i]] == Dir
    decreases |q|
  {
    var p := q[..|q| - 1];
    if !IsRootKey(p) {
      AncestorsAreDirs(e, p);
      forall i | 1 <= i < |q| && !IsRootKey(q[..i])
        ensures q[..i] in e && e[q[..i]] == Dir
      {
        if i < |p| {
          assert q[..i] == p[..i];
        } else {
          assert q[..i] == p;
        }
      }
    }
  }

  /** In a tree, a proper prefix of a directory's child that is present is
      a directory. */
  lemma ChildPrefix(e: Entries, g: Key, x: Component, i: int)
    requires Tree(e)
    requires IsRootKey(g) || (g in e && e[g] == Dir)
    requires First(g + [x]) <= i <= |g| && (g + [x])[..i] in e
    ensures e[(g + [x])[..i]] == Dir
  {
    var k := g + [x];
    assert k[..i] == g[..i];
    if i == |g| {
      assert g[..i] == g;
    } else {
      assert First(k) == First(g);
      PrefixNotRoot(g, i);
      AncestorsAreDirs(e, g);
    }
  }

  /** In a tree, creating a missing child of a directory (or of a root)
      meets no file on the way. */
  lemma ChildClear(e: Entries, g: Key, x: Component)
    requires Tree(e)
    requires IsRootKey(g) || (g in e && e[g] == Dir)
    requires g + [x] !in e
    ensures Clear(e, g + [x])
  {
    var k := g + [x];
    assert k[..|k|] == k;
    forall i | First(k) <= i < |k| ensures k[..i] in e ==> e[k[..i]] == Dir {
      if k[..i] in e {
        ChildPrefix(e, g, x, i);
      }
    }
  }

  /** Creating is idempotent: a second create_dir_all of the same location
      succeeds and changes nothing. */
  lemma CreatedIdempotent(e: Entries, k: Key)
    requires Clear(e, k)
    ensures Clear(Created(e, k), k)
    ensures Created(Created(e, k), k) == Created(e, k)
  {
    AddDirsCovers(e, k, |k| + 1);
    AddDirsPresent(Created(e, k), k, |k| + 1);
  }

  /** When the target already is a directory of a tree, create_dir_all
      succeeds without changing anything. */
  lemma CreateExistingDir(e: Entries, k: Key)
    requires Tree(e)
    requires IsRootKey(k) || (k in e && e[k] == Dir)
    ensures Clear(e, k) && Created(e, k) == e
  {
    if !IsRootKey(k) {
      AncestorsAreDirs(e, k);
      forall i | First(k) <= i <= |k| ensures k[..i] in e && e[k[..i]] == Dir {
        if i == |k| {
          assert k[..i] == k;
        } else {
          PrefixNotRoot(k, i);
        }
      }
    }
    AddDirsPresent(e, k, |k| + 1);
  }

  /** A file on the way blocks create_dir_all; in a tree, every prefix
      before the first file is already a directory, so nothing is made. */
  lemma BlockedChainExists(e: Entries, k: Key, j: int)
    requires Tree(e) && ClearBelow(e, k, j)
    requires First(k) <= j <= |k| && k[..j] in AddDirs(e, k, j) && AddDirs(e, k, j)[k[..j]] == File
    ensures AddDirs(e, k, j) == e
    ensures !Clear(e, k)
  {
    AddDirsNew(e, k, j);
    AddDirsKeeps(e, k, j);
    assert k[..j] in e && e[k[..j]] == File;
    AncestorsAreDirs(e, k[..j]);
    forall i | First(k) <= i < j ensures k[..i] in e {
      assert k[..j][..i] == k[..i];
      PrefixNotRoot(k, i);
    }
    AddDirsPresent(e, k, j);
  }

  /** A step of create_dir_all that finds the next prefix already a directory. */
  lemma KeepDir(e: Entries, k: Key, j: int)
    requires First(k) <= j <= |k| && ClearBelow(e, k, j)
    requires k[..j] in AddDirs(e, k, j) && AddDirs(e, k, j)[k[..j]] == Dir
    ensures ClearBelow(e, k, j + 1)
    ensures AddDirs(e, k, j + 1) == AddDirs(e, k, j)
  {
    AddDirsKeeps(e, k, j);
  }

  /** The parent of the next prefix is a root, or a directory made or found
      by the earlier steps. */
  lemma StepParent(e: Entries, k: Key, j: int)
    requires First(k) <= j <= |k| && ClearBelow(e, k, j)
    ensures var p := k[..j][..j - 1];
      IsRootKey(p) || (p in AddDirs(e, k, j) && AddDirs(e, k, j)[p] == Dir)
  {
    assert k[..j][..j - 1] == k[..j - 1];
    if j - 1 >= First(k) {
      AddDirsCovers(e, k, j);
    } else if j == 2 {
      assert k[..1] == [RootDir];
    }
  }

  /** Adding a directory below a root or a directory keeps the tree. */
  lemma TreeInsert(m: Entries, q: Key)
    requires Tree(m) && !IsRootKey(q)
    requires IsRootKey(q[..|q| - 1]) || (q[..|q| - 1] in m && m[q[..|q| - 1]] == Dir)
    ensures Tree(m[q := Dir])
  {
    var after := m[q := Dir];
    forall x | x in after
      ensures !IsRootKey(x)
      ensures IsRootKey(x[..|x| - 1]) || (x[..|x| - 1] in after && after[x[..|x| - 1]] == Dir)
    {
      if x != q {
        assert x in m;
      }
    }
  }

  /** A step of create_dir_all that makes the next prefix. */
  lemma AddDir(e: Entries, k: Key, j: int)
    requires First(k) <= j <= |k| && ClearBelow(e, k, j)
    requires Tree(AddDirs(e, k, j)) && k[..j] !in AddDirs(e, k, j)
    ensures ClearBelow(e, k, j + 1)
    ensures AddDirs(e, k, j + 1) == AddDirs(e, k, j)[k[..j] := Dir]
    ensures Tree(AddDirs(e, k, j)[k[..j] := Dir])
  {
    AddDirsKeeps(e, k, j);
    StepParent(e, k, j);
    PrefixNotRoot(k, j);
    TreeInsert(AddDirs(e, k, j), k[..j]);
  }

  /**
   * The abstract filesystem that create_dir_all changes in place.
   */
  class FileSystem {
    var entries: Entries

    ghost predicate Valid()
      reads this
    {
      Tree(entries)
    }

    constructor (initial: Entries)
      requires Tree(initial)
      ensures Valid() && entries == initial
    {
      entries := initial;
    }

    /** std::fs::create_dir_all: makes the missing directories on the way
        to `p`, outermost first; succeeds if they all exist as directories
        already; fails, making nothing, if one of them is a file. */
    method CreateDirAll(p: string) returns (ok: bool)
      requires Valid()
      modifies this
      ensures Valid()
      ensures ok == Clear(old(entries), Locate(Components(p)))
      ensures entries == if ok then Created(old(entries), Locate(Components(p))) else old(entries)
    {
      ok := CreateChain(Locate(Components(p)));
    }

    /** The loop of create_dir_all over the location `k`. */
    method CreateChain(k: Key) returns (ok: bool)
      requires Valid()
      modifies this
      ensures Valid()
      ensures ok == Clear(old(entries), k)
      ensures entries == if ok then Created(old(entries), k) else old(entries)
    {
      var j := First(k);
      while j <= |k|
        invariant First(k) <= j <= |k| + 1
        invariant Valid()
        invariant ClearBelow(old(entries), k, j)
        invariant entries == AddDirs(old(entries), k, j)
      {
        var blocked := Visit(old(entries), k, j);
        if blocked {
          return false;
        }
        j := j + 1;
      }
      assert j == |k| + 1;
      ok := true;
    }

    /** One step of create_dir_all: the prefix of `k` of length `j` is made
        a directory if it is missing, kept if it is one, and stops the
        creation if it is a file.  `e` is the state before the first step. */
    method Visit(ghost e: Entries, k: Key, j: int) returns (blocked: bool)
      requires First(k) <= j <= |k| && Tree(e)
      requires Valid() && ClearBelow(e, k, j) && entries == AddDirs(e, k, j)
      modifies this
      ensures Valid()
      ensures blocked ==> entries == e && !Clear(e, k)
      ensures !blocked ==> ClearBelow(e, k, j + 1) && entries == AddDirs(e, k, j + 1)
    {
      var q := k[..j];
      blocked := false;
      if q in entries {
        if entries[q] == File {
          BlockedChainExists(e, k, j);
          blocked := true;
        } else {
          KeepDir(e, k, j);
        }
      } else {
        AddDir(e, k, j);
        entries := entries[q := Dir];
      }
    }
  }
}
