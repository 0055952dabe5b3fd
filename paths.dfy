/**
 * The part of Rust's std::path (Unix target) that the repository resolver
 * relies on: joining, splitting into components, the parent of a path and
 * rebuilding a path from its components.  A path is its raw text, a
 * `string`; the separator is '/'.
 */
module Paths {
  import opened Wrappers

  const Separator: char := '/'

  /** std::path::Component, without the Windows-only Prefix. */
  datatype Component = RootDir | CurDir | ParentDir | Normal(name: string)

  /** On Unix a path is absolute exactly when it starts at the root. */
  predicate IsAbsolute(p: string)
  {
    |p| > 0 && p[0] == Separator
  }

  predicate EndsWithSeparator(p: string)
  {
    |p| > 0 && p[|p| - 1] == Separator
  }

  /** Path::join / PathBuf::push: an absolute `p` replaces `base`; otherwise
      a separator is inserted unless `base` is empty or already ends in one. */
  function Join(base: string, p: string): string
  {
    if IsAbsolute(p) then p
    else if |base| > 0 && !EndsWithSeparator(base) then base + [Separator] + p
    else base + p
  }

  /** The text between separators, in order; "a//b/" gives ["a", "", "b", ""]. */
  function Split(s: string): (segments: seq<string>)
    ensures |segments| >= 1
  {
    if |s| == 0 then [""]
    else
      var rest := Split(s[1..]);
      if s[0] == Separator then [""] + rest
      else [[s[0]] + rest[0]] + rest[1..]
  }

  /** The segments with one separator between each two.  Not part of the
      resolver: it exists only to check, in SplitUnsplit and UnsplitSplit,
      that Split loses no text. */
  function Unsplit(segments: seq<string>): string
  {
    if |segments| == 0 then ""
    else if |segments| == 1 then segments[0]
    else segments[0] + [Separator] + Unsplit(segments[1..])
  }

  predicate ValidName(n: string)
  {
    n != "" && n != "." && n != ".." && Separator !in n
  }

  /** A component that may stand after the first position. */
  predicate IsBodyComponent(c: Component)
  {
    c.ParentDir? || (c.Normal? && ValidName(c.name))
  }

  /** The shape of every sequence `Components` yields: a root or a `.` only
      in front, then parent-directory markers and plain names. */
  predicate WellFormed(cs: seq<Component>)
  {
    forall i :: 0 <= i < |cs| ==>
      IsBodyComponent(cs[i]) || (i == 0 && (cs[i].RootDir? || cs[i].CurDir?))
  }

  /** How one segment after the start is read: empty segments (redundant
      separators) and `.` vanish, `..` is kept. */
  function Interpret(segment: string): seq<Component>
  {
    if segment == "" || segment == "." then []
    else if segment == ".." then [ParentDir]
    else [Normal(segment)]
  }

  function Body(segments: seq<string>): seq<Component>
  {
    if |segments| == 0 then [] else Interpret(segments[0]) + Body(segments[1..])
  }

  /** A relative path whose first segment is exactly `.` keeps it as CurDir. */
  predicate IncludesCurDir(s: string)
  {
    !IsAbsolute(s) && |s| > 0 && s[0] == '.' && (|s| == 1 || s[1] == Separator)
  }

  /** Path::components on Unix. */
  function Components(s: string): seq<Component>
  {
    if IsAbsolute(s) then [RootDir] + Body(Split(s[1..]))
    else if IncludesCurDir(s) then [CurDir] + Body(Split(s[1..]))
    else Body(Split(s))
  }

  /** The components that name the same place, without a leading `.`. */
  function Locate(cs: seq<Component>): seq<Component>
  {
    if |cs| > 0 && cs[0] == CurDir then cs[1..] else cs
  }

  /** Path::parent, identified with its components: none for the empty
      path and for the root, otherwise all components but the last. */
  function Parent(p: string): Option<seq<Component>>
  {
    var cs := Components(p);
    if |cs| == 0 || cs[|cs| - 1] == RootDir then None else Some(cs[..|cs| - 1])
  }

  /** Component::as_os_str. */
  function AsPath(c: Component): string
  {
    match c
    case RootDir => [Separator]
    case CurDir => "."
    case ParentDir => ".."
    case Normal(name) => name
  }

  /** The normalisation in mkdir: a left fold of `join` over the
      components, starting from an empty path. */
  function Rebuild(cs: seq<Component>): string
  {
    if |cs| == 0 then "" else Join(Rebuild(cs[..|cs| - 1]), AsPath(cs[|cs| - 1]))
  }

  /** The path mkdir hands to the filesystem. */
  function Normalized(p: string): string
  {
    Rebuild(Components(p))
  }

  // ---------------------------------------------------------------------
  // Splitting and reading components

  /** No segment contains a separator. */
  lemma {:induction false} SplitSegments(s: string)
    ensures forall i :: 0 <= i < |Split(s)| ==> Separator !in Split(s)[i]
    decreases |s|
  {
    if |s| > 0 {
      SplitSegments(s[1..]);
      var rest := Split(s[1..]);
      if s[0] != Separator {
        assert Separator !in [s[0]] + rest[0];
      }
    }
  }

  /** The body never yields a root or a `.`. */
  lemma {:induction false} BodySteps(segments: seq<string>)
    ensures forall i :: 0 <= i < |Body(segments)| ==> Body(segments)[i].ParentDir? || Body(segments)[i].Normal?
    decreases |segments|
  {
    if |segments| > 0 {
      BodySteps(segments[1..]);
    }
  }

  /** The body of separator-free segments consists of plain names and `..`. */
  lemma {:induction false} BodyWellFormed(segments: seq<string>)
    requires forall i :: 0 <= i < |segments| ==> Separator !in segments[i]
    ensures forall i :: 0 <= i < |Body(segments)| ==> IsBodyComponent(Body(segments)[i])
    decreases |segments|
  {
    if |segments| > 0 {
      BodyWellFormed(segments[1..]);
    }
  }

  /** Path::components yields a well-formed sequence, which starts with the
      root exactly when the path is absolute. */
  lemma ComponentsWellFormed(s: string)
    ensures WellFormed(Components(s))
    ensures IsAbsolute(s) <==> (|Components(s)| > 0 && Components(s)[0] == RootDir)
  {
    var t := if IsAbsolute(s) || IncludesCurDir(s) then s[1..] else s;
    SplitSegments(t);
    BodyWellFormed(Split(t));
    BodySteps(Split(t));
  }

  lemma {:induction false} SplitConcat(a: string, b: string)
    ensures Split(a + [Separator] + b) == Split(a) + Split(b)
    decreases |a|
  {
    var s := a + [Separator] + b;
    if |a| == 0 {
      assert s[0] == Separator && s[1..] == b;
    } else {
      assert s[0] == a[0] && s[1..] == a[1..] + [Separator] + b;
      SplitConcat(a[1..], b);
    }
  }

  lemma {:induction false} SplitNoSeparator(a: string)
    requires Separator !in a
    ensures Split(a) == [a]
    decreases |a|
  {
    if |a| > 0 {
      SplitNoSeparator(a[1..]);
      assert [a[0]] + a[1..] == a;
    }
  }

  lemma {:induction false} SplitUnsplit(segments: seq<string>)
    requires |segments| >= 1
    requires forall i :: 0 <= i < |segments| ==> Separator !in segments[i]
    ensures Split(Unsplit(segments)) == segments
    decreases |segments|
  {
    if |segments| == 1 {
      SplitNoSeparator(segments[0]);
    } else {
      SplitConcat(segments[0], Unsplit(segments[1..]));
      SplitUnsplit(segments[1..]);
      SplitNoSeparator(segments[0]);
    }
  }

  lemma {:induction false} UnsplitSplit(s: string)
    ensures Unsplit(Split(s)) == s
    decreases |s|
  {
    if |s| > 0 {
      UnsplitSplit(s[1..]);
      var rest := Split(s[1..]);
      if s[0] == Separator {
        assert [""] + rest == [""] + rest;
        assert Unsplit([""] + rest) == "" + [Separator] + Unsplit(rest);
        assert s == [s[0]] + s[1..];
      } else if |rest| == 1 {
        assert s == [s[0]] + s[1..];
      } else {
        var segs := [[s[0]] + rest[0]] + rest[1..];
        assert segs[1..] == rest[1..];
        assert Unsplit(rest) == rest[0] + [Separator] + Unsplit(rest[1..]);
        assert s == [s[0]] + s[1..];
      }
    }
  }

  lemma {:induction false} BodyConcat(a: seq<string>, b: seq<string>)
    ensures Body(a + b) == Body(a) + Body(b)
    decreases |a|
  {
    if |a| > 0 {
      assert (a + b)[0] == a[0] && (a + b)[1..] == a[1..] + b;
      BodyConcat(a[1..], b);
    } else {
      assert a + b == b;
    }
  }

  /** The body of `./rest`, read after the leading `.`, is that of `rest`. */
  lemma CurDirBody(rest: string)
    ensures Body(Split([Separator] + rest)) == Body(Split(rest))
  {
    assert [Separator] + rest == "" + [Separator] + rest;
    SplitConcat("", rest);
    BodyConcat([""], Split(rest));
    assert Body([""]) == Interpret("") + Body([]);
  }

  /** The body of `.` read from the start is empty. */
  lemma DotBody(rest: string)
    ensures Body(Split("." + [Separator] + rest)) == Body(Split(rest))
  {
    SplitConcat(".", rest);
    SplitNoSeparator(".");
    BodyConcat(["."], Split(rest));
    assert Body(["."]) == Interpret(".") + Body([]);
  }

  /** For a relative name, the body of its split is its located components. */
  lemma BodySplitRelative(n: string)
    requires !IsAbsolute(n)
    ensures Body(Split(n)) == Locate(Components(n))
  {
    if IncludesCurDir(n) {
      assert Components(n) == [CurDir] + Body(Split(n[1..]));
      if |n| == 1 {
        assert n == ".";
        SplitNoSeparator(n);
        assert n[1..] == "";
        assert Body(["."]) == Interpret(".") + Body([]);
        assert Body([""]) == Interpret("") + Body([]);
      } else {
        var rest := n[2..];
        assert n == "." + [Separator] + rest;
        assert n[1..] == [Separator] + rest;
        DotBody(rest);
        CurDirBody(rest);
      }
    } else {
      assert Components(n) == Body(Split(n));
      BodySteps(Split(n));
    }
  }

  // ---------------------------------------------------------------------
  // Components of a joined path

  /** The body of `t/n` is the body of `t` followed by `n`'s located components. */
  lemma BodyJoin(t: string, n: string)
    requires !IsAbsolute(n)
    ensures Body(Split(t + [Separator] + n)) == Body(Split(t)) + Locate(Components(n))
  {
    SplitConcat(t, n);
    BodyConcat(Split(t), Split(n));
    BodySplitRelative(n);
  }

  /** Joining onto an absolute base. */
  lemma AbsoluteConcat(b: string, n: string)
    requires IsAbsolute(b) && !IsAbsolute(n)
    ensures Components(b + [Separator] + n) == Components(b) + Locate(Components(n))
  {
    var s := b + [Separator] + n;
    var t := b[1..] + [Separator] + n;
    assert s[0] == b[0] && s[1..] == t;
    BodyJoin(b[1..], n);
  }

  /** The components of a path that starts with `./` or is `.`. */
  lemma CurDirComponents(s: string)
    requires IncludesCurDir(s)
    ensures Components(s) == [CurDir] + Body(Split(s[1..]))
  {
  }

  /** Appending to a path that starts with `./` or is `.` keeps the `.`. */
  lemma CurDirPrefix(b: string, n: string)
    requires IncludesCurDir(b)
    ensures IncludesCurDir(b + [Separator] + n)
    ensures (b + [Separator] + n)[1..] == b[1..] + [Separator] + n
  {
    var s := b + [Separator] + n;
    assert s[0] == b[0];
    assert |b| >= 2 ==> s[1] == b[1];
  }

  /** After the leading `.`, the body of `b/n` is that of `b` followed by
      `n`'s located components. */
  lemma CurDirTail(b: string, n: string)
    requires IncludesCurDir(b) && !IsAbsolute(n)
    ensures Body(Split((b + [Separator] + n)[1..])) == Body(Split(b[1..])) + Locate(Components(n))
  {
    CurDirPrefix(b, n);
    BodyJoin(b[1..], n);
  }

  /** Joining onto a base that starts with `./` or is `.`. */
  lemma CurDirConcat(b: string, n: string)
    requires IncludesCurDir(b) && !IsAbsolute(n)
    ensures Components(b + [Separator] + n) == Components(b) + Locate(Components(n))
  {
    var s := b + [Separator] + n;
    CurDirPrefix(b, n);
    CurDirComponents(s);
    CurDirComponents(b);
    CurDirTail(b, n);
  }

  /** Joining onto a relative base that does not start with `./`. */
  lemma PlainConcat(b: string, n: string)
    requires b != "" && !IsAbsolute(n) && !IsAbsolute(b) && !IncludesCurDir(b)
    ensures Components(b + [Separator] + n) == Components(b) + Locate(Components(n))
  {
    var s := b + [Separator] + n;
    assert s[0] == b[0];
    assert |b| >= 2 ==> s[1] == b[1];
    assert !IsAbsolute(s) && !IncludesCurDir(s);
    BodyJoin(b, n);
  }

  lemma ComponentsConcat(b: string, n: string)
    requires b != "" && !IsAbsolute(n)
    ensures Components(b + [Separator] + n) == Components(b) + Locate(Components(n))
  {
    if IsAbsolute(b) {
      AbsoluteConcat(b, n);
    } else if IncludesCurDir(b) {
      CurDirConcat(b, n);
    } else {
      PlainConcat(b, n);
    }
  }

  /** The text of a join: an absolute `p` as it is; otherwise `base`, at
      most one separator, then `p`. */
  lemma JoinText(base: string, p: string)
    ensures IsAbsolute(p) ==> Join(base, p) == p
    ensures !IsAbsolute(p) ==>
      var r := Join(base, p);
      |base| + |p| <= |r| <= |base| + |p| + 1 &&
      r[..|base|] == base && r[|r| - |p|..] == p &&
      (|r| == |base| + |p| + 1 ==> r[|base|] == Separator)
  {
    if !IsAbsolute(p) && |base| > 0 && !EndsWithSeparator(base) {
      var r := base + [Separator] + p;
      assert r[|r| - |p|..] == p;
    }
  }

  /** The parent of a plain name joined onto a non-empty base is the base. */
  lemma ParentOfJoin(base: string, n: string)
    requires base != "" && ValidName(n)
    ensures Parent(Join(base, n)) == Some(Components(base))
  {
    NameComponents(n);
    assert !IsAbsolute(n) by { assert n[0] in n; }
    JoinComponents(base, n);
    var cs := Components(Join(base, n));
    assert cs == Components(base) + [Normal(n)];
    assert cs[..|cs| - 1] == Components(base);
  }

  /** Joining a relative name onto "/" appends its components to the root. */
  lemma RootJoin(n: string)
    requires !IsAbsolute(n)
    ensures Components([Separator] + n) == Components([Separator]) + Locate(Components(n))
  {
    var s := [Separator] + n;
    assert s[1..] == n;
    BodySplitRelative(n);
    assert [Separator][1..] == "";
    assert Body(Split("")) == Interpret("") + Body([]);
  }

  /** A trailing separator does not change the components. */
  lemma TrailingSeparator(b: string)
    requires b != ""
    ensures Components(b + [Separator]) == Components(b)
  {
    ComponentsConcat(b, "");
    assert b + [Separator] + "" == b + [Separator];
    EmptyComponents();
  }

  /** Joining a relative name onto a non-empty base appends the name's
      components (without a leading `.`) to the base's components. */
  lemma JoinComponents(base: string, n: string)
    ensures base != "" && !IsAbsolute(n) ==>
      Components(Join(base, n)) == Components(base) + Locate(Components(n))
  {
    if base != "" && !IsAbsolute(n) {
      if EndsWithSeparator(base) {
        var b' := base[..|base| - 1];
        assert base == b' + [Separator];
        assert Join(base, n) == base + n;
        if b' == "" {
          RootJoin(n);
        } else {
          assert base + n == b' + [Separator] + n;
          ComponentsConcat(b', n);
          TrailingSeparator(b');
        }
      } else {
        ComponentsConcat(base, n);
      }
    }
  }

  lemma LocateConcat(a: seq<Component>, b: seq<Component>)
    requires |a| > 0
    ensures Locate(a + b) == Locate(a) + b
  {
    if a[0] == CurDir {
      assert (a + b)[1..] == a[1..] + b;
    }
  }

  /** A relative name without `..` reads as plain names only, once a
      leading `.` is dropped. */
  lemma PlainComponents(n: string)
    requires !IsAbsolute(n)
    requires forall i :: 0 <= i < |Components(n)| ==> Components(n)[i] != ParentDir
    ensures forall i :: 0 <= i < |Locate(Components(n))| ==> Locate(Components(n))[i].Normal?
  {
    ComponentsWellFormed(n);
    var cs := Components(n);
    forall i | 0 <= i < |Locate(cs)| ensures Locate(cs)[i].Normal? {
      if |cs| > 0 && cs[0] == CurDir {
        assert Locate(cs)[i] == cs[i + 1];
      }
    }
  }

  /** A plain name, read as a path, is that one name. */
  lemma NameComponents(n: string)
    requires ValidName(n)
    ensures Components(n) == [Normal(n)]
  {
    SplitNoSeparator(n);
    assert n[0] != Separator by { assert n[0] in n; }
    assert !IncludesCurDir(n) by {
      if |n| == 1 { assert n == [n[0]]; } else { assert n[1] in n; }
    }
    assert Body([n]) == Interpret(n) + Body([]);
  }

  lemma AsPathComponents(c: Component)
    requires IsBodyComponent(c)
    ensures Components(AsPath(c)) == [c]
  {
    if c.ParentDir? {
      SplitNoSeparator("..");
    } else {
      NameComponents(c.name);
    }
  }

  // ---------------------------------------------------------------------
  // Rebuilding a path from its components

  lemma AsPathRelative(c: Component)
    requires IsBodyComponent(c)
    ensures AsPath(c) != "" && !IsAbsolute(AsPath(c))
  {
    if c.Normal? {
      assert c.name[0] in c.name;
    }
  }

  lemma RebuildSingle(c: Component)
    requires IsBodyComponent(c) || c.RootDir? || c.CurDir?
    ensures Components(Rebuild([c])) == [c]
  {
    assert Rebuild([c]) == Join(Rebuild([]), AsPath(c));
    if c.RootDir? {
      assert Rebuild([c]) == [Separator];
      assert Components([Separator]) == [RootDir] + Body(Split(""));
    } else if c.CurDir? {
      assert Rebuild([c]) == ".";
      assert Components(".") == [CurDir] + Body(Split(""));
    } else {
      AsPathComponents(c);
      AsPathRelative(c);
      assert Rebuild([c]) == AsPath(c);
    }
  }

  lemma EmptyComponents()
    ensures Components("") == []
  {
    assert Body(Split("")) == Interpret("") + Body([]);
  }

  /** Joining one body component onto a path that names something appends
      that component. */
  lemma JoinStep(p: string, c: Component)
    requires |Components(p)| > 0
    requires IsBodyComponent(c)
    ensures Components(Join(p, AsPath(c))) == Components(p) + [c]
  {
    assert p != "" by {
      EmptyComponents();
    }
    AsPathComponents(c);
    AsPathRelative(c);
    JoinComponents(p, AsPath(c));
    assert Locate([c]) == [c];
  }

  lemma RebuildStep(init: seq<Component>, c: Component)
    requires |init| > 0 && Components(Rebuild(init)) == init
    requires IsBodyComponent(c)
    ensures Components(Rebuild(init + [c])) == init + [c]
  {
    var cs := init + [c];
    assert cs[..|cs| - 1] == init && cs[|cs| - 1] == c;
    assert Rebuild(cs) == Join(Rebuild(init), AsPath(c));
    JoinStep(Rebuild(init), c);
  }

  lemma WellFormedPrefix(cs: seq<Component>, n: nat)
    requires WellFormed(cs) && n <= |cs|
    ensures WellFormed(cs[..n])
  {
    var init := cs[..n];
    forall i | 0 <= i < |init|
      ensures IsBodyComponent(init[i]) || (i == 0 && (init[i].RootDir? || init[i].CurDir?))
    {
      assert init[i] == cs[i];
    }
  }

  /** Rebuilding a well-formed component sequence and reading it back gives
      the same components: the fold loses nothing. */
  lemma {:induction false} RebuildComponents(cs: seq<Component>)
    requires WellFormed(cs)
    ensures Components(Rebuild(cs)) == cs
    decreases |cs|
  {
    if |cs| == 1 {
      assert cs == [cs[0]];
      RebuildSingle(cs[0]);
    } else if |cs| > 1 {
      var init := cs[..|cs| - 1];
      WellFormedPrefix(cs, |cs| - 1);
      RebuildComponents(init);
      RebuildStep(init, cs[|cs| - 1]);
      assert init + [cs[|cs| - 1]] == cs;
    }
  }

  /** No redundant separator and no `.` after the first segment. */
  predicate Tidy(s: string)
  {
    var segments := Split(s);
    forall i :: 1 <= i < |segments| ==> segments[i] != "" && segments[i] != "."
  }

  /** A one-component path is written without redundant separators. */
  lemma TidySingle(c: Component)
    requires IsBodyComponent(c) || c.RootDir? || c.CurDir?
    ensures Rebuild([c]) != ""
    ensures c.RootDir? ==> Rebuild([c]) == [Separator]
    ensures !c.RootDir? ==> Tidy(Rebuild([c])) && !EndsWithSeparator(Rebuild([c]))
  {
    var x := AsPath(c);
    assert Rebuild([c]) == Join("", x);
    if c.CurDir? {
      SplitNoSeparator(".");
    } else if !c.RootDir? {
      AsPathRelative(c);
      assert Rebuild([c]) == x;
      SplitNoSeparator(x);
      assert x[|x| - 1] in x;
    }
  }

  /** Joining a separator-free step other than `.` onto a tidy path, or onto
      the root, gives a tidy path. */
  lemma TidyJoin(b: string, x: string)
    requires b == [Separator] || (b != "" && Tidy(b) && !EndsWithSeparator(b))
    requires x != "" && x != "." && Separator !in x
    ensures Tidy(Join(b, x)) && !EndsWithSeparator(Join(b, x))
  {
    SplitNoSeparator(x);
    assert x[0] in x && x[|x| - 1] in x;
    if b == [Separator] {
      assert Join(b, x) == "" + [Separator] + x;
      SplitConcat("", x);
    } else {
      assert Join(b, x) == b + [Separator] + x;
      SplitConcat(b, x);
    }
  }

  lemma {:induction false} RebuildTidy(cs: seq<Component>)
    requires WellFormed(cs)
    ensures |cs| > 0 ==> Rebuild(cs) != ""
    ensures cs == [RootDir] ==> Rebuild(cs) == [Separator]
    ensures cs != [RootDir] ==> Tidy(Rebuild(cs)) && !EndsWithSeparator(Rebuild(cs))
    decreases |cs|
  {
    if |cs| == 0 {
      assert Split("") == [""];
    } else if |cs| == 1 {
      assert cs == [cs[0]];
      TidySingle(cs[0]);
    } else {
      var init := cs[..|cs| - 1];
      var c := cs[|cs| - 1];
      WellFormedPrefix(cs, |cs| - 1);
      RebuildTidy(init);
      assert IsBodyComponent(c);
      assert Rebuild(cs) == Join(Rebuild(init), AsPath(c));
      TidyJoin(Rebuild(init), AsPath(c));
    }
  }

  /** Normalisation drops redundant separators and every `.` but a leading
      one; only the root itself, "/", is written with a separator at the end. */
  lemma NormalizedTidy(p: string)
    ensures Normalized(p) == [Separator] || (Tidy(Normalized(p)) && !EndsWithSeparator(Normalized(p)))
  {
    ComponentsWellFormed(p);
    RebuildTidy(Components(p));
  }

  /** Normalisation keeps the path's identity: same components as before. */
  lemma NormalizedComponents(p: string)
    ensures Components(Normalized(p)) == Components(p)
  {
    ComponentsWellFormed(p);
    RebuildComponents(Components(p));
  }

  /** Normalising twice is normalising once. */
  lemma NormalizedIdempotent(p: string)
    ensures Normalized(Normalized(p)) == Normalized(p)
  {
    NormalizedComponents(p);
  }
}
