/** What the SSH handlers see of the remote machine: paths as `std::path` treats them, the
    metadata the SFTP session reports, and the SFTP session itself as a set of lookups that
    may fail. */
module Remote {
  import opened Io
  import Sorting

  /** A path: whether it starts at the root directory, and its normal components. */
  datatype Path = Path(absolute: bool, parts: seq<string>)

  /** `PathBuf::join`: an absolute `p` replaces `base`, a relative one is appended to it. */
  function Join(base: Path, p: Path): (r: Path)
    ensures p.absolute ==> r == p
    ensures !p.absolute ==> r.absolute == base.absolute && base.parts <= r.parts && r.parts[|base.parts|..] == p.parts
  {
    if p.absolute then p else Path(base.absolute, base.parts + p.parts)
  }

  /** The empty relative path, which has no components at all. */
  predicate IsEmpty(p: Path) {
    !p.absolute && p.parts == []
  }

  /** `Path::strip_prefix`: the rest of `p` when `base` is a component-wise prefix. The empty
      path is a prefix of every path and leaves it whole, an absolute one included; any other
      prefix leaves a relative rest. */
  function StripPrefix(p: Path, base: Path): (r: Option<Path>)
    ensures r.Some? <==> IsEmpty(base) || (p.absolute == base.absolute && base.parts <= p.parts)
    ensures IsEmpty(base) ==> r == Some(p)
    ensures r.Some? && !IsEmpty(base) ==> !r.value.absolute && base.parts + r.value.parts == p.parts
  {
    if IsEmpty(base) then Some(p)
    else if p.absolute == base.absolute && base.parts <= p.parts then Some(Path(false, p.parts[|base.parts|..]))
    else None
  }

  /** `Path::parent`: none for the root and for the empty relative path. */
  function Parent(p: Path): (r: Option<Path>)
    ensures r.None? <==> p.parts == []
    ensures r.Some? ==> r.value.absolute == p.absolute && |r.value.parts| == |p.parts| - 1
    ensures r.Some? ==> r.value.parts <= p.parts
  {
    if p.parts == [] then None else Some(Path(p.absolute, p.parts[..|p.parts| - 1]))
  }

  /** Stripping a prefix and joining it back gives the path again. */
  lemma StripThenJoin(p: Path, base: Path)
    requires StripPrefix(p, base).Some?
    ensures StripPrefix(p, base).value.absolute <==> IsEmpty(base) && p.absolute
    ensures Join(base, StripPrefix(p, base).value) == p
  {
    if !IsEmpty(base) {
      assert base.parts + p.parts[|base.parts|..] == p.parts;
    }
  }

  /** Joining a relative path and stripping the base again gives the relative path back. */
  lemma JoinThenStrip(base: Path, rel: Path)
    requires !rel.absolute
    ensures StripPrefix(Join(base, rel), base) == Some(rel)
  {
    assert (base.parts + rel.parts)[|base.parts|..] == rel.parts;
  }

  /** The remote file types, as the SFTP library reports them. */
  datatype StatKind = DirKind | FileKind | SymlinkKind | OtherKind

  /** The nine mode bits. */
  datatype Permissions = Permissions(
    ownerRead: bool, ownerWrite: bool, ownerExec: bool,
    groupRead: bool, groupWrite: bool, groupExec: bool,
    otherRead: bool, otherWrite: bool, otherExec: bool)

  /** SFTP metadata of one path. Times are seconds since the epoch. */
  datatype Stat = Stat(kind: StatKind, permissions: Option<Permissions>, size: Option<nat>,
                       accessed: Option<nat>, modified: Option<nat>)

  /** One item of an SFTP directory listing: the child's full path and its metadata. */
  datatype Listed = Listed(path: Path, stat: Stat)

  /** The SFTP session, reduced to its answers. `metadata` follows symlinks and
      `symlinkMetadata` does not. */
  datatype Sftp = Sftp(
    canonicalize: Path -> Result<Path>,
    metadata: Path -> Result<Stat>,
    symlinkMetadata: Path -> Result<Stat>,
    readDir: Path -> Result<seq<Listed>>,
    removeFile: Path -> Result<()>,
    removeDir: Path -> Result<()>)

  /** The protocol's file type. */
  datatype FileType = Dir | File | Symlink

  /** `DirEntry`: a path found by a traversal, its type, and how many levels below the start it lies. */
  datatype DirEntry = DirEntry(path: Path, fileType: FileType, depth: nat)

  /** A directory is `Dir`, a file `File`, and everything else is reported as `Symlink`. */
  function TypeOf(k: StatKind): (t: FileType)
    ensures t == Dir <==> k == DirKind
    ensures t == File <==> k == FileKind
    ensures t == Symlink <==> k == SymlinkKind || k == OtherKind
  {
    match k
    case DirKind => Dir
    case FileKind => File
    case _ => Symlink
  }

  // Ordering of paths, as `Ord for Path` compares them: component by component, where the root
  // directory is a component of its own that comes before every normal component, and normal
  // components compare as strings by code point. A proper prefix comes first, so the empty
  // path comes before every other path, the root directory included.

  /** `std::path::Component`, as far as the remote paths here have them. */
  datatype Component = RootDir | Normal(name: string)

  /** The normal components, one per part. */
  function Normals(parts: seq<string>): (cs: seq<Component>)
    ensures |cs| == |parts|
    ensures forall i :: 0 <= i < |parts| ==> cs[i] == Normal(parts[i])
  {
    seq(|parts|, i requires 0 <= i < |parts| => Normal(parts[i]))
  }

  /** The components of a path: the root directory first when it is absolute. */
  function Components(p: Path): (cs: seq<Component>)
    ensures |cs| == (if p.absolute then 1 else 0) + |p.parts|
    ensures p.absolute ==> cs[0] == RootDir
    ensures forall i :: 0 <= i < |p.parts| ==> cs[(if p.absolute then 1 else 0) + i] == Normal(p.parts[i])
  {
    (if p.absolute then [RootDir] else []) + Normals(p.parts)
  }

  /** `strip_prefix` agrees with its definition on components: it succeeds exactly when the
      components of `base` begin those of `p`, and the rest has the remaining components. */
  lemma StripPrefixByComponents(p: Path, base: Path)
    ensures StripPrefix(p, base).Some? <==> Components(base) <= Components(p)
    ensures StripPrefix(p, base).Some? ==>
      Components(StripPrefix(p, base).value) == Components(p)[|Components(base)|..]
  {
    if Components(base) <= Components(p) {
      PrefixStrips(p, base);
    }
    if StripPrefix(p, base).Some? {
      StripIsPrefix(p, base);
      StripRest(p, base);
    }
  }

  /** Normal components begin one another exactly when the parts do. */
  lemma NormalsPrefix(a: seq<string>, b: seq<string>)
    ensures Normals(a) <= Normals(b) <==> a <= b
  {
    if Normals(a) <= Normals(b) {
      forall i | 0 <= i < |a| ensures a[i] == b[i] {
        assert Normals(a)[i] == Normals(b)[i];
      }
    }
  }

  lemma PrefixStrips(p: Path, base: Path)
    requires Components(base) <= Components(p)
    ensures StripPrefix(p, base).Some?
  {
    if !IsEmpty(base) {
      var rb := if base.absolute then [RootDir] else [];
      var rp := if p.absolute then [RootDir] else [];
      assert Components(base)[0] == Components(p)[0];
      assert rb == rp;
      assert Normals(base.parts) <= Normals(p.parts) by {
        assert Components(base) == rb + Normals(base.parts);
        assert Components(p) == rb + Normals(p.parts);
      }
      NormalsPrefix(base.parts, p.parts);
    }
  }

  lemma StripIsPrefix(p: Path, base: Path)
    requires StripPrefix(p, base).Some?
    ensures Components(base) <= Components(p)
  {
    if !IsEmpty(base) {
      NormalsPrefix(base.parts, p.parts);
    }
  }

  lemma StripRest(p: Path, base: Path)
    requires StripPrefix(p, base).Some?
    ensures Components(StripPrefix(p, base).value) == Components(p)[|Components(base)|..]
  {
    if !IsEmpty(base) {
      var rb := if base.absolute then [RootDir] else [];
      var n := |base.parts|;
      assert Normals(p.parts)[n..] == Normals(p.parts[n..]);
      assert Components(StripPrefix(p, base).value) == Normals(p.parts[n..]);
      assert (rb + Normals(p.parts))[|rb| + n..] == Normals(p.parts)[n..];
    }
  }

  predicate StrLe(a: string, b: string)
    decreases |a|
  {
    |a| == 0 || (|b| > 0 && (a[0] < b[0] || (a[0] == b[0] && StrLe(a[1..], b[1..]))))
  }

  predicate StrLt(a: string, b: string) {
    StrLe(a, b) && a != b
  }

  /** The derived order of `Component`: the root directory before any normal component. */
  predicate ComponentLt(a: Component, b: Component) {
    match (a, b)
    case (RootDir, Normal(_)) => true
    case (Normal(x), Normal(y)) => StrLt(x, y)
    case _ => false
  }

  predicate ComponentsLe(a: seq<Component>, b: seq<Component>)
    decreases |a|
  {
    |a| == 0 || (|b| > 0 && (ComponentLt(a[0], b[0]) || (a[0] == b[0] && ComponentsLe(a[1..], b[1..]))))
  }

  predicate PathLe(p: Path, q: Path) {
    ComponentsLe(Components(p), Components(q))
  }

  /** The sort key of `read_dir`: entries by path. */
  predicate EntryPathLe(a: DirEntry, b: DirEntry) {
    PathLe(a.path, b.path)
  }

  /** The sort key of `remove`: entries by depth. */
  predicate EntryDepthLe(a: DirEntry, b: DirEntry) {
    a.depth <= b.depth
  }

  lemma {:induction false} StrLeTotal(a: string, b: string)
    ensures StrLe(a, b) || StrLe(b, a)
    decreases |a|
  {
    if |a| > 0 && |b| > 0 && a[0] == b[0] {
      StrLeTotal(a[1..], b[1..]);
    }
  }

  lemma {:induction false} StrLeAntisymmetric(a: string, b: string)
    requires StrLe(a, b) && StrLe(b, a)
    ensures a == b
    decreases |a|
  {
    if |a| > 0 {
      StrLeAntisymmetric(a[1..], b[1..]);
      assert a == [a[0]] + a[1..] && b == [b[0]] + b[1..];
    }
  }

  lemma {:induction false} StrLeTransitive(a: string, b: string, c: string)
    requires StrLe(a, b) && StrLe(b, c)
    ensures StrLe(a, c)
    decreases |a|
  {
    if |a| > 0 && a[0] == b[0] && b[0] == c[0] {
      StrLeTransitive(a[1..], b[1..], c[1..]);
    }
  }

  lemma StrLtTransitive(a: string, b: string, c: string)
    requires StrLe(a, b) && StrLe(b, c) && (StrLt(a, b) || StrLt(b, c))
    ensures StrLt(a, c)
  {
    StrLeTransitive(a, b, c);
    if a == c {
      StrLeAntisymmetric(a, b);
    }
  }

  lemma ComponentLtTotal(a: Component, b: Component)
    requires a != b
    ensures ComponentLt(a, b) || ComponentLt(b, a)
  {
    if a.Normal? && b.Normal? {
      StrLeTotal(a.name, b.name);
    }
  }

  lemma ComponentLtTransitive(a: Component, b: Component, c: Component)
    requires ComponentLt(a, b) && ComponentLt(b, c)
    ensures ComponentLt(a, c)
  {
    if a.Normal? {
      StrLtTransitive(a.name, b.name, c.name);
    }
  }

  lemma {:induction false} ComponentsLeTotal(a: seq<Component>, b: seq<Component>)
    ensures ComponentsLe(a, b) || ComponentsLe(b, a)
    decreases |a|
  {
    if |a| > 0 && |b| > 0 {
      if a[0] == b[0] {
        ComponentsLeTotal(a[1..], b[1..]);
      } else {
        ComponentLtTotal(a[0], b[0]);
      }
    }
  }

  lemma {:induction false} ComponentsLeTransitive(a: seq<Component>, b: seq<Component>, c: seq<Component>)
    requires ComponentsLe(a, b) && ComponentsLe(b, c)
    ensures ComponentsLe(a, c)
    decreases |a|
  {
    if |a| > 0 {
      if a[0] == b[0] && b[0] == c[0] {
        ComponentsLeTransitive(a[1..], b[1..], c[1..]);
      } else if a[0] != b[0] && b[0] != c[0] {
        ComponentLtTransitive(a[0], b[0], c[0]);
      }
    }
  }

  /** The empty path comes before every path, and only the empty path comes before it. */
  lemma EmptyPathFirst(q: Path)
    ensures PathLe(Path(false, []), q)
    ensures PathLe(q, Path(false, [])) <==> q == Path(false, [])
  {
  }

  /** A non-empty relative path comes after every absolute path. */
  lemma AbsoluteBeforeRelative(p: Path, q: Path)
    requires p.absolute && !q.absolute && q.parts != []
    ensures PathLe(p, q) && !PathLe(q, p)
  {
    assert Components(q)[0] == Normal(q.parts[0]);
  }

  /** Sorting by path is sorting by a total preorder. */
  lemma EntryPathLeIsTotalPreorder()
    ensures Sorting.TotalPreorder(EntryPathLe)
  {
    forall a: DirEntry, b: DirEntry ensures EntryPathLe(a, b) || EntryPathLe(b, a) {
      ComponentsLeTotal(Components(a.path), Components(b.path));
    }
    forall a: DirEntry, b: DirEntry, c: DirEntry | EntryPathLe(a, b) && EntryPathLe(b, c)
      ensures EntryPathLe(a, c)
    {
      ComponentsLeTransitive(Components(a.path), Components(b.path), Components(c.path));
    }
  }

  lemma EntryDepthLeIsTotalPreorder()
    ensures Sorting.TotalPreorder(EntryDepthLe)
  {
  }
}
