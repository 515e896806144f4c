/** The exported file system as an inode table, and `path_lookup` as a resolver
    over it. Directories map names to inode numbers, so hard links, `.` and `..`
    are ordinary entries. Symbolic links are not modelled.
 */
module FileTree {
  import opened Xdr
  import opened Protocol

  type Name = seq<byte>
  type Ino = u64

  datatype Node = Reg | Dir(entries: map<Name, Ino>) | Other
  datatype Fs = Fs(inodes: map<Ino, Node>, root: Ino)

  /** Every directory entry leads to an inode, and 0 is not an inode number. */
  ghost predicate WellFormed(fs: Fs) {
    && fs.root in fs.inodes && 0 !in fs.inodes
    && forall d, n :: d in fs.inodes && fs.inodes[d].Dir? && n in fs.inodes[d].entries
         ==> fs.inodes[d].entries[n] in fs.inodes
  }

  predicate IsDir(fs: Fs, i: Ino) {
    i in fs.inodes && fs.inodes[i].Dir?
  }

  // ---------- the plain child-by-child walk

  function Child(fs: Fs, d: Ino, name: Name): Option<Ino> {
    if IsDir(fs, d) && name in fs.inodes[d].entries then Some(fs.inodes[d].entries[name]) else None
  }

  function Walk(fs: Fs, from: Ino, names: seq<Name>): Option<Ino>
    decreases |names|
  {
    if names == [] then Some(from)
    else match Child(fs, from, names[0])
         case None => None
         case Some(i) => Walk(fs, i, names[1..])
  }

  lemma {:induction false} WalkAppend(fs: Fs, from: Ino, xs: seq<Name>, ys: seq<Name>)
    ensures Walk(fs, from, xs + ys)
         == match Walk(fs, from, xs) case None => None case Some(i) => Walk(fs, i, ys)
    decreases |xs|
  {
    if xs == [] {
      assert xs + ys == ys;
    } else {
      assert (xs + ys)[1..] == xs[1..] + ys;
      match Child(fs, from, xs[0])
      case None =>
      case Some(i) => WalkAppend(fs, i, xs[1..], ys);
    }
  }

  lemma WalkOne(fs: Fs, from: Ino, name: Name)
    ensures Walk(fs, from, [name]) == Child(fs, from, name)
  {
  }

  lemma {:induction false} WalkStays(fs: Fs, from: Ino, names: seq<Name>)
    requires WellFormed(fs) && from in fs.inodes
    ensures Walk(fs, from, names).Some? ==> Walk(fs, from, names).value in fs.inodes
    decreases |names|
  {
    if names != [] {
      match Child(fs, from, names[0])
      case None =>
      case Some(i) => WalkStays(fs, i, names[1..]);
    }
  }

  // ---------- path strings

  predicate EndsInSlash(p: seq<byte>) {
    p != [] && p[|p| - 1] == SLASH
  }

  /** Where the first component of a path ends. */
  function NameEnd(p: seq<byte>): (n: nat)
    ensures n <= |p|
    ensures forall i :: 0 <= i < n ==> p[i] != SLASH
    ensures n < |p| ==> p[n] == SLASH
  {
    if p == [] || p[0] == SLASH then 0 else 1 + NameEnd(p[1..])
  }

  /** The components of a path; runs of slashes count as one separator. */
  function Components(p: seq<byte>): seq<Name>
    decreases |p|
  {
    if p == [] then []
    else if p[0] == SLASH then Components(p[1..])
    else
      var n := NameEnd(p);
      assert n > 0;
      [p[..n]] + Components(p[n..])
  }

  /** `path_lookup(path, 0, ..)`: a trailing slash asks for a directory. */
  function Resolve(fs: Fs, path: seq<byte>): Option<Ino> {
    match Walk(fs, fs.root, Components(path))
    case None => None
    case Some(i) => if EndsInSlash(path) && !IsDir(fs, i) then None else Some(i)
  }

  lemma NameEndUnique(p: seq<byte>, n: nat)
    requires n <= |p| && (forall i :: 0 <= i < n ==> p[i] != SLASH) && (n < |p| ==> p[n] == SLASH)
    ensures NameEnd(p) == n
  {
  }

  /** What follows a slash adds its own components. */
  lemma {:induction false} ComponentsAppend(p: seq<byte>, q: seq<byte>)
    requires EndsInSlash(p)
    ensures Components(p + q) == Components(p) + Components(q)
    decreases |p|
  {
    var pq := p + q;
    if p[0] == SLASH {
      assert pq[1..] == p[1..] + q;
      if |p| == 1 {
        assert p[1..] + q == q;
      } else {
        ComponentsAppend(p[1..], q);
      }
    } else {
      var n := NameEnd(p);
      assert n < |p|;
      NameEndUnique(pq, n);
      assert pq[..n] == p[..n] && pq[n..] == p[n..] + q;
      ComponentsAppend(p[n..], q);
      assert [p[..n]] + (Components(p[n..]) + Components(q)) == ([p[..n]] + Components(p[n..])) + Components(q);
    }
  }

  /** A trailing slash adds no component. */
  lemma {:induction false} ComponentsSlash(p: seq<byte>)
    ensures Components(p + [SLASH]) == Components(p)
    decreases |p|
  {
    var ps := p + [SLASH];
    if p == [] {
      assert ps[1..] == [];
    } else if p[0] == SLASH {
      assert ps[1..] == p[1..] + [SLASH];
      ComponentsSlash(p[1..]);
    } else {
      var n := NameEnd(p);
      NameEndUnique(ps, n);
      assert ps[..n] == p[..n] && ps[n..] == p[n..] + [SLASH];
      ComponentsSlash(p[n..]);
    }
  }

  lemma ComponentsName(name: Name)
    requires name != [] && SLASH !in name
    ensures Components(name) == [name]
  {
    NameEndUnique(name, |name|);
    assert name[..|name|] == name && name[|name|..] == [];
  }

  /** The heart of the string representation: appending a legal name to a
      directory's slash-ended path resolves to that directory's child. */
  lemma ResolveChild(fs: Fs, path: seq<byte>, d: Ino, name: Name)
    requires EndsInSlash(path) && Resolve(fs, path) == Some(d)
    requires name != [] && SLASH !in name
    ensures Resolve(fs, path + name) == Child(fs, d, name)
  {
    ComponentsAppend(path, name);
    ComponentsName(name);
    WalkAppend(fs, fs.root, Components(path), [name]);
    WalkOne(fs, d, name);
    assert (path + name)[|path + name| - 1] == name[|name| - 1];
  }

  /** A directory's path may be given its slash without changing what it names. */
  lemma ResolveSlash(fs: Fs, path: seq<byte>)
    ensures Resolve(fs, path + [SLASH])
         == match Resolve(fs, path) case None => None case Some(i) => if IsDir(fs, i) then Some(i) else None
  {
    ComponentsSlash(path);
  }

  lemma ResolveStays(fs: Fs, path: seq<byte>)
    requires WellFormed(fs)
    ensures Resolve(fs, path).Some? ==> Resolve(fs, path).value in fs.inodes
  {
    WalkStays(fs, fs.root, Components(path));
  }

  /** A path string of names, each after a slash. */
  function Joined(names: seq<Name>): seq<byte> {
    if names == [] then [] else Joined(names[..|names| - 1]) + [SLASH] + names[|names| - 1]
  }

  lemma {:induction false} JoinedComponents(names: seq<Name>)
    requires forall k :: 0 <= k < |names| ==> names[k] != [] && SLASH !in names[k]
    ensures Components(Joined(names)) == names
    decreases |names|
  {
    if names != [] {
      var init, name := names[..|names| - 1], names[|names| - 1];
      JoinedComponents(init);
      ComponentsAppend(Joined(init) + [SLASH], name);
      ComponentsSlash(Joined(init));
      ComponentsName(name);
    }
  }

  /** Resolving a path string is walking its names from the root. */
  lemma ResolveIsWalk(fs: Fs, names: seq<Name>)
    requires forall k :: 0 <= k < |names| ==> names[k] != [] && SLASH !in names[k]
    ensures Resolve(fs, Joined(names)) == Walk(fs, fs.root, names)
  {
    JoinedComponents(names);
    if names != [] {
      var name := names[|names| - 1];
      assert Joined(names)[|Joined(names)| - 1] == name[|name| - 1];
    }
  }
}
