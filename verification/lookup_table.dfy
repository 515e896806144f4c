/** The server's table of (inode, path) pairs and the three procedures that use
    it: GETROOT resets it, LOOKUP extends it, and opening a handle reads it.
 */
module LookupTable {
  import opened Xdr
  import opened Protocol
  import opened Handles
  import opened Errors
  import opened FileTree

  datatype Slot = Slot(ino: Ino, path: seq<byte>)

  /** The kernel list, head first; `list_add` puts new slots at the head. */
  type Table = seq<Slot>

  /** Which allocation of a handler fails, if any: the path or lookup buffers,
      the new list node (dereferenced unchecked), or the node's path. */
  datatype Memory = Enough | NoBuffer | NoNode | NoNodePath

  /** `Undefined` stands for what the code leaves to chance: following a failed
      `path_lookup` or allocation, or writing past a buffer. */
  datatype Outcome = Undefined | Replied(table: Table, status: u32, fh: Fh)

  /** First match from the head of the list. */
  function Find(t: Table, ino: Ino): Option<seq<byte>> {
    if t == [] then None else if t[0].ino == ino then Some(t[0].path) else Find(t[1..], ino)
  }

  /** `resp->type` as the handlers leave it; other kinds keep what was there. */
  function TypeOf(node: Node, before: u32): u32 {
    match node
    case Reg => TYPE_REG
    case Dir(_) => TYPE_DIR
    case Other => before
  }

  /** A directory's path gets a slash unless it has one. */
  function WithSlash(path: seq<byte>): (p: seq<byte>)
    ensures EndsInSlash(p)
  {
    if EndsInSlash(path) then path else path + [SLASH]
  }

  function StoredPath(node: Node, path: seq<byte>): seq<byte> {
    if node.Dir? then WithSlash(path) else path
  }

  // ---------- the handlers as steps

  function LookupStep(fs: Fs, t: Table, parent: FhData, name: Name, mem: Memory, before: Fh): Outcome
    requires WellFormed(fs)
  {
    match Find(t, Number(parent))
    case None => Replied(t, STAT_OK, before)
    case Some(dirPath) =>
      if mem.NoBuffer? then Replied(t, NEGATED_NOSPC, before)
      else
        ResolveStays(fs, dirPath + name);
        match Resolve(fs, dirPath + name)
        case None => Undefined
        case Some(i) =>
          var path := StoredPath(fs.inodes[i], dirPath + name);
          var fh := Fh(PrintIno(before.data, i), TypeOf(fs.inodes[i], before.typ));
          if |path| > MAXPATHLEN then Undefined
          else if Find(t, i).Some? then Replied(t, STAT_OK, fh)
          else
            match mem
            case NoNode => Undefined
            case NoNodePath => Replied(t, NEGATED_NOSPC, fh)
            case _ => Replied([Slot(i, path)] + t, STAT_OK, fh)
  }

  function GetrootStep(fs: Fs, t: Table, arg: seq<byte>, mem: Memory, before: Fh): Outcome
    requires WellFormed(fs)
  {
    if mem.NoBuffer? then Replied(t, NEGATED_NOSPC, before)
    else if arg == [] then Undefined
    else
      var path := WithSlash(arg);
      ResolveStays(fs, path);
      match Resolve(fs, path)
      case None => Undefined
      case Some(i) =>
        var data := PrintIno(before.data, i);
        if fs.inodes[i].Reg? then Replied(t, NEGATED_NOTDIR, Fh(data, before.typ))
        else
          var fh := Fh(data, TypeOf(fs.inodes[i], before.typ));
          match mem
          case NoNode => Undefined
          case NoNodePath => Replied([], NEGATED_NOSPC, fh)
          case _ => Replied([Slot(i, path)], STAT_OK, fh)
  }

  // ---------- from a handle to an open file

  /** `strncpy` into a buffer of n bytes: no terminator if the source fills it. */
  function Strncpy(src: seq<byte>, n: nat): (buf: seq<byte>)
    ensures |buf| == n
  {
    if |src| >= n then src[..n] else src + seq(n - |src|, _ => 0)
  }

  /** The C string at the start of a buffer, if it ends inside the buffer. */
  function CString(buf: seq<byte>): Option<seq<byte>> {
    if buf == [] then None
    else if buf[0] == 0 then Some([])
    else match CString(buf[1..])
         case None => None
         case Some(s) => Some([buf[0]] + s)
  }

  /** A copied C string is read back exactly when it left room for its terminator. */
  lemma {:induction false} CopyReadBack(p: seq<byte>, n: nat)
    requires 0 !in p
    ensures CString(Strncpy(p, n)) == if |p| < n then Some(p) else None
    decreases |p|
  {
    var buf := Strncpy(p, n);
    if p != [] && n > 0 {
      assert buf[1..] == Strncpy(p[1..], n - 1);
      CopyReadBack(p[1..], n - 1);
      assert p == [p[0]] + p[1..];
    }
  }

  /** What `filp_open` is given for a handle. `Unterminated`: a buffer without a
      terminator, from which it reads on into foreign memory. */
  datatype Opened = NotFound | Unterminated | Path(path: seq<byte>)

  /** `vsnfsd_fh_to_path` into the 1024-byte buffer of `vsnfsd_open`. */
  function PathOf(t: Table, data: FhData): Opened {
    if Number(data) == 0 then NotFound
    else match Find(t, Number(data))
         case None => NotFound
         case Some(p) =>
           match CString(Strncpy(p, MAXPATHLEN))
           case None => Unterminated
           case Some(s) => Path(s)
  }

  /** Does the path buffer of `vsnfsd_open` get its memory, and does the kernel
      grant the open file? */
  datatype OpenEnv = OpenEnv(buffer: bool, file: bool)

  datatype Opening = OpenUndefined | OpenFailed(status: u32) | OpenedIno(ino: Ino)

  function OpenHandle(fs: Fs, t: Table, data: FhData, env: OpenEnv): Opening {
    if !env.buffer then OpenFailed(STAT_NOSPC)
    else match PathOf(t, data)
         case NotFound => OpenFailed(STAT_NOENT)
         case Unterminated => OpenUndefined
         case Path(p) =>
           if env.file && Resolve(fs, p).Some? then OpenedIno(Resolve(fs, p).value) else OpenFailed(STAT_IO)
  }

  // ---------- the handlers as code

  class Server {
    var list: Table

    constructor ()
      ensures list == []
    {
      list := [];
    }

    /** `list_for_each_entry` up to the first node with this number. */
    method Search(ino: Ino) returns (r: Option<seq<byte>>)
      ensures r == Find(list, ino)
    {
      var k := 0;
      while k < |list|
        invariant 0 <= k <= |list|
        invariant Find(list, ino) == Find(list[k..], ino)
      {
        if list[k].ino == ino {
          return Some(list[k].path);
        }
        assert list[k..][1..] == list[k + 1..];
        k := k + 1;
      }
      return None;
    }

    /** `vsnfsd_fh_to_path`. */
    method FhToPath(fh: Fh, path: array<byte>) returns (rc: int)
      modifies path
      ensures rc == (if Number(fh.data) != 0 && Find(list, Number(fh.data)).Some? then 0 else -1)
      ensures rc == 0 ==> path[..] == Strncpy(Find(list, Number(fh.data)).value, path.Length)
      ensures rc != 0 ==> path[..] == old(path[..])
    {
      var ino := Number(fh.data);
      if ino == 0 {
        return -1;
      }
      var found := Search(ino);
      if found.None? {
        return -1;
      }
      var src := found.value;
      forall i | 0 <= i < path.Length { path[i] := if i < |src| then src[i] else 0; }
      return 0;
    }

    /** `vsnfsd_open`, up to the inode of the opened file. */
    method Open(fs: Fs, fh: Fh, env: OpenEnv) returns (o: Opening)
      requires !OpenHandle(fs, list, fh.data, env).OpenUndefined?
      ensures o == OpenHandle(fs, list, fh.data, env)
    {
      if !env.buffer {
        return OpenFailed(STAT_NOSPC);
      }
      var path := new byte[MAXPATHLEN];
      var rc := FhToPath(fh, path);
      if rc != 0 {
        return OpenFailed(STAT_NOENT);
      }
      var name := CString(path[..]).value;
      if !env.file || Resolve(fs, name).None? {
        return OpenFailed(STAT_IO);
      }
      return OpenedIno(Resolve(fs, name).value);
    }

    method ProcLookup(fs: Fs, fh: Fh, name: Name, mem: Memory, before: Fh) returns (status: u32, resp: Fh)
      requires WellFormed(fs)
      requires LookupStep(fs, list, fh.data, name, mem, before).Replied?
      modifies this
      ensures Replied(list, status, resp) == LookupStep(fs, old(list), fh.data, name, mem, before)
    {
      status, resp := STAT_OK, before;
      var ino := Number(fh.data);
      var found := Search(ino);
      if found.None? {
        return;
      }
      if mem.NoBuffer? {
        status := NEGATED_NOSPC;
        return;
      }
      var path := found.value + name;
      ResolveStays(fs, path);
      var i := Resolve(fs, path).value;
      resp := resp.(data := PrintIno(resp.data, i));
      if fs.inodes[i].Reg? {
        resp := resp.(typ := TYPE_REG);
      } else if fs.inodes[i].Dir? {
        resp := resp.(typ := TYPE_DIR);
        if |path| == 0 || path[|path| - 1] != SLASH {
          path := path + [SLASH];
        }
      }
      var present := Search(i);
      if present.Some? {
        return;
      }
      if mem.NoNodePath? {
        status := NEGATED_NOSPC;
        return;
      }
      list := [Slot(i, path)] + list;
    }

    method ProcGetroot(fs: Fs, arg: seq<byte>, mem: Memory, before: Fh) returns (status: u32, resp: Fh)
      requires WellFormed(fs)
      requires GetrootStep(fs, list, arg, mem, before).Replied?
      modifies this
      ensures Replied(list, status, resp) == GetrootStep(fs, old(list), arg, mem, before)
    {
      status, resp := STAT_OK, before;
      if mem.NoBuffer? {
        status := NEGATED_NOSPC;
        return;
      }
      var path := arg;
      if path[|path| - 1] != SLASH {
        path := path + [SLASH];
      }
      assert path == WithSlash(arg);
      ResolveStays(fs, path);
      var i := Resolve(fs, path).value;
      resp := resp.(data := PrintIno(resp.data, i));
      if fs.inodes[i].Reg? {
        status := NEGATED_NOTDIR;
        return;
      } else if fs.inodes[i].Dir? {
        resp := resp.(typ := TYPE_DIR);
      }
      list := [];
      if mem.NoNodePath? {
        status := NEGATED_NOSPC;
        return;
      }
      list := [Slot(i, path)] + list;
    }
  }

  // ---------- the table invariant

  /** A stored path is a C string below the root path that resolves to its inode. */
  ghost predicate GoodSlot(fs: Fs, rootPath: seq<byte>, s: Slot) {
    && Resolve(fs, s.path) == Some(s.ino)
    && rootPath <= s.path
    && (IsDir(fs, s.ino) <==> EndsInSlash(s.path))
    && 0 !in s.path
  }

  ghost predicate Distinct(t: Table) {
    forall j, k :: 0 <= j < k < |t| ==> t[j].ino != t[k].ino
  }

  ghost predicate Inv(fs: Fs, rootPath: seq<byte>, t: Table) {
    && t != [] && t[|t| - 1].path == rootPath
    && EndsInSlash(rootPath)
    && Distinct(t)
    && forall k :: 0 <= k < |t| ==> GoodSlot(fs, rootPath, t[k])
  }

  /** First match is membership: the found path is stored with that number ... */
  lemma {:induction false} FindSome(t: Table, ino: Ino) returns (k: nat)
    requires Find(t, ino).Some?
    ensures k < |t| && t[k] == Slot(ino, Find(t, ino).value)
  {
    if t[0].ino == ino {
      k := 0;
    } else {
      k := FindSome(t[1..], ino);
      k := k + 1;
    }
  }

  /** ... and, numbers being distinct, it is the only one: the list is a map. */
  lemma {:induction false} FindSlot(t: Table, k: nat)
    requires k < |t| && Distinct(t)
    ensures Find(t, t[k].ino) == Some(t[k].path)
  {
    if k > 0 {
      assert t[0].ino != t[k].ino;
      FindSlot(t[1..], k - 1);
    }
  }

  lemma FindGood(fs: Fs, rootPath: seq<byte>, t: Table, ino: Ino)
    requires Inv(fs, rootPath, t) && Find(t, ino).Some?
    ensures GoodSlot(fs, rootPath, Slot(ino, Find(t, ino).value))
  {
    var k := FindSome(t, ino);
    assert GoodSlot(fs, rootPath, t[k]);
  }

  /** A successful GETROOT starts a table that satisfies the invariant, whatever
      the table was before, and answers with a directory handle. */
  lemma GetrootEstablishes(fs: Fs, t: Table, arg: seq<byte>, mem: Memory, before: Fh)
    requires WellFormed(fs) && 0 !in arg
    requires var out := GetrootStep(fs, t, arg, mem, before); out.Replied? && out.status == STAT_OK
    ensures var out := GetrootStep(fs, t, arg, mem, before);
            var root := Resolve(fs, WithSlash(arg));
            && root.Some? && IsDir(fs, root.value)
            && out.fh == Fh(PrintIno(before.data, root.value), TYPE_DIR)
            && out.table == [Slot(root.value, WithSlash(arg))]
            && Inv(fs, WithSlash(arg), out.table)
  {
  }

  /** The handler's test for a regular file never fires: the path it looked up
      ends in a slash, so it resolves to a directory or not at all. */
  lemma GetrootFindsDirectories(fs: Fs, t: Table, arg: seq<byte>, mem: Memory, before: Fh)
    requires WellFormed(fs)
    ensures var out := GetrootStep(fs, t, arg, mem, before);
            out.Replied? ==> out.status == STAT_OK || out.status == NEGATED_NOSPC
    ensures arg != [] && Resolve(fs, WithSlash(arg)).Some? ==> IsDir(fs, Resolve(fs, WithSlash(arg)).value)
  {
  }

  /** What LOOKUP stores for a resolved path is a good slot. */
  lemma StoredPathGood(fs: Fs, rootPath: seq<byte>, path: seq<byte>, i: Ino)
    requires Resolve(fs, path) == Some(i) && i in fs.inodes && rootPath <= path && 0 !in path
    ensures GoodSlot(fs, rootPath, Slot(i, StoredPath(fs.inodes[i], path)))
  {
    ResolveSlash(fs, path);
  }

  /** Every LOOKUP, with any handle bytes and any name a decoder lets through,
      keeps the invariant and every path found before. */
  lemma LookupKeeps(fs: Fs, rootPath: seq<byte>, t: Table, parent: FhData, name: Name, mem: Memory, before: Fh)
    requires WellFormed(fs) && Inv(fs, rootPath, t)
    requires 0 !in name
    requires LookupStep(fs, t, parent, name, mem, before).Replied?
    ensures var t' := LookupStep(fs, t, parent, name, mem, before).table;
            && Inv(fs, rootPath, t')
            && forall j {:trigger Find(t', j)} :: Find(t, j).Some? ==> Find(t', j) == Find(t, j)
  {
    var out := LookupStep(fs, t, parent, name, mem, before);
    if out.table != t {
      var dirPath := Find(t, Number(parent)).value;
      FindGood(fs, rootPath, t, Number(parent));
      ResolveStays(fs, dirPath + name);
      var i := Resolve(fs, dirPath + name).value;
      StoredPathGood(fs, rootPath, dirPath + name, i);
      AddKeeps(fs, rootPath, t, Slot(i, StoredPath(fs.inodes[i], dirPath + name)));
    }
  }

  lemma AddKeeps(fs: Fs, rootPath: seq<byte>, t: Table, s: Slot)
    requires Inv(fs, rootPath, t) && GoodSlot(fs, rootPath, s) && Find(t, s.ino).None?
    ensures Inv(fs, rootPath, [s] + t)
    ensures forall j {:trigger Find([s] + t, j)} :: Find([s] + t, j) == if j == s.ino then Some(s.path) else Find(t, j)
  {
    var t' := [s] + t;
    assert t'[1..] == t;
    forall k | 0 <= k < |t|
      ensures t[k].ino != s.ino
    {
      FindSlot(t, k);
    }
  }

  /** The handle opens a terminated path that resolves to the inode it denotes. */
  ghost predicate Opens(fs: Fs, t: Table, data: FhData) {
    PathOf(t, data).Path? && Resolve(fs, PathOf(t, data).path) == Some(Number(data))
  }

  /** A known handle opens its inode if and only if the stored path leaves room
      for its terminator; otherwise what is opened is undefined. */
  lemma OpensIffTerminated(fs: Fs, rootPath: seq<byte>, t: Table, data: FhData)
    requires WellFormed(fs) && Inv(fs, rootPath, t) && Find(t, Number(data)).Some?
    ensures var p := Find(t, Number(data)).value;
            && PathOf(t, data) == (if |p| < MAXPATHLEN then Path(p) else Unterminated)
            && (Opens(fs, t, data) <==> |p| < MAXPATHLEN)
  {
    FindGood(fs, rootPath, t, Number(data));
    ResolveStays(fs, Find(t, Number(data)).value);
    CopyReadBack(Find(t, Number(data)).value, MAXPATHLEN);
  }

  /** What opening gives for every handle and whatever the open gets. */
  lemma OpenExactly(fs: Fs, rootPath: seq<byte>, t: Table, data: FhData, env: OpenEnv)
    requires WellFormed(fs) && Inv(fs, rootPath, t)
    ensures OpenHandle(fs, t, data, env)
         == if !env.buffer then OpenFailed(28)
            else match Find(t, Number(data))
                 case None => OpenFailed(2)
                 case Some(p) =>
                   if |p| >= 1024 then OpenUndefined
                   else if !env.file then OpenFailed(5)
                   else OpenedIno(Number(data))
  {
    if Find(t, Number(data)).Some? { OpensIffTerminated(fs, rootPath, t, data); }
  }

  // ---------- what LOOKUP answers

  /** A name the client sends and the server accepts. */
  predicate LegalName(name: Name) {
    0 < |name| <= MAXNAMLEN && 0 !in name && SLASH !in name
  }

  /** Does the path built for this lookup fit its buffer? */
  predicate PathFits(fs: Fs, t: Table, d: Ino, name: Name)
    requires Find(t, d).Some?
  {
    match Child(fs, d, name)
    case None => true
    case Some(i) => |Find(t, d).value| + |name| + (if IsDir(fs, i) then 1 else 0) <= MAXPATHLEN
  }

  /** The string LOOKUP builds for a known directory names the child. */
  lemma ChildPath(fs: Fs, rootPath: seq<byte>, t: Table, d: Ino, name: Name)
    requires WellFormed(fs) && Inv(fs, rootPath, t) && LegalName(name)
    requires Find(t, d).Some? && IsDir(fs, d)
    ensures Resolve(fs, Find(t, d).value + name) == Child(fs, d, name)
    ensures !EndsInSlash(Find(t, d).value + name)
  {
    var dirPath := Find(t, d).value;
    FindGood(fs, rootPath, t, d);
    ResolveChild(fs, dirPath, d, name);
    assert (dirPath + name)[|dirPath + name| - 1] == name[|name| - 1];
  }

  /** LOOKUP in a known directory is one step of the plain walk: it is defined
      exactly when the child exists and the built path fits, it answers with the
      child's handle, and the child is known afterwards. */
  lemma LookupIsChild(fs: Fs, rootPath: seq<byte>, t: Table, parent: FhData, name: Name, mem: Memory, before: Fh)
    requires WellFormed(fs) && Inv(fs, rootPath, t) && LegalName(name)
    requires Find(t, Number(parent)).Some? && IsDir(fs, Number(parent))
    ensures var d := Number(parent);
            var out := LookupStep(fs, t, parent, name, mem, before);
            && (mem.Enough? ==> (out.Replied? <==> Child(fs, d, name).Some? && PathFits(fs, t, d, name)))
            && (out.Replied? && out.status == STAT_OK ==>
                  && Child(fs, d, name).Some?
                  && var i := Child(fs, d, name).value;
                  && i in fs.inodes
                  && out.fh == Fh(PrintIno(before.data, i), TypeOf(fs.inodes[i], before.typ))
                  && Find(out.table, i).Some?)
  {
    ChildPath(fs, rootPath, t, Number(parent), name);
    ResolveStays(fs, Find(t, Number(parent)).value + name);
  }

  /** Only a directory handle makes that true. For a known parent of another
      kind the file's own path is extended, and a defined LOOKUP answers OK with
      the handle of an inode that is not a child. */
  lemma LookupIsChildIffDirectory(fs: Fs, rootPath: seq<byte>, t: Table, d: Ino, name: Name)
    requires WellFormed(fs) && Inv(fs, rootPath, t) && LegalName(name)
    requires Find(t, d).Some? && Resolve(fs, Find(t, d).value + name).Some?
    ensures Child(fs, d, name) == Resolve(fs, Find(t, d).value + name) <==> IsDir(fs, d)
  {
    if IsDir(fs, d) {
      ChildPath(fs, rootPath, t, d, name);
    }
  }

  /** The smallest case: files `a` (inode 2) and `ab` (inode 3) in the exported
      root, both the root and `a` already looked up. */
  const SIBLINGS := Fs(map[1 := Dir(map[[97] := 2, [97, 98] := 3]), 2 := Reg, 3 := Reg], 1)
  const A_KNOWN: Table := [Slot(2, [SLASH, 97]), Slot(1, [SLASH])]

  lemma SiblingPaths()
    ensures WellFormed(SIBLINGS)
    ensures Resolve(SIBLINGS, [SLASH]) == Some(1)
    ensures Resolve(SIBLINGS, [SLASH, 97]) == Some(2)
    ensures Resolve(SIBLINGS, [SLASH, 97, 98]) == Some(3)
  {
    ComponentsSlash([]);
    assert [] + [SLASH] == [SLASH];
    assert Components([SLASH]) == [];
    assert Walk(SIBLINGS, 1, []) == Some(1);
    ResolveChild(SIBLINGS, [SLASH], 1, [97]);
    ResolveChild(SIBLINGS, [SLASH], 1, [97, 98]);
    assert [SLASH] + [97] == [SLASH, 97] && [SLASH] + [97, 98] == [SLASH, 97, 98];
  }

  lemma SiblingTable()
    ensures Inv(SIBLINGS, [SLASH], A_KNOWN)
    ensures Find(A_KNOWN, 2) == Some([SLASH, 97]) && Find(A_KNOWN, 3) == None
  {
    SiblingPaths();
    assert A_KNOWN[1..] == [Slot(1, [SLASH])] && A_KNOWN[1..][1..] == [];
    assert Find(A_KNOWN[1..], 3) == Find([], 3);
  }

  /** LOOKUP of `b` in the file `a` answers OK with the handle of `ab`. */
  lemma FileParentFindsSibling(parent: FhData, before: Fh)
    requires Number(parent) == 2
    ensures Child(SIBLINGS, 2, [98]) == None && LegalName([98])
    ensures WellFormed(SIBLINGS) && Inv(SIBLINGS, [SLASH], A_KNOWN)
    ensures LookupStep(SIBLINGS, A_KNOWN, parent, [98], Enough, before)
         == Replied([Slot(3, [SLASH, 97, 98])] + A_KNOWN, STAT_OK, Fh(PrintIno(before.data, 3), TYPE_REG))
  {
    SiblingPaths();
    SiblingTable();
    assert [SLASH, 97] + [98] == [SLASH, 97, 98];
  }

  /** What a defined LOOKUP of a known parent answers, directory or not. */
  lemma LookupAnswers(fs: Fs, t: Table, parent: FhData, name: Name, before: Fh)
    requires WellFormed(fs) && Find(t, Number(parent)).Some?
    ensures var out := LookupStep(fs, t, parent, name, Enough, before);
            var r := Resolve(fs, Find(t, Number(parent)).value + name);
            out.Replied? ==>
              && r.Some? && r.value in fs.inodes && out.status == STAT_OK
              && out.fh == Fh(PrintIno(before.data, r.value), TypeOf(fs.inodes[r.value], before.typ))
  {
    ResolveStays(fs, Find(t, Number(parent)).value + name);
  }
}
