/** Which runs there are: GETROOT starts one, LOOKUP extends it, every plain walk
    has one, and the inputs on which the code falls short occur in some.
 */
module LookupProgress {
  import opened Xdr
  import opened Protocol
  import opened Handles
  import opened Errors
  import opened FileTree
  import opened LookupTable
  import opened Dispatch
  import opened LookupRuns

  // ---------- runs begin

  /** The run of one answered GETROOT. */
  function Started(t: Table, q: Request, c: Called): Run
    requires c.Called?
  {
    Run([q], [t, c.table], [c.errno], [c.fh])
  }

  /** A remote GETROOT of a non-empty legal path, memory permitting, is answered
      exactly when the path with its slash resolves; then it succeeds and, whatever
      the table was, a run begins. */
  lemma GetrootProgress(fs: Fs, t: Table, q: Request)
    requires WellFormed(fs) && q.AskRoot? && Legal(q) && q.mem.Enough? && q.path != []
    ensures var c := Remote(fs, t, q);
            && (c.Called? <==> Resolve(fs, WithSlash(q.path)).Some?)
            && (c.Called? ==> c.errno == 0 && IsRun(fs, Started(t, q, c)))
  {
    var out := GetrootStep(fs, t, q.path, q.mem, q.resp);
    WireTransparent(World(fs, q.mem, q.resp), t, q.path, q.before, [], q.before);
    GetrootFindsDirectories(fs, t, q.path, q.mem, q.resp);
    SeenStatus(out, q.before);
    GetrootDefined(fs, t, q);
    var c := Remote(fs, t, q);
    if c.Called? {
      StartedIsRun(fs, t, q, c);
    }
  }

  lemma GetrootDefined(fs: Fs, t: Table, q: Request)
    requires WellFormed(fs) && q.AskRoot? && q.mem.Enough? && q.path != []
    ensures var out := GetrootStep(fs, t, q.path, q.mem, q.resp);
            && (out.Replied? <==> Resolve(fs, WithSlash(q.path)).Some?)
            && (out.Replied? ==> out.status == STAT_OK)
  {
    ResolveStays(fs, WithSlash(q.path));
    GetrootFindsDirectories(fs, t, q.path, q.mem, q.resp);
  }

  lemma StartedIsRun(fs: Fs, t: Table, q: Request, c: Called)
    requires WellFormed(fs) && q.AskRoot? && Legal(q) && c.Called? && c.errno == 0
    requires Remote(fs, t, q) == c
    ensures IsRun(fs, Started(t, q, c))
  {
    var r := Started(t, q, c);
    assert WireStep(fs, r, 0);
  }

  // ---------- runs go on

  function LastTable(r: Run): Table
    requires Shaped(r)
  {
    r.tables[|r.reqs|]
  }

  /** The run with one more answered call. */
  function Extended(r: Run, q: Request, c: Called): Run
    requires c.Called?
  {
    Run(r.reqs + [q], r.tables + [c.table], r.errnos + [c.errno], r.fhs + [c.fh])
  }

  lemma SameStep(fs: Fs, r: Run, r': Run, i: nat)
    requires WellFormed(fs) && Shaped(r) && Shaped(r') && i < |r.reqs| && i < |r'.reqs|
    requires r.reqs[i] == r'.reqs[i] && r.tables[i] == r'.tables[i] && r.tables[i + 1] == r'.tables[i + 1]
    requires r.errnos[i] == r'.errnos[i] && r.fhs[i] == r'.fhs[i]
    requires WireStep(fs, r, i)
    ensures WireStep(fs, r', i)
  {
  }

  lemma LastStep(fs: Fs, r: Run, q: Request, c: Called)
    requires WellFormed(fs) && Shaped(r) && q.AskChild? && Legal(q) && c.Called? && Remote(fs, LastTable(r), q) == c
    ensures Shaped(Extended(r, q, c)) && WireStep(fs, Extended(r, q, c), |r.reqs|)
  {
  }

  lemma ExtendedIsRun(fs: Fs, r: Run, q: Request, c: Called)
    requires IsRun(fs, r) && c.Called?
    requires Shaped(Extended(r, q, c)) && WireStep(fs, Extended(r, q, c), |r.reqs|)
    ensures IsRun(fs, Extended(r, q, c))
  {
    var r' := Extended(r, q, c);
    forall i | 0 <= i < |r'.reqs| ensures WireStep(fs, r', i) {
      if i < |r.reqs| { SameStep(fs, r, r', i); }
    }
  }

  function HandlerOf(fs: Fs, r: Run, q: Request): Outcome
    requires WellFormed(fs) && Shaped(r) && q.AskChild?
  {
    LookupStep(fs, LastTable(r), q.fh.data, q.name, q.mem, q.resp)
  }

  /** A run goes on by any legal call its handler answers with status OK. */
  lemma GoesOn(fs: Fs, r: Run, q: Request)
    requires IsRun(fs, r) && q.AskChild? && Legal(q)
    requires HandlerOf(fs, r, q).Replied? && HandlerOf(fs, r, q).status == STAT_OK
    ensures var out := HandlerOf(fs, r, q);
            var c := Called(out.table, 0, out.fh);
            Remote(fs, LastTable(r), q) == c && IsRun(fs, Extended(r, q, c))
  {
    var out := HandlerOf(fs, r, q);
    WireTransparent(World(fs, q.mem, q.resp), LastTable(r), [], q.fh, q.name, q.before);
    SeenStatus(out, q.before);
    LastStep(fs, r, q, Called(out.table, 0, out.fh));
    ExtendedIsRun(fs, r, q, Called(out.table, 0, out.fh));
  }

  /** Progress: in any state of any run, a remote LOOKUP of a legal name in a
      known directory, memory permitting, is answered exactly when the child exists
      and the built path fits; then it succeeds with the child's handle and the run
      goes on. */
  lemma RunProgress(fs: Fs, r: Run, q: Request)
    requires IsRun(fs, r) && q.AskChild? && LegalName(q.name) && q.mem.Enough?
    requires Find(LastTable(r), Number(q.fh.data)).Some? && IsDir(fs, Number(q.fh.data))
    ensures var c := Remote(fs, LastTable(r), q);
            var child := Child(fs, Number(q.fh.data), q.name);
            && (c.Called? <==> child.Some? && PathFits(fs, LastTable(r), Number(q.fh.data), q.name))
            && (c.Called? ==>
                  && child.value in fs.inodes && c.errno == 0
                  && c.fh == Fh(PrintIno(q.resp.data, child.value), TypeOf(fs.inodes[child.value], q.resp.typ))
                  && Find(c.table, child.value).Some?
                  && IsRun(fs, Extended(r, q, c)))
  {
    ReachableInv(fs, r, |r.reqs|);
    LookupIsChild(fs, RootPath(r), LastTable(r), q.fh.data, q.name, q.mem, q.resp);
    LookupAnswers(fs, LastTable(r), q.fh.data, q.name, q.resp);
    if HandlerOf(fs, r, q).Replied? {
      GoesOn(fs, r, q);
    } else {
      WireTransparent(World(fs, q.mem, q.resp), LastTable(r), [], q.fh, q.name, q.before);
    }
  }

  /** After any run, a LOOKUP through a handle that is not in the table is answered
      OK with what the response structure held; the run goes on as if nothing had
      happened. The handle of eight zero bytes is one in every state. */
  lemma UnknownHandleAnswered(fs: Fs, r: Run, q: Request)
    requires IsRun(fs, r) && q.AskChild? && Legal(q)
    requires Find(LastTable(r), Number(q.fh.data)).None?
    ensures Remote(fs, LastTable(r), q) == Called(LastTable(r), 0, q.resp)
    ensures IsRun(fs, Extended(r, q, Called(LastTable(r), 0, q.resp)))
  {
    GoesOn(fs, r, q);
  }

  lemma ZeroHandleUnknown(fs: Fs, r: Run)
    requires IsRun(fs, r)
    ensures Find(LastTable(r), Number([0, 0, 0, 0, 0, 0, 0, 0])).None?
  {
    var zero: FhData := [0, 0, 0, 0, 0, 0, 0, 0];
    assert Number(zero) == 0;
    ReachableInv(fs, r, |r.reqs|);
    if Find(LastTable(r), 0).Some? {
      FindGood(fs, RootPath(r), LastTable(r), 0);
      ResolveStays(fs, Find(LastTable(r), 0).value);
    }
  }

  // ---------- every plain walk has its run

  ghost predicate Bounded(t: Table, b: nat) {
    forall k :: 0 <= k < |t| ==> |t[k].path| <= b
  }

  lemma LookupBound(fs: Fs, t: Table, parent: FhData, name: Name, mem: Memory, before: Fh, b: nat)
    requires WellFormed(fs) && Bounded(t, b) && LookupStep(fs, t, parent, name, mem, before).Replied?
    ensures Bounded(LookupStep(fs, t, parent, name, mem, before).table, b + |name| + 1)
  {
    if Find(t, Number(parent)).Some? {
      var k := FindSome(t, Number(parent));
      ResolveStays(fs, Find(t, Number(parent)).value + name);
    }
  }

  /** Bytes the names add to a path when each gets a slash. */
  function PathBytes(names: seq<Name>): nat {
    if names == [] then 0 else PathBytes(names[..|names| - 1]) + |names[|names| - 1]| + 1
  }

  /** The inodes met on the walk have at most seven digits. */
  ghost predicate SmallWalk(fs: Fs, root: Ino, names: seq<Name>) {
    forall k :: 0 <= k <= |names| && Walk(fs, root, names[..k]).Some? ==>
      Walk(fs, root, names[..k]).value <= MAX_EXACT_INO
  }

  /** The calls a client makes to follow `names` from the mounted `path`: GETROOT,
      then each name with the handle of the call before, all successful. */
  ghost predicate Follows(r: Run, t: Table, path: seq<byte>, names: seq<Name>, resps: seq<Fh>, befores: seq<Fh>) {
    && |resps| == |befores| == |names| + 1
    && |r.reqs| == |r.fhs| == |r.errnos| == |names| + 1 && |r.tables| == |names| + 2
    && r.tables[0] == t
    && r.reqs[0] == AskRoot(path, Enough, resps[0], befores[0])
    && (forall k :: 0 < k <= |names| ==>
          r.reqs[k] == AskChild(r.fhs[k - 1], names[k - 1], Enough, resps[k], befores[k]))
    && (forall k :: 0 <= k <= |names| ==> r.errnos[k] == 0)
  }

  lemma FollowsSnoc(r0: Run, r: Run, t: Table, path: seq<byte>, names: seq<Name>, resps: seq<Fh>, befores: seq<Fh>)
    requires names != [] && |resps| == |befores| == |names| + 1
    requires var n := |names| - 1;
             && Follows(r0, t, path, names[..n], resps[..n + 1], befores[..n + 1])
             && r.reqs == r0.reqs + [AskChild(r0.fhs[n], names[n], Enough, resps[n + 1], befores[n + 1])]
    requires r.errnos == r0.errnos + [0] && |r.tables| == |r0.tables| + 1 && |r.fhs| == |r0.fhs| + 1
    requires r.tables[..|r0.tables|] == r0.tables && r.fhs[..|r0.fhs|] == r0.fhs
    ensures Follows(r, t, path, names, resps, befores)
  {
    assert r.tables[0] == r.tables[..|r0.tables|][0];
    assert forall k :: 0 <= k < |r0.fhs| ==> r.fhs[k] == r.fhs[..|r0.fhs|][k];
  }

  /** What following `names` needs: they are legal, the plain walk exists and meets
      small inodes only, and the longest path built fits its buffer. */
  ghost predicate Walkable(fs: Fs, path: seq<byte>, names: seq<Name>) {
    && path != [] && |path| <= MAXPATHLEN && 0 !in path
    && (forall k :: 0 <= k < |names| ==> LegalName(names[k]))
    && (names != [] ==> |WithSlash(path)| + PathBytes(names) <= MAXPATHLEN)
    && Resolve(fs, WithSlash(path)).Some?
    && var root := Resolve(fs, WithSlash(path)).value;
    && Walk(fs, root, names).Some? && SmallWalk(fs, root, names)
  }

  lemma WalkablePrefix(fs: Fs, path: seq<byte>, names: seq<Name>)
    requires Walkable(fs, path, names) && names != []
    ensures var init, name := names[..|names| - 1], names[|names| - 1];
            var root := Resolve(fs, WithSlash(path)).value;
            && Walkable(fs, path, init)
            && Child(fs, Walk(fs, root, init).value, name) == Walk(fs, root, names)
            && Walk(fs, root, names).value <= MAX_EXACT_INO
  {
    var init, name := names[..|names| - 1], names[|names| - 1];
    var root := Resolve(fs, WithSlash(path)).value;
    assert names == init + [name];
    WalkAppend(fs, root, init, [name]);
    assert Walk(fs, root, init).Some?;
    WalkOne(fs, Walk(fs, root, init).value, name);
    assert names[..|names|] == names;
    forall k | 0 <= k <= |init| && Walk(fs, root, init[..k]).Some?
      ensures Walk(fs, root, init[..k]).value <= MAX_EXACT_INO
    {
      assert init[..k] == names[..k];
    }
  }

  /** The run of following `names`, as the induction keeps it: besides what the
      theorem says, the last inode is known and no stored path is longer than the
      names allow. */
  ghost predicate Walked(fs: Fs, r: Run, t: Table, path: seq<byte>, names: seq<Name>, resps: seq<Fh>, befores: seq<Fh>) {
    && IsRun(fs, r) && Follows(r, t, path, names, resps, befores)
    && Resolve(fs, WithSlash(path)).Some?
    && Walk(fs, Resolve(fs, WithSlash(path)).value, names) == Some(Number(r.fhs[|names|].data))
    && Find(LastTable(r), Number(r.fhs[|names|].data)).Some?
    && Bounded(LastTable(r), |WithSlash(path)| + PathBytes(names))
  }

  /** The closed form of the walk theorem: for every file system and every walk a
      client may ask for, whatever table the server starts from and whatever its
      response structures hold, GETROOT and the chain of LOOKUPs are all answered,
      and the last handle denotes the inode the walk reaches. */
  lemma {:induction false} WalkHasRun(fs: Fs, t: Table, path: seq<byte>, names: seq<Name>, resps: seq<Fh>, befores: seq<Fh>)
    returns (r: Run)
    requires WellFormed(fs) && Walkable(fs, path, names) && |resps| == |befores| == |names| + 1
    ensures Walked(fs, r, t, path, names, resps, befores)
    ensures IsRun(fs, r) && Follows(r, t, path, names, resps, befores)
    ensures Walk(fs, Resolve(fs, WithSlash(path)).value, names) == Some(Number(r.fhs[|names|].data))
    decreases |names|
  {
    if names == [] {
      assert names[..0] == names;
      r := RootRun(fs, t, path, resps[0], befores[0]);
    } else {
      var n := |names| - 1;
      WalkablePrefix(fs, path, names);
      var r0 := WalkHasRun(fs, t, path, names[..n], resps[..n + 1], befores[..n + 1]);
      r := WalkOn(fs, r0, t, path, names, resps, befores);
    }
  }

  /** The step of the induction. */
  lemma WalkOn(fs: Fs, r0: Run, t: Table, path: seq<byte>, names: seq<Name>, resps: seq<Fh>, befores: seq<Fh>)
    returns (r: Run)
    requires WellFormed(fs) && Walkable(fs, path, names) && |resps| == |befores| == |names| + 1 && names != []
    requires var n := |names| - 1; Walked(fs, r0, t, path, names[..n], resps[..n + 1], befores[..n + 1])
    ensures Walked(fs, r, t, path, names, resps, befores)
  {
    var n := |names| - 1;
    WalkablePrefix(fs, path, names);
    r := OneMore(fs, r0, AskChild(r0.fhs[n], names[n], Enough, resps[n + 1], befores[n + 1]),
                 |WithSlash(path)| + PathBytes(names[..n]));
    FollowsSnoc(r0, r, t, path, names, resps, befores);
  }

  /** The start of every such run. */
  lemma RootRun(fs: Fs, t: Table, path: seq<byte>, resp: Fh, before: Fh) returns (r: Run)
    requires WellFormed(fs) && path != [] && |path| <= MAXPATHLEN && 0 !in path
    requires Resolve(fs, WithSlash(path)).Some? && Resolve(fs, WithSlash(path)).value <= MAX_EXACT_INO
    ensures IsRun(fs, r) && Follows(r, t, path, [], [resp], [before])
    ensures Resolve(fs, WithSlash(path)) == Some(Number(r.fhs[0].data))
    ensures LastTable(r) == [Slot(Number(r.fhs[0].data), WithSlash(path))]
    ensures r.fhs[0] == Fh(PrintIno(resp.data, Number(r.fhs[0].data)), TYPE_DIR)
  {
    var q := AskRoot(path, Enough, resp, before);
    GetrootProgress(fs, t, q);
    r := Started(t, q, Remote(fs, t, q));
    StartTable(fs, r);
    HandleExactIffSevenDigits(resp.data, Resolve(fs, WithSlash(path)).value);
  }

  /** One more call of such a run. */
  lemma OneMore(fs: Fs, r0: Run, q: Request, b: nat) returns (r: Run)
    requires IsRun(fs, r0) && q.AskChild? && LegalName(q.name) && q.mem.Enough?
    requires Find(LastTable(r0), Number(q.fh.data)).Some? && Bounded(LastTable(r0), b)
    requires b + |q.name| + 1 <= MAXPATHLEN
    requires Child(fs, Number(q.fh.data), q.name).Some? && Child(fs, Number(q.fh.data), q.name).value <= MAX_EXACT_INO
    ensures IsRun(fs, r) && |r.reqs| == |r0.reqs| + 1
    ensures r.reqs == r0.reqs + [q] && r.errnos == r0.errnos + [0] && r.tables[..|r0.tables|] == r0.tables
    ensures r.fhs[..|r0.fhs|] == r0.fhs
    ensures Child(fs, Number(q.fh.data), q.name) == Some(Number(r.fhs[|r0.fhs|].data))
    ensures Find(LastTable(r), Number(r.fhs[|r0.fhs|].data)).Some?
    ensures Bounded(LastTable(r), b + |q.name| + 1)
  {
    var k := FindSome(LastTable(r0), Number(q.fh.data));
    RunProgress(fs, r0, q);
    var c := Remote(fs, LastTable(r0), q);
    r := Extended(r0, q, c);
    HandleExactIffSevenDigits(q.resp.data, Child(fs, Number(q.fh.data), q.name).value);
    BoundKept(fs, r0, q, b);
  }

  lemma BoundKept(fs: Fs, r: Run, q: Request, b: nat)
    requires IsRun(fs, r) && q.AskChild? && Legal(q) && Bounded(LastTable(r), b)
    requires Remote(fs, LastTable(r), q).Called?
    ensures Bounded(Remote(fs, LastTable(r), q).table, b + |q.name| + 1)
  {
    WireTransparent(World(fs, q.mem, q.resp), LastTable(r), [], q.fh, q.name, q.before);
    LookupBound(fs, LastTable(r), q.fh.data, q.name, q.mem, q.resp, b);
  }

  // ---------- where the code falls short, in runs

  function Slashes(n: nat): (p: seq<byte>)
    ensures |p| == n && 0 !in p
  {
    seq(n, _ => SLASH)
  }

  lemma {:induction false} SlashesComponents(n: nat)
    ensures Components(Slashes(n)) == []
  {
    if n > 0 {
      SlashesComponents(n - 1);
      assert Slashes(n)[1..] == Slashes(n - 1);
    }
  }

  lemma SlashesName(fs: Fs, n: nat)
    requires n > 0 && IsDir(fs, fs.root)
    ensures WithSlash(Slashes(n)) == Slashes(n) && Resolve(fs, Slashes(n)) == Some(fs.root)
  {
    SlashesComponents(n);
  }

  /** A root path of 1024 bytes. In every file system GETROOT of as many slashes
      succeeds, and its handle then opens nothing defined. */
  lemma LongRootUnopenable(fs: Fs, t: Table, resp: Fh, before: Fh) returns (r: Run)
    requires WellFormed(fs) && IsDir(fs, fs.root) && fs.root <= MAX_EXACT_INO
    ensures IsRun(fs, r) && r.reqs == [AskRoot(Slashes(MAXPATHLEN), Enough, resp, before)]
    ensures Number(r.fhs[0].data) == fs.root
    ensures PathOf(LastTable(r), r.fhs[0].data) == Unterminated && !Opens(fs, LastTable(r), r.fhs[0].data)
  {
    SlashesName(fs, MAXPATHLEN);
    r := RootRun(fs, t, Slashes(MAXPATHLEN), resp, before);
    assert r.reqs == [r.reqs[0]];
    RootValidity(fs, r, 1);
  }

  /** A root path of 1025 bytes: the longest argument, without its slash, naming a
      directory below the file system's root. */
  lemma LongestRootUnopenable(fs: Fs, t: Table, name: Name, resp: Fh, before: Fh) returns (r: Run)
    requires WellFormed(fs) && IsDir(fs, fs.root) && LegalName(name)
    requires Child(fs, fs.root, name).Some? && IsDir(fs, Child(fs, fs.root, name).value)
    requires Child(fs, fs.root, name).value <= MAX_EXACT_INO
    ensures IsRun(fs, r) && r.reqs == [AskRoot(Slashes(MAXPATHLEN - |name|) + name, Enough, resp, before)]
    ensures |RootPath(r)| == MAXPATHLEN + 1 && Child(fs, fs.root, name) == Some(Number(r.fhs[0].data))
    ensures PathOf(LastTable(r), r.fhs[0].data) == Unterminated && !Opens(fs, LastTable(r), r.fhs[0].data)
  {
    var arg := Slashes(MAXPATHLEN - |name|) + name;
    SlashesName(fs, MAXPATHLEN - |name|);
    ResolveChild(fs, Slashes(MAXPATHLEN - |name|), fs.root, name);
    ResolveSlash(fs, arg);
    assert arg[|arg| - 1] == name[|name| - 1];
    r := RootRun(fs, t, arg, resp, before);
    assert r.reqs == [r.reqs[0]];
    RootValidity(fs, r, 1);
  }

  /** The table after the first LOOKUP of a run, made through the root handle. */
  lemma FirstLookup(fs: Fs, r: Run)
    requires IsRun(fs, r) && |r.reqs| == 2 && r.errnos[1] == 0 && SmallRoot(fs, r)
    requires r.reqs[1].fh.data == r.fhs[0].data && LegalName(r.reqs[1].name)
    ensures Resolve(fs, RootPath(r)).Some?
    ensures var root := Resolve(fs, RootPath(r)).value;
            var child := Child(fs, root, r.reqs[1].name);
            var path := RootPath(r) + r.reqs[1].name;
            && child.Some? && child.value in fs.inodes
            && (child.value != root ==>
                  LastTable(r) == [Slot(child.value, if IsDir(fs, child.value) then path + [SLASH] else path),
                                   Slot(root, RootPath(r))])
  {
    RootValidity(fs, r, 1);
    StartTable(fs, r);
    assert Answered(r, 1) && Built(r, 1) == RootPath(r) + r.reqs[1].name;
    ChildPath(fs, RootPath(r), r.tables[1], Number(r.fhs[0].data), r.reqs[1].name);
    StoredFirst(fs, r);
  }

  lemma StoredFirst(fs: Fs, r: Run)
    requires IsRun(fs, r) && Answered(r, 1) && |r.tables[1]| == 1
    ensures var found := Resolve(fs, Built(r, 1));
            && found.Some? && found.value in fs.inodes
            && (found.value != r.tables[1][0].ino ==>
                  r.tables[2] == [Slot(found.value, if IsDir(fs, found.value) then Built(r, 1) + [SLASH] else Built(r, 1)),
                                  r.tables[1][0]])
  {
    AnswerStores(fs, r, 1);
    var rest := r.tables[1];
    assert rest == [rest[0]];
    assert Find(rest, Resolve(fs, Built(r, 1)).value).Some? ==> Resolve(fs, Built(r, 1)).value == rest[0].ino by {
      if Find(rest, Resolve(fs, Built(r, 1)).value).Some? {
        var k := FindSome(rest, Resolve(fs, Built(r, 1)).value);
      }
    }
  }

  /** A looked-up path of 1024 bytes. Any directory below the file system's root,
      looked up from a root path padded with slashes, is answered and stored, and
      its handle then opens nothing defined. */
  lemma LongPathUnopenable(fs: Fs, t: Table, name: Name, resps: seq<Fh>, befores: seq<Fh>) returns (r: Run)
    requires WellFormed(fs) && IsDir(fs, fs.root) && fs.root <= MAX_EXACT_INO && LegalName(name)
    requires Child(fs, fs.root, name).Some? && IsDir(fs, Child(fs, fs.root, name).value)
    requires fs.root != Child(fs, fs.root, name).value <= MAX_EXACT_INO
    requires |resps| == |befores| == 2
    ensures IsRun(fs, r) && Follows(r, t, Slashes(MAXPATHLEN - 1 - |name|), [name], resps, befores)
    ensures Child(fs, fs.root, name) == Some(Number(r.fhs[1].data))
    ensures PathOf(LastTable(r), r.fhs[1].data) == Unterminated && !Opens(fs, LastTable(r), r.fhs[1].data)
  {
    var path := Slashes(MAXPATHLEN - 1 - |name|);
    var d := Child(fs, fs.root, name).value;
    SlashesName(fs, |path|);
    OneNameWalkable(fs, path, name);
    r := WalkHasRun(fs, t, path, [name], resps, befores);
    WalkOne(fs, fs.root, name);
    FirstLookup(fs, r);
    assert r.reqs[1].name == [name][0];
    assert (path + name)[|path + name| - 1] == name[|name| - 1];
    ReachableInv(fs, r, 2);
    OpensIffTerminated(fs, RootPath(r), LastTable(r), r.fhs[1].data);
  }

  lemma OneNameWalkable(fs: Fs, path: seq<byte>, name: Name)
    requires path != [] && WithSlash(path) == path && 0 !in path && LegalName(name)
    requires |path| + |name| + 1 <= MAXPATHLEN
    requires Resolve(fs, path).Some? && Resolve(fs, path).value <= MAX_EXACT_INO
    requires Child(fs, Resolve(fs, path).value, name).Some? && Child(fs, Resolve(fs, path).value, name).value <= MAX_EXACT_INO
    ensures Walkable(fs, path, [name])
  {
    var root := Resolve(fs, path).value;
    WalkOne(fs, root, name);
    assert PathBytes([name]) == PathBytes([]) + |name| + 1 by { assert [name][..0] == []; }
    forall k | 0 <= k <= 1
      ensures Walk(fs, root, [name][..k]).Some? ==> Walk(fs, root, [name][..k]).value <= MAX_EXACT_INO
    {
      if k == 0 { assert [name][..k] == []; } else { assert [name][..k] == [name]; }
    }
  }

  /** The file parent of `FileParentFindsSibling` as a run: GETROOT of the root,
      LOOKUP of `a`, and LOOKUP of `b` through the handle of the file `a`, which
      succeeds with the handle of `ab`, although the file has no children. */
  lemma SiblingRun(t: Table, resps: seq<Fh>, befores: seq<Fh>) returns (r: Run)
    requires |resps| == |befores| == 3
    ensures IsRun(SIBLINGS, r) && Follows(r, t, [SLASH], [[97], [98]], resps, befores)
    ensures Number(r.fhs[1].data) == 2 && Number(r.fhs[2].data) == 3
    ensures Child(SIBLINGS, 2, [98]) == None
  {
    SiblingPaths();
    OneNameWalkable(SIBLINGS, [SLASH], [97]);
    var r2 := WalkHasRun(SIBLINGS, t, [SLASH], [[97]], resps[..2], befores[..2]);
    WalkOne(SIBLINGS, 1, [97]);
    assert r2.reqs[1].name == [97];
    FirstLookup(SIBLINGS, r2);
    assert [SLASH] + [97] == [SLASH, 97];
    assert LastTable(r2) == A_KNOWN;
    FileParentFindsSibling(r2.fhs[1].data, resps[2]);
    var q := AskChild(r2.fhs[1], [98], Enough, resps[2], befores[2]);
    GoesOn(SIBLINGS, r2, q);
    r := Extended(r2, q, Remote(SIBLINGS, LastTable(r2), q));
    HandleExactIffSevenDigits(resps[2].data, 3);
    assert [[97], [98]][..1] == [[97]];
    FollowsSnoc(r2, r, t, [SLASH], [[97], [98]], resps, befores);
  }
}
