/** Whole runs of remote calls: a successful GETROOT followed by any sequence of
    LOOKUP calls over the wire, with any handles and in any order, up to the next
    GETROOT. Nothing is assumed about the table before the GETROOT, so every
    history is covered period by period.
 */
module LookupRuns {
  import opened Xdr
  import opened Protocol
  import opened Handles
  import opened Errors
  import opened FileTree
  import opened LookupTable
  import opened Dispatch
  import opened InodeCache

  /** One call: the client's arguments, and what surrounds the call (the state
      of memory, the old contents of the server's and the client's handle). */
  datatype Request =
    | AskRoot(path: seq<byte>, mem: Memory, resp: Fh, before: Fh)
    | AskChild(fh: Fh, name: Name, mem: Memory, resp: Fh, before: Fh)

  /** Arguments the server's decoders let through. */
  predicate Legal(q: Request) {
    match q
    case AskRoot(path, _, _, _) => |path| <= MAXPATHLEN && 0 !in path
    case AskChild(_, name, _, _, _) => |name| <= MAXNAMLEN && 0 !in name && SLASH !in name
  }

  /** The remote call, encoders, dispatcher and decoders included. */
  function Remote(fs: Fs, t: Table, q: Request): Called
    requires WellFormed(fs) && Legal(q)
  {
    match q
    case AskRoot(path, mem, resp, before) => CallGetroot(World(fs, mem, resp), t, path, before)
    case AskChild(fh, name, mem, resp, before) => CallLookup(World(fs, mem, resp), t, fh, name, before)
  }

  /** Calls, the server's table around them, and what the client got. */
  datatype Run = Run(reqs: seq<Request>, tables: seq<Table>, errnos: seq<int>, fhs: seq<Fh>)

  predicate Shaped(r: Run) {
    && 0 < |r.reqs| == |r.errnos| == |r.fhs| && |r.tables| == |r.reqs| + 1
    && r.reqs[0].AskRoot?
    && forall i :: 0 < i < |r.reqs| ==> r.reqs[i].AskChild?
  }

  ghost predicate WireStep(fs: Fs, r: Run, i: nat)
    requires WellFormed(fs) && Shaped(r) && i < |r.reqs|
  {
    Legal(r.reqs[i]) && Remote(fs, r.tables[i], r.reqs[i]) == Called(r.tables[i + 1], r.errnos[i], r.fhs[i])
  }

  ghost predicate IsRun(fs: Fs, r: Run) {
    && WellFormed(fs) && Shaped(r) && r.errnos[0] == 0
    && forall i :: 0 <= i < |r.reqs| ==> WireStep(fs, r, i)
  }

  /** The exported path, as the server stores it. */
  function RootPath(r: Run): seq<byte>
    requires Shaped(r)
  {
    WithSlash(r.reqs[0].path)
  }

  // ---------- from the wire to the handler

  function Handler(fs: Fs, r: Run, i: nat): Outcome
    requires WellFormed(fs) && Shaped(r) && 0 < i < |r.reqs|
  {
    LookupStep(fs, r.tables[i], r.reqs[i].fh.data, r.reqs[i].name, r.reqs[i].mem, r.reqs[i].resp)
  }

  /** Call i as the handler sees it: it is defined, and the client gets errno 0
      and the handle exactly for status OK. */
  ghost predicate HandledStep(fs: Fs, r: Run, i: nat)
    requires WellFormed(fs) && Shaped(r) && 0 < i < |r.reqs|
  {
    var out := Handler(fs, r, i);
    && Legal(r.reqs[i])
    && out.Replied? && out.table == r.tables[i + 1]
    && (r.errnos[i] == 0 <==> out.status == STAT_OK)
    && (r.errnos[i] == 0 ==> r.fhs[i] == out.fh)
    && (r.errnos[i] != 0 ==> r.errnos[i] == -EIO && r.fhs[i] == r.reqs[i].before)
  }

  /** After GETROOT the table is the root's slot alone and satisfies the
      invariant; every later step is a step of the handler. */
  ghost predicate GoodRun(fs: Fs, r: Run) {
    && WellFormed(fs) && Shaped(r)
    && Inv(fs, RootPath(r), r.tables[1])
    && forall i :: 0 < i < |r.reqs| ==> HandledStep(fs, r, i)
  }

  lemma LookupStatuses(fs: Fs, r: Run, i: nat)
    requires WellFormed(fs) && Shaped(r) && 0 < i < |r.reqs|
    ensures Handler(fs, r, i).Replied? ==> Handler(fs, r, i).status == STAT_OK || Handler(fs, r, i).status == NEGATED_NOSPC
  {
  }

  lemma WireStepIsHandled(fs: Fs, r: Run, i: nat)
    requires WellFormed(fs) && Shaped(r) && 0 < i < |r.reqs| && WireStep(fs, r, i)
    ensures HandledStep(fs, r, i)
  {
    var q := r.reqs[i];
    WireTransparent(World(fs, q.mem, q.resp), r.tables[i], [], q.fh, q.name, q.before);
    LookupStatuses(fs, r, i);
    SeenStatus(Handler(fs, r, i), q.before);
  }

  /** GETROOT over the wire, when the client sees success. */
  lemma GetrootOverWire(w: World, t: Table, path: seq<byte>, before: Fh)
    requires WellFormed(w.fs) && |path| <= MAXPATHLEN && 0 !in path
    requires var c := CallGetroot(w, t, path, before); c.Called? && c.errno == 0
    ensures var c := CallGetroot(w, t, path, before);
            var root := Resolve(w.fs, WithSlash(path));
            && root.Some? && IsDir(w.fs, root.value)
            && c.fh == Fh(PrintIno(w.resp.data, root.value), TYPE_DIR)
            && c.table == [Slot(root.value, WithSlash(path))]
            && Inv(w.fs, WithSlash(path), c.table)
  {
    WireTransparent(w, t, path, before, [], before);
    GetrootFindsDirectories(w.fs, t, path, w.mem, w.resp);
    SeenStatus(GetrootStep(w.fs, t, path, w.mem, w.resp), before);
    GetrootEstablishes(w.fs, t, path, w.mem, w.resp);
  }

  /** The start of a run: the root's slot alone, and the root's handle. */
  lemma StartTable(fs: Fs, r: Run)
    requires IsRun(fs, r)
    ensures var root := Resolve(fs, RootPath(r));
            && root.Some? && IsDir(fs, root.value)
            && r.fhs[0] == Fh(PrintIno(r.reqs[0].resp.data, root.value), TYPE_DIR)
            && r.tables[1] == [Slot(root.value, RootPath(r))]
    ensures Inv(fs, RootPath(r), r.tables[1])
  {
    assert WireStep(fs, r, 0);
    var q := r.reqs[0];
    GetrootOverWire(World(fs, q.mem, q.resp), r.tables[0], q.path, q.before);
  }

  lemma RunIsGood(fs: Fs, r: Run)
    requires IsRun(fs, r)
    ensures GoodRun(fs, r)
  {
    StartTable(fs, r);
    forall i | 0 < i < |r.reqs| ensures HandledStep(fs, r, i) {
      assert WireStep(fs, r, i);
      WireStepIsHandled(fs, r, i);
    }
  }

  // ---------- every reachable state

  lemma StepKeeps(fs: Fs, r: Run, i: nat)
    requires GoodRun(fs, r) && 0 < i < |r.reqs| && Inv(fs, RootPath(r), r.tables[i])
    ensures Inv(fs, RootPath(r), r.tables[i + 1])
    ensures forall j {:trigger Find(r.tables[i + 1], j)} ::
              Find(r.tables[i], j).Some? ==> Find(r.tables[i + 1], j) == Find(r.tables[i], j)
  {
    assert HandledStep(fs, r, i);
    LookupKeeps(fs, RootPath(r), r.tables[i], r.reqs[i].fh.data, r.reqs[i].name, r.reqs[i].mem, r.reqs[i].resp);
  }

  lemma {:induction false} GoodInv(fs: Fs, r: Run, i: nat)
    requires GoodRun(fs, r) && 0 < i < |r.tables|
    ensures Inv(fs, RootPath(r), r.tables[i])
  {
    if i > 1 {
      GoodInv(fs, r, i - 1);
      StepKeeps(fs, r, i - 1);
    }
  }

  /** The table invariant holds in every state of every run. */
  lemma ReachableInv(fs: Fs, r: Run, i: nat)
    requires IsRun(fs, r) && 0 < i < |r.tables|
    ensures Inv(fs, RootPath(r), r.tables[i])
  {
    RunIsGood(fs, r);
    GoodInv(fs, r, i);
  }

  /** A number once found keeps its path for the rest of the run. */
  lemma {:induction false} GoodPersists(fs: Fs, r: Run, i: nat, j: nat, ino: Ino)
    requires GoodRun(fs, r) && 0 < i <= j < |r.tables|
    requires Find(r.tables[i], ino).Some?
    ensures Find(r.tables[j], ino) == Find(r.tables[i], ino)
    decreases j - i
  {
    if i < j {
      GoodPersists(fs, r, i, j - 1, ino);
      GoodInv(fs, r, j - 1);
      StepKeeps(fs, r, j - 1);
    }
  }

  /** Call i is a LOOKUP that succeeded, and its parent handle was in the table. */
  ghost predicate Answered(r: Run, i: nat) {
    && Shaped(r) && 0 < i < |r.reqs| && r.errnos[i] == 0
    && Find(r.tables[i], Number(r.reqs[i].fh.data)).Some?
  }

  /** The path the server builds for call i. */
  function Built(r: Run, i: nat): seq<byte>
    requires Answered(r, i)
  {
    Find(r.tables[i], Number(r.reqs[i].fh.data)).value + r.reqs[i].name
  }

  /** The inode LOOKUP resolves in call i has at most seven digits. */
  ghost predicate SmallAnswer(fs: Fs, r: Run, i: nat)
    requires Answered(r, i)
  {
    Resolve(fs, Built(r, i)).Some? ==> Resolve(fs, Built(r, i)).value <= MAX_EXACT_INO
  }

  lemma AnswerShape(fs: Fs, r: Run, i: nat)
    requires WellFormed(fs) && Answered(r, i) && HandledStep(fs, r, i)
    ensures Resolve(fs, Built(r, i)).Some?
    ensures Resolve(fs, Built(r, i)).value in fs.inodes
    ensures r.fhs[i] == Fh(PrintIno(r.reqs[i].resp.data, Resolve(fs, Built(r, i)).value),
                           TypeOf(fs.inodes[Resolve(fs, Built(r, i)).value], r.reqs[i].resp.typ))
    ensures Find(r.tables[i + 1], Resolve(fs, Built(r, i)).value).Some?
  {
    ResolveStays(fs, Built(r, i));
  }

  /** After a successful LOOKUP of a known parent the answered handle denotes
      the inode the built path names, and that inode is in the table. */
  lemma AnswerKnown(fs: Fs, r: Run, i: nat)
    requires GoodRun(fs, r) && Answered(r, i) && SmallAnswer(fs, r, i)
    ensures Resolve(fs, Built(r, i)) == Some(Number(r.fhs[i].data))
    ensures Number(r.fhs[i].data) in fs.inodes
    ensures Find(r.tables[i + 1], Number(r.fhs[i].data)).Some?
  {
    assert HandledStep(fs, r, i);
    AnswerShape(fs, r, i);
    HandleExactIffSevenDigits(r.reqs[i].resp.data, Resolve(fs, Built(r, i)).value);
  }

  /** The bound is exact: the answered handle denotes the inode LOOKUP resolved
      if and only if its number has at most seven digits. Its type is the
      inode's kind in any case. */
  lemma AnswerExactIffSmall(fs: Fs, r: Run, i: nat)
    requires IsRun(fs, r) && Answered(r, i)
    ensures var found := Resolve(fs, Built(r, i));
            && found.Some? && found.value in fs.inodes
            && (Number(r.fhs[i].data) == found.value <==> found.value <= MAX_EXACT_INO)
            && r.fhs[i].typ == TypeOf(fs.inodes[found.value], r.reqs[i].resp.typ)
  {
    RunIsGood(fs, r);
    assert HandledStep(fs, r, i);
    AnswerShape(fs, r, i);
    HandleExactIffSevenDigits(r.reqs[i].resp.data, Resolve(fs, Built(r, i)).value);
  }

  /** The type in the answered handle: 1 for a regular file, 2 for a directory, and
      for anything else what the response structure held. */
  lemma AnswerType(fs: Fs, r: Run, i: nat)
    requires IsRun(fs, r) && Answered(r, i)
    ensures var found := Resolve(fs, Built(r, i));
            && found.Some? && found.value in fs.inodes
            && r.fhs[i].typ == (if fs.inodes[found.value].Reg? then 1
                                else if fs.inodes[found.value].Dir? then 2
                                else r.reqs[i].resp.typ)
  {
    AnswerExactIffSmall(fs, r, i);
  }

  /** What an answered LOOKUP stores: nothing if the inode is known, else one slot at
      the head, with the built path and, for a directory, its slash. */
  lemma AnswerStores(fs: Fs, r: Run, i: nat)
    requires IsRun(fs, r) && Answered(r, i)
    ensures var found := Resolve(fs, Built(r, i));
            && found.Some? && found.value in fs.inodes
            && (Find(r.tables[i], found.value).Some? ==> r.tables[i + 1] == r.tables[i])
            && (Find(r.tables[i], found.value).None? ==>
                  r.tables[i + 1] == [Slot(found.value, if fs.inodes[found.value].Dir? then Built(r, i) + [47] else Built(r, i))]
                                   + r.tables[i])
  {
    RunIsGood(fs, r);
    assert HandledStep(fs, r, i);
    AnswerShape(fs, r, i);
    GoodInv(fs, r, i);
    NewDirectoryHasNoSlash(fs, r, i);
  }

  /** An answered path, with a directory's slash, never exceeds 1024 bytes. */
  lemma AnswerFits(fs: Fs, r: Run, i: nat)
    requires IsRun(fs, r) && Answered(r, i)
    ensures var found := Resolve(fs, Built(r, i));
            && found.Some?
            && |Built(r, i)| + (if IsDir(fs, found.value) && !EndsInSlash(Built(r, i)) then 1 else 0) <= 1024
  {
    RunIsGood(fs, r);
    assert HandledStep(fs, r, i);
    AnswerShape(fs, r, i);
  }

  /** A built path that ends in a slash is the parent's own, of an empty name. */
  lemma NewDirectoryHasNoSlash(fs: Fs, r: Run, i: nat)
    requires WellFormed(fs) && Answered(r, i) && HandledStep(fs, r, i) && Inv(fs, RootPath(r), r.tables[i])
    ensures EndsInSlash(Built(r, i)) ==>
              Resolve(fs, Built(r, i)).Some? && Find(r.tables[i], Resolve(fs, Built(r, i)).value).Some?
  {
    var parent, name := Number(r.reqs[i].fh.data), r.reqs[i].name;
    FindGood(fs, RootPath(r), r.tables[i], parent);
    if name == [] {
      assert Built(r, i) == Find(r.tables[i], parent).value;
    } else {
      assert Built(r, i)[|Built(r, i)| - 1] == name[|name| - 1];
    }
  }

  /** When a LOOKUP fails: exactly when the parent is known and either the path
      buffer is missing, or the inode is new and memory for its path is. The client
      then gets -EIO and its own handle back, and the table stays. */
  lemma LookupFailsIff(fs: Fs, r: Run, i: nat)
    requires IsRun(fs, r) && 0 < i < |r.reqs|
    ensures var q := r.reqs[i];
            var known := Find(r.tables[i], Number(q.fh.data));
            && (r.errnos[i] != 0 <==>
                  && known.Some?
                  && (q.mem.NoBuffer?
                      || (q.mem.NoNodePath? && Resolve(fs, known.value + q.name).Some?
                          && Find(r.tables[i], Resolve(fs, known.value + q.name).value).None?)))
            && (r.errnos[i] != 0 ==> r.errnos[i] == -5 && r.fhs[i] == q.before && r.tables[i + 1] == r.tables[i])
  {
    RunIsGood(fs, r);
    assert HandledStep(fs, r, i);
  }

  /** Handle validity: once answered, a handle keeps its stored path for the rest
      of the run, whatever lookups come in between, and opens it, as the inode it
      was answered for, if and only if that path leaves room for its terminator. */
  lemma HandleValidity(fs: Fs, r: Run, i: nat, j: nat)
    requires IsRun(fs, r) && Answered(r, i) && SmallAnswer(fs, r, i)
    requires i < j <= |r.reqs|
    ensures Resolve(fs, Built(r, i)) == Some(Number(r.fhs[i].data))
    ensures Find(r.tables[i + 1], Number(r.fhs[i].data)).Some?
    ensures var p := Find(r.tables[i + 1], Number(r.fhs[i].data)).value;
            && Find(r.tables[j], Number(r.fhs[i].data)) == Some(p)
            && PathOf(r.tables[j], r.fhs[i].data) == (if |p| < MAXPATHLEN then Path(p) else Unterminated)
            && (Opens(fs, r.tables[j], r.fhs[i].data) <==> |p| < MAXPATHLEN)
  {
    RunIsGood(fs, r);
    AnswerKnown(fs, r, i);
    GoodPersists(fs, r, i + 1, j, Number(r.fhs[i].data));
    GoodInv(fs, r, j);
    OpensIffTerminated(fs, RootPath(r), r.tables[j], r.fhs[i].data);
  }

  ghost predicate SmallRoot(fs: Fs, r: Run)
    requires Shaped(r)
  {
    Resolve(fs, RootPath(r)).Some? ==> Resolve(fs, RootPath(r)).value <= MAX_EXACT_INO
  }

  /** The root handle denotes the exported directory in every state, and opens
      it if and only if the root path leaves room for its terminator. */
  lemma RootValidity(fs: Fs, r: Run, j: nat)
    requires IsRun(fs, r) && SmallRoot(fs, r) && 0 < j < |r.tables|
    ensures Resolve(fs, RootPath(r)) == Some(Number(r.fhs[0].data)) && IsDir(fs, Number(r.fhs[0].data))
    ensures Find(r.tables[j], Number(r.fhs[0].data)) == Some(RootPath(r))
    ensures PathOf(r.tables[j], r.fhs[0].data) == if |RootPath(r)| < MAXPATHLEN then Path(RootPath(r)) else Unterminated
    ensures Opens(fs, r.tables[j], r.fhs[0].data) <==> |RootPath(r)| < MAXPATHLEN
  {
    RunIsGood(fs, r);
    StartTable(fs, r);
    var root := Resolve(fs, RootPath(r)).value;
    HandleExactIffSevenDigits(r.reqs[0].resp.data, root);
    GoodPersists(fs, r, 1, j, root);
    GoodInv(fs, r, j);
    OpensIffTerminated(fs, RootPath(r), r.tables[j], r.fhs[0].data);
  }

  // ---------- handles the server never gave out

  /** A LOOKUP through a handle that is not in the table succeeds all the same:
      the client gets whatever the response structure held, and nothing changes. */
  lemma UnknownParent(fs: Fs, r: Run, i: nat)
    requires IsRun(fs, r) && 0 < i < |r.reqs|
    requires Find(r.tables[i], Number(r.reqs[i].fh.data)).None?
    ensures r.errnos[i] == 0 && r.fhs[i] == r.reqs[i].resp && r.tables[i + 1] == r.tables[i]
  {
    RunIsGood(fs, r);
    assert HandledStep(fs, r, i);
  }

  /** So success alone does not make a handle valid. When the response structure
      held no known handle, a successful LOOKUP returns a known one if and only if
      the parent was known. */
  lemma ValidIffParentKnown(fs: Fs, r: Run, i: nat)
    requires IsRun(fs, r) && 0 < i < |r.reqs| && r.errnos[i] == 0
    requires Find(r.tables[i], Number(r.reqs[i].resp.data)).None?
    requires Answered(r, i) ==> SmallAnswer(fs, r, i)
    ensures Find(r.tables[i + 1], Number(r.fhs[i].data)).Some? <==> Find(r.tables[i], Number(r.reqs[i].fh.data)).Some?
    ensures PathOf(r.tables[i + 1], r.fhs[i].data) != NotFound <==> Find(r.tables[i], Number(r.reqs[i].fh.data)).Some?
  {
    RunIsGood(fs, r);
    if Answered(r, i) {
      AnswerKnown(fs, r, i);
    } else {
      UnknownParent(fs, r, i);
    }
  }

  // ---------- lookups against the plain walk

  /** Positions of a run that form a chain: each call uses the handle the
      previous one in the chain returned, the first uses the root handle. Other
      calls may come in between. */
  ghost predicate Chain(r: Run, ks: seq<nat>) {
    && Shaped(r)
    && (forall m :: 0 <= m < |ks| ==> 0 < ks[m] < |r.reqs| && r.errnos[ks[m]] == 0)
    && (forall m :: 0 < m < |ks| ==> ks[m - 1] < ks[m])
    && (forall m :: 0 <= m < |ks| ==> r.reqs[ks[m]].name != [])
    && (|ks| > 0 ==> r.reqs[ks[0]].fh.data == r.fhs[0].data)
    && (forall m :: 0 < m < |ks| ==> r.reqs[ks[m]].fh.data == r.fhs[ks[m - 1]].data)
  }

  ghost predicate Positions(r: Run, ks: seq<nat>) {
    Shaped(r) && forall m :: 0 <= m < |ks| ==> 0 < ks[m] < |r.reqs|
  }

  function ChainNames(r: Run, ks: seq<nat>): (names: seq<Name>)
    requires Positions(r, ks)
    ensures |names| == |ks|
  {
    seq(|ks|, m requires 0 <= m < |ks| => r.reqs[ks[m]].name)
  }

  /** The handle the chain has reached after m calls. */
  function Reached(r: Run, ks: seq<nat>, m: nat): Fh
    requires Positions(r, ks) && m <= |ks|
  {
    if m == 0 then r.fhs[0] else r.fhs[ks[m - 1]]
  }

  /** Every handle reached before the last call is a directory's. */
  ghost predicate ThroughDirectories(fs: Fs, r: Run, ks: seq<nat>)
    requires Positions(r, ks)
  {
    forall m :: 0 <= m < |ks| ==> IsDir(fs, Number(Reached(r, ks, m).data))
  }

  /** The inodes met on the chain have at most seven digits. */
  ghost predicate SmallChain(fs: Fs, r: Run, ks: seq<nat>) {
    forall m :: 0 <= m < |ks| && Answered(r, ks[m]) ==> SmallAnswer(fs, r, ks[m])
  }

  /** One more link, from a known directory handle. */
  lemma ChainLink(fs: Fs, r: Run, k: nat)
    requires GoodRun(fs, r) && Answered(r, k) && SmallAnswer(fs, r, k)
    requires r.reqs[k].name != [] && IsDir(fs, Number(r.reqs[k].fh.data))
    ensures Child(fs, Number(r.reqs[k].fh.data), r.reqs[k].name) == Some(Number(r.fhs[k].data))
  {
    GoodInv(fs, r, k);
    AnswerKnown(fs, r, k);
    assert HandledStep(fs, r, k);
    ChildPath(fs, RootPath(r), r.tables[k], Number(r.reqs[k].fh.data), r.reqs[k].name);
  }

  /** The chain's parent handle is known when it is used. */
  lemma {:induction false} ParentKnown(fs: Fs, r: Run, ks: seq<nat>, m: nat)
    requires GoodRun(fs, r) && Chain(r, ks) && SmallChain(fs, r, ks) && m < |ks|
    requires Find(r.tables[1], Number(r.fhs[0].data)).Some?
    ensures Answered(r, ks[m])
  {
    if m == 0 {
      GoodPersists(fs, r, 1, ks[0], Number(r.fhs[0].data));
    } else {
      ParentKnown(fs, r, ks, m - 1);
      AnswerKnown(fs, r, ks[m - 1]);
      GoodPersists(fs, r, ks[m - 1] + 1, ks[m], Number(r.fhs[ks[m - 1]].data));
    }
  }

  /** Adding a call to a chain adds a name to the walk and a handle to pass. */
  lemma ChainSnoc(r: Run, ks: seq<nat>, init: seq<nat>)
    requires Chain(r, ks) && ks != [] && init == ks[..|ks| - 1]
    ensures Chain(r, init)
    ensures ChainNames(r, ks) == ChainNames(r, init) + [r.reqs[ks[|init|]].name]
    ensures Reached(r, ks, |init|) == Reached(r, init, |init|)
    ensures r.reqs[ks[|init|]].fh.data == Reached(r, ks, |init|).data
  {
    assert forall m :: 0 <= m < |init| ==> init[m] == ks[m];
  }

  lemma PassedSnoc(fs: Fs, r: Run, ks: seq<nat>, init: seq<nat>)
    requires Positions(r, ks) && ks != [] && init == ks[..|ks| - 1]
    ensures ThroughDirectories(fs, r, ks)
       <==> ThroughDirectories(fs, r, init) && IsDir(fs, Number(Reached(r, ks, |init|).data))
  {
    assert forall m :: 0 <= m < |init| ==> Reached(r, init, m) == Reached(r, ks, m);
  }

  lemma {:induction false} GoodChainIsWalk(fs: Fs, r: Run, ks: seq<nat>)
    requires GoodRun(fs, r) && Chain(r, ks) && SmallChain(fs, r, ks)
    requires Find(r.tables[1], Number(r.fhs[0].data)).Some?
    ensures var walked := Walk(fs, Number(r.fhs[0].data), ChainNames(r, ks));
            && (walked.Some? <==> ThroughDirectories(fs, r, ks))
            && (walked.Some? ==> walked.value == Number(Reached(r, ks, |ks|).data))
    decreases |ks|
  {
    if ks != [] {
      var init, k := ks[..|ks| - 1], ks[|ks| - 1];
      var parent := Number(Reached(r, ks, |ks| - 1).data);
      ChainSnoc(r, ks, init);
      PassedSnoc(fs, r, ks, init);
      GoodChainIsWalk(fs, r, init);
      WalkAppend(fs, Number(r.fhs[0].data), ChainNames(r, init), [r.reqs[k].name]);
      WalkOne(fs, parent, r.reqs[k].name);
      if IsDir(fs, parent) {
        ParentKnown(fs, r, ks, |ks| - 1);
        ChainLink(fs, r, k);
      }
    }
  }

  /** The main theorem. In any run, a chain of lookups from the root handle
      agrees with the plain child-by-child walk from the exported directory:
      the walk exists exactly when the chain went through directories, and then
      the last handle is that of the inode the walk reaches. */
  lemma ChainIsWalk(fs: Fs, r: Run, ks: seq<nat>)
    requires IsRun(fs, r) && Chain(r, ks) && SmallRoot(fs, r) && SmallChain(fs, r, ks)
    ensures var root := Resolve(fs, RootPath(r));
            && root.Some?
            && var walked := Walk(fs, root.value, ChainNames(r, ks));
            && (walked.Some? <==> ThroughDirectories(fs, r, ks))
            && (walked.Some? ==> walked.value == Number(Reached(r, ks, |ks|).data))
  {
    RunIsGood(fs, r);
    RootValidity(fs, r, 1);
    GoodChainIsWalk(fs, r, ks);
  }

  // ---------- the client's inodes

  /** Two answered calls of a run reach the same cached inode on the client
      exactly when the server resolved them to the same inode. */
  lemma CachedInodesIdentify(fs: Fs, r: Run, i: nat, j: nat, cache: Cache, hs: seq<Fh>, a: nat, b: nat)
    requires IsRun(fs, r)
    requires Answered(r, i) && SmallAnswer(fs, r, i) && Answered(r, j) && SmallAnswer(fs, r, j)
    requires Holds(cache, hs) && a < |hs| && hs[a] == r.fhs[i] && b < |hs| && hs[b] == r.fhs[j]
    ensures Number(hs[a].data) in cache && Number(hs[b].data) in cache
    ensures cache[Number(hs[a].data)] == cache[Number(hs[b].data)]
       <==> Resolve(fs, Built(r, i)) == Resolve(fs, Built(r, j))
  {
    RunIsGood(fs, r);
    assert HandledStep(fs, r, i) && HandledStep(fs, r, j);
    AnswerShape(fs, r, i);
    AnswerShape(fs, r, j);
    SameInodeSameEntry(cache, hs, a, b, Resolve(fs, Built(r, i)).value, Resolve(fs, Built(r, j)).value,
                       r.reqs[i].resp.data, r.reqs[j].resp.data);
  }
}
