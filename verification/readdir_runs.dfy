/** READDIR against the server's table: a whole remote call from the client's
    encoder through the dispatcher, the handle's path and the opened directory back
    to `filldir`, and what it shows in the runs of LOOKUP calls.
 */
module ReaddirRuns {
  import opened Xdr
  import opened Protocol
  import opened Handles
  import opened Errors
  import opened FileTree
  import opened LookupTable
  import opened Requests
  import opened Dispatch
  import opened DirPage
  import opened ServerReaddir
  import opened ClientReaddir
  import opened ReaddirProtocol
  import opened LookupRuns

  /** What `vfs_readdir` would feed for each directory inode. */
  type Listings = Ino -> seq<Entry>

  /** What meets a READDIR request: the file system and its listings, whether the
      open gets what it needs, and what `vfs_readdir` returns for a directory. */
  datatype ReaddirWorld = ReaddirWorld(fs: Fs, ls: Listings, env: OpenEnv, ret: int)

  datatype Source = Source(listing: seq<Entry>, openStat: u32, ret: int)

  /** Opening the handle and listing what was opened; nothing but a directory can
      be listed. None where `filp_open` reads past the path buffer. */
  function SourceOf(w: ReaddirWorld, t: Table, data: FhData): (s: Option<Source>)
    ensures s.Some? ==> OpenStatus(s.value.openStat)
  {
    match OpenHandle(w.fs, t, data, w.env)
    case OpenUndefined => None
    case OpenFailed(status) => Some(Source([], status, 0))
    case OpenedIno(i) => Some(if IsDir(w.fs, i) then Source(w.ls(i), STAT_OK, w.ret) else Source([], STAT_OK, -ENOTDIR))
  }

  function CallOf(s: Source, tail: seq<Word>, filldir: Filldir): Call {
    Call(s.listing, s.openStat, s.ret, tail, filldir)
  }

  // ---------- the remote call

  /** `vsnfsd_dispatch` with the READDIR row: decode, reserve the status word,
      handle, store, and close the page on success. */
  method DispatchReaddir(rqst: Rqst, resp: ReaddirRes, server: Server, w: ReaddirWorld,
                         mem: seq<Word>, argLen: nat, base: nat) returns (pageLen: nat)
    requires argLen <= |mem| && READDIRARGS_SZ <= |mem| && base % PAGE_SIZE == 0
    requires rqst.headLen < rqst.head.Length && resp.page.Length == PAGE_WORDS && resp.page != rqst.head
    requires ReaddirOf(mem[..argLen]).Some? ==>
               SourceOf(w, server.list, ReaddirOf(mem[..argLen]).value.fh.data).Some?
    modifies rqst, rqst.head, resp, resp.page
    ensures match ReaddirOf(mem[..argLen])
            case None => rqst.statp == GarbageArgs && rqst.headLen == old(rqst.headLen) && pageLen == 0
            case Some(a) =>
              var s := SourceOf(w, server.list, a.fh.data).value;
              && rqst.statp == old(rqst.statp) && rqst.headLen == old(rqst.headLen) + 1
              && rqst.head[..rqst.headLen] == old(rqst.head[..rqst.headLen]) + [HandlerStatus(s.openStat, s.ret)]
              && a.count <= PAGE_SIZE
              && (HandlerStatus(s.openStat, s.ret) == STAT_OK ==>
                    && pageLen == 4 * |ServerPage(s.listing, Room(a.count))| <= PAGE_SIZE
                    && resp.page[..pageLen / 4] == ServerPage(s.listing, Room(a.count)))
              && (HandlerStatus(s.openStat, s.ret) != STAT_OK ==> pageLen == 0)
  {
    pageLen := 0;
    var args := DecodeReaddirArgs(mem, argLen);
    if args.None? {
      rqst.statp := GarbageArgs;
      return;
    }
    var at := rqst.headLen;
    rqst.headLen := at + 1;
    var openStat, listing, ret := OpenAndList(server, w, args.value.fh);
    var status;
    status, pageLen := resp.Serve(args.value.count, openStat, listing, ret, base);
    rqst.head[at] := status;
    assert rqst.head[..at + 1] == old(rqst.head[..at]) + [status];
  }

  /** `vsnfsd_readdir` up to the feeding of the listing. */
  method OpenAndList(server: Server, w: ReaddirWorld, fh: Fh) returns (openStat: u32, listing: seq<Entry>, ret: int)
    requires SourceOf(w, server.list, fh.data).Some?
    ensures SourceOf(w, server.list, fh.data) == Some(Source(listing, openStat, ret))
  {
    var o := server.Open(w.fs, fh, w.env);
    openStat, listing, ret := STAT_OK, [], -ENOTDIR;
    if o.OpenFailed? {
      openStat, ret := o.status, 0;
    } else if IsDir(w.fs, o.ino) {
      listing, ret := w.ls(o.ino), w.ret;
    }
  }

  lemma FullPageAsked(fh: Fh)
    ensures ReaddirOf(ReaddirWords(ReaddirArgs(fh, PAGE_SIZE))) == Some(ReaddirArgs(fh, PAGE_SIZE))
  {
    ReaddirAndReadRoundTrip(ReaddirArgs(fh, PAGE_SIZE), ReadArgs(fh, 0, 0));
  }

  /** One `readdir` of a directory inode with handle `fh`: the client encodes, the
      dispatcher runs on the received words (`beyond` is the memory after them), the
      page is received in front of `tail`, and the client walks it. All of it is
      `ReadOnce` of what the handle's path opens. */
  method RemoteReaddir(server: Server, w: ReaddirWorld, fPos: nat, fh: Fh, tail: seq<Word>, filldir: Filldir,
                       beyond: seq<Word>, base: nat) returns (fPos': nat, rc: int, sent: seq<Delivery>)
    requires SourceOf(w, server.list, fh.data).Some?
    requires |beyond| >= READDIRARGS_SZ && base % PAGE_SIZE == 0
    ensures Read(fPos', rc, sent) == ReadOnce(fPos, CallOf(SourceOf(w, server.list, fh.data).value, tail, filldir))
  {
    if fPos != 0 {
      return fPos, 0, [];
    }
    ghost var c := CallOf(SourceOf(w, server.list, fh.data).value, tail, filldir);
    var status, page := FetchPage(server, w, fh, beyond, base);
    var rpc := 0;
    if status != STAT_OK {
      rpc := StatToErrno(status);
      ErrorsStayErrors(c);
    } else {
      PageReplays(c);
    }
    fPos', rc, sent := Readdir(fPos, rpc, page + tail, filldir);
  }

  /** The reply to a READDIR request for a whole page. */
  method FetchPage(server: Server, w: ReaddirWorld, fh: Fh, beyond: seq<Word>, base: nat)
    returns (status: u32, page: seq<Word>)
    requires SourceOf(w, server.list, fh.data).Some?
    requires |beyond| >= READDIRARGS_SZ && base % PAGE_SIZE == 0
    ensures var s := SourceOf(w, server.list, fh.data).value;
            && status == HandlerStatus(s.openStat, s.ret)
            && (status == STAT_OK ==> page == ServerPage(s.listing, Room(PAGE_SIZE)))
  {
    var args := ReaddirArgs(fh, PAGE_SIZE);
    FullPageAsked(fh);
    var buf := new Word[READDIRARGS_SZ];
    var p := EncodeReaddirArgs(buf, args);
    var mem := buf[..p] + beyond;
    assert mem[..p] == ReaddirWords(args);
    var head := new Word[PAGE_WORDS];
    var rqst := new Rqst(head, 0);
    var buffer := new Word[PAGE_WORDS];
    var resp := new ReaddirRes(buffer);
    var pageLen := DispatchReaddir(rqst, resp, server, w, mem, p, base);
    assert head[..1][0] == head[0];
    status, page := head[0], [];
    if status == STAT_OK {
      page := buffer[..pageLen / 4];
    }
  }

  lemma PageReplays(c: Call)
    ensures var room := Room(PAGE_SIZE);
            var ds := Deliveries(Accepted(c.listing, room), LastOffset(c.listing, room));
            var w := WalkPage(ServerPage(c.listing, room) + c.tail, [], c.filldir);
            w == Replay(ds, Complete(c.listing, room), [], c.filldir) && w.Ran?
  {
    var room := Room(PAGE_SIZE);
    ReaddirRoundTrip(c.listing, room, c.tail, c.filldir);
    ReplayEnds(Deliveries(Accepted(c.listing, room), LastOffset(c.listing, room)), Complete(c.listing, room), [], c.filldir);
  }

  // ---------- READDIR in the states of a run

  /** In any state of any run a READDIR, when the open gets what it needs, lists
      the very directory its handle denotes; it fails with NOENT (2) for a handle that
      is not in the table, with ENOTDIR for a known handle of another kind, with NOSPC
      (28) or IO (5) when the buffer or the file is refused. It is undefined exactly
      for a stored path without room for its terminator. */
  lemma ReaddirSource(w: ReaddirWorld, r: Run, j: nat, data: FhData)
    requires IsRun(w.fs, r) && 0 < j < |r.tables|
    ensures SourceOf(w, r.tables[j], data)
         == if !w.env.buffer then Some(Source([], 28, 0))
            else match Find(r.tables[j], Number(data))
                 case None => Some(Source([], 2, 0))
                 case Some(p) =>
                   if |p| >= 1024 then None
                   else if !w.env.file then Some(Source([], 5, 0))
                   else if IsDir(w.fs, Number(data)) then Some(Source(w.ls(Number(data)), 0, w.ret))
                   else Some(Source([], 0, -20))
  {
    ReachableInv(w.fs, r, j);
    OpenExactly(w.fs, RootPath(r), r.tables[j], data, w.env);
  }

  /** What the client's `readdir` then reports: the errno of each failure, and for a
      directory the error of `vfs_readdir` if it crosses the wire, else -EIO. */
  lemma ReaddirReports(w: ReaddirWorld, r: Run, j: nat, data: FhData, tail: seq<Word>, filldir: Filldir)
    requires IsRun(w.fs, r) && 0 < j < |r.tables| && SourceOf(w, r.tables[j], data).Some?
    ensures var read := ReadOnce(0, CallOf(SourceOf(w, r.tables[j], data).value, tail, filldir));
            if !w.env.buffer then read == Read(0, -28, [])
            else if Find(r.tables[j], Number(data)).None? then read == Read(0, -2, [])
            else if !w.env.file then read == Read(0, -5, [])
            else if !IsDir(w.fs, Number(data)) then read == Read(0, -20, [])
            else if w.ret < 0 then read == Read(0, if Survives(w.ret) then w.ret else -5, [])
            else read == ReadOnce(0, Call(w.ls(Number(data)), 0, w.ret, tail, filldir))
  {
    ReaddirSource(w, r, j, data);
    ReadFailures(CallOf(SourceOf(w, r.tables[j], data).value, tail, filldir));
  }

  /** The listings are those of the file system: legal names that lead where its
      directories say. */
  ghost predicate Consistent(w: ReaddirWorld) {
    forall d, i :: IsDir(w.fs, d) && 0 <= i < |w.ls(d)| ==>
      LegalName(w.ls(d)[i].name) && Child(w.fs, d, w.ls(d)[i].name) == Some(w.ls(d)[i].ino)
  }

  /** Nothing is delivered unless a directory was opened. */
  lemma DeliveredFromDirectory(w: ReaddirWorld, r: Run, j: nat, data: FhData, tail: seq<Word>, filldir: Filldir)
    requires IsRun(w.fs, r) && 0 < j < |r.tables|
    requires SourceOf(w, r.tables[j], data).Some?
    requires ReadOnce(0, CallOf(SourceOf(w, r.tables[j], data).value, tail, filldir)).sent != []
    ensures Find(r.tables[j], Number(data)).Some? && IsDir(w.fs, Number(data))
    ensures SourceOf(w, r.tables[j], data).value.listing == w.ls(Number(data))
  {
    ErrnoEndToEnd(-ENOTDIR);
    StatusZeroIffErrnoZero(-ENOTDIR);
    var o := OpenHandle(w.fs, r.tables[j], data, w.env);
    assert o.OpenedIno? && IsDir(w.fs, o.ino);
    ReachableInv(w.fs, r, j);
    OpensIffTerminated(w.fs, RootPath(r), r.tables[j], data);
  }

  lemma DeliveredIsListed(c: Call, d: Delivery) returns (i: nat)
    requires d in ReadOnce(0, c).sent
    ensures i < |c.listing| && d.name == SentName(c.listing[i]) && d.ino == c.listing[i].ino
  {
    i :| 0 <= i < |ReadOnce(0, c).sent| && ReadOnce(0, c).sent[i] == d;
    SentFields(c, i);
  }

  /** READDIR and LOOKUP agree. Take any run, a READDIR in one of its states, and a
      name it delivered (whatever stopped it). A later successful LOOKUP of that name
      through the same handle returns the inode number READDIR delivered. */
  lemma ListedNamesLookUp(w: ReaddirWorld, r: Run, j: nat, k: nat, tail: seq<Word>, filldir: Filldir, d: Delivery)
    requires IsRun(w.fs, r) && Consistent(w)
    requires 0 < j <= k < |r.reqs| && r.errnos[k] == 0
    requires SourceOf(w, r.tables[j], r.reqs[k].fh.data).Some?
    requires d in ReadOnce(0, CallOf(SourceOf(w, r.tables[j], r.reqs[k].fh.data).value, tail, filldir)).sent
    requires r.reqs[k].name == d.name
    requires Answered(r, k) ==> SmallAnswer(w.fs, r, k)
    ensures Answered(r, k) && Number(r.fhs[k].data) == d.ino
  {
    var data := r.reqs[k].fh.data;
    var c := CallOf(SourceOf(w, r.tables[j], data).value, tail, filldir);
    DeliveredFromDirectory(w, r, j, data, tail, filldir);
    RunIsGood(w.fs, r);
    GoodPersists(w.fs, r, j, k, Number(data));
    var i := DeliveredIsListed(c, d);
    assert LegalName(w.ls(Number(data))[i].name);
    ChainLink(w.fs, r, k);
  }
}
