/** The dispatcher for GETROOT and LOOKUP, and a whole remote call: encode on
    the client, dispatch on the server, decode on the client.
 */
module Dispatch {
  import opened Xdr
  import opened Protocol
  import opened Handles
  import opened Errors
  import opened FileTree
  import opened LookupTable
  import opened Requests

  datatype Proc = Getroot | Lookup
  datatype AcceptStat = Success | GarbageArgs | SystemErr

  /** What arrives at the handler from outside the request: the file system, the
      state of memory, and the old contents of the response structure. */
  datatype World = World(fs: Fs, mem: Memory, resp: Fh)

  /** `Garbage`: refused before the handler runs. `Faulted`: the handler left
      defined behaviour. Otherwise the table and the reply words. */
  datatype Served = Garbage | Faulted | Served(table: Table, words: seq<Word>)

  function Framed(out: Outcome): Served {
    match out
    case Undefined => Faulted
    case Replied(t, status, fh) => Served(t, FhReply(status, fh))
  }

  function Serve(w: World, t: Table, proc: Proc, args: seq<Word>): Served
    requires WellFormed(w.fs)
  {
    match proc
    case Getroot => (
      match GetrootOf(args)
      case None => Garbage
      case Some(path) => Framed(GetrootStep(w.fs, t, path, w.mem, w.resp)))
    case Lookup => (
      match LookupOf(args)
      case None => Garbage
      case Some(a) => Framed(LookupStep(w.fs, t, a.fh.data, a.name, w.mem, w.resp)))
  }

  function Handled(w: World, t: Table, getroot: Option<seq<byte>>, lookup: Option<LookupArgs>): Outcome
    requires WellFormed(w.fs)
    requires getroot.Some? || lookup.Some?
  {
    if getroot.Some? then GetrootStep(w.fs, t, getroot.value, w.mem, w.resp)
    else LookupStep(w.fs, t, lookup.value.fh.data, lookup.value.name, w.mem, w.resp)
  }

  lemma ServedAsHandled(w: World, t: Table, proc: Proc, args: seq<Word>,
                        getroot: Option<seq<byte>>, lookup: Option<LookupArgs>)
    requires WellFormed(w.fs)
    requires getroot == if proc.Getroot? then GetrootOf(args) else None
    requires lookup == if proc.Lookup? then LookupOf(args) else None
    requires getroot.Some? || lookup.Some?
    ensures Serve(w, t, proc, args) == Framed(Handled(w, t, getroot, lookup))
  {
  }

  /** The reply side of `struct svc_rqst`. */
  class Rqst {
    const head: array<Word>
    var headLen: nat
    var statp: AcceptStat

    constructor (head: array<Word>, headLen: nat)
      requires headLen <= head.Length
      ensures this.head == head && this.headLen == headLen && statp == Success
    {
      this.head, this.headLen, statp := head, headLen, Success;
    }

    /** `vsnfssvc_encode_fhandle` with `xdr_ressize_check`. */
    method EncodeFhandle(p: nat, fh: Fh) returns (ok: bool)
      requires p + 3 <= head.Length <= PAGE_WORDS
      modifies `headLen, head
      ensures ok && headLen == p + 3 && head[..headLen] == old(head[..p]) + FhWords(fh)
    {
      var q := PutFh(head, p, fh);
      headLen := q;
      ok := 4 * headLen <= PAGE_SIZE;
    }

    /** `vsnfsd_dispatch`. */
    method Dispatch(server: Server, w: World, proc: Proc, mem: seq<Word>, argLen: nat)
      requires WellFormed(w.fs)
      requires argLen <= |mem| && LOOKUPARGS_SZ <= |mem|
      requires headLen + 4 <= head.Length == PAGE_WORDS
      requires !Serve(w, server.list, proc, mem[..argLen]).Faulted?
      modifies this, head, server
      ensures match Serve(w, old(server.list), proc, mem[..argLen])
              case Garbage => statp == GarbageArgs && server.list == old(server.list) && headLen == old(headLen)
              case Faulted => false
              case Served(t, words) =>
                && statp == old(statp) && server.list == t
                && headLen == old(headLen) + |words|
                && head[..headLen] == old(head[..headLen]) + words
    {
      var getroot: Option<seq<byte>> := None;
      var lookup: Option<LookupArgs> := None;
      if proc.Getroot? {
        getroot := DecodeGetrootArgs(mem, argLen);
      } else {
        lookup := DecodeLookupArgs(mem, argLen);
      }
      if getroot.None? && lookup.None? {
        statp := GarbageArgs;
        return;
      }
      ServedAsHandled(w, server.list, proc, mem[..argLen], getroot, lookup);
      var at := headLen;
      headLen := headLen + 1;
      var nfserr, resp := RunHandler(server, w, getroot, lookup);
      StoreReply(at, nfserr, resp);
    }

    /** The status word at its reserved place and, if it is zero, the result. */
    method StoreReply(at: nat, nfserr: u32, resp: Fh)
      requires headLen == at + 1 && at + 4 <= head.Length == PAGE_WORDS
      modifies this, head
      ensures statp == old(statp)
      ensures headLen == at + |FhReply(nfserr, resp)|
      ensures head[..headLen] == old(head[..at]) + FhReply(nfserr, resp)
    {
      head[at] := nfserr;
      assert head[..at + 1] == old(head[..at]) + [nfserr];
      if nfserr == STAT_OK {
        var ok := EncodeFhandle(at + 1, resp);
        statp := if ok then statp else SystemErr;
      }
    }

    /** `proc->pc_func`. */
    method RunHandler(server: Server, w: World, getroot: Option<seq<byte>>, lookup: Option<LookupArgs>)
      returns (status: u32, resp: Fh)
      requires WellFormed(w.fs)
      requires getroot.Some? || lookup.Some?
      requires Handled(w, server.list, getroot, lookup).Replied?
      modifies server
      ensures Replied(server.list, status, resp) == Handled(w, old(server.list), getroot, lookup)
    {
      if getroot.Some? {
        status, resp := server.ProcGetroot(w.fs, getroot.value, w.mem, w.resp);
      } else {
        status, resp := server.ProcLookup(w.fs, lookup.value.fh, lookup.value.name, w.mem, w.resp);
      }
    }
  }

  /** A request that does not decode never reaches the handler; one that does
      gets the handler's status, and a body exactly when that status is zero. */
  lemma ReplyFraming(w: World, t: Table, proc: Proc, args: seq<Word>)
    requires WellFormed(w.fs)
    ensures Serve(w, t, proc, args).Garbage? <==> (if proc.Getroot? then GetrootOf(args).None? else LookupOf(args).None?)
    ensures match Serve(w, t, proc, args)
            case Served(t', words) =>
              |words| >= 1 && (words[0] == STAT_OK <==> |words| == 4) && (words[0] != STAT_OK <==> |words| == 1)
            case _ => true
  {
  }

  // ---------- whole remote calls

  /** The table after the call and what the client's call returns and holds. */
  datatype Called = NoAnswer | Called(table: Table, errno: int, fh: Fh)

  function Answer(s: Served, before: Fh): Called {
    match s
    case Served(t, words) =>
      if |words| == 0 || (words[0] == 0 && |words| < 4) then NoAnswer
      else Called(t, ReplyErrno(words), ReplyFh(words, before))
    case _ => NoAnswer
  }

  /** `vsnfs_proc_lookup` over the wire; `before` is the client's handle buffer. */
  function CallLookup(w: World, t: Table, fh: Fh, name: Name, before: Fh): Called
    requires WellFormed(w.fs) && |name| <= U32_MAX
  {
    Answer(Serve(w, t, Lookup, LookupWords(LookupArgs(fh, name))), before)
  }

  /** `vsnfs_proc_getroot` over the wire. */
  function CallGetroot(w: World, t: Table, path: seq<byte>, before: Fh): Called
    requires WellFormed(w.fs) && |path| <= U32_MAX
  {
    Answer(Serve(w, t, Getroot, ArrayWords(path)), before)
  }

  /** What the client makes of a handler's outcome. */
  function Seen(out: Outcome, before: Fh): Called {
    match out
    case Undefined => NoAnswer
    case Replied(t, status, fh) =>
      if status == STAT_OK then Called(t, 0, fh) else Called(t, ClientErrno(StatusInt(status)), before)
  }

  lemma AnswerFramed(out: Outcome, before: Fh)
    ensures Answer(Framed(out), before) == Seen(out, before)
  {
    if out.Replied? { ReplyRoundTrip(out.status, out.fh, before); }
  }

  /** Encoded legal arguments reach the handler as they were. */
  lemma ServesLegal(w: World, t: Table, path: seq<byte>, a: LookupArgs)
    requires WellFormed(w.fs)
    requires |path| <= MAXPATHLEN && 0 !in path
    requires |a.name| <= MAXNAMLEN && 0 !in a.name && SLASH !in a.name
    ensures Serve(w, t, Getroot, ArrayWords(path)) == Framed(GetrootStep(w.fs, t, path, w.mem, w.resp))
    ensures Serve(w, t, Lookup, LookupWords(a)) == Framed(LookupStep(w.fs, t, a.fh.data, a.name, w.mem, w.resp))
  {
    GetrootRoundTrip(path);
    LookupRoundTrip(a);
  }

  /** The wire is transparent: for legal arguments a remote call is the handler. */
  lemma WireTransparent(w: World, t: Table, path: seq<byte>, fh: Fh, name: Name, before: Fh)
    requires WellFormed(w.fs)
    requires |path| <= MAXPATHLEN && 0 !in path
    requires |name| <= MAXNAMLEN && 0 !in name && SLASH !in name
    ensures CallGetroot(w, t, path, before) == Seen(GetrootStep(w.fs, t, path, w.mem, w.resp), before)
    ensures CallLookup(w, t, fh, name, before) == Seen(LookupStep(w.fs, t, fh.data, name, w.mem, w.resp), before)
  {
    ServesLegal(w, t, path, LookupArgs(fh, name));
    AnswerFramed(GetrootStep(w.fs, t, path, w.mem, w.resp), before);
    AnswerFramed(LookupStep(w.fs, t, fh.data, name, w.mem, w.resp), before);
  }

  lemma NegatedNotZero()
    ensures ClientErrno(StatusInt(NEGATED_NOSPC)) == -EIO && ClientErrno(StatusInt(NEGATED_NOTDIR)) == -EIO
  {
    ClientErrnoNumbers(NEGATED_NOSPC);
    ClientErrnoNumbers(NEGATED_NOTDIR);
  }

  /** Seen from the client, a call succeeds exactly when the handler's status is
      zero; every failure of the two handlers arrives as -EIO. */
  lemma SeenStatus(out: Outcome, before: Fh)
    requires out.Replied? ==> out.status == STAT_OK || out.status == NEGATED_NOSPC || out.status == NEGATED_NOTDIR
    ensures match out
            case Undefined => Seen(out, before) == NoAnswer
            case Replied(t, status, fh) =>
              Seen(out, before) == if status == STAT_OK then Called(t, 0, fh) else Called(t, -EIO, before)
  {
    NegatedNotZero();
  }

  /** GETROOT when something is missing, for a legal path. Without its buffers it
      fails and the table stays; without the node the behaviour is undefined; without
      the node's path it fails with the table already emptied, so that every handle is
      forgotten. An empty path, or one that does not resolve, is undefined. */
  lemma GetrootShortages(w: World, t: Table, path: seq<byte>, before: Fh)
    requires WellFormed(w.fs) && |path| <= MAXPATHLEN && 0 !in path
    ensures var c := CallGetroot(w, t, path, before);
            if w.mem.NoBuffer? then c == Called(t, -5, before)
            else if path == [] || Resolve(w.fs, WithSlash(path)).None? then c == NoAnswer
            else match w.mem
                 case NoNode => c == NoAnswer
                 case NoNodePath => c == Called([], -5, before)
                 case _ => c.Called? && c.errno == 0
  {
    var out := GetrootStep(w.fs, t, path, w.mem, w.resp);
    WireTransparent(w, t, path, before, [], before);
    GetrootFindsDirectories(w.fs, t, path, w.mem, w.resp);
    SeenStatus(out, before);
  }

  /** LOOKUP with both imperative halves: the client encodes, the dispatcher
      runs on the received words (`beyond` is the memory after them) and fills
      a reply page, the client decodes what follows the RPC reply header. */
  method RemoteLookup(server: Server, w: World, fh: Fh, name: Name, before: Fh, beyond: seq<Word>)
    returns (errno: int, got: Fh)
    requires WellFormed(w.fs) && |name| <= MAXNAMLEN && 0 !in name && SLASH !in name
    requires |beyond| >= LOOKUPARGS_SZ
    requires LookupStep(w.fs, server.list, fh.data, name, w.mem, w.resp).Replied?
    modifies server
    ensures Called(server.list, errno, got) == CallLookup(w, old(server.list), fh, name, before)
  {
    ghost var t := server.list;
    var args := LookupArgs(fh, name);
    ServesLegal(w, t, [], args);
    ReplyFraming(w, t, Lookup, LookupWords(args));
    var buf := new Word[LOOKUPARGS_SZ];
    var p := EncodeLookupArgs(buf, args);
    var mem := buf[..p] + beyond;
    assert mem[..p] == LookupWords(args);
    var words := Receive(server, w, Lookup, mem, p);
    errno, got := DecodeFhReply(words, before);
  }

  const DO_LOOKUP_FAILED: int := -71   // -VSNFSERR_REMOTE

  /** `vsnfs_do_lookup`: LOOKUP with the directory inode's own handle. Whatever
      went wrong, the caller gets one and the same error, so its test for
      -ENOENT cannot succeed. */
  method DoLookup(server: Server, w: World, dirFh: Fh, name: Name, before: Fh, beyond: seq<Word>)
    returns (ret: int, got: Fh)
    requires WellFormed(w.fs) && |name| <= MAXNAMLEN && 0 !in name && SLASH !in name
    requires |beyond| >= LOOKUPARGS_SZ
    requires LookupStep(w.fs, server.list, dirFh.data, name, w.mem, w.resp).Replied?
    modifies server
    ensures CallLookup(w, old(server.list), dirFh, name, before).Called?
    ensures var c := CallLookup(w, old(server.list), dirFh, name, before);
            && server.list == c.table && got == c.fh
            && (ret == 0 <==> c.errno == 0) && (ret != 0 ==> ret == -71)
    ensures ret != -ENOENT
  {
    ret, got := RemoteLookup(server, w, dirFh, name, before, beyond);
    if ret != 0 {
      ret := DO_LOOKUP_FAILED;
    }
  }

  /** GETROOT the same way. */
  method RemoteGetroot(server: Server, w: World, path: seq<byte>, before: Fh, beyond: seq<Word>)
    returns (errno: int, got: Fh)
    requires WellFormed(w.fs) && |path| <= MAXPATHLEN && 0 !in path
    requires |beyond| >= LOOKUPARGS_SZ
    requires GetrootStep(w.fs, server.list, path, w.mem, w.resp).Replied?
    modifies server
    ensures Called(server.list, errno, got) == CallGetroot(w, old(server.list), path, before)
  {
    ghost var t := server.list;
    ServesLegal(w, t, path, LookupArgs(before, []));
    ReplyFraming(w, t, Getroot, ArrayWords(path));
    var buf := new Word[GETROOTARGS_SZ];
    var p := EncodeGetrootArgs(buf, path);
    var mem := buf[..p] + beyond;
    assert mem[..p] == ArrayWords(path);
    var words := Receive(server, w, Getroot, mem, p);
    errno, got := DecodeFhReply(words, before);
  }

  /** The reply words of a dispatched request. */
  method Receive(server: Server, w: World, proc: Proc, mem: seq<Word>, argLen: nat) returns (words: seq<Word>)
    requires WellFormed(w.fs)
    requires argLen <= |mem| && LOOKUPARGS_SZ <= |mem|
    requires Serve(w, server.list, proc, mem[..argLen]).Served?
    modifies server
    ensures Served(server.list, words) == Serve(w, old(server.list), proc, mem[..argLen])
  {
    ghost var t := server.list;
    ghost var out := Serve(w, t, proc, mem[..argLen]);
    var head := new Word[PAGE_WORDS];
    var rqst := new Rqst(head, 0);
    assert server.list == t && head[..0] == [];
    rqst.Dispatch(server, w, proc, mem, argLen);
    words := head[..rqst.headLen];
    assert [] + out.words == out.words;
  }
}
