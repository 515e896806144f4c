/** READDIR end to end: the page the server builds, as the client walks it, for
    one call and for any number of calls on one open directory.
 */
module ReaddirProtocol {
  import opened Xdr
  import opened Protocol
  import opened Errors
  import opened DirPage
  import opened ServerReaddir
  import opened ClientReaddir

  // ---------- one page

  /** For every listing, every budget, every `filldir` and whatever the client's
      page holds after the received words: the client does with the page exactly
      what it would do with the plain list of accepted entries. */
  lemma ReaddirRoundTrip(es: seq<Entry>, room: nat, tail: seq<Word>, filldir: Filldir)
    ensures WalkPage(ServerPage(es, room) + tail, [], filldir)
         == Replay(Deliveries(Accepted(es, room), LastOffset(es, room)), Complete(es, room), [], filldir)
  {
    WalkIsReplay(Accepted(es, room), LastOffset(es, room), Complete(es, room), tail, [], filldir);
  }

  /** What a walk over a server page may end with. */
  lemma {:induction false} ReplayEnds(ds: seq<Delivery>, complete: bool, sent: seq<Delivery>, filldir: Filldir)
    ensures var w := Replay(ds, complete, sent, filldir);
            && w.Ran? && sent <= w.sent <= sent + ds
            && (forall k :: |sent| < k < |w.sent| ==> filldir(w.sent[..k]) >= 0)
            && (w.end.Refused? ==> sent < w.sent && filldir(w.sent) == w.res < 0)
            && (w.end.Cookie? ==> w.sent == sent + ds && w.res == -EBADCOOKIE && (ds == [] || !complete))
            && (w.end.Eof? ==> w.sent == sent + ds && w.res == filldir(w.sent) >= 0 && ds != [] && complete)
            && (!w.end.Refused? && w.sent != sent ==> filldir(w.sent) >= 0)
  {
    if ds != [] {
      var sent' := sent + [ds[0]];
      ReplayEnds(ds[1..], complete, sent', filldir);
      assert sent' + ds[1..] == sent + ds;
      var w := Replay(ds, complete, sent, filldir);
      forall k | |sent| < k < |w.sent|
        ensures filldir(w.sent[..k]) >= 0
      {
        if k == |sent'| { assert w.sent[..k] == sent'; }
      }
    }
  }

  /** Inductive core of the accepting case. */
  lemma ReplayAccepting(ds: seq<Delivery>, complete: bool, filldir: Filldir)
    requires forall k :: 0 < k <= |ds| ==> filldir(ds[..k]) >= 0
    ensures Replay(ds, complete, [], filldir)
         == if complete && ds != [] then Ran(ds, filldir(ds), Eof) else Ran(ds, -EBADCOOKIE, Cookie)
  {
    ReplayEnds(ds, complete, [], filldir);
    var w := Replay(ds, complete, [], filldir);
    assert [] + ds == ds;
    assert w.sent == ds[..|w.sent|];
  }

  // ---------- one readdir call

  /** What the file system, the network and the caller contribute to one call. */
  datatype Call = Call(listing: seq<Entry>, openStat: u32, ret: int, tail: seq<Word>, filldir: Filldir)

  datatype Read = Read(fPos: nat, rc: int, sent: seq<Delivery>)

  /** The errno the READDIR reply decodes to on the client. */
  function RpcResult(status: u32): int {
    if status == STAT_OK then 0 else ClientErrno(status)
  }

  /** What one `readdir` does, said without pages or words. */
  function ReadOnce(fPos: nat, c: Call): Read {
    if fPos != 0 then Read(fPos, 0, [])
    else if HandlerStatus(c.openStat, c.ret) != STAT_OK then
      Read(fPos, RpcResult(HandlerStatus(c.openStat, c.ret)), [])
    else
      var room := Room(PAGE_SIZE);
      var ds := Deliveries(Accepted(c.listing, room), LastOffset(c.listing, room));
      match Replay(ds, Complete(c.listing, room), [], c.filldir)
      case Overran => Read(fPos, 0, [])
      case Ran(sent, res, end) => Read(if end.Eof? then END_POS else fPos, if res > 0 then 0 else res, sent)
  }

  lemma ErrorsStayErrors(c: Call)
    requires OpenStatus(c.openStat)
    ensures var s := HandlerStatus(c.openStat, c.ret); s != STAT_OK ==> RpcResult(s) < 0
  {
    ErrnoEndToEnd(c.ret);
    StatusZeroIffErrnoZero(c.ret);
    ClientErrnoNumbers(c.openStat);
  }

  /** `vsnfs_readdir` with `simple_readdir`, given the outcome of the RPC. */
  method Readdir(fPos: nat, rpc: int, page: seq<Word>, filldir: Filldir) returns (fPos': nat, rc: int, sent: seq<Delivery>)
    requires fPos == 0 && rpc >= 0 ==> WalkPage(page, [], filldir).Ran?
    ensures fPos != 0 ==> fPos' == fPos && rc == 0 && sent == []
    ensures fPos == 0 && rpc < 0 ==> fPos' == fPos && rc == rpc && sent == []
    ensures fPos == 0 && rpc >= 0 ==>
      var w := WalkPage(page, [], filldir);
      && sent == w.sent
      && rc == (if w.res > 0 then 0 else w.res)
      && fPos' == (if w.end.Eof? then END_POS else fPos)
  {
    fPos', rc, sent := fPos, 0, [];
    if fPos != 0 {
      return;
    }
    rc := rpc;
    if rpc < 0 {
      return;
    }
    var desc := new Descriptor(page, fPos);
    assert page[0..] == page;
    rc, sent := desc.DoFilldir(filldir);
    fPos' := desc.fPos;
    if rc > 0 {
      rc := 0;
    }
  }

  // ---------- repeated calls on one open directory

  function ReadAll(fPos: nat, cs: seq<Call>): (all: seq<Delivery>)
    decreases |cs|
  {
    if cs == [] then []
    else
      var r := ReadOnce(fPos, cs[0]);
      r.sent + ReadAll(r.fPos, cs[1..])
  }

  function Repeat(ds: seq<Delivery>, n: nat): seq<Delivery> {
    if n == 0 then [] else ds + Repeat(ds, n - 1)
  }

  /** The call lists the directory without error and every delivery is accepted. */
  ghost predicate Lists(c: Call, ds: seq<Delivery>, complete: bool) {
    var room := Room(PAGE_SIZE);
    && c.openStat == STAT_OK && c.ret >= 0
    && ds == Deliveries(Accepted(c.listing, room), LastOffset(c.listing, room))
    && complete == Complete(c.listing, room)
    && forall k :: 0 < k <= |ds| ==> c.filldir(ds[..k]) >= 0
  }

  lemma ListsOnce(c: Call, ds: seq<Delivery>, complete: bool)
    requires Lists(c, ds, complete)
    ensures ReadOnce(0, c)
         == if complete && ds != [] then Read(END_POS, 0, ds) else Read(0, -EBADCOOKIE, ds)
  {
    ReplayAccepting(ds, complete, c.filldir);
    assert ds[..|ds|] == ds;
  }

  lemma {:induction false} NothingAfterEnd(fPos: nat, cs: seq<Call>)
    requires fPos != 0
    ensures ReadAll(fPos, cs) == []
  {
    if cs != [] { NothingAfterEnd(fPos, cs[1..]); }
  }

  /** Any number of calls on one directory: a non-empty listing that fits the
      page is delivered exactly once; otherwise (empty, or cut short) every call
      starts over and delivers the accepted prefix again. */
  lemma {:induction false} RepeatedReaddir(cs: seq<Call>, ds: seq<Delivery>, complete: bool)
    requires forall i :: 0 <= i < |cs| ==> Lists(cs[i], ds, complete)
    ensures ReadAll(0, cs)
         == if cs == [] then [] else if complete && ds != [] then ds else Repeat(ds, |cs|)
  {
    if cs != [] {
      ListsOnce(cs[0], ds, complete);
      if complete && ds != [] {
        NothingAfterEnd(END_POS, cs[1..]);
      } else {
        RepeatedReaddir(cs[1..], ds, complete);
      }
    }
  }

  // ---------- what a call reports, in numbers

  /** Nothing at a non-zero position; never a positive result. */
  lemma ReadShape(fPos: nat, c: Call)
    requires OpenStatus(c.openStat)
    ensures fPos != 0 ==> ReadOnce(fPos, c) == Read(fPos, 0, [])
    ensures ReadOnce(fPos, c).rc <= 0
    ensures ReadOnce(0, c).fPos == 0 || ReadOnce(0, c).fPos == 4096
  {
    ErrorsStayErrors(c);
    ReplayEnds(Deliveries(Accepted(c.listing, Room(PAGE_SIZE)), LastOffset(c.listing, Room(PAGE_SIZE))),
               Complete(c.listing, Room(PAGE_SIZE)), [], c.filldir);
  }

  /** A failed open or `vfs_readdir` delivers nothing and reports its own errno if
      that crosses the wire, and -EIO if not. */
  lemma ReadFailures(c: Call)
    ensures c.openStat == 2 ==> ReadOnce(0, c) == Read(0, -2, [])
    ensures c.openStat == 5 ==> ReadOnce(0, c) == Read(0, -5, [])
    ensures c.openStat == 28 ==> ReadOnce(0, c) == Read(0, -28, [])
    ensures c.openStat == 0 && c.ret < 0 ==> ReadOnce(0, c) == Read(0, if Survives(c.ret) then c.ret else -5, [])
  {
    ClientErrnoNumbers(c.openStat);
    ErrnoEndToEnd(c.ret);
    StatusZeroIffErrnoZero(c.ret);
  }

  /** Whatever ended the call, the i-th delivery is the i-th entry of the listing:
      name to 255 bytes, number, type, and the next entry's offset. */
  lemma SentFields(c: Call, i: nat)
    requires i < |ReadOnce(0, c).sent|
    ensures i < |c.listing|
    ensures var es, d := c.listing, ReadOnce(0, c).sent[i];
            && d.name == (if |es[i].name| > 255 then es[i].name[..255] else es[i].name)
            && d.ino == es[i].ino && d.dtype == es[i].dtype
            && (i + 1 < |es| && 0 <= es[i + 1].offset <= 4294967295 ==> d.offset == es[i + 1].offset)
            && (i + 1 < |es| && -4294967296 <= es[i + 1].offset < 0 ==> d.offset == es[i + 1].offset + 4294967296)
            && (i + 1 == |es| || es[i + 1].offset > 4294967295 ==> d.offset == 4294967295)
  {
    var room := Room(PAGE_SIZE);
    var ds := Deliveries(Accepted(c.listing, room), LastOffset(c.listing, room));
    ReplayEnds(ds, Complete(c.listing, room), [], c.filldir);
    assert [] + ds == ds;
    assert ReadOnce(0, c).sent[i] == ds[i];
    DeliveredFields(c.listing, room, i);
  }

  /** A refusal: the call ends with what `filldir` answered, at the first delivery it
      refuses, and the position stays. */
  lemma ReadRefused(c: Call, ds: seq<Delivery>, k: nat)
    requires c.openStat == 0 && c.ret >= 0
    requires ds == Deliveries(Accepted(c.listing, Room(4096)), LastOffset(c.listing, Room(4096)))
    requires 0 < k <= |ds| && c.filldir(ds[..k]) < 0
    requires forall j :: 0 < j < k ==> c.filldir(ds[..j]) >= 0
    ensures ReadOnce(0, c) == Read(0, c.filldir(ds[..k]), ds[..k])
  {
    var complete := Complete(c.listing, Room(4096));
    ReplayEnds(ds, complete, [], c.filldir);
    assert [] + ds == ds;
    var w := Replay(ds, complete, [], c.filldir);
    assert w.sent == ds[..|w.sent|];
    assert k <= |w.sent| ==> w.sent[..k] == ds[..k];
  }

  /** A listing is delivered whole, and the position leaves zero, exactly when it is
      not empty, in 32-bit range and at most 1022 words long; otherwise the accepted
      prefix is delivered and the call ends with -EBADCOOKIE. For every listing that
      is read without error by an accepting `filldir`. */
  lemma DeliveredWhole(c: Call)
    requires c.openStat == 0 && c.ret >= 0
    requires forall ds :: c.filldir(ds) >= 0
    ensures var fits := && c.listing != [] && TotalSize(c.listing) <= 1022
                        && forall i :: 0 <= i < |c.listing| ==>
                             c.listing[i].offset <= 4294967295 && c.listing[i].ino <= 4294967295;
            var r := ReadOnce(0, c);
            && (fits ==> r.fPos == 4096 && r.rc == 0 && |r.sent| == |c.listing|)
            && (!fits ==> r.fPos == 0 && r.rc == -523 && |r.sent| == AcceptedCount(c.listing, Room(4096)))
  {
    var room := Room(PAGE_SIZE);
    var ds := Deliveries(Accepted(c.listing, room), LastOffset(c.listing, room));
    CompleteInNumbers(c.listing);
    ListsOnce(c, ds, Complete(c.listing, room));
    if c.listing == [] { assert ds == []; }
  }
}
