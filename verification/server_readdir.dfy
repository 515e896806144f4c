/** The server side of READDIR: the entry filler that `vfs_readdir` calls, the
    handler around it and the encoder that closes the page.
 */
module ServerReaddir {
  import opened Xdr
  import opened Protocol
  import opened Handles
  import opened Errors
  import opened DirPage

  /** The status the filler leaves behind when it refuses an entry. */
  function RefusalStatus(e: Entry, room: nat): u32 {
    if e.offset > U32_MAX then STAT_FBIG
    else if EntrySize(e) > room then STAT_TOOSMALL
    else STAT_FBIG
  }

  /** In numbers: too big (27) for the offset, else too small (10005) for the room,
      else too big for the inode number. */
  lemma RefusalNumbers(e: Entry, room: nat)
    ensures RefusalStatus(e, room)
         == if e.offset > 4294967295 then 27 else if EntrySize(e) > room then 10005 else 27
  {
  }

  /** The words before the cursor after the delayed write of an offset. */
  function Patched(ws: seq<Word>, at: Option<nat>, off: u32): seq<Word>
    requires at.Some? ==> at.value < |ws|
  {
    if at.Some? then ws[at.value := off] else ws
  }

  /** The position the filler keeps for its next call. */
  function OffsetSlot(es: seq<Entry>): (at: Option<nat>)
    ensures at.Some? ==> at.value < TotalSize(es)
  {
    if es == [] then None else Some(TotalSize(es) - 1)
  }

  /** The delayed write turns the page of `es` into the page of `es` with
      another last offset, and changes nothing else. */
  lemma PatchedPage(es: seq<Entry>, last: u32, off: u32)
    requires AllInRange(es)
    ensures Patched(PageWords(es, last), OffsetSlot(es), off) == PageWords(es, off)
  {
    if es != [] { PatchLast(es, last, off); }
  }

  /** Then a new entry after it makes the page of one more. */
  lemma NextPage(es: seq<Entry>, last: u32, e: Entry, words: seq<Word>, slot: Option<nat>, after: seq<Word>)
    requires AllInRange(es) && InRange(e)
    requires words == PageWords(es, last) && slot == OffsetSlot(es)
    requires after == Patched(words, slot, Low32(e.offset)) + EntryWords(e, U32_MAX)
    ensures AllInRange(es + [e]) && TotalSize(es + [e]) == TotalSize(es) + EntrySize(e)
    ensures OffsetSlot(es + [e]) == Some(TotalSize(es) + EntrySize(e) - 1)
    ensures after == PageWords(es + [e], U32_MAX)
  {
    PatchedPage(es, last, Low32(e.offset));
    PageSnoc(es, e, U32_MAX);
    NextSlot(es, e);
  }

  lemma NextSlot(es: seq<Entry>, e: Entry)
    ensures OffsetSlot(es + [e]) == Some(TotalSize(es) + EntrySize(e) - 1)
  {
    assert |es + [e]| == |es| + 1 && (es + [e])[..|es|] == es;
  }

  /** `struct vsnfsd_readdirres`; pointers into the page are word indices. */
  class ReaddirRes {
    const page: array<Word>
    var buffer: nat
    var offset: Option<nat>
    var buflen: int
    var err: u32
    var count: int

    constructor (page: array<Word>)
      requires page.Length == PAGE_WORDS
      ensures this.page == page
    {
      this.page := page;
      buffer, offset, buflen, err, count := 0, None, 0, STAT_OK, 0;
    }

    /** The page holds exactly `es`, the last offset word is `last`, and words
        written plus words left make the starting budget. */
    ghost predicate Encoded(es: seq<Entry>, last: u32, room: nat)
      reads this, page
    {
      && page.Length == PAGE_WORDS && room + 2 <= PAGE_WORDS
      && AllInRange(es)
      && buffer == TotalSize(es)
      && buflen == room - buffer >= 0
      && page[..buffer] == PageWords(es, last)
      && offset == OffsetSlot(es)
    }

    /** What the cursor may rely on before any call of the filler. */
    ghost predicate Writable()
      reads this
    {
      0 <= buflen && buffer + buflen <= page.Length && (offset.Some? ==> offset.value < buffer)
    }

    /** `vsnfssvc_encode_entry`: what one call does to the words before the cursor. */
    method EncodeEntry(e: Entry) returns (rc: int)
      requires Writable()
      modifies `buffer, `offset, `buflen, `err, page
      ensures rc == (if Accepts(e, old(buflen)) then 0 else -EINVAL)
      ensures rc == 0 ==>
        && buffer == old(buffer) + EntrySize(e)
        && buflen == old(buflen) - EntrySize(e)
        && offset == Some(buffer - 1)
        && page[..buffer] == Patched(old(page[..buffer]), old(offset), Low32(e.offset)) + EntryWords(e, U32_MAX)
        && err == old(err)
      ensures rc != 0 ==>
        && buffer == old(buffer) && buflen == old(buflen) && offset == old(offset)
        && page[..buffer] == (if e.offset > U32_MAX then old(page[..buffer])
                              else Patched(old(page[..buffer]), offset, Low32(e.offset)))
        && err == RefusalStatus(e, buflen)
    {
      var p := buffer;
      if e.offset > U32_MAX {
        err := STAT_FBIG;
        return -EINVAL;
      }
      if offset.Some? {
        page[offset.value] := Low32(e.offset);
      }
      ghost var before := page[..buffer];
      assert before == Patched(old(page[..buffer]), offset, Low32(e.offset));
      var namlen := |e.name|;
      if namlen > MAXNAMLEN {
        namlen := MAXNAMLEN;
      }
      var slen := QuadLen(namlen);
      var left := buflen - slen - (5 + QuadLen(FHSIZE));
      if left < 0 {
        err := STAT_TOOSMALL;
        return -EINVAL;
      }
      if e.ino > U32_MAX {
        err := STAT_FBIG;
        return -EINVAL;
      }
      p := PutHead(e, e.name[..namlen]);
      offset := Some(p);
      p := CopyWords(page, p, [U32_MAX]);
      Assoc(before, EntryHead(e), [U32_MAX]);
      buflen := left;
      buffer := p;
      return 0;
    }

    /** The words of one entry up to its offset, written from the cursor on. */
    method PutHead(e: Entry, name: seq<byte>) returns (p: nat)
      requires InRange(e) && name == SentName(e)
      requires buffer + EntrySize(e) <= page.Length
      modifies page
      ensures p == buffer + EntrySize(e) - 1
      ensures page[..p] == old(page[..buffer]) + EntryHead(e)
    {
      ghost var before := page[..buffer];
      p := CopyWords(page, buffer, [1, e.ino]);
      p := CopyWords(page, p, ArrayWords(name));
      var data := Snprintf(e.stack, FormatLong(e.ino));
      p := CopyWords(page, p, Pack(data));
      p := CopyWords(page, p, [e.dtype]);
      Assoc4(before, [1, e.ino], ArrayWords(name), Pack(data), [e.dtype]);
    }

    /** The same call as a step of a listing: it keeps the page equal to the
        layout of the entries taken so far. */
    method EncodeNext(e: Entry, ghost es: seq<Entry>, ghost last: u32, ghost room: nat) returns (rc: int)
      requires Encoded(es, last, room)
      modifies `buffer, `offset, `buflen, `err, page
      ensures rc == (if Accepts(e, old(buflen)) then 0 else -EINVAL)
      ensures rc == 0 ==> Encoded(es + [e], U32_MAX, room) && err == old(err)
      ensures rc != 0 ==> Encoded(es, if e.offset > U32_MAX then last else Low32(e.offset), room)
      ensures rc != 0 ==> err == RefusalStatus(e, old(buflen))
    {
      ghost var words, slot := page[..buffer], offset;
      rc := EncodeEntry(e);
      if rc == 0 {
        NextPage(es, last, e, words, slot, page[..buffer]);
      } else {
        PatchedPage(es, last, Low32(e.offset));
      }
    }

    /** The listing is over: the longest prefix that fits is in the page. */
    ghost predicate Fed(es: seq<Entry>, room: nat)
      reads this, page
    {
      && Encoded(Accepted(es, room), LastOffset(es, room), room)
      && (err == STAT_OK <==> Complete(es, room))
    }

    method FeedOne(es: seq<Entry>, i: nat, ghost room: nat) returns (rc: int)
      requires i < |es| && Encoded(es[..i], U32_MAX, room) && err == STAT_OK
      modifies `buffer, `offset, `buflen, `err, page
      ensures rc == 0 ==> Encoded(es[..i + 1], U32_MAX, room) && err == STAT_OK
      ensures rc != 0 ==> Fed(es, room)
    {
      ghost var left := buflen;
      rc := EncodeNext(es[i], es[..i], U32_MAX, room);
      if rc == 0 {
        TakeNext(es, i);
      } else {
        RefusedAt(es, room, i, left);
      }
    }

    /** `vfs_readdir` as the filler sees it: entries in order until one is refused. */
    method FeedListing(es: seq<Entry>, ghost room: nat)
      requires Encoded([], U32_MAX, room) && err == STAT_OK
      modifies `buffer, `offset, `buflen, `err, page
      ensures Fed(es, room)
    {
      var i := 0;
      while i < |es|
        invariant 0 <= i <= |es|
        invariant Encoded(es[..i], U32_MAX, room) && err == STAT_OK
      {
        var rc := FeedOne(es, i, room);
        if rc != 0 {
          return;
        }
        i := i + 1;
      }
      assert es[..i] == es;
      AcceptedIsLongestPrefix(es, room, |es|);
    }

    /** `vsnfsd_proc_readdir` with `vsnfsd_readdir`: `openStat` is the status of
        opening the handle's path, `ret` what `vfs_readdir` returns. */
    method ProcReaddir(argCount: nat, openStat: u32, es: seq<Entry>, ret: int) returns (status: u32)
      requires argCount <= PAGE_SIZE && page.Length == PAGE_WORDS
      modifies this, page
      ensures status == HandlerStatus(openStat, ret)
      ensures status == STAT_OK ==>
        && Encoded(Accepted(es, Room(argCount)), LastOffset(es, Room(argCount)), Room(argCount))
        && (err == STAT_OK <==> Complete(es, Room(argCount)))
      ensures count == buffer
    {
      var room := argCount / 4;
      room := room - 2;
      if room < 0 {
        room := 0;
      }
      buffer, offset, buflen, err := 0, None, room, STAT_OK;
      assert page[..0] == [];
      status := openStat;
      if openStat == STAT_OK {
        FeedListing(es, Room(argCount));
        if ret < 0 {
          status := Vsnfserrno(ret);
          StatusZeroIffErrnoZero(ret);
        }
      }
      if status != STAT_OK && err == STAT_OK {
        err := status;
      }
      count := buffer;
    }

    /** `vsnfssvc_encode_readdirres`: the terminator, and the page length from
        the masked address of the cursor. `base` is the address of the page. */
    method EncodeReaddirRes(base: nat) returns (pageLen: nat)
      requires page.Length == PAGE_WORDS && buffer + 2 <= PAGE_WORDS
      requires base % PAGE_SIZE == 0
      modifies page
      ensures page[..buffer + 2] == old(page[..buffer]) + Terminator(err == STAT_OK)
      ensures pageLen == 4 * (buffer + 2)
    {
      var p := buffer;
      page[p] := 0;
      p := p + 1;
      page[p] := if err == STAT_OK then 1 else 0;
      p := p + 1;
      pageLen := (base + 4 * p - 1) % PAGE_SIZE + 1;
    }

    /** The handler and, on success, the encoder, as the dispatcher runs them. */
    method Serve(argCount: nat, openStat: u32, es: seq<Entry>, ret: int, base: nat) returns (status: u32, pageLen: nat)
      requires argCount <= PAGE_SIZE && page.Length == PAGE_WORDS && base % PAGE_SIZE == 0
      modifies this, page
      ensures status == HandlerStatus(openStat, ret)
      ensures status == STAT_OK ==>
        && pageLen == 4 * |ServerPage(es, Room(argCount))| <= PAGE_SIZE
        && page[..pageLen / 4] == ServerPage(es, Room(argCount))
      ensures status != STAT_OK ==> pageLen == 0
    {
      status := ProcReaddir(argCount, openStat, es, ret);
      pageLen := 0;
      if status == STAT_OK {
        pageLen := EncodeReaddirRes(base);
        PageFitsRequest(es, argCount);
      }
    }
  }

  /** The status word of a READDIR reply. A refused entry does not show in it. */
  function HandlerStatus(openStat: u32, ret: int): u32 {
    if openStat != STAT_OK then openStat else if ret < 0 then ServerStatus(ret) else STAT_OK
  }
}
