/** The client side of READDIR: decoding one entry at the page cursor, the
    delivery loop with its look-ahead end test, and `readdir` on an open file.
 */
module ClientReaddir {
  import opened Xdr
  import opened Protocol
  import opened Handles
  import opened Errors
  import opened DirPage

  const END_POS: nat := 4096

  // ---------- one entry

  /** `OutOfPage`: the decoder would read past the words it is given. */
  datatype Decoded =
    | OutOfPage
    | BadCookie
    | Got(delivery: Delivery, fh: Fh, used: nat, eof: bool)

  /** The entry at the head of the remaining words, `vsnfs_decode_dirent`. The
      second look-ahead word is read only when the first one is zero. */
  function DecodeDirent(ws: seq<Word>): (r: Decoded)
    ensures r.Got? ==> 0 < r.used < |ws|
  {
    if |ws| == 0 then OutOfPage
    else if ws[0] == 0 then BadCookie
    else if |ws| < 3 then OutOfPage
    else
      var len := ws[2];
      var q := 3 + QuadLen(len);
      if |ws| < q + 5 || (ws[q + 4] == 0 && |ws| < q + 6) then OutOfPage
      else
        Got(Delivery(Unpack(ws[3..], len), ws[q + 3], ws[1], ws[q + 2]),
            Fh(Unpack(ws[q..], FHSIZE), ws[q + 2]),
            q + 4,
            ws[q + 4] == 0 && ws[q + 5] != 0)
  }

  // ---------- the delivery loop

  /** A `filldir` callback: its answer to the last of the deliveries so far. */
  type Filldir = seq<Delivery> -> int

  datatype End = Eof | Cookie | Refused
  datatype Walked = Overran | Ran(sent: seq<Delivery>, res: int, end: End)

  /** The loop over the remaining words of a page; it consumes words on every round. */
  function WalkPage(ws: seq<Word>, sent: seq<Delivery>, filldir: Filldir): Walked
    decreases |ws|
  {
    match DecodeDirent(ws)
    case OutOfPage => Overran
    case BadCookie => Ran(sent, -EBADCOOKIE, Cookie)
    case Got(d, _, used, eof) =>
      var sent' := sent + [d];
      if filldir(sent') < 0 then Ran(sent', filldir(sent'), Refused)
      else if eof then Ran(sent', filldir(sent'), Eof)
      else WalkPage(ws[used..], sent', filldir)
  }

  lemma DropDrop<T>(s: seq<T>, i: nat, j: nat)
    requires i + j <= |s|
    ensures s[i..][j..] == s[i + j..]
  {
  }

  /** The readdir descriptor with the entry it owns and its file's position. */
  class Descriptor {
    const page: seq<Word>
    var ptr: nat
    var mapped: bool
    var fPos: nat
    var name: seq<byte>
    var ino: u32
    var offset: u32
    var fh: Fh
    var eof: bool

    constructor (page: seq<Word>, fPos: nat)
      ensures this.page == page && ptr == 0 && mapped && this.fPos == fPos && !eof
    {
      this.page, ptr, mapped, this.fPos := page, 0, true, fPos;
      name, ino, offset, fh, eof := [], 0, 0, Fh([0, 0, 0, 0, 0, 0, 0, 0], 0), false;
    }

    /** `dir_decode` with `vsnfs_decode_dirent`. */
    method DirDecode() returns (status: int)
      requires ptr <= |page| && !DecodeDirent(page[ptr..]).OutOfPage?
      modifies this
      ensures unchanged(`mapped, `fPos)
      ensures match DecodeDirent(old(page[ptr..]))
              case OutOfPage => false
              case BadCookie => status == -EBADCOOKIE && ptr == old(ptr) && eof
              case Got(d, h, used, e) =>
                && status == 0 && ptr == old(ptr) + used && Delivery(name, offset, ino, fh.typ) == d
                && fh == h && eof == e
    {
      var p := ptr;
      if page[p] == 0 {
        eof := true;
        return -EBADCOOKIE;
      }
      ino := page[p + 1];
      var len := page[p + 2];
      p := p + 3;
      name := Unpack(page[p..], len);
      assert page[old(ptr)..][3..] == page[p..];
      p := p + QuadLen(len);
      assert page[old(ptr)..][3 + QuadLen(len)..] == page[p..];
      fh := Fh(Unpack(page[p..], FHSIZE), page[p + 2]);
      offset := page[p + 3];
      p := p + 4;
      eof := page[p] == 0 && page[p + 1] != 0;
      ptr := p;
      return 0;
    }

    /** `vsnfs_do_filldir`. The page is released and the file position moved
        only when the end test of the last entry succeeds. */
    method DoFilldir(filldir: Filldir) returns (res: int, sent: seq<Delivery>)
      requires mapped && ptr <= |page| && WalkPage(page[ptr..], [], filldir).Ran?
      modifies this
      ensures var w := WalkPage(old(page[ptr..]), [], filldir);
              && sent == w.sent && res == w.res
              && fPos == (if w.end.Eof? then END_POS else old(fPos))
              && mapped == !w.end.Eof?
    {
      ghost var ws := page[ptr..];
      ghost var w := WalkPage(ws, [], filldir);
      sent := [];
      while true
        invariant ptr <= |page| && ws == page[ptr..]
        invariant mapped && fPos == old(fPos)
        invariant w.Ran? && WalkPage(ws, sent, filldir) == w
        decreases |ws|
      {
        ghost var r := DecodeDirent(ws);
        var status := DirDecode();
        if status < 0 {
          return status, sent;
        }
        DropDrop(page, ptr - r.used, r.used);
        ws := ws[r.used..];
        sent := sent + [Delivery(name, offset, ino, fh.typ)];
        res := filldir(sent);
        if res < 0 {
          return;
        }
        if eof {
          fPos := END_POS;
          break;
        }
      }
      mapped := false;
    }
  }

  // ---------- what the server's pages become

  /** The same loop over a plain list of deliveries, with no words in sight. */
  function Replay(ds: seq<Delivery>, complete: bool, sent: seq<Delivery>, filldir: Filldir): Walked {
    if ds == [] then Ran(sent, -EBADCOOKIE, Cookie)
    else
      var sent' := sent + [ds[0]];
      if filldir(sent') < 0 then Ran(sent', filldir(sent'), Refused)
      else if |ds| == 1 && complete then Ran(sent', filldir(sent'), Eof)
      else Replay(ds[1..], complete, sent', filldir)
  }

  /** Decoding raw words: where each field is found. */
  lemma DecodeFields(mark: Word, ino: Word, len: Word, name: seq<Word>, data: seq<Word>, typ: Word, off: Word,
                     after: seq<Word>)
    requires mark != 0 && |name| == QuadLen(len) && |data| == 2 && |after| >= 2
    ensures DecodeDirent([mark, ino, len] + name + data + [typ, off] + after)
         == Got(Delivery(Unpack(name, len), off, ino, typ),
                Fh(Unpack(data, FHSIZE), typ), 7 + |name|,
                after[0] == 0 && after[1] != 0)
  {
    var ws := [mark, ino, len] + name + data + [typ, off] + after;
    var q := 3 + |name|;
    assert ws[3..] == name + (data + [typ, off] + after);
    assert ws[q..] == data + ([typ, off] + after);
    assert Unpack(ws[3..], len) == Unpack(name, len);
    assert Unpack(ws[q..], FHSIZE) == Unpack(data, FHSIZE);
    assert ws[q + 2..] == [typ, off] + after;
  }

  lemma EntryFields(e: Entry, next: u32, after: seq<Word>)
    requires InRange(e)
    ensures EntryWords(e, next) + after
         == [1, e.ino, |SentName(e)|] + Pack(SentName(e)) + Pack(PrintIno(e.stack, e.ino))
          + [e.dtype, next] + after
  {
  }

  /** Decoding undoes encoding for one entry, whatever words follow it. */
  lemma DecodeEncodedEntry(e: Entry, next: u32, after: seq<Word>)
    requires InRange(e)
    requires |after| >= 2
    ensures DecodeDirent(EntryWords(e, next) + after)
         == Got(Delivery(SentName(e), next, e.ino, e.dtype), Fh(PrintIno(e.stack, e.ino), e.dtype), EntrySize(e),
                after[0] == 0 && after[1] != 0)
  {
    var name, data := SentName(e), PrintIno(e.stack, e.ino);
    EntryFields(e, next, after);
    DecodeFields(1, e.ino, |name|, Pack(name), Pack(data), e.dtype, next, after);
    UnpackPackExact(name);
    UnpackPackExact(data);
  }

  lemma FirstWordOfPage(es: seq<Entry>, last: u32, complete: bool, tail: seq<Word>)
    requires AllInRange(es)
    ensures var ws := PageWords(es, last) + Terminator(complete) + tail;
            && |ws| >= 2
            && (ws[0] == 0 <==> es == [])
            && (es == [] ==> (ws[1] != 0 <==> complete))
  {
    if es != [] {
      PageCons(es, last);
      assert PageWords(es, last)[0] == 1;
    }
  }

  /** One round of the loop on a laid-out page takes exactly its first entry. */
  lemma DecodeFirst(es: seq<Entry>, last: u32, complete: bool, tail: seq<Word>)
    requires AllInRange(es) && es != []
    ensures var ws := PageWords(es, last) + Terminator(complete) + tail;
            var r := DecodeDirent(ws);
            && r.Got? && r.delivery == DeliveryOf(es, last, 0)
            && r.fh == Fh(PrintIno(es[0].stack, es[0].ino), es[0].dtype)
            && r.eof == (|es| == 1 && complete)
            && ws[r.used..] == PageWords(es[1..], last) + Terminator(complete) + tail
  {
    var head := EntryWords(es[0], DeliveryOf(es, last, 0).offset);
    var after := PageWords(es[1..], last) + Terminator(complete) + tail;
    PageCons(es, last);
    Regroup(head, PageWords(es[1..], last), Terminator(complete), tail);
    FirstWordOfPage(es[1..], last, complete, tail);
    DecodeEncodedEntry(es[0], DeliveryOf(es, last, 0).offset, after);
    assert (head + after)[|head|..] == after;
  }

  lemma Regroup<T>(a: seq<T>, b: seq<T>, c: seq<T>, d: seq<T>)
    ensures (a + b) + c + d == a + (b + c + d)
  {
  }

  /** Walking a page the server laid out is replaying its entries. The words
      after the terminator play no part. */
  lemma {:induction false} WalkIsReplay(es: seq<Entry>, last: u32, complete: bool, tail: seq<Word>,
                                        sent: seq<Delivery>, filldir: Filldir)
    requires AllInRange(es)
    ensures WalkPage(PageWords(es, last) + Terminator(complete) + tail, sent, filldir)
         == Replay(Deliveries(es, last), complete, sent, filldir)
    decreases |es|
  {
    if es == [] {
      FirstWordOfPage(es, last, complete, tail);
    } else {
      var ds := Deliveries(es, last);
      DecodeFirst(es, last, complete, tail);
      DeliveriesTail(es, last);
      WalkIsReplay(es[1..], last, complete, tail, sent + [ds[0]], filldir);
    }
  }
}
