/** The READDIR page as data: what one entry looks like in words, how a list of
    accepted entries is laid out, and which prefix of a listing is accepted.
    Nothing here is a cursor or a buffer; server and client are each proved
    against these definitions.
 */
module DirPage {
  import opened Xdr
  import opened Protocol
  import opened Handles

  type loff = n: int | -0x8000_0000_0000_0000 <= n < 0x8000_0000_0000_0000

  /** One call of the filler by `vfs_readdir`. `stack` is what the filler's
      uninitialised local handle holds when it is entered. */
  datatype Entry = Entry(name: seq<byte>, offset: loff, ino: u64, dtype: u32, stack: FhData)

  /** What the client hands to its `filldir`. */
  datatype Delivery = Delivery(name: seq<byte>, offset: u32, ino: u32, dtype: u32)

  // ---------- layout

  /** The name as it is sent, cut to 255 bytes. */
  function SentName(e: Entry): (n: seq<byte>)
    ensures |n| <= MAXNAMLEN
  {
    if |e.name| > MAXNAMLEN then e.name[..MAXNAMLEN] else e.name
  }

  function Low32(offset: loff): u32 {
    offset % 0x1_0000_0000
  }

  predicate InRange(e: Entry) {
    e.offset <= U32_MAX && e.ino <= U32_MAX
  }

  /** Words one entry takes: marker, inode, name length, name, handle, type, offset. */
  function EntrySize(e: Entry): nat {
    7 + QuadLen(|SentName(e)|)
  }

  function EntryHead(e: Entry): (ws: seq<Word>)
    requires InRange(e)
    ensures |ws| == EntrySize(e) - 1
  {
    [1, e.ino] + ArrayWords(SentName(e)) + Pack(PrintIno(e.stack, e.ino)) + [e.dtype]
  }

  function EntryWords(e: Entry, next: u32): (ws: seq<Word>)
    requires InRange(e)
    ensures |ws| == EntrySize(e)
  {
    EntryHead(e) + [next]
  }

  ghost predicate AllInRange(es: seq<Entry>) {
    forall i :: 0 <= i < |es| ==> InRange(es[i])
  }

  function TotalSize(es: seq<Entry>): nat {
    if es == [] then 0 else TotalSize(es[..|es| - 1]) + EntrySize(es[|es| - 1])
  }

  /** Entries in order; each carries the offset of the entry after it, the
      last one carries `last`. */
  function PageWords(es: seq<Entry>, last: u32): (ws: seq<Word>)
    requires AllInRange(es)
    ensures |ws| == TotalSize(es)
  {
    if es == [] then []
    else
      var e := es[|es| - 1];
      PageWords(es[..|es| - 1], Low32(e.offset)) + EntryWords(e, last)
  }

  function Terminator(complete: bool): seq<Word> {
    [0, if complete then 1 else 0]
  }

  /** The delivered form of entry i. */
  function DeliveryOf(es: seq<Entry>, last: u32, i: nat): Delivery
    requires AllInRange(es) && i < |es|
  {
    var e := es[i];
    Delivery(SentName(e), if i + 1 < |es| then Low32(es[i + 1].offset) else last, e.ino, e.dtype)
  }

  function Deliveries(es: seq<Entry>, last: u32): (ds: seq<Delivery>)
    requires AllInRange(es)
    ensures |ds| == |es|
  {
    seq(|es|, i requires 0 <= i < |es| => DeliveryOf(es, last, i))
  }

  lemma DeliveriesTail(es: seq<Entry>, last: u32)
    requires AllInRange(es) && es != []
    ensures Deliveries(es, last)[1..] == Deliveries(es[1..], last)
  {
  }

  lemma Assoc<T>(a: seq<T>, b: seq<T>, c: seq<T>)
    ensures (a + b) + c == a + (b + c)
  {
  }

  lemma Assoc4<T>(a: seq<T>, b: seq<T>, c: seq<T>, d: seq<T>, e: seq<T>)
    ensures (((a + b) + c) + d) + e == a + (b + c + d + e)
  {
  }

  lemma TakeNext<T>(s: seq<T>, i: nat)
    requires i < |s|
    ensures s[..i + 1] == s[..i] + [s[i]]
  {
  }

  lemma UpdateLast<T>(s: seq<T>, x: T, y: T)
    ensures (s + [x])[|s| := y] == s + [y]
  {
  }

  /** Replacing the final word of a page is the same as laying the entries out
      with another final offset: back-patching touches nothing else. */
  lemma PatchLast(es: seq<Entry>, last: u32, patched: u32)
    requires AllInRange(es) && es != []
    ensures PageWords(es, last)[TotalSize(es) - 1 := patched] == PageWords(es, patched)
  {
    var e := es[|es| - 1];
    var before := PageWords(es[..|es| - 1], Low32(e.offset));
    Assoc(before, EntryHead(e), [last]);
    Assoc(before, EntryHead(e), [patched]);
    UpdateLast(before + EntryHead(e), last, patched);
  }

  lemma PageSnoc(es: seq<Entry>, e: Entry, last: u32)
    requires AllInRange(es) && InRange(e)
    ensures AllInRange(es + [e])
    ensures TotalSize(es + [e]) == TotalSize(es) + EntrySize(e)
    ensures PageWords(es + [e], last) == PageWords(es, Low32(e.offset)) + EntryWords(e, last)
  {
    assert (es + [e])[..|es|] == es;
  }

  /** An entry's words up to its offset, and the offset it was announced with. */
  datatype Block = Block(head: seq<Word>, offset: u32)

  function Blocks(es: seq<Entry>): (bs: seq<Block>)
    requires AllInRange(es)
    ensures |bs| == |es|
  {
    seq(|es|, i requires 0 <= i < |es| => Block(EntryHead(es[i]), Low32(es[i].offset)))
  }

  /** The layout of a page, for any blocks. */
  function Chained(bs: seq<Block>, last: u32): seq<Word> {
    if bs == [] then []
    else Chained(bs[..|bs| - 1], bs[|bs| - 1].offset) + (bs[|bs| - 1].head + [last])
  }

  lemma {:induction false} ChainedCons(bs: seq<Block>, last: u32)
    requires bs != []
    ensures Chained(bs, last)
         == (bs[0].head + [if |bs| > 1 then bs[1].offset else last]) + Chained(bs[1..], last)
    decreases |bs|
  {
    var init, b, rest := bs[..|bs| - 1], bs[|bs| - 1], bs[1..];
    if |bs| == 1 {
      assert Chained(init, b.offset) == [] && Chained(rest, last) == [];
    } else {
      ChainedCons(init, b.offset);
      assert rest[..|rest| - 1] == init[1..] && rest[|rest| - 1] == b;
      Assoc(bs[0].head + [bs[1].offset], Chained(init[1..], b.offset), b.head + [last]);
    }
  }

  lemma {:induction false} PageIsChained(es: seq<Entry>, last: u32)
    requires AllInRange(es)
    ensures PageWords(es, last) == Chained(Blocks(es), last)
    decreases |es|
  {
    if es != [] {
      var init := es[..|es| - 1];
      PageIsChained(init, Low32(es[|es| - 1].offset));
      assert Blocks(es)[..|es| - 1] == Blocks(init);
    }
  }

  lemma BlocksFront(es: seq<Entry>, last: u32)
    requires AllInRange(es) && es != []
    ensures var bs := Blocks(es);
            && bs[0].head + [if |bs| > 1 then bs[1].offset else last] == EntryWords(es[0], DeliveryOf(es, last, 0).offset)
            && bs[1..] == Blocks(es[1..])
  {
  }

  /** Read from the front: the first entry, carrying the second one's offset,
      then the page of the remaining entries. */
  lemma PageCons(es: seq<Entry>, last: u32)
    requires AllInRange(es) && es != []
    ensures PageWords(es, last) == EntryWords(es[0], DeliveryOf(es, last, 0).offset) + PageWords(es[1..], last)
  {
    PageIsChained(es, last);
    PageIsChained(es[1..], last);
    BlocksFront(es, last);
    ChainedCons(Blocks(es), last);
  }

  // ---------- acceptance

  predicate Accepts(e: Entry, room: nat) {
    InRange(e) && EntrySize(e) <= room
  }

  /** How many entries are encoded when each is taken while the room lasts and
      the first refusal ends the listing. */
  function AcceptedCount(es: seq<Entry>, room: nat): (k: nat)
    ensures k <= |es|
  {
    if es == [] || !Accepts(es[0], room) then 0
    else 1 + AcceptedCount(es[1..], room - EntrySize(es[0]))
  }

  /** The first k entries could all be sent in this room. */
  ghost predicate PrefixFits(es: seq<Entry>, room: nat, k: nat)
    requires k <= |es|
  {
    AllInRange(es[..k]) && TotalSize(es[..k]) <= room
  }

  lemma {:induction false} TotalSizeCons(e: Entry, es: seq<Entry>)
    ensures TotalSize([e] + es) == EntrySize(e) + TotalSize(es)
  {
    if es == [] {
      assert ([e] + es)[..0] == [];
    } else {
      TotalSizeCons(e, es[..|es| - 1]);
      assert ([e] + es)[..|es|] == [e] + es[..|es| - 1];
    }
  }

  lemma InRangeCons(e: Entry, es: seq<Entry>)
    ensures AllInRange([e] + es) <==> InRange(e) && AllInRange(es)
  {
    var all := [e] + es;
    assert all[0] == e;
    assert forall i :: 0 <= i < |es| ==> es[i] == all[i + 1];
  }

  /** Greedy is maximal: a prefix is sendable exactly when it is no longer than
      what the encoder takes. */
  lemma {:induction false} AcceptedIsLongestPrefix(es: seq<Entry>, room: nat, k: nat)
    requires k <= |es|
    ensures PrefixFits(es, room, k) <==> k <= AcceptedCount(es, room)
    decreases |es|
  {
    if k > 0 {
      var e, rest := es[0], es[1..];
      assert es[..k] == [e] + rest[..k - 1];
      TotalSizeCons(e, rest[..k - 1]);
      InRangeCons(e, rest[..k - 1]);
      if Accepts(e, room) {
        AcceptedIsLongestPrefix(rest, room - EntrySize(e), k - 1);
      }
    }
  }

  /** The encoded prefix of a listing. */
  function Accepted(es: seq<Entry>, room: nat): (acc: seq<Entry>)
    ensures AllInRange(acc)
  {
    AcceptedIsLongestPrefix(es, room, AcceptedCount(es, room));
    es[..AcceptedCount(es, room)]
  }

  predicate Complete(es: seq<Entry>, room: nat) {
    AcceptedCount(es, room) == |es|
  }

  /** The offset word of the last encoded entry: all ones, unless a refused
      entry got past the offset test and left its offset there. */
  function LastOffset(es: seq<Entry>, room: nat): u32 {
    var k := AcceptedCount(es, room);
    if k < |es| && es[k].offset <= U32_MAX then Low32(es[k].offset) else U32_MAX
  }

  /** A finished page: accepted entries and the two-word terminator. */
  function ServerPage(es: seq<Entry>, room: nat): (ws: seq<Word>)
    ensures |ws| == TotalSize(Accepted(es, room)) + 2
  {
    PageWords(Accepted(es, room), LastOffset(es, room)) + Terminator(Complete(es, room))
  }

  /** Words left for entries when the client asked for `count` bytes. */
  function Room(count: nat): nat {
    if count / 4 >= 2 then count / 4 - 2 else 0
  }

  /** No page overruns the request (two words are always sent) or the page. */
  lemma PageFitsRequest(es: seq<Entry>, count: nat)
    requires count <= PAGE_SIZE
    ensures |ServerPage(es, Room(count))| <= (if count / 4 >= 2 then count / 4 else 2) <= PAGE_WORDS
  {
    AcceptedIsLongestPrefix(es, Room(count), AcceptedCount(es, Room(count)));
  }

  /** Where a listing was cut: the entries before i are taken and entry i does not
      go into the words left. */
  lemma {:induction false} RefusedAt(es: seq<Entry>, room: nat, i: nat, left: nat)
    requires i < |es| && AllInRange(es[..i]) && TotalSize(es[..i]) + left == room
    requires !Accepts(es[i], left)
    ensures Accepted(es, room) == es[..i] && !Complete(es, room)
    ensures LastOffset(es, room) == if es[i].offset > U32_MAX then U32_MAX else Low32(es[i].offset)
  {
    AcceptedIsLongestPrefix(es, room, i);
    AcceptedIsLongestPrefix(es, room, i + 1);
    TakeNext(es, i);
    assert es[..i + 1][i] == es[i];
    assert es[..i + 1][..i] == es[..i];
  }

  // ---------- the format in numbers

  /** An entry word by word: 1, the inode number, the length of the name, the name,
      the printed handle, the type, the next offset. The name is cut at 255 bytes. */
  lemma EntryLayout(e: Entry, next: u32)
    requires InRange(e)
    ensures var name := if |e.name| > 255 then e.name[..255] else e.name;
            var ws := EntryWords(e, next);
            var q := 3 + (|name| + 3) / 4;
            && EntrySize(e) == |ws| == q + 4
            && ws[0] == 1 && ws[1] == e.ino && ws[2] == |name|
            && ws[3..q] == Pack(name) && ws[q..q + 2] == Pack(PrintIno(e.stack, e.ino))
            && ws[q + 2] == e.dtype && ws[q + 3] == next
  {
  }

  lemma InRangeInNumbers(e: Entry)
    ensures InRange(e) <==> e.offset <= 4294967295 && e.ino <= 4294967295
  {
  }

  /** The words a request of `count` bytes leaves for entries, and so which
      prefixes are sent: a quarter of the count, less the two terminator words. */
  lemma AcceptedInNumbers(es: seq<Entry>, count: nat, k: nat)
    requires count <= 4096 && k <= |es|
    ensures k <= AcceptedCount(es, Room(count)) <==>
              && (forall i :: 0 <= i < k ==> es[i].offset <= 4294967295 && es[i].ino <= 4294967295)
              && TotalSize(es[..k]) <= (if count < 8 then 0 else count / 4 - 2)
  {
    AcceptedIsLongestPrefix(es, Room(count), k);
    assert AllInRange(es[..k]) <==> forall i :: 0 <= i < k ==> InRange(es[i]) by {
      assert forall i :: 0 <= i < k ==> es[..k][i] == es[i];
    }
  }

  /** The client's usual request: everything is sent exactly when it is in range
      and takes at most 1022 words. */
  lemma CompleteInNumbers(es: seq<Entry>)
    ensures Complete(es, Room(4096)) <==>
              && (forall i :: 0 <= i < |es| ==> es[i].offset <= 4294967295 && es[i].ino <= 4294967295)
              && TotalSize(es) <= 1022
  {
    AcceptedInNumbers(es, 4096, |es|);
    assert es[..|es|] == es;
  }

  /** The last two words of a page: 0, and 1 exactly when nothing was refused. */
  lemma PageEnd(es: seq<Entry>, room: nat)
    ensures var ws := ServerPage(es, room);
            ws[|ws| - 2] == 0 && ws[|ws| - 1] == (if AcceptedCount(es, room) == |es| then 1 else 0)
  {
  }

  /** What is delivered for the i-th accepted entry, in terms of the listing: its
      first 255 name bytes, its number and type, and as offset the low 32 bits of the
      next entry's, whether that one was accepted or refused after the offset test;
      all ones if there is no next entry or its offset was too big. */
  lemma DeliveredFields(es: seq<Entry>, room: nat, i: nat)
    requires i < AcceptedCount(es, room)
    ensures var d := Deliveries(Accepted(es, room), LastOffset(es, room))[i];
            && d.name == (if |es[i].name| > 255 then es[i].name[..255] else es[i].name)
            && d.ino == es[i].ino && d.dtype == es[i].dtype
            && (i + 1 < |es| && 0 <= es[i + 1].offset <= 4294967295 ==> d.offset == es[i + 1].offset)
            && (i + 1 < |es| && -4294967296 <= es[i + 1].offset < 0 ==> d.offset == es[i + 1].offset + 4294967296)
            && (i + 1 < |es| && es[i + 1].offset <= 4294967295 ==> d.offset == es[i + 1].offset % 4294967296)
            && (i + 1 == |es| || es[i + 1].offset > 4294967295 ==> d.offset == 4294967295)
  {
    var k := AcceptedCount(es, room);
    assert Accepted(es, room)[i] == es[i];
    if i + 1 < k {
      assert Accepted(es, room)[i + 1] == es[i + 1];
      assert InRange(es[i + 1]);
    }
  }
}
