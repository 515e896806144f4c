/** Wire words. A `__be32` cell is modelled by the number its four bytes spell
    in network order, so `htonl` and `ntohl` leave it as it is; bytes copied
    into a buffer (handles, names) are packed into such words.
 */
module Xdr {

  datatype Option<+T> = None | Some(value: T)

  type byte = b: int | 0 <= b < 256
  type u32 = n: int | 0 <= n < 0x1_0000_0000
  type u64 = n: int | 0 <= n < 0x1_0000_0000_0000_0000

  const U32_MAX: u32 := 0xFFFF_FFFF

  type Word = u32

  /** Words needed for n bytes, `XDR_QUADLEN`. */
  function QuadLen(n: nat): nat {
    (n + 3) / 4
  }

  function ByteAt(bs: seq<byte>, i: nat): byte {
    if i < |bs| then bs[i] else 0
  }

  function WordOf(b0: byte, b1: byte, b2: byte, b3: byte): Word {
    b0 * 0x100_0000 + b1 * 0x1_0000 + b2 * 0x100 + b3
  }

  function ByteOf(w: Word, i: nat): byte
    requires i < 4
  {
    if i == 0 then w / 0x100_0000
    else if i == 1 then w / 0x1_0000 % 0x100
    else if i == 2 then w / 0x100 % 0x100
    else w % 0x100
  }

  lemma BytesOfWord(b0: byte, b1: byte, b2: byte, b3: byte)
    ensures var w := WordOf(b0, b1, b2, b3);
            ByteOf(w, 0) == b0 && ByteOf(w, 1) == b1 && ByteOf(w, 2) == b2 && ByteOf(w, 3) == b3
  {
    var w := WordOf(b0, b1, b2, b3);
    assert w / 0x100 == b0 * 0x1_0000 + b1 * 0x100 + b2;
    assert w / 0x1_0000 == b0 * 0x100 + b1;
    assert w / 0x100_0000 == b0;
  }

  /** Opaque bytes as words, zero-padded to a word boundary (section 4.9 of RFC 4506). */
  function Pack(bs: seq<byte>): (ws: seq<Word>)
    ensures |ws| == QuadLen(|bs|)
  {
    seq(QuadLen(|bs|), i requires 0 <= i =>
      WordOf(ByteAt(bs, 4 * i), ByteAt(bs, 4 * i + 1), ByteAt(bs, 4 * i + 2), ByteAt(bs, 4 * i + 3)))
  }

  /** The first n bytes found at a word pointer. */
  function Unpack(ws: seq<Word>, n: nat): (bs: seq<byte>)
    requires QuadLen(n) <= |ws|
    ensures |bs| == n
  {
    seq(n, i requires 0 <= i < n => ByteOf(ws[i / 4], i % 4))
  }

  lemma UnpackPack(bs: seq<byte>, tail: seq<Word>)
    ensures Unpack(Pack(bs) + tail, |bs|) == bs
  {
    forall i | 0 <= i < |bs|
      ensures Unpack(Pack(bs) + tail, |bs|)[i] == bs[i]
    {
      var q := 4 * (i / 4);
      assert i == q + i % 4;
      BytesOfWord(ByteAt(bs, q), ByteAt(bs, q + 1), ByteAt(bs, q + 2), ByteAt(bs, q + 3));
    }
  }

  lemma UnpackPackExact(bs: seq<byte>)
    ensures Unpack(Pack(bs), |bs|) == bs
  {
    UnpackPack(bs, []);
    assert Pack(bs) + [] == Pack(bs);
  }

  /** `xdr_encode_array`: the length word, then the padded bytes. */
  function ArrayWords(bs: seq<byte>): (ws: seq<Word>)
    requires |bs| <= U32_MAX
    ensures |ws| == 1 + QuadLen(|bs|)
  {
    [|bs|] + Pack(bs)
  }

  /** The fewest words that hold n bytes. */
  lemma QuadLenIsCeiling(n: nat)
    ensures 4 * QuadLen(n) - 4 < n <= 4 * QuadLen(n)
  {
  }

  /** The bytes of a packed word, most significant first, zero after the end. */
  lemma PackedWord(bs: seq<byte>, i: nat)
    requires 4 * i < |bs|
    ensures Pack(bs)[i] == bs[4 * i] as int * 16777216
                         + (if 4 * i + 1 < |bs| then bs[4 * i + 1] as int * 65536 else 0)
                         + (if 4 * i + 2 < |bs| then bs[4 * i + 2] as int * 256 else 0)
                         + (if 4 * i + 3 < |bs| then bs[4 * i + 3] as int else 0)
  {
  }

  /** `memcpy` of whole words into a buffer. */
  method CopyWords(buf: array<Word>, at: nat, ws: seq<Word>) returns (next: nat)
    requires at + |ws| <= buf.Length
    modifies buf
    ensures next == at + |ws|
    ensures buf[..next] == old(buf[..at]) + ws
  {
    forall i | 0 <= i < |ws| { buf[at + i] := ws[i]; }
    next := at + |ws|;
  }
}
