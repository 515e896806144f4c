/** Arguments and replies on the wire: the client's encoders against the
    server's decoders, and the reply of GETROOT and LOOKUP the other way round.
 */
module Requests {
  import opened Xdr
  import opened Protocol
  import opened Handles
  import opened Errors

  // Declared argument sizes, in words
  const GETROOTARGS_SZ: nat := 257
  const LOOKUPARGS_SZ: nat := 265
  const READDIRARGS_SZ: nat := 10
  const READARGS_SZ: nat := 11

  datatype LookupArgs = LookupArgs(fh: Fh, name: seq<byte>)
  datatype ReaddirArgs = ReaddirArgs(fh: Fh, count: u32)
  datatype ReadArgs = ReadArgs(fh: Fh, offset: u32, count: u32)

  // ---------- what is sent

  function FhWords(fh: Fh): (ws: seq<Word>)
    ensures |ws| == 3
  {
    Pack(fh.data) + [fh.typ]
  }

  function LookupWords(a: LookupArgs): seq<Word>
    requires |a.name| <= U32_MAX
  {
    FhWords(a.fh) + ArrayWords(a.name)
  }

  function ReaddirWords(a: ReaddirArgs): seq<Word> {
    FhWords(a.fh) + [a.count]
  }

  function ReadWords(a: ReadArgs): seq<Word> {
    FhWords(a.fh) + [a.offset, a.count]
  }

  method PutFh(buf: array<Word>, at: nat, fh: Fh) returns (p: nat)
    requires at + 3 <= buf.Length
    modifies buf
    ensures p == at + 3 && buf[..p] == old(buf[..at]) + FhWords(fh)
  {
    p := CopyWords(buf, at, Pack(fh.data));
    p := CopyWords(buf, p, [fh.typ]);
  }

  /** `vsnfs_xdr_getrootargs`; the buffer has the declared size. */
  method EncodeGetrootArgs(buf: array<Word>, path: seq<byte>) returns (p: nat)
    requires |path| <= MAXPATHLEN && buf.Length == GETROOTARGS_SZ
    modifies buf
    ensures p <= GETROOTARGS_SZ && buf[..p] == ArrayWords(path)
  {
    p := CopyWords(buf, 0, ArrayWords(path));
    assert old(buf[..0]) + ArrayWords(path) == ArrayWords(path);
  }

  /** `vsnfs_xdr_lookupargs`. */
  method EncodeLookupArgs(buf: array<Word>, a: LookupArgs) returns (p: nat)
    requires |a.name| <= MAXNAMLEN && buf.Length == LOOKUPARGS_SZ
    modifies buf
    ensures p <= LOOKUPARGS_SZ && buf[..p] == LookupWords(a)
  {
    p := PutFh(buf, 0, a.fh);
    p := CopyWords(buf, p, ArrayWords(a.name));
    assert old(buf[..0]) + FhWords(a.fh) == FhWords(a.fh);
  }

  /** `vsnfs_xdr_readdirargs`. */
  method EncodeReaddirArgs(buf: array<Word>, a: ReaddirArgs) returns (p: nat)
    requires buf.Length == READDIRARGS_SZ
    modifies buf
    ensures p <= READDIRARGS_SZ && buf[..p] == ReaddirWords(a)
  {
    p := PutFh(buf, 0, a.fh);
    p := CopyWords(buf, p, [a.count]);
    assert old(buf[..0]) + FhWords(a.fh) == FhWords(a.fh);
  }

  /** `vsnfs_xdr_readargs`. */
  method EncodeReadArgs(buf: array<Word>, a: ReadArgs) returns (p: nat)
    requires buf.Length == READARGS_SZ
    modifies buf
    ensures p <= READARGS_SZ && buf[..p] == ReadWords(a)
  {
    p := PutFh(buf, 0, a.fh);
    p := CopyWords(buf, p, [a.offset, a.count]);
    assert old(buf[..0]) + FhWords(a.fh) == FhWords(a.fh);
  }

  // ---------- what is accepted

  function FhAt(ws: seq<Word>, p: nat): Fh
    requires p + 3 <= |ws|
  {
    Fh(Unpack(ws[p..], FHSIZE), ws[p + 2])
  }

  /** A counted string that lies within the argument words. */
  function StringAt(args: seq<Word>, p: nat, max: nat): (r: Option<seq<byte>>)
    ensures r.Some? ==> p < |args| && |r.value| == args[p]
  {
    if p < |args| && args[p] <= max && p + 1 + QuadLen(args[p]) <= |args| then
      Some(Unpack(args[p + 1..], args[p]))
    else None
  }

  function GetrootOf(args: seq<Word>): Option<seq<byte>> {
    match StringAt(args, 0, MAXPATHLEN)
    case None => None
    case Some(path) => if 0 in path then None else Some(path)
  }

  function LookupOf(args: seq<Word>): Option<LookupArgs> {
    match StringAt(args, 3, MAXNAMLEN)
    case None => None
    case Some(name) => if 0 in name || SLASH in name then None else Some(LookupArgs(FhAt(args, 0), name))
  }

  function Clamp(n: u32): u32 {
    if n > PAGE_SIZE then PAGE_SIZE else n
  }

  function ReaddirOf(args: seq<Word>): Option<ReaddirArgs> {
    if |args| < 4 then None else Some(ReaddirArgs(FhAt(args, 0), Clamp(args[3])))
  }

  function ReadOf(args: seq<Word>): Option<ReadArgs> {
    if |args| < 5 then None else Some(ReadArgs(FhAt(args, 0), args[3], Clamp(args[4])))
  }

  // ---------- the decoders as code

  // `mem` is the memory from the start of the arguments on and `argLen` their
  // length; the decoders read first and compare the cursor with the end last.

  /** `xdr_decode_string_inplace` and the byte test of `decode_filename` and
      `decode_pathname`: the string and the cursor after it. */
  method DecodeString(mem: seq<Word>, p: nat, max: nat, noSlash: bool) returns (r: Option<seq<byte>>, next: nat)
    requires p + 1 + QuadLen(max) <= |mem|
    ensures mem[p] > max ==> r == None
    ensures mem[p] <= max ==>
      var s := Unpack(mem[p + 1..], mem[p]);
      r == (if 0 in s || (noSlash && SLASH in s) then None else Some(s)) && next == p + 1 + QuadLen(mem[p])
  {
    var len := mem[p];
    next := p + 1;
    if len > max {
      return None, next;
    }
    var name := Unpack(mem[p + 1..], len);
    next := next + QuadLen(len);
    var i := 0;
    while i < len
      invariant 0 <= i <= len
      invariant 0 !in name[..i] && (noSlash ==> SLASH !in name[..i])
    {
      if name[i] == 0 || (noSlash && name[i] == SLASH) {
        return None, next;
      }
      assert name[..i + 1] == name[..i] + [name[i]];
      i := i + 1;
    }
    assert name[..len] == name;
    return Some(name), next;
  }

  /** Cutting the memory at the argument length does not change a string inside it. */
  lemma StringInside(mem: seq<Word>, argLen: nat, p: nat)
    requires argLen <= |mem| && p < argLen && p + 1 + QuadLen(mem[p]) <= argLen
    ensures Unpack(mem[..argLen][p + 1..], mem[p]) == Unpack(mem[p + 1..], mem[p])
  {
    forall i | 0 <= i < mem[p]
      ensures mem[..argLen][p + 1..][i / 4] == mem[p + 1..][i / 4]
    {
    }
  }

  /** `vsnfssvc_decode_getrootargs`: the answer depends on the argument words
      alone, although the decoder may have looked past them. */
  method DecodeGetrootArgs(mem: seq<Word>, argLen: nat) returns (r: Option<seq<byte>>)
    requires argLen <= |mem| && GETROOTARGS_SZ <= |mem|
    ensures r == GetrootOf(mem[..argLen])
  {
    var p;
    r, p := DecodeString(mem, 0, MAXPATHLEN, false);
    if r.Some? && p > argLen {
      r := None;
    }
    if 0 < argLen && mem[0] <= MAXPATHLEN && 1 + QuadLen(mem[0]) <= argLen {
      StringInside(mem, argLen, 0);
    }
  }

  /** `vsnfssvc_decode_lookupargs`. */
  method DecodeLookupArgs(mem: seq<Word>, argLen: nat) returns (r: Option<LookupArgs>)
    requires argLen <= |mem| && LOOKUPARGS_SZ <= |mem|
    ensures r == LookupOf(mem[..argLen])
  {
    var fh := FhAt(mem, 0);
    var name, p := DecodeString(mem, 3, MAXNAMLEN, true);
    if 3 < argLen && mem[3] <= MAXNAMLEN && 4 + QuadLen(mem[3]) <= argLen {
      StringInside(mem, argLen, 3);
      HandleInside(mem, argLen);
    }
    if name.None? || p > argLen {
      return None;
    }
    return Some(LookupArgs(fh, name.value));
  }

  lemma HandleInside(mem: seq<Word>, argLen: nat)
    requires 3 <= argLen <= |mem|
    ensures FhAt(mem[..argLen], 0) == FhAt(mem, 0)
  {
    assert Unpack(mem[..argLen][0..], FHSIZE) == Unpack(mem[0..], FHSIZE);
  }

  /** `vsnfssvc_decode_readdirargs`. */
  method DecodeReaddirArgs(mem: seq<Word>, argLen: nat) returns (r: Option<ReaddirArgs>)
    requires argLen <= |mem| && READDIRARGS_SZ <= |mem|
    ensures r == ReaddirOf(mem[..argLen])
  {
    var fh := FhAt(mem, 0);
    var count := mem[3];
    if count > PAGE_SIZE {
      count := PAGE_SIZE;
    }
    if 4 > argLen {
      return None;
    }
    HandleInside(mem, argLen);
    return Some(ReaddirArgs(fh, count));
  }

  /** `vsnfssvc_decode_readargs`. */
  method DecodeReadArgs(mem: seq<Word>, argLen: nat) returns (r: Option<ReadArgs>)
    requires argLen <= |mem| && READARGS_SZ <= |mem|
    ensures r == ReadOf(mem[..argLen])
  {
    var fh := FhAt(mem, 0);
    var offset := mem[3];
    var len := mem[4];
    if len > PAGE_SIZE {
      len := PAGE_SIZE;
    }
    if 5 > argLen {
      return None;
    }
    HandleInside(mem, argLen);
    return Some(ReadArgs(fh, offset, len));
  }

  // ---------- encode, then decode

  lemma FhRoundTrip(fh: Fh, after: seq<Word>)
    ensures FhAt(FhWords(fh) + after, 0) == fh
  {
    var ws := FhWords(fh) + after;
    assert ws[0..] == Pack(fh.data) + ([fh.typ] + after);
    UnpackPack(fh.data, [fh.typ] + after);
  }

  lemma StringRoundTrip(before: seq<Word>, s: seq<byte>, max: nat)
    requires |s| <= U32_MAX
    ensures StringAt(before + ArrayWords(s), |before|, max) == if |s| <= max then Some(s) else None
  {
    var ws := before + ArrayWords(s);
    assert ws[|before|] == |s|;
    assert ws[|before| + 1..] == Pack(s);
    UnpackPackExact(s);
  }

  /** Every GETROOT path: accepted as sent exactly when it is within the limit
      and free of NUL. */
  lemma GetrootRoundTrip(path: seq<byte>)
    requires |path| <= U32_MAX
    ensures GetrootOf(ArrayWords(path)) == if |path| <= 1024 && 0 !in path then Some(path) else None
  {
    StringRoundTrip([], path, MAXPATHLEN);
    assert [] + ArrayWords(path) == ArrayWords(path);
  }

  /** Every LOOKUP: handle and name arrive as sent exactly when the name is
      within the limit and free of NUL and slash; otherwise it is rejected. */
  lemma LookupRoundTrip(a: LookupArgs)
    requires |a.name| <= U32_MAX
    ensures LookupOf(LookupWords(a))
         == if |a.name| <= 255 && 0 !in a.name && 47 !in a.name then Some(a) else None
  {
    StringRoundTrip(FhWords(a.fh), a.name, MAXNAMLEN);
    FhRoundTrip(a.fh, ArrayWords(a.name));
  }

  lemma ReaddirAndReadRoundTrip(d: ReaddirArgs, r: ReadArgs)
    ensures ReaddirOf(ReaddirWords(d)) == Some(d.(count := if d.count > 4096 then 4096 else d.count))
    ensures ReadOf(ReadWords(r)) == Some(r.(count := if r.count > 4096 then 4096 else r.count))
  {
    FhRoundTrip(d.fh, [d.count]);
    FhRoundTrip(r.fh, [r.offset, r.count]);
  }

  /** The decoders consume exactly what was written: no proper prefix of an
      encoded request is accepted. */
  lemma NothingLess(path: seq<byte>, a: LookupArgs, d: ReaddirArgs, r: ReadArgs, k: nat)
    requires |path| <= MAXPATHLEN && |a.name| <= MAXNAMLEN
    ensures k < |ArrayWords(path)| ==> GetrootOf(ArrayWords(path)[..k]) == None
    ensures k < |LookupWords(a)| ==> LookupOf(LookupWords(a)[..k]) == None
    ensures k < |ReaddirWords(d)| ==> ReaddirOf(ReaddirWords(d)[..k]) == None
    ensures k < |ReadWords(r)| ==> ReadOf(ReadWords(r)[..k]) == None
  {
  }

  /** Words after a complete request are ignored. */
  lemma ExtraWords(ws: seq<Word>, extra: seq<Word>)
    ensures GetrootOf(ws).Some? ==> GetrootOf(ws + extra) == GetrootOf(ws)
    ensures LookupOf(ws).Some? ==> LookupOf(ws + extra) == LookupOf(ws)
    ensures ReaddirOf(ws).Some? ==> ReaddirOf(ws + extra) == ReaddirOf(ws)
    ensures ReadOf(ws).Some? ==> ReadOf(ws + extra) == ReadOf(ws)
  {
    var all := ws + extra;
    assert all[..|ws|] == ws;
    if GetrootOf(ws).Some? { StringInside(all, |ws|, 0); }
    if LookupOf(ws).Some? { StringInside(all, |ws|, 3); }
    if 3 <= |ws| { HandleInside(all, |ws|); }
  }

  // ---------- the reply of GETROOT and LOOKUP

  /** A status word, and a handle after it exactly when the status is zero. */
  function FhReply(status: u32, fh: Fh): seq<Word> {
    [status] + if status == STAT_OK then FhWords(fh) else []
  }

  function StatusInt(w: Word): int {
    if w < 0x8000_0000 then w else w - 0x1_0000_0000
  }

  /** `vsnfs_xdr_fh`: the errno and the caller's handle afterwards. */
  method DecodeFhReply(ws: seq<Word>, before: Fh) returns (errno: int, fh: Fh)
    requires |ws| >= 1 && (ws[0] == 0 ==> |ws| >= 4)
    ensures errno == ReplyErrno(ws) && fh == ReplyFh(ws, before)
  {
    fh := before;
    var status := ws[0];
    if status != 0 {
      errno := StatToErrno(StatusInt(status));
      return;
    }
    errno := 0;
    fh := FhAt(ws, 1);
  }

  function ReplyErrno(ws: seq<Word>): int
    requires |ws| >= 1
  {
    if ws[0] != 0 then ClientErrno(StatusInt(ws[0])) else 0
  }

  function ReplyFh(ws: seq<Word>, before: Fh): Fh
    requires |ws| >= 1 && (ws[0] == 0 ==> |ws| >= 4)
  {
    if ws[0] != 0 then before else FhAt(ws, 1)
  }

  /** Whatever status and handle the server frames, the client recovers the
      handle exactly when the status is zero, and an errno of its table if not. */
  lemma ReplyRoundTrip(status: u32, fh: Fh, before: Fh)
    ensures var ws := FhReply(status, fh);
            && |ws| == (if status == STAT_OK then 4 else 1)
            && ReplyFh(ws, before) == (if status == STAT_OK then fh else before)
            && ReplyErrno(ws) == (if status == STAT_OK then 0 else ClientErrno(StatusInt(status)))
  {
    FhRoundTrip(fh, []);
    var ws := FhReply(status, fh);
    if status == STAT_OK {
      assert ws[1..] == FhWords(fh) == FhWords(fh) + [];
      assert FhWords(fh)[0..] == FhWords(fh);
    }
  }

  // ---------- the format in numbers

  /** Every request word by word. A handle is its eight bytes in two words and its
      type; a string is its length and its bytes. */
  lemma RequestLayout(path: seq<byte>, a: LookupArgs, d: ReaddirArgs, r: ReadArgs)
    requires |path| <= 1024 && |a.name| <= 255
    ensures var ws := ArrayWords(path);
            |ws| == 1 + (|path| + 3) / 4 <= 257 && ws[0] == |path| && ws[1..] == Pack(path)
    ensures var ws := LookupWords(a);
            && |ws| == 4 + (|a.name| + 3) / 4 <= 265
            && ws[..2] == Pack(a.fh.data) && ws[2] == a.fh.typ && ws[3] == |a.name| && ws[4..] == Pack(a.name)
    ensures var ws := ReaddirWords(d);
            |ws| == 4 && ws[..2] == Pack(d.fh.data) && ws[2] == d.fh.typ && ws[3] == d.count
    ensures var ws := ReadWords(r);
            && |ws| == 5 && ws[..2] == Pack(r.fh.data) && ws[2] == r.fh.typ && ws[3] == r.offset && ws[4] == r.count
  {
  }

  /** The declared sizes, in words. */
  lemma DeclaredSizes()
    ensures GETROOTARGS_SZ == 257 && LOOKUPARGS_SZ == 265 && READDIRARGS_SZ == 10 && READARGS_SZ == 11
  {
  }

  /** A reply: the status, and on zero the handle's two words and its type. */
  lemma ReplyLayout(status: u32, fh: Fh)
    ensures var ws := FhReply(status, fh);
            if status == 0 then |ws| == 4 && ws[0] == 0 && ws[1..3] == Pack(fh.data) && ws[3] == fh.typ
            else ws == [status]
  {
  }

  /** The status word as the C int the client tests. */
  lemma StatusIntIsSigned(w: Word)
    ensures -0x8000_0000 <= StatusInt(w) < 0x8000_0000 && StatusInt(w) % 0x1_0000_0000 == w
  {
  }
}
