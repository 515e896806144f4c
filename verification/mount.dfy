/** Mount data: splitting the device name and the option loop. */
module Mount {
  import opened Xdr
  import opened Protocol
  import opened Handles

  const COLON: byte := 58
  const COMMA: byte := 44
  const DEFAULT_PORT: int := 6789
  const DEFAULT_TIMEOUT: int := 600
  const IP_LEN: nat := 15

  const EINVAL_STAT: int := -22
  const TOOLONG_STAT: int := -63

  /** Index of the first occurrence of a byte, or the length. */
  function IndexOf(s: seq<byte>, c: byte): (k: nat)
    ensures k <= |s|
  {
    if s == [] || s[0] == c then 0 else 1 + IndexOf(s[1..], c)
  }

  lemma {:induction false} IndexOfFirst(s: seq<byte>, c: byte)
    ensures c !in s[..IndexOf(s, c)]
    ensures IndexOf(s, c) < |s| ==> s[IndexOf(s, c)] == c
  {
    if s != [] && s[0] != c {
      IndexOfFirst(s[1..], c);
      var k := IndexOf(s, c);
      assert s[..k] == [s[0]] + s[1..][..k - 1];
    }
  }

  /** The comma-separated pieces of an option string, as `strsep` yields them. */
  function Pieces(s: seq<byte>): seq<seq<byte>>
    decreases |s|
  {
    var k := IndexOf(s, COMMA);
    if k == |s| then [s] else [s[..k]] + Pieces(s[k + 1..])
  }

  const PORT_EQ: seq<byte> := [112, 111, 114, 116, 61]                     // "port="
  const TIMEOUT_EQ: seq<byte> := [116, 105, 109, 101, 111, 117, 116, 61]   // "timeout="

  datatype Opt = Port(n: int) | Timeout(n: int) | Unrecognized

  /** The value of a `%u` argument: at least one digit, nothing after the number;
      read again as a long and stored in an int. */
  function UnsignedArg(s: seq<byte>): Option<int> {
    var p := Strtoul(s);
    if p.rest == [] && s != [] then Some(ToInt(p.value)) else None
  }

  function ToInt(v: u64): int {
    var low := v % 0x1_0000_0000;
    if low < 0x8000_0000 then low else low - 0x1_0000_0000
  }

  /** `match_token` with the two patterns of the option table, and the switch. */
  function OptOf(piece: seq<byte>): Opt {
    if PORT_EQ <= piece && UnsignedArg(piece[|PORT_EQ|..]).Some? then
      Port(UnsignedArg(piece[|PORT_EQ|..]).value)
    else if TIMEOUT_EQ <= piece && UnsignedArg(piece[|TIMEOUT_EQ|..]).Some? then
      Timeout(UnsignedArg(piece[|TIMEOUT_EQ|..]).value)
    else Unrecognized
  }

  /** The last valid setting wins; without one the default stands. */
  function LastPort(pieces: seq<seq<byte>>): int {
    if pieces == [] then DEFAULT_PORT
    else match OptOf(pieces[|pieces| - 1])
         case Port(n) => n
         case _ => LastPort(pieces[..|pieces| - 1])
  }

  function LastTimeout(pieces: seq<seq<byte>>): int {
    if pieces == [] then DEFAULT_TIMEOUT
    else match OptOf(pieces[|pieces| - 1])
         case Timeout(n) => n
         case _ => LastTimeout(pieces[..|pieces| - 1])
  }

  /** The pieces `strsep` has still to yield. */
  function Remaining(rest: Option<seq<byte>>): seq<seq<byte>> {
    if rest.Some? then Pieces(rest.value) else []
  }

  lemma {:induction false} FirstPiece(s: seq<byte>, k: nat)
    requires k == IndexOf(s, COMMA)
    ensures Pieces(s) == [s[..k]] + Remaining(if k < |s| then Some(s[k + 1..]) else None)
  {
    if k == |s| {
      assert s[..k] == s;
      assert [s] + [] == [s];
    }
  }

  lemma {:induction false} TakePiece(done: seq<seq<byte>>, s: seq<byte>, k: nat)
    requires k == IndexOf(s, COMMA)
    ensures done + Pieces(s) == (done + [s[..k]]) + Remaining(if k < |s| then Some(s[k + 1..]) else None)
  {
    FirstPiece(s, k);
    var later := Remaining(if k < |s| then Some(s[k + 1..]) else None);
    assert done + ([s[..k]] + later) == (done + [s[..k]]) + later;
  }

  /** An address part that fits, a colon, and a path within the limit. */
  predicate MountPathOk(dev: seq<byte>) {
    COLON in dev && IndexOf(dev, COLON) <= IP_LEN && |dev| - IndexOf(dev, COLON) - 1 <= MAXPATHLEN
  }

  /** An address part the length test lets through although the 16-byte field
      cannot hold it with its terminator. */
  predicate Overruns(dev: seq<byte>) {
    COLON in dev && IP_LEN < IndexOf(dev, COLON) <= MAXNAMLEN
  }

  /** A return code, unless the address was written past its field. */
  datatype Parse = Overran | Rc(code: int)

  /** The mount fields of `struct vsnfs_server`. */
  class Config {
    var ipAddr: seq<byte>
    var mntPath: seq<byte>
    var serverPort: int
    var timeout: int
    var sinPort: nat

    constructor () {
      ipAddr, mntPath, serverPort, timeout, sinPort := [], [], 0, 0, 0;
    }

    /** `vsnfs_parse_mntpath`. */
    method ParseMntpath(dev: seq<byte>) returns (rc: Parse)
      modifies `ipAddr, `mntPath
      ensures rc == Overran <==> Overruns(dev)
      ensures rc == Rc(0) <==> MountPathOk(dev)
      ensures rc == Rc(0) ==> ipAddr + [COLON] + mntPath == dev && COLON !in ipAddr && |mntPath| <= MAXPATHLEN
      ensures rc == Rc(-22) <==> COLON !in dev
      ensures rc.Rc? && rc.code != 0 ==> rc.code == -22 || rc.code == -63
      ensures rc != Rc(0) ==> mntPath == old(mntPath)
      ensures ipAddr == if COLON in dev && IndexOf(dev, COLON) <= 15 then dev[..IndexOf(dev, COLON)] else old(ipAddr)
    {
      var k := 0;
      while k < |dev| && dev[k] != COLON
        invariant 0 <= k <= |dev|
        invariant COLON !in dev[..k]
      {
        assert dev[..k + 1] == dev[..k] + [dev[k]];
        k := k + 1;
      }
      FirstIndex(dev, COLON, k);
      if k == |dev| {
        assert dev[..k] == dev;
        return Rc(EINVAL_STAT);
      }
      if k > MAXNAMLEN {
        return Rc(TOOLONG_STAT);
      }
      if k > IP_LEN {
        return Overran;
      }
      ipAddr := dev[..k];
      if |dev| - (k + 1) > MAXPATHLEN {
        return Rc(TOOLONG_STAT);
      }
      mntPath := dev[k + 1..];
      return Rc(0);
    }

    /** The option loop of `vsnfs_parse_mount_options`; `raw` is absent when no
        mount data is given. `strsep` cuts the string in place. */
    method ParseOptions(raw: Option<seq<byte>>)
      requires serverPort == DEFAULT_PORT && timeout == DEFAULT_TIMEOUT
      modifies `serverPort, `timeout, `sinPort
      ensures serverPort == LastPort(Remaining(raw)) && timeout == LastTimeout(Remaining(raw))
      ensures sinPort == serverPort % 0x1_0000
    {
      sinPort := DEFAULT_PORT;
      var rest := raw;
      ghost var done: seq<seq<byte>> := [];
      while rest.Some?
        invariant done + Remaining(rest) == Remaining(raw)
        invariant serverPort == LastPort(done) && timeout == LastTimeout(done)
        invariant sinPort == serverPort % 0x1_0000
        decreases if rest.Some? then 1 + |rest.value| else 0
      {
        var k := IndexOf(rest.value, COMMA);
        var p := rest.value[..k];
        TakePiece(done, rest.value, k);
        LastSnoc(done, p);
        rest := if k < |rest.value| then Some(rest.value[k + 1..]) else None;
        done := done + [p];
        if p != [] {
          Apply(p);
        }
      }
      assert done + [] == done;
    }

    /** `vsnfs_parse_mount_options`: the path first, then the options. `pton` is
        the result of parsing the address, 0 or 1; 0 does not stop the mount. */
    method ParseMountOptions(raw: Option<seq<byte>>, dev: seq<byte>, pton: int) returns (rc: Parse)
      requires pton == 0 || pton == 1
      modifies this
      ensures rc == Overran <==> Overruns(dev)
      ensures rc.Rc? && rc.code >= 0 <==> MountPathOk(dev)
      ensures rc.Rc? && rc.code < 0 ==> rc.code == (if COLON in dev then -63 else -22) && mntPath == old(mntPath)
      ensures ipAddr == if COLON in dev && IndexOf(dev, COLON) <= 15 then dev[..IndexOf(dev, COLON)] else old(ipAddr)
      ensures rc.Rc? && rc.code < 0 ==> serverPort == DEFAULT_PORT && timeout == DEFAULT_TIMEOUT && sinPort == old(sinPort)
      ensures rc.Rc? && rc.code >= 0 ==>
        && rc.code == pton
        && ipAddr + [COLON] + mntPath == dev && COLON !in ipAddr && |mntPath| <= MAXPATHLEN
        && serverPort == LastPort(Remaining(raw)) && timeout == LastTimeout(Remaining(raw))
        && sinPort == serverPort % 0x1_0000
    {
      serverPort, timeout := DEFAULT_PORT, DEFAULT_TIMEOUT;
      rc := ParseMntpath(dev);
      if rc != Rc(0) {
        return;
      }
      rc := Rc(pton);
      ParseOptions(raw);
    }

    /** One round of the switch. */
    method Apply(p: seq<byte>)
      requires sinPort == serverPort % 0x1_0000
      modifies `serverPort, `timeout, `sinPort
      ensures serverPort == PortAfter(p, old(serverPort)) && timeout == TimeoutAfter(p, old(timeout))
      ensures sinPort == serverPort % 0x1_0000
    {
      match OptOf(p) {
        case Port(n) =>
          serverPort := n;
          sinPort := serverPort % 0x1_0000;
        case Timeout(n) =>
          timeout := n;
        case Unrecognized =>
      }
    }
  }

  function PortAfter(p: seq<byte>, port: int): int {
    match OptOf(p) case Port(n) => n case _ => port
  }

  function TimeoutAfter(p: seq<byte>, timeout: int): int {
    match OptOf(p) case Timeout(n) => n case _ => timeout
  }

  lemma LastSnoc(done: seq<seq<byte>>, p: seq<byte>)
    ensures LastPort(done + [p]) == PortAfter(p, LastPort(done))
    ensures LastTimeout(done + [p]) == TimeoutAfter(p, LastTimeout(done))
    ensures p == [] ==> LastPort(done + [p]) == LastPort(done) && LastTimeout(done + [p]) == LastTimeout(done)
  {
    assert (done + [p])[..|done|] == done;
    EmptyPiece();
  }

  lemma EmptyPiece()
    ensures OptOf([]) == Unrecognized
  {
  }

  lemma FirstIndex(s: seq<byte>, c: byte, k: nat)
    requires k <= |s| && c !in s[..k] && (k < |s| ==> s[k] == c)
    ensures IndexOf(s, c) == k
  {
    IndexOfFirst(s, c);
  }

  /** Joining the pieces with commas gives the option string back. */
  function Join(pieces: seq<seq<byte>>): seq<byte> {
    if pieces == [] then []
    else if |pieces| == 1 then pieces[0]
    else pieces[0] + [COMMA] + Join(pieces[1..])
  }

  lemma {:induction false} PiecesRebuild(s: seq<byte>)
    ensures Join(Pieces(s)) == s
    ensures forall i :: 0 <= i < |Pieces(s)| ==> COMMA !in Pieces(s)[i]
    decreases |s|
  {
    var k := IndexOf(s, COMMA);
    IndexOfFirst(s, COMMA);
    if k == |s| {
      assert s[..k] == s;
    } else {
      PiecesRebuild(s[k + 1..]);
      assert Pieces(s)[1..] == Pieces(s[k + 1..]);
      assert s == s[..k] + [COMMA] + s[k + 1..];
    }
  }

  // ---------- the device name in numbers

  /** Which device names are accepted and which overrun the 16-byte field, for an
      address of k bytes without a colon. */
  lemma DeviceNames(addr: seq<byte>, path: seq<byte>)
    requires 58 !in addr
    ensures MountPathOk(addr + [58] + path) <==> |addr| <= 15 && |path| <= 1024
    ensures Overruns(addr + [58] + path) <==> 16 <= |addr| <= 255
  {
    var dev := addr + [58] + path;
    assert dev[..|addr|] == addr && dev[|addr|] == 58;
    FirstIndex(dev, 58, |addr|);
  }

  // ---------- what an option string means

  /** A number as base 0 reads it, and nothing after it. */
  predicate IsNumber(text: seq<byte>) {
    text != [] && Strtoul(text).rest == []
  }

  /** The low 32 bits of a number as a C int. */
  lemma ToIntWraps(v: u64)
    ensures -0x8000_0000 <= ToInt(v) < 0x8000_0000 && (ToInt(v) - v) % 0x1_0000_0000 == 0
    ensures v < 0x8000_0000 ==> ToInt(v) == v
  {
  }

  /** "port=" and "timeout=" before a number are the two options, each for itself;
      every other piece is unrecognized. */
  lemma PieceMeaning(piece: seq<byte>)
    ensures OptOf(piece).Port? <==> [112, 111, 114, 116, 61] <= piece && IsNumber(piece[5..])
    ensures OptOf(piece).Timeout? <==> [116, 105, 109, 101, 111, 117, 116, 61] <= piece && IsNumber(piece[8..])
    ensures OptOf(piece).Port? ==> OptOf(piece).n == ToInt(Strtoul(piece[5..]).value)
    ensures OptOf(piece).Timeout? ==> OptOf(piece).n == ToInt(Strtoul(piece[8..]).value)
  {
  }

  /** The options with a decimal number. */
  lemma DecimalOptions(n: nat)
    requires n < 0x8000_0000
    ensures OptOf([112, 111, 114, 116, 61] + Decimal(n)) == Port(n)
    ensures OptOf([116, 105, 109, 101, 111, 117, 116, 61] + Decimal(n)) == Timeout(n)
  {
    var digits := Decimal(n);
    assert digits + [] == digits;
    StrtoulOfDecimal(n, []);
    PrefixedPiece(PORT_EQ, digits);
    PieceMeaning(PORT_EQ + digits);
    PrefixedPiece(TIMEOUT_EQ, digits);
    PieceMeaning(TIMEOUT_EQ + digits);
    ToIntWraps(n);
  }

  lemma PrefixedPiece(prefix: seq<byte>, rest: seq<byte>)
    ensures prefix <= prefix + rest && (prefix + rest)[|prefix|..] == rest
  {
  }

  /** The last valid port stands, whatever pieces come around it; without one the
      port is 6789. */
  lemma {:induction false} LastPortWins(pieces: seq<seq<byte>>, k: nat)
    requires k <= |pieces|
    requires forall j :: k <= j < |pieces| ==> !OptOf(pieces[j]).Port?
    ensures k == 0 ==> LastPort(pieces) == 6789
    ensures k > 0 && OptOf(pieces[k - 1]).Port? ==> LastPort(pieces) == OptOf(pieces[k - 1]).n
    decreases |pieces|
  {
    if k < |pieces| {
      LastPortWins(pieces[..|pieces| - 1], k);
    }
  }

  /** The same for the timeout and 600. */
  lemma {:induction false} LastTimeoutWins(pieces: seq<seq<byte>>, k: nat)
    requires k <= |pieces|
    requires forall j :: k <= j < |pieces| ==> !OptOf(pieces[j]).Timeout?
    ensures k == 0 ==> LastTimeout(pieces) == 600
    ensures k > 0 && OptOf(pieces[k - 1]).Timeout? ==> LastTimeout(pieces) == OptOf(pieces[k - 1]).n
    decreases |pieces|
  {
    if k < |pieces| {
      LastTimeoutWins(pieces[..|pieces| - 1], k);
    }
  }

  /** Splitting undoes joining. */
  lemma {:induction false} JoinedPieces(pieces: seq<seq<byte>>)
    requires pieces != [] && forall i :: 0 <= i < |pieces| ==> COMMA !in pieces[i]
    ensures Pieces(Join(pieces)) == pieces
    decreases |pieces|
  {
    var s, p := Join(pieces), pieces[0];
    if |pieces| == 1 {
      assert s[..|s|] == s;
      FirstIndex(s, COMMA, |s|);
    } else {
      assert s[..|p|] == p && s[|p|] == COMMA && s[|p| + 1..] == Join(pieces[1..]);
      FirstIndex(s, COMMA, |p|);
      JoinedPieces(pieces[1..]);
    }
  }

  /** Mount data as a user writes it. */
  datatype Setting = SetPort(n: nat) | SetTimeout(n: nat) | Noise(text: seq<byte>)

  /** Numbers fit an int; other words have no comma and are not options. */
  predicate Plain(s: Setting) {
    match s
    case SetPort(n) => n < 0x8000_0000
    case SetTimeout(n) => n < 0x8000_0000
    case Noise(text) =>
      COMMA !in text && !([112, 111, 114, 116, 61] <= text) && !([116, 105, 109, 101, 111, 117, 116, 61] <= text)
  }

  function Written(s: Setting): seq<byte> {
    match s
    case SetPort(n) => [112, 111, 114, 116, 61] + Decimal(n)
    case SetTimeout(n) => [116, 105, 109, 101, 111, 117, 116, 61] + Decimal(n)
    case Noise(text) => text
  }

  function AllWritten(ss: seq<Setting>): (ps: seq<seq<byte>>)
    ensures |ps| == |ss| && forall i :: 0 <= i < |ss| ==> ps[i] == Written(ss[i])
  {
    seq(|ss|, i requires 0 <= i < |ss| => Written(ss[i]))
  }

  /** The settings of a list, the later ones first: what a user expects. */
  function PortSet(ss: seq<Setting>): int {
    if ss == [] then 6789
    else match ss[|ss| - 1] case SetPort(n) => n case _ => PortSet(ss[..|ss| - 1])
  }

  function TimeoutSet(ss: seq<Setting>): int {
    if ss == [] then 600
    else match ss[|ss| - 1] case SetTimeout(n) => n case _ => TimeoutSet(ss[..|ss| - 1])
  }

  lemma NoComma(word: seq<byte>, n: nat)
    requires COMMA !in word
    ensures COMMA !in word + Decimal(n)
  {
    DecimalIsNotation(n);
  }

  lemma WrittenMeaning(s: Setting)
    requires Plain(s)
    ensures COMMA !in Written(s)
    ensures OptOf(Written(s)) == match s
              case SetPort(n) => Port(n)
              case SetTimeout(n) => Timeout(n)
              case Noise(_) => Unrecognized
  {
    match s
    case SetPort(n) => DecimalOptions(n); NoComma(PORT_EQ, n);
    case SetTimeout(n) => DecimalOptions(n); NoComma(TIMEOUT_EQ, n);
    case Noise(text) => PieceMeaning(text);
  }

  lemma {:induction false} SettingsOfPieces(ss: seq<Setting>)
    requires forall i :: 0 <= i < |ss| ==> Plain(ss[i])
    ensures LastPort(AllWritten(ss)) == PortSet(ss) && LastTimeout(AllWritten(ss)) == TimeoutSet(ss)
  {
    if ss != [] {
      var init := ss[..|ss| - 1];
      SettingsOfPieces(init);
      WrittenMeaning(ss[|ss| - 1]);
      assert AllWritten(ss)[..|ss| - 1] == AllWritten(init);
    }
  }

  /** The whole way: for mount data that lists any settings and other words, the
      option loop ends with the last port and the last timeout of the list, or 6789
      and 600. */
  lemma SettingsArrive(ss: seq<Setting>)
    requires ss != [] && forall i :: 0 <= i < |ss| ==> Plain(ss[i])
    ensures var raw := Some(Join(AllWritten(ss)));
            LastPort(Remaining(raw)) == PortSet(ss) && LastTimeout(Remaining(raw)) == TimeoutSet(ss)
  {
    forall i | 0 <= i < |ss| ensures COMMA !in AllWritten(ss)[i] {
      WrittenMeaning(ss[i]);
    }
    JoinedPieces(AllWritten(ss));
    SettingsOfPieces(ss);
  }
}
