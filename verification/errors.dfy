/** Error numbers: the server's errno-to-status table, the client's
    status-to-errno table, and the two composed.
 */
module Errors {
  import opened Xdr

  // Linux error numbers
  const EPERM := 1
  const ENOENT := 2
  const EIO := 5
  const ENXIO := 6
  const EAGAIN := 11
  const EACCES := 13
  const EEXIST := 17
  const EXDEV := 18
  const ENODEV := 19
  const ENOTDIR := 20
  const EISDIR := 21
  const EINVAL := 22
  const ETXTBSY := 26
  const EFBIG := 27
  const ENOSPC := 28
  const EROFS := 30
  const EMLINK := 31
  const ENAMETOOLONG := 36
  const ENOTEMPTY := 39
  const EREMOTE := 66
  const EOPNOTSUPP := 95
  const ETIMEDOUT := 110
  const ESTALE := 116
  const EDQUOT := 122
  const ERESTARTSYS := 512
  const EBADHANDLE := 521
  const EBADCOOKIE := 523
  const ETOOSMALL := 525

  // Statuses on the wire
  const STAT_OK: u32 := 0
  const STAT_NOENT: u32 := 2
  const STAT_IO: u32 := 5
  const STAT_NOTDIR: u32 := 20
  const STAT_FBIG: u32 := 27
  const STAT_NOSPC: u32 := 28
  const STAT_TOOSMALL: u32 := 10005

  // Some handlers return `-vsnfserr_x`, the negation of a number that is already
  // in network order. On a little-endian host the client then reads 256 - x.
  const NEGATED_NOSPC: u32 := 256 - STAT_NOSPC
  const NEGATED_NOTDIR: u32 := 256 - STAT_NOTDIR

  datatype ServerRow = ServerRow(stat: u32, syserr: int)
  datatype ClientRow = ClientRow(stat: int, errno: int)

  const SERVER_ROWS: nat := 25

  function ServerRowAt(i: nat): ServerRow
    requires i < SERVER_ROWS
  {
    match i
    case 0 => ServerRow(0, 0)
    case 1 => ServerRow(1, -EPERM)
    case 2 => ServerRow(2, -ENOENT)
    case 3 => ServerRow(5, -EIO)
    case 4 => ServerRow(6, -ENXIO)
    case 5 => ServerRow(13, -EACCES)
    case 6 => ServerRow(17, -EEXIST)
    case 7 => ServerRow(18, -EXDEV)
    case 8 => ServerRow(31, -EMLINK)
    case 9 => ServerRow(19, -ENODEV)
    case 10 => ServerRow(20, -ENOTDIR)
    case 11 => ServerRow(21, -EISDIR)
    case 12 => ServerRow(22, -EINVAL)
    case 13 => ServerRow(27, -EFBIG)
    case 14 => ServerRow(28, -ENOSPC)
    case 15 => ServerRow(30, -EROFS)
    case 16 => ServerRow(31, -EMLINK)
    case 17 => ServerRow(63, -ENAMETOOLONG)
    case 18 => ServerRow(66, -ENOTEMPTY)
    case 19 => ServerRow(70, -ESTALE)
    case 20 => ServerRow(10008, -ETIMEDOUT)
    case 21 => ServerRow(10008, -ERESTARTSYS)
    case 22 => ServerRow(5, -ETXTBSY)
    case 23 => ServerRow(10004, -EOPNOTSUPP)
    case _ => ServerRow(10005, -ETOOSMALL)
  }

  const CLIENT_ROWS: nat := 23

  /** Two rows of the client table have a minus sign where a comma was meant,
      so they hold one number (a difference) and a zero errno. */
  function ClientRowAt(i: nat): ClientRow
    requires i < CLIENT_ROWS
  {
    match i
    case 0 => ClientRow(0, 0)
    case 1 => ClientRow(2, -ENOENT)
    case 2 => ClientRow(5, -EIO)
    case 3 => ClientRow(6, -ENXIO)
    case 4 => ClientRow(11, -EAGAIN)
    case 5 => ClientRow(17, -EEXIST)
    case 6 => ClientRow(19, -ENODEV)
    case 7 => ClientRow(20, -ENOTDIR)
    case 8 => ClientRow(21, -EISDIR)
    case 9 => ClientRow(22, -EINVAL)
    case 10 => ClientRow(27, -EFBIG)
    case 11 => ClientRow(28, -ENOSPC)
    case 12 => ClientRow(30, -EROFS)
    case 13 => ClientRow(31, -EMLINK)
    case 14 => ClientRow(45 - EOPNOTSUPP, 0)
    case 15 => ClientRow(63, -ENAMETOOLONG)
    case 16 => ClientRow(66, -ENOTEMPTY)
    case 17 => ClientRow(69, -EDQUOT)
    case 18 => ClientRow(70, -ESTALE)
    case 19 => ClientRow(71, -EREMOTE)
    case 20 => ClientRow(10001, -EBADHANDLE)
    case 21 => ClientRow(10003 - EBADCOOKIE, 0)
    case _ => ClientRow(-1, -EIO)
  }

  /** First row of the server table for an errno, status IO if there is none. */
  function ServerStatus(errno: int): (s: u32) {
    ServerStatusFrom(errno, 0)
  }

  function ServerStatusFrom(errno: int, i: nat): (s: u32)
    requires i <= SERVER_ROWS
    decreases SERVER_ROWS - i
  {
    if i == SERVER_ROWS then STAT_IO
    else if ServerRowAt(i).syserr == errno then ServerRowAt(i).stat
    else ServerStatusFrom(errno, i + 1)
  }

  /** First row of the client table for a status; the -1 row ends the table. */
  function ClientErrno(stat: int): (e: int) {
    ClientErrnoFrom(stat, 0)
  }

  function ClientErrnoFrom(stat: int, i: nat): (e: int)
    requires i < CLIENT_ROWS
    decreases CLIENT_ROWS - i
  {
    if i == CLIENT_ROWS - 1 then ClientRowAt(i).errno
    else if ClientRowAt(i).stat == stat then ClientRowAt(i).errno
    else ClientErrnoFrom(stat, i + 1)
  }

  method Vsnfserrno(errno: int) returns (s: u32)
    ensures s == ServerStatus(errno)
  {
    var i := 0;
    while i < SERVER_ROWS
      invariant 0 <= i <= SERVER_ROWS
      invariant ServerStatus(errno) == ServerStatusFrom(errno, i)
    {
      if ServerRowAt(i).syserr == errno {
        return ServerRowAt(i).stat;
      }
      i := i + 1;
    }
    return STAT_IO;
  }

  method StatToErrno(stat: int) returns (e: int)
    ensures e == ClientErrno(stat)
  {
    assert ClientRowAt(CLIENT_ROWS - 1).stat == -1;
    var i := 0;
    while ClientRowAt(i).stat != -1
      invariant 0 <= i < CLIENT_ROWS
      invariant ClientErrno(stat) == ClientErrnoFrom(stat, i)
      decreases CLIENT_ROWS - i
    {
      if ClientRowAt(i).stat == stat {
        return ClientRowAt(i).errno;
      }
      i := i + 1;
    }
    return ClientRowAt(i).errno;
  }

  /** The errnos that cross the wire unchanged: 0, ENOENT, EIO, ENXIO, EEXIST, ENODEV,
      ENOTDIR, EISDIR, EINVAL, EFBIG, ENOSPC, EROFS, EMLINK, ENAMETOOLONG, ENOTEMPTY, ESTALE. */
  predicate Survives(errno: int) {
    match -errno
    case 0 | 2 | 5 | 6 | 17 | 19 | 20 | 21 | 22 | 27 | 28 | 30 | 31 | 36 | 39 | 116 => true
    case _ => false
  }

  lemma {:induction false} ClientSkip(stat: int, i: nat, k: nat)
    requires i <= k < CLIENT_ROWS
    requires forall m :: i <= m < k ==> ClientRowAt(m).stat != stat
    ensures ClientErrnoFrom(stat, i) == ClientErrnoFrom(stat, k)
    decreases k - i
  {
    if i < k { ClientSkip(stat, i + 1, k); }
  }

  lemma {:induction false} ServerSkip(errno: int, i: nat, k: nat)
    requires i <= k <= SERVER_ROWS
    requires forall m :: i <= m < k ==> ServerRowAt(m).syserr != errno
    ensures ServerStatusFrom(errno, i) == ServerStatusFrom(errno, k)
    decreases k - i
  {
    if i < k { ServerSkip(errno, i + 1, k); }
  }

  /** The server's mapping in numbers: errno e is sent as this status. */
  function StatusNumber(e: int): u32 {
    match e
    case 0 => 0
    case 1 => 1
    case 2 => 2
    case 5 => 5
    case 6 => 6
    case 13 => 13
    case 17 => 17
    case 18 => 18
    case 19 => 19
    case 20 => 20
    case 21 => 21
    case 22 => 22
    case 26 => 5
    case 27 => 27
    case 28 => 28
    case 30 => 30
    case 31 => 31
    case 36 => 63
    case 39 => 66
    case 95 => 10004
    case 110 => 10008
    case 116 => 70
    case 512 => 10008
    case 525 => 10005
    case _ => 5
  }

  /** Where the server's search for an errno stops. */
  lemma ServerStop(errno: int) returns (j: nat)
    ensures j <= SERVER_ROWS
    ensures forall m :: 0 <= m < j ==> ServerRowAt(m).syserr != errno
    ensures if j < SERVER_ROWS then ServerRowAt(j) == ServerRow(StatusNumber(-errno), errno) else StatusNumber(-errno) == 5
  {
    match -errno
    case 0 => j := 0;
    case 1 => j := 1;
    case 2 => j := 2;
    case 5 => j := 3;
    case 6 => j := 4;
    case 13 => j := 5;
    case 17 => j := 6;
    case 18 => j := 7;
    case 19 => j := 9;
    case 20 => j := 10;
    case 21 => j := 11;
    case 22 => j := 12;
    case 26 => j := 22;
    case 27 => j := 13;
    case 28 => j := 14;
    case 30 => j := 15;
    case 31 => j := 8;
    case 36 => j := 17;
    case 39 => j := 18;
    case 95 => j := 23;
    case 110 => j := 20;
    case 116 => j := 19;
    case 512 => j := 21;
    case 525 => j := 24;
    case _ => j := SERVER_ROWS;
  }

  lemma ServerStatusNumbers(errno: int)
    ensures ServerStatus(errno) == StatusNumber(-errno)
  {
    var j := ServerStop(errno);
    ServerSkip(errno, 0, j);
  }

  /** The client's mapping in numbers, the two rows with a minus sign included. */
  function ErrnoNumber(stat: int): int {
    match stat
    case 0 => 0
    case 2 => -2
    case 5 => -5
    case 6 => -6
    case 11 => -11
    case 17 => -17
    case 19 => -19
    case 20 => -20
    case 21 => -21
    case 22 => -22
    case 27 => -27
    case 28 => -28
    case 30 => -30
    case 31 => -31
    case -50 => 0
    case 63 => -36
    case 66 => -39
    case 69 => -122
    case 70 => -116
    case 71 => -66
    case 10001 => -521
    case 9480 => 0
    case _ => -5
  }

  lemma ClientStop(stat: int) returns (k: nat)
    ensures k < CLIENT_ROWS
    ensures forall m :: 0 <= m < k ==> ClientRowAt(m).stat != stat
    ensures ClientRowAt(k).errno == ErrnoNumber(stat) && (k < CLIENT_ROWS - 1 ==> ClientRowAt(k).stat == stat)
  {
    match stat
    case 0 => k := 0;
    case 2 => k := 1;
    case 5 => k := 2;
    case 6 => k := 3;
    case 11 => k := 4;
    case 17 => k := 5;
    case 19 => k := 6;
    case 20 => k := 7;
    case 21 => k := 8;
    case 22 => k := 9;
    case 27 => k := 10;
    case 28 => k := 11;
    case 30 => k := 12;
    case 31 => k := 13;
    case -50 => k := 14;
    case 63 => k := 15;
    case 66 => k := 16;
    case 69 => k := 17;
    case 70 => k := 18;
    case 71 => k := 19;
    case 10001 => k := 20;
    case 9480 => k := 21;
    case _ => k := CLIENT_ROWS - 1;
  }

  lemma ClientErrnoNumbers(stat: int)
    ensures ClientErrno(stat) == ErrnoNumber(stat)
  {
    var k := ClientStop(stat);
    ClientSkip(stat, 0, k);
  }

  /** End to end, every errno arrives as itself or as -EIO, and the ones that
      arrive as themselves are exactly the survivors; success only for 0. */
  lemma ErrnoEndToEnd(errno: int)
    ensures ClientErrno(ServerStatus(errno)) == if Survives(errno) then errno else -EIO
    ensures ClientErrno(ServerStatus(errno)) == 0 <==> errno == 0
  {
    ServerStatusNumbers(errno);
    ClientErrnoNumbers(ServerStatus(errno));
  }

  /** A zero status leaves the server exactly for errno 0. */
  lemma StatusZeroIffErrnoZero(errno: int)
    ensures ServerStatus(errno) == STAT_OK <==> errno == 0
  {
    ServerStatusNumbers(errno);
  }

  /** The statuses that read as success: besides 0, the two differences the
      misplaced minus signs leave in the table. */
  lemma ReadsAsSuccess(stat: int)
    ensures ClientErrno(stat) == 0 <==> stat == 0 || stat == 9480 || stat == -50
  {
    ClientErrnoNumbers(stat);
  }

  /** The statuses those two rows were meant for are lost. */
  lemma ClientTableHoles()
    ensures ClientErrno(45) == ClientErrno(10003) == -EIO
  {
    ClientErrnoNumbers(45);
    ClientErrnoNumbers(10003);
  }

  /** What a handler can put in a status word: a mapped errno, a negated
      constant, or what opening a handle gives. */
  ghost predicate Sendable(stat: u32) {
    || (exists errno: int :: stat == ServerStatus(errno))
    || stat == NEGATED_NOSPC || stat == NEGATED_NOTDIR
    || OpenStatus(stat)
  }

  /** The statuses `vsnfsd_open` can give. */
  predicate OpenStatus(s: u32) {
    s == STAT_OK || s == STAT_NOENT || s == STAT_IO || s == STAT_NOSPC
  }

  /** The server never sends a hole: a status it can send reads as success if
      and only if it is zero. */
  lemma SentStatusExact(stat: u32)
    requires Sendable(stat)
    ensures ClientErrno(stat) == 0 <==> stat == STAT_OK
  {
    ReadsAsSuccess(stat);
    if errno :| stat == ServerStatus(errno) {
      ServerStatusNumbers(errno);
    }
  }
}
