# VSNFS in Dafny

VSNFS is a small network file system: a client and a server that speak ONC RPC
with XDR words (RFC 4506, sections 3, 4.2, 4.9 and 4.11). This project models
its three connected cores and proves what they promise together.

* **READDIR.** The server appends entries to one page under a word budget and
  fills in each entry's offset one call late; the client walks the page with a
  cursor and a look-ahead end test. `dirpage.dfy` says what a page is,
  `server_readdir.dfy` and `client_readdir.dfy` are the two imperative halves,
  `readdir_protocol.dfy` joins them.
* **Handles and LOOKUP.** A handle is an inode number printed into eight bytes.
  The server keeps a list of (inode, path) pairs that GETROOT resets and LOOKUP
  extends. `handles.dfy`, `filetree.dfy`, `lookup_table.dfy` and
  `lookup_runs.dfy` prove that whole runs of calls agree with a plain tree walk;
  `lookup_progress.dfy` shows which runs there are, `readdir_runs.dfy` what READDIR
  does in their states. `inode_cache.dfy` is the client's own table of inodes.
* **Codecs, dispatch, errors, mount data.** `xdr.dfy`, `requests.dfy`,
  `dispatch.dfy`, `errors.dfy`, `mount.dfy`; `protocol.dfy` holds the shared sizes.

## How to read the model

* A `__be32` cell is the number its bytes spell in network order, so `htonl` and
  `ntohl` are the identity on it; copied bytes are packed into such cells.
  Pointers into a buffer are word indices. `unsigned long` has 64 bits.
* `simple_strtoul`, `snprintf`, `match_token`, `strsep`, `xdr_encode_array` and
  the XDR size checks belong to the Linux 2.6.31 kernel and are modelled from its
  behaviour.
* The file system is a table of inodes in which directories map names to inode
  numbers, so hard links are allowed and `.` and `..` are ordinary entries.
  `path_lookup` resolves a path against it.
* What comes from outside is a parameter: the listing `vfs_readdir` feeds and its
  return code, what uninitialised or reused structures hold, which allocation
  fails, what the client's page holds after the received words, the client's
  `filldir` (any function of the deliveries so far).
* Where the code goes on after a failed `path_lookup`, dereferences a failed
  allocation or writes or reads past a buffer, the outcome is a value of its own
  (`Undefined`, `Unterminated`, `OpenUndefined`, `Overran`); results about runs speak
  of runs without such a step, `LookupIsChild` says exactly when a LOOKUP in a known
  directory is defined, and `OpensIffTerminated` when opening a known handle is.

## What the code does that one might not expect

The model follows the code in these points.

* LOOKUP through a handle of a regular file appends the name to the file's own
  path and answers OK with a sibling's handle (`SiblingRun`); LOOKUP is a step of
  the tree walk if and only if the parent is a directory.
* A path of 1024 bytes or more is copied into the 1024-byte buffer of the open
  without a terminator, so what `filp_open` reads is undefined. A handle opens its
  inode if and only if its stored path is shorter (`HandleValidity`, `RootValidity`);
  such paths do get stored (`LongPathUnopenable`, `LongRootUnopenable`,
  `LongestRootUnopenable`).
* Handles are exact if and only if the inode number has at most seven digits
  (`HandleExactIffSevenDigits`); beyond that two inodes can share a handle. The
  theorems about runs ask this of the inodes they speak of, and
  `AnswerExactIffSmall` shows that they must.
* A listing that does not fit the page, or is empty, ends with -EBADCOOKIE and
  leaves the file position at zero, so every further `readdir` delivers the same
  entries again (`RepeatedReaddir`).
* Two rows of the client's error table have a minus sign for a comma, so besides 0
  exactly the statuses 9480 and -50 read as success (`ReadsAsSuccess`); the server
  never sends them (`SentStatusExact`).
* Handlers return negated network-order statuses (`-vsnfserr_nospc`); on a
  little-endian host the client reads 256 minus the status and reports -EIO.
* GETROOT's answer for regular files is unreachable (`GetrootFindsDirectories`).
* LOOKUP with a handle that is not in the table answers OK with whatever the
  response structure held, and leaves the table alone (`UnknownParent`); a successful
  LOOKUP returns a known handle if and only if the parent was known, unless the
  response structure happened to hold one (`ValidIffParentKnown`).
* An address part of 16 to 255 bytes passes the length test of the mount code and is
  written past its field (`ParseMntpath`).

## Model

| member | source | states |
|---|---|---|
| LookupRuns.ChainIsWalk | server/vsnfsproc.c:61-154 | In every run of remote LOOKUPs after a GETROOT, a chain of lookups from the root handle, with any other calls in between, agrees with the child-by-child walk from the exported directory: the walk exists if and only if the chain passed through directories, and then the last handle denotes the inode it reaches; the inodes met on the chain have at most seven digits |
| LookupRuns.HandleValidity | server/vsnfsproc.c:17-43 | A handle once answered for an inode of at most seven digits keeps its stored path for the rest of the run, whatever lookups come in between, and opens it, terminated and resolving to that inode, if and only if the path has fewer than 1024 bytes |
| LookupRuns.RootValidity | server/vsnfsproc.c:202-214 | The root handle (root inode of at most seven digits) denotes the exported directory, under its path, in every state of the run, and opens it if and only if that path has fewer than 1024 bytes |
| LookupRuns.UnknownParent | server/vsnfsproc.c:89-153 | A LOOKUP through a handle that is not in the table gives the client errno 0 and the old contents of the response structure, and leaves the table alone |
| LookupRuns.ValidIffParentKnown | server/vsnfsproc.c:89-153 | When the response structure held no known handle, a successful LOOKUP returns a known one if and only if the parent was known |
| LookupRuns.ReachableInv | server/vsnfsproc.c:131-148 | In every reachable state inode numbers are distinct, every stored path is a C string below the root path that resolves to its inode, and ends in a slash exactly for directories |
| LookupRuns.GoodPersists | server/vsnfsproc.c:131-148 | A number once in the table keeps its path: the first path stored wins for the whole run |
| LookupRuns.AnswerExactIffSmall | server/vsnfsproc.c:103-118 | The answered handle denotes the inode LOOKUP resolved if and only if its number has at most seven digits |
| LookupRuns.AnswerType | server/vsnfsproc.c:109-127 | In every run the answered type is 1 for a regular file, 2 for a directory, and for anything else what the response structure held |
| LookupRuns.AnswerStores | server/vsnfsproc.c:114-148 | An answered LOOKUP leaves the table alone if the inode is known, else puts one slot at its head: the built path, with a slash exactly for a directory |
| LookupRuns.AnswerFits | server/vsnfsproc.c:77-125 | An answered path, with a directory's slash, never exceeds 1024 bytes |
| LookupRuns.LookupFailsIff | server/vsnfsproc.c:89-148 | A LOOKUP of a run fails if and only if the parent is known and either its path buffer or, for a new inode, memory for its path is missing; the client then gets -5 and its old handle, and the table stays |
| LookupRuns.RunIsGood | server/vsnfssvc.c:265-310 | Every call of a run over the wire is a defined step of its handler, the client getting errno 0 and the handle exactly for status OK, from the one-slot table GETROOT leaves |
| LookupProgress.GetrootProgress | server/vsnfsproc.c:156-219 | A remote GETROOT of a non-empty legal path, memory permitting, is answered if and only if the path with its slash resolves; it then succeeds and a run begins from any table |
| LookupProgress.RunProgress | server/vsnfsproc.c:89-148 | In any state of any run a remote LOOKUP of a legal name in a known directory, memory permitting, is answered if and only if the child exists and the built path fits; it then succeeds with the child's handle and the run goes on |
| LookupProgress.WalkHasRun | server/vsnfsproc.c:61-219 | For every file system, starting table and response contents and every list of legal names whose plain walk exists, meets inodes of at most seven digits and fits 1024 bytes, GETROOT and the chain of LOOKUPs are all answered and the last handle denotes the inode the walk reaches |
| LookupProgress.UnknownHandleAnswered | server/vsnfsproc.c:89-153 | After any run a LOOKUP through an unknown handle is answered OK with the response structure's old contents, and the run goes on |
| LookupProgress.ZeroHandleUnknown | server/vsnfsproc.c:74-88 | The handle of eight zero bytes is unknown in every state of every run |
| LookupProgress.LongRootUnopenable | server/vfs.c:24-37 | In every file system GETROOT of 1024 slashes succeeds with a handle whose path is copied without a terminator |
| LookupProgress.LongestRootUnopenable | server/vsnfsproc.c:171-180 | The same for a root path of 1025 bytes, the longest that can be stored |
| LookupProgress.LongPathUnopenable | server/vsnfsproc.c:114-148 | A LOOKUP can store a path of exactly 1024 bytes; its handle is copied without a terminator |
| LookupProgress.SiblingRun | server/vsnfsproc.c:89-100 | GETROOT of the root, LOOKUP of the file a, LOOKUP of b through it: a run in which all succeed and the last handle is that of the file ab |
| ReaddirRuns.ReaddirSource | server/vfs.c:17-101 | In any state of any run READDIR lists the very directory its handle denotes; it fails with 28 without a buffer, 2 for an unknown handle, 5 when the open is refused and -ENOTDIR for a known handle of another kind, in this order, and is undefined exactly for a stored path of 1024 bytes or more |
| ReaddirRuns.ReaddirReports | server/vfs.c:30-49 | The client's readdir reports these as -28, -2, -5 and -20, and a failed vfs_readdir as its own errno if that is one of the sixteen that survive, else -5; nothing is delivered |
| ReaddirRuns.DeliveredFromDirectory | server/vfs.c:75-101 | Entries are delivered only when the handle was in the table and denoted a directory, and they come from that directory's listing |
| ReaddirRuns.ListedNamesLookUp | server/vsnfsxdr.c:174-227 | A name delivered by a READDIR in any state of a run, looked up later through the same handle, gives the inode number READDIR delivered, within seven digits |
| ReaddirRuns.DispatchReaddir | server/vsnfssvc.c:265-310 | An undecodable request is refused; otherwise one status word, and the specified page exactly when it is zero |
| ReaddirRuns.RemoteReaddir | vsnfsDir.c:147-216 | Client encoder, dispatcher, open through the table, filler, encoder and client walk together do what the word-free description says of what the handle's path opens |
| LookupRuns.CachedInodesIdentify | vsnfsClient.c:235-290 | Two answered calls of a run reach the same cached client inode if and only if the server resolved them to the same inode, within seven digits |
| LookupTable.LookupIsChild | server/vsnfsproc.c:61-154 | LOOKUP in a known directory is defined exactly when the child exists and the built path fits its buffer, answers with the child's handle and type, and leaves the child in the table |
| LookupTable.LookupIsChildIffDirectory | server/vsnfsproc.c:89-100 | The path LOOKUP builds names the child if and only if the parent is a directory |
| LookupTable.FileParentFindsSibling | server/vsnfsproc.c:89-100 | The failing step in the small: looking up b in the file a finds the file ab |
| LookupTable.LookupAnswers | server/vsnfsproc.c:100-127 | Whatever a defined LOOKUP of a known parent resolves, status OK and that inode's handle and type are answered |
| LookupTable.LookupKeeps | server/vsnfsproc.c:61-154 | LOOKUP with any handle and any decodable name, with or without memory, keeps the table invariant and every path found before |
| LookupTable.GetrootEstablishes | server/vsnfsproc.c:156-219 | A successful GETROOT answers the directory's handle and starts a table with that one slot, whatever the table was |
| LookupTable.GetrootFindsDirectories | server/vsnfsproc.c:186-199 | A path with its slash resolves to a directory or not at all, so GETROOT never answers "not a directory" |
| LookupTable.FindSlot | server/vsnfsproc.c:75-88 | With distinct numbers, first match from the head is a map lookup |
| LookupTable.OpensIffTerminated | server/vfs.c:24-37 | A known handle opens a terminated path that resolves to its inode if and only if the stored path has fewer than 1024 bytes; otherwise the copy is unterminated |
| LookupTable.OpenExactly | server/vfs.c:17-49 | What opening gives for every handle, whatever is refused: 28 without the buffer, 2 if unknown, undefined for a path of 1024 bytes or more, 5 if the open is refused, else its own inode |
| LookupTable.CopyReadBack | server/vsnfsproc.c:34 | A C string copied with strncpy is read back if and only if it left room for its terminator |
| LookupTable.Server.Open | server/vfs.c:17-49 | The buffer, the copy and the open in source order give the specified opening |
| LookupTable.Server.Search | server/vsnfsproc.c:75-88 | The list loop returns the first match |
| LookupTable.Server.FhToPath | server/vsnfsproc.c:17-43 | Succeeds exactly for a non-zero known number, and then the buffer holds the strncpy of its path; otherwise it is untouched |
| LookupTable.Server.ProcLookup | server/vsnfsproc.c:61-154 | The handler performs exactly the step about which the lemmas speak |
| LookupTable.Server.ProcGetroot | server/vsnfsproc.c:156-219 | The handler performs exactly the step about which the lemmas speak |
| FileTree.ResolveChild | server/vsnfsproc.c:89-100 | Appending a legal name to a directory's slash-ended path resolves to that directory's child |
| FileTree.ResolveSlash | server/vsnfsproc.c:119-125 | Giving a path its slash changes nothing for a directory and resolves to nothing otherwise |
| FileTree.ResolveIsWalk | server/vsnfsproc.c:100 | Resolving names joined by slashes is walking them from the root one by one |
| Handles.NumberOfPrint | server/vsnfsproc.c:107-108 | What a printed handle parses to, for every 64-bit inode number and any previous buffer: its leading seven digits, or 0 for numbers that print as negative |
| Handles.HandleExactIffSevenDigits | server/vsnfsproc.c:107-108 | Printing and parsing give the number back if and only if it is at most 9999999 |
| Handles.HandlesIdentify | vsnfsClient.c:240-243 | Within the bound, two handles parse alike if and only if they come from the same inode |
| Handles.HandlesCollide | vsnfsClient.c:240-243 | Beyond the bound two inodes share a number |
| Handles.DecimalIsNotation | server/vsnfsproc.c:107-108 | What %ld prints: digits without a leading zero whose value is the number |
| Handles.PrintedBytes | server/vsnfsproc.c:107-108 | The eight bytes of a printed handle: at most seven digits, a NUL, and behind it what the buffer held |
| Handles.StrtoulHex | vsnfsMount.c:110-121 | Base 0 reads hexadecimal after 0x or 0X |
| Handles.StrtoulOctal | vsnfsMount.c:110-121 | Base 0 reads octal after 0 |
| DirPage.PatchLast | server/vsnfsxdr.c:189-190 | Replacing the last word of a page is laying the entries out with another last offset: the delayed write alters nothing else |
| DirPage.PageCons | server/vsnfsxdr.c:205-219 | Read from the front, a page is its first entry, carrying the second one's offset, and the page of the rest |
| DirPage.AcceptedIsLongestPrefix | server/vsnfsxdr.c:185-203 | A prefix of the listing is sendable (32-bit offsets and inodes, within the budget) if and only if it is no longer than what the filler takes |
| DirPage.PageFitsRequest | server/vsnfsproc.c:229-239 | Entries and terminator never exceed max(2, count/4) words nor the page |
| DirPage.AcceptedInNumbers | server/vsnfsproc.c:229-239 | For every count up to 4096, a prefix is sent if and only if its offsets and inode numbers are at most 4294967295 and its words at most count/4 - 2 (0 below 8 bytes) |
| DirPage.CompleteInNumbers | server/vsnfsproc.c:229-239 | At 4096 bytes a listing is sent whole if and only if it is in range and at most 1022 words |
| DirPage.EntryLayout | server/vsnfsxdr.c:191-219 | An entry word by word: 1, inode, name length, name (cut at 255 bytes), printed handle, type, next offset |
| DirPage.PageEnd | server/vsnfsxdr.c:165-166 | A page ends in 0 and then 1 exactly when nothing was refused, else 0 |
| DirPage.DeliveredFields | server/vsnfsxdr.c:185-219 | Each accepted entry goes out with its own name, inode and type and with the low 32 bits of the next entry's offset, even if that one was refused for room; all ones if there is none or its offset is too big |
| ServerReaddir.ReaddirRes.EncodeEntry | server/vsnfsxdr.c:174-227 | One call of the filler: when it accepts, what it writes, where the next offset slot is, what budget is left, and what a refusal patches and reports |
| ServerReaddir.RefusalNumbers | server/vsnfsxdr.c:185-203 | A refusal leaves 27 for the offset, else 10005 for the room, else 27 for the inode number |
| ServerReaddir.ReaddirRes.EncodeNext | server/vsnfsxdr.c:174-227 | A call keeps the page equal to the layout of the entries taken so far, and words written plus words left equal to the budget |
| ServerReaddir.PatchedPage | server/vsnfsxdr.c:189-190 | The slot kept for the next call is the last offset word, and writing it changes that word alone |
| ServerReaddir.ReaddirRes.FeedListing | server/vfs.c:92-96 | After a listing the page holds its longest fitting prefix, with the right last offset, and no error is left if and only if nothing was refused |
| ServerReaddir.ReaddirRes.ProcReaddir | server/vsnfsproc.c:221-265 | Feeds the budget from the requested count; the status depends on opening and on vfs_readdir alone |
| ServerReaddir.ReaddirRes.EncodeReaddirRes | server/vsnfsxdr.c:153-169 | Two terminator words, the second 1 if and only if no error is left; for a page-aligned buffer the masked-address formula is four times the words, a full page included |
| ServerReaddir.ReaddirRes.Serve | server/vsnfssvc.c:289-308 | On status OK the transmitted bytes are exactly the specified page |
| ClientReaddir.DecodeEncodedEntry | vsnfsXdr.c:250-275 | Decoding an encoded entry gives its inode, type, name (cut to 255 bytes), offset and handle, and the end flag exactly when the terminator says so, whatever follows |
| ClientReaddir.WalkIsReplay | vsnfsDir.c:104-141 | Walking a laid-out page is replaying its entries; the words after the terminator play no part |
| ClientReaddir.Descriptor.DirDecode | vsnfsDir.c:78-89 | The cursor moves by exactly one entry, or stays on -EBADCOOKIE |
| ClientReaddir.Descriptor.DoFilldir | vsnfsDir.c:104-141 | The loop performs the specified walk; the position moves and the page is released only at the end mark |
| ReaddirProtocol.ReaddirRoundTrip | vsnfsDir.c:104-141 | For every listing, budget, filldir and page remainder, the client does with the server's page what it would do with the list of accepted entries |
| ReaddirProtocol.ReplayEnds | vsnfsDir.c:116-136 | The walk never overruns; it delivers a prefix, stops at the first refusal, ends by eof exactly on a complete non-empty page and with -EBADCOOKIE on an empty or cut-short one |
| ReaddirProtocol.ReplayAccepting | vsnfsDir.c:116-136 | With an accepting filldir exactly the accepted entries are delivered, in order, and no others |
| ReaddirProtocol.ErrorsStayErrors | vsnfsXdr.c:227-228 | A READDIR reply with a non-zero status is a negative errno on the client |
| ReaddirProtocol.ReadFailures | server/vfs.c:88-101 | A failed open with 2, 5 or 28, or any negative result of vfs_readdir, reaches the caller as that errno (-5 if it does not survive), with nothing delivered and the position unmoved |
| ReaddirProtocol.ReadShape | vsnfsDir.c:192-216 | At a non-zero position readdir does nothing; its result is never positive and the position it leaves is 0 or 4096 |
| ReaddirProtocol.SentFields | vsnfsDir.c:104-141 | However a call ends, its i-th delivery is the listing's i-th entry: name to 255 bytes, inode, type, and the next entry's offset (plus 4294967296 if negative) |
| ReaddirProtocol.ReadRefused | vsnfsDir.c:116-141 | At the first refused delivery the call ends with what filldir answered, that delivery included, and the position stays |
| ReaddirProtocol.DeliveredWhole | vsnfsDir.c:147-216 | With an accepting filldir a listing is delivered whole and the position leaves zero if and only if it is non-empty, in range and at most 1022 words; otherwise the accepted prefix comes with -523 |
| ReaddirProtocol.Readdir | vsnfsDir.c:147-216 | Nothing at a non-zero position, the RPC error if there is one, otherwise the walk's deliveries and result |
| ReaddirProtocol.RepeatedReaddir | vsnfsDir.c:192-216 | Any number of calls deliver a non-empty listing that fits exactly once; otherwise each call delivers the accepted prefix again |
| Requests.GetrootRoundTrip | server/vsnfsxdr.c:43-65 | A path arrives as sent if and only if it has at most 1024 bytes and no NUL |
| Requests.LookupRoundTrip | server/vsnfsxdr.c:20-74 | Handle and name arrive as sent if and only if the name has at most 255 bytes, no NUL and no slash |
| Requests.ReaddirAndReadRoundTrip | server/vsnfsxdr.c:81-123 | Handle, offset and count arrive as sent, counts above 4096 as 4096 |
| Requests.RequestLayout | vsnfsXdr.c:43-157 | The four requests word by word, and their lengths |
| Requests.ReplyLayout | server/vsnfsxdr.c:139-152 | The status alone, or on zero the status, the two handle words and the type |
| Requests.DeclaredSizes | vsnfsXdr.c:20-31 | 257, 265, 10 and 11 words |
| Requests.StatusIntIsSigned | vsnfsXdr.c:202-203 | The client tests the status word as a 32-bit two's complement number |
| Requests.NothingLess | server/vsnfsxdr.c:58-123 | No proper prefix of an encoded request is accepted: the decoders consume every word |
| Requests.ExtraWords | server/vsnfsxdr.c:58-123 | Words after a complete request change nothing |
| Requests.EncodeGetrootArgs | vsnfsXdr.c:87-95 | The path's words, within the declared argument size |
| Requests.EncodeLookupArgs | vsnfsXdr.c:99-110 | Handle and name words, within the declared argument size |
| Requests.EncodeReaddirArgs | vsnfsXdr.c:115-128 | Handle and count words, within the declared argument size |
| Requests.EncodeReadArgs | vsnfsXdr.c:143-157 | Handle, offset and length words, within the declared argument size |
| Requests.DecodeString | server/vsnfsxdr.c:28-57 | Exactly the counted strings within the limit and without forbidden bytes are accepted, and the cursor ends after them |
| Requests.DecodeGetrootArgs | server/vsnfsxdr.c:58-65 | The answer is a function of the declared argument words alone |
| Requests.DecodeLookupArgs | server/vsnfsxdr.c:66-74 | The answer is a function of the declared argument words alone |
| Requests.DecodeReaddirArgs | server/vsnfsxdr.c:81-93 | The answer is a function of the declared argument words alone; the count is clamped |
| Requests.DecodeReadArgs | server/vsnfsxdr.c:100-123 | The answer is a function of the declared argument words alone; the count is clamped |
| Requests.ReplyRoundTrip | vsnfsXdr.c:197-212 | For every status and handle: a body follows the status word if and only if it is zero, and then the client recovers the eight bytes and the type |
| Requests.DecodeFhReply | vsnfsXdr.c:197-212 | The errno of the status, and a handle only on success |
| Dispatch.ReplyFraming | server/vsnfssvc.c:265-310 | A request that does not decode never runs its handler; otherwise the reply is one word, or four exactly when the status is zero |
| Dispatch.WireTransparent | vsnfsProc.c:54-86 | For legal arguments a remote call is the handler's outcome as the client sees it |
| Dispatch.GetrootShortages | server/vsnfsproc.c:166-214 | GETROOT of a legal path under each shortage: without its buffers -5 and the old table, without the node undefined, without the node's path -5 with the table already emptied; an empty or unresolvable path is undefined |
| Dispatch.SeenStatus | vsnfsXdr.c:202-205 | A call succeeds exactly when the handler's status is zero; every failure of the two handlers arrives as -EIO |
| Dispatch.Rqst.Dispatch | server/vsnfssvc.c:265-310 | The dispatcher appends exactly the framed reply, or refuses and touches neither the table nor the reply |
| Dispatch.RemoteLookup | vsnfsProc.c:71-86 | Client encoder, dispatcher and client decoder together are the remote call the runs are made of |
| Dispatch.DoLookup | vsnfsDir.c:309-348 | Succeeds exactly when the remote call does, with its handle; every failure becomes one error number, never -ENOENT |
| Dispatch.RemoteGetroot | vsnfsProc.c:54-69 | The same for GETROOT |
| Xdr.PackedWord | vsnfsXdr.c:88-92 | Copied bytes in words: most significant byte first, zeros after the end |
| Xdr.QuadLenIsCeiling | server/vsnfsxdr.c:193 | The fewest words that hold the bytes |
| Errors.Vsnfserrno | server/vsnfsproc.c:363-402 | The table loop returns the first matching row's status, IO without one |
| Errors.StatToErrno | vsnfsXdr.c:310-321 | The table loop returns the first matching row's errno, -EIO without one |
| Errors.ServerStatusNumbers | server/vsnfsproc.c:368-401 | The whole server table in numbers, 5 for every other errno |
| Errors.ClientErrnoNumbers | vsnfsXdr.c:277-321 | The whole client table in numbers, its two odd rows included, -5 for every other status |
| Errors.ErrnoEndToEnd | server/vsnfsproc.c:363-402 | Every errno arrives as itself if it is one of sixteen, else as -EIO; success only for 0 |
| Errors.StatusZeroIffErrnoZero | server/vsnfsproc.c:368-401 | The server sends a zero status exactly for errno 0 |
| Errors.ReadsAsSuccess | vsnfsXdr.c:277-321 | A status reads as success if and only if it is 0, 9480 or -50 |
| Errors.SentStatusExact | server/vsnfsproc.c:363-402 | A status the server can send (a mapped errno, a negated constant, a status of opening) reads as success if and only if it is zero |
| Errors.ClientTableHoles | vsnfsXdr.c:296-303 | The statuses the two rows with a minus sign were meant for, 45 and 10003, arrive as -EIO |
| InodeCache.ClientCache.Fhget | vsnfsClient.c:235-290 | The cache keeps one inode per number, made (number, mode, operations, size, link count) for the first handle with that number, and earlier inodes stay |
| InodeCache.CacheDetermined | vsnfsClient.c:243-278 | The cache is a function of the sequence of handles |
| InodeCache.CachedFields | vsnfsClient.c:243-278 | The inode made for the first handle with a number, field by field: size 4096, and mode 047777, two links, directory operations for type 2 or mode 0100777, one link, file operations for type 1 |
| InodeCache.SameInodeSameEntry | vsnfsClient.c:240-243 | Handles of two server inodes reach the same cached inode if and only if the inodes are the same |
| Mount.Config.ParseMntpath | vsnfsMount.c:45-76 | Succeeds exactly for a fitting address, a colon and a path within the limit; address, colon and path rebuild the device name and the address has no colon; no colon gives -22 and any other failure -63; the address is stored even when the path is then too long, and overruns its field exactly for 16 to 255 bytes |
| Mount.Config.ParseOptions | vsnfsMount.c:105-132 | The last valid port and the last valid timeout win, else the defaults; the socket port is the server port modulo 65536 |
| Mount.Config.ParseMountOptions | vsnfsMount.c:79-135 | A bad device name stops the mount with -22 or -63 and the defaults in place; otherwise path and options are both set; overruns exactly when the path split does |
| Mount.PiecesRebuild | vsnfsMount.c:105-107 | The pieces the loop sees have no comma and, joined with commas, are the option string |
| Mount.JoinedPieces | vsnfsMount.c:105-107 | The other way: comma-free pieces joined with commas are split into themselves |
| Mount.DeviceNames | vsnfsMount.c:51-67 | For an address without a colon: accepted if and only if the address has at most 15 bytes and the path at most 1024; overruns if and only if the address has 16 to 255 |
| Mount.PieceMeaning | vsnfsMount.c:23-27 | A piece sets the port if and only if it is port= and a number, the timeout if and only if it is timeout= and a number, to the value base 0 reads; every other piece is unrecognized |
| Mount.DecimalOptions | vsnfsMount.c:109-124 | port= and timeout= before the decimal digits of a number below 2147483648 set exactly that number |
| Mount.ToIntWraps | vsnfsMount.c:112-121 | The cast to int keeps the number modulo 4294967296 |
| Mount.LastPortWins | vsnfsMount.c:91-114 | The last valid port stands whatever comes around it; without one it is 6789 |
| Mount.LastTimeoutWins | vsnfsMount.c:92-121 | The same for the timeout, without one 600 |
| Mount.SettingsArrive | vsnfsMount.c:105-132 | For mount data listing any settings and other words, the loop ends with the last listed port and timeout, or 6789 and 600 |

## Left out

- READ replies and the read path: the client decoder writes the count instead of reading it and the server ignores the offset, so there is no round trip.
- The NULL procedure, create, mkdir, rmdir, write and open of files: fixed answers.
- Superblock, dentry and RPC set-up, sockets, threads, the receive loop and the list drain at shutdown: calls into the kernel, or a loop that empties a list.
- Other file systems mounted below the export, whose inode numbers may repeat: an inode number names one inode in the model.
- Relative GETROOT paths, which the kernel resolves from the server thread's working directory: the model starts every path at the root.
- Symbolic links and changes of the exported file system during a run: the runs are over one fixed inode table.
- Handle bytes without a terminator (a client may send them): parsing stops at the eighth byte in the model, while the code would read on into the type field; every handle the server prints has a terminator.
- Handles of other kinds than regular files and directories in `vsnfs_fhget`, and its allocation failure.
- `vsnfs_lookup` and `vsnfs_create_rpcclient` around the remote calls: dentry and client set-up.
- The table as linked nodes: it is a sequence that handlers reassign; aliasing of nodes is not modelled, nor is the reuse of freed ones.
- What is overwritten or read once a buffer is overrun: the outcome says only that it happened.
- LookupRuns.RunIsGood: the requests of a run are those the decoders let through; others never reach a handler, by Dispatch.ReplyFraming.
