/** The client's inode cache, keyed by the number parsed from a handle. */
module InodeCache {
  import opened Xdr
  import opened Protocol
  import opened Handles

  const MODE_REG: nat := 0x81FF   // S_IFREG | S_IRWXUGO
  const MODE_DIR: nat := 0x4FFF   // S_IFDIR | S_IALLUGO
  const MAXDATA: nat := 4096
  const DIRSIZE: nat := 4096

  datatype Ops = FileOps | DirOps

  /** The fields `vsnfs_fhget` sets; `fh` is the handle kept in `i_private`. */
  datatype Inode = Inode(ino: u64, iop: Ops, fop: Ops, mode: nat, size: nat, nlink: nat, fh: Fh)

  type Cache = map<u64, Inode>

  predicate Supported(fh: Fh) {
    fh.typ == TYPE_REG || fh.typ == TYPE_DIR
  }

  /** What an inode made for a handle must be. */
  ghost predicate MadeFor(inode: Inode, fh: Fh) {
    && inode.ino == Number(fh.data) && inode.fh == fh
    && (fh.typ == TYPE_DIR ==> inode.mode == MODE_DIR && inode.iop == inode.fop == DirOps
                               && inode.size == DIRSIZE && inode.nlink == 2)
    && (fh.typ == TYPE_REG ==> inode.mode == MODE_REG && inode.iop == inode.fop == FileOps
                               && inode.size == MAXDATA && inode.nlink == 1)
  }

  /** Position of the first handle with a given number. */
  function First(hs: seq<Fh>, n: u64): Option<nat> {
    if hs == [] then None
    else match First(hs[..|hs| - 1], n)
         case Some(k) => Some(k)
         case None => if Number(hs[|hs| - 1].data) == n then Some(|hs| - 1) else None
  }

  lemma {:induction false} FirstIsFirst(hs: seq<Fh>, n: u64)
    ensures match First(hs, n)
            case None => forall j :: 0 <= j < |hs| ==> Number(hs[j].data) != n
            case Some(k) => k < |hs| && Number(hs[k].data) == n && forall j :: 0 <= j < k ==> Number(hs[j].data) != n
  {
    if hs != [] { FirstIsFirst(hs[..|hs| - 1], n); }
  }

  /** The cache is exactly what the handles seen so far leave behind: one inode
      per number, made for the first handle with that number. */
  ghost predicate Holds(cache: Cache, hs: seq<Fh>) {
    forall n: u64 ::
      match First(hs, n)
      case None => n !in cache
      case Some(k) => k < |hs| && n in cache && MadeFor(cache[n], hs[k])
  }

  class ClientCache {
    var cache: Cache

    constructor ()
      ensures Holds(cache, [])
    {
      cache := map[];
    }

    /** `vsnfs_fhget` on top of `iget_locked`: find the inode or make it. */
    method Fhget(fh: Fh, ghost hs: seq<Fh>) returns (inode: Inode)
      requires Supported(fh) && Holds(cache, hs)
      modifies this
      ensures Holds(cache, hs + [fh])
      ensures Number(fh.data) in cache && inode == cache[Number(fh.data)]
      ensures old(cache).Keys <= cache.Keys && forall n :: n in old(cache) ==> cache[n] == old(cache)[n]
    {
      var hash := Number(fh.data);
      if hash !in cache {
        var made := Inode(hash, FileOps, FileOps, 0, 0, 1, fh);
        if fh.typ == TYPE_REG {
          made := made.(mode := MODE_REG, size := MAXDATA);
        } else {
          made := made.(iop := DirOps, fop := DirOps, mode := MODE_DIR, size := DIRSIZE, nlink := 2);
        }
        cache := cache[hash := made];
      }
      inode := cache[hash];
      FirstSnoc(hs, fh);
      assert Holds(cache, hs + [fh]) by {
        forall n: u64
          ensures match First(hs + [fh], n)
                  case None => n !in cache
                  case Some(k) => k < |hs + [fh]| && n in cache && MadeFor(cache[n], (hs + [fh])[k])
        {
          FirstIsFirst(hs, n);
        }
      }
    }
  }

  lemma FirstSnoc(hs: seq<Fh>, fh: Fh)
    ensures forall n {:trigger First(hs + [fh], n)} ::
      First(hs + [fh], n) == if First(hs, n).Some? then First(hs, n)
                             else if Number(fh.data) == n then Some(|hs|) else None
  {
    assert (hs + [fh])[..|hs|] == hs;
  }

  /** The cache is a function of the handles alone. */
  lemma CacheDetermined(c1: Cache, c2: Cache, hs: seq<Fh>)
    requires Holds(c1, hs) && Holds(c2, hs)
    requires forall k :: 0 <= k < |hs| ==> Supported(hs[k])
    ensures c1 == c2
  {
    forall n: u64
      ensures n in c1 <==> n in c2
      ensures n in c1 ==> c1[n] == c2[n]
    {
      assert match First(hs, n) case None => n !in c1 case Some(k) => k < |hs| && n in c1 && MadeFor(c1[n], hs[k]);
      assert match First(hs, n) case None => n !in c2 case Some(k) => k < |hs| && n in c2 && MadeFor(c2[n], hs[k]);
    }
  }

  /** Client identity is server identity: handles the server printed for two
      inodes reach the same cached inode exactly when the inodes are the same. */
  lemma SameInodeSameEntry(cache: Cache, hs: seq<Fh>, j: nat, k: nat, i1: u64, i2: u64, b1: FhData, b2: FhData)
    requires Holds(cache, hs) && j < |hs| && k < |hs|
    requires hs[j].data == PrintIno(b1, i1) && hs[k].data == PrintIno(b2, i2)
    requires i1 <= MAX_EXACT_INO && i2 <= MAX_EXACT_INO
    ensures Number(hs[j].data) in cache && Number(hs[k].data) in cache
    ensures cache[Number(hs[j].data)].ino == i1 && cache[Number(hs[k].data)].ino == i2
    ensures cache[Number(hs[j].data)] == cache[Number(hs[k].data)] <==> i1 == i2
  {
    HandleExactIffSevenDigits(b1, i1);
    HandleExactIffSevenDigits(b2, i2);
    FirstIsFirst(hs, i1);
    FirstIsFirst(hs, i2);
    assert match First(hs, i1) case None => i1 !in cache case Some(m) => m < |hs| && i1 in cache && MadeFor(cache[i1], hs[m]);
    assert match First(hs, i2) case None => i2 !in cache case Some(m) => m < |hs| && i2 in cache && MadeFor(cache[i2], hs[m]);
  }

  /** A cached inode field by field, for the first of the handles seen with its
      number: a directory (type 2) has mode 047777, two links and directory operations,
      a regular file (type 1) mode 0100777, one link and file operations. */
  lemma CachedFields(cache: Cache, hs: seq<Fh>, k: nat)
    requires Holds(cache, hs) && k < |hs| && Supported(hs[k])
    requires forall j :: 0 <= j < k ==> Number(hs[j].data) != Number(hs[k].data)
    ensures Number(hs[k].data) in cache
    ensures var inode := cache[Number(hs[k].data)];
            && inode.ino == Number(hs[k].data) && inode.fh == hs[k] && inode.size == 4096
            && (hs[k].typ == 1 || hs[k].typ == 2)
            && (hs[k].typ == 2 ==> inode.mode == 4 * 4096 + 4095 && inode.nlink == 2 && inode.iop == inode.fop == DirOps)
            && (hs[k].typ == 1 ==> inode.mode == 8 * 4096 + 511 && inode.nlink == 1 && inode.iop == inode.fop == FileOps)
  {
    var n := Number(hs[k].data);
    FirstIsFirst(hs, n);
    assert First(hs, n) == Some(k);
    assert match First(hs, n) case None => n !in cache case Some(m) => m < |hs| && n in cache && MadeFor(cache[n], hs[m]);
  }
}
