/** The file-descriptor layer: the descriptor guard shared by `sys_write`,
    `sys_read`, `sys_close` and `sys_fstat`, the effect of `sys_close` on the
    descriptor table, and the record `sys_fstat` copies out. */
module Files {
  import opened Types

  /** An open file: the console, or a file backed by an inode (named by its
      inode number). Being a closed datatype, there is no third kind for the
      source's "unknown file type" panic to catch. */
  datatype File = Stdio | Inode(inum: nat)

  datatype InodeType = Regular | Directory

  /** The cached inode fields this layer reads and writes. */
  datatype InodeRec = InodeRec(dev: nat, itype: InodeType, nlink: int)

  /** The descriptor table of the current process: FD_BUFFER_SIZE slots, a
      `None` slot being a null `struct file *`. */
  type FdTable = s: seq<Option<File>> | |s| == FD_BUFFER_SIZE
    witness seq(FD_BUFFER_SIZE, _ => None)

  /** The range check as the source writes it: `fd < 0 || fd > FD_BUFFER_SIZE`
      rejects. */
  predicate FdAcceptedAsWritten(fd: int)
  {
    !(fd < 0 || fd > FD_BUFFER_SIZE)
  }

  /** The range check a table of FD_BUFFER_SIZE slots needs. */
  predicate FdInRange(fd: int)
  {
    0 <= fd < FD_BUFFER_SIZE
  }

  /** The check as written lets `fd == FD_BUFFER_SIZE` through, which indexes
      one slot past the end of the table. */
  lemma FdGuardOffByOne()
    ensures FdAcceptedAsWritten(FD_BUFFER_SIZE)
    ensures !FdInRange(FD_BUFFER_SIZE)
  {
  }

  /** The two checks disagree on exactly one descriptor. */
  lemma FdGuardsDifferOnlyAtCapacity(fd: int)
    ensures FdInRange(fd) <==> FdAcceptedAsWritten(fd) && fd != FD_BUFFER_SIZE
  {
  }

  /** The guard followed by the null-slot check: the open file behind `fd`,
      or `None` when either rejects it. */
  function FileAt(files: FdTable, fd: int): Option<File>
  {
    if FdInRange(fd) then files[fd] else None
  }

  /** A descriptor passes the guard exactly when it is in range and its slot
      is not null; what it yields is then that slot's file. */
  lemma FileAtIff(files: FdTable, fd: int)
    ensures FileAt(files, fd).Some? <==> 0 <= fd < FD_BUFFER_SIZE && files[fd].Some?
    ensures FileAt(files, fd).Some? ==> FileAt(files, fd) == files[fd]
  {
  }

  /** Where `sys_write` and `sys_read` send a request that passed the guard. */
  datatype Route = Rejected | Console | ToInode(inum: nat)

  function RouteOf(files: FdTable, fd: int): Route
  {
    match FileAt(files, fd)
    case None => Rejected
    case Some(Stdio) => Console
    case Some(Inode(i)) => ToInode(i)
  }

  /** `sys_close(fd)`: clears the slot of an open descriptor (the release of
      the file itself happens in `fileclose`, not part of this model). */
  function Close(files: FdTable, fd: int): (FdTable, Word)
  {
    if FileAt(files, fd).None? then (files, NEG1)
    else (files[fd := None], 0)
  }

  /** `sys_close` succeeds exactly on an open descriptor; a rejected one
      leaves the table alone; a successful one nulls that slot and no other. */
  lemma CloseEffect(files: FdTable, fd: int)
    ensures Close(files, fd).1 == 0 <==> FdInRange(fd) && files[fd].Some?
    ensures Close(files, fd).1 != 0 ==> Close(files, fd) == (files, NEG1)
    ensures Close(files, fd).1 == 0 ==>
              Close(files, fd).0[fd] == None &&
              forall j :: 0 <= j < FD_BUFFER_SIZE && j != fd ==> Close(files, fd).0[j] == files[j]
  {
  }

  /** Closing the same descriptor twice: the second close fails. */
  lemma CloseTwiceFails(files: FdTable, fd: int)
    ensures Close(Close(files, fd).0, fd).1 == NEG1
  {
  }

  // ---------------------------------------------------------------------
  // sys_fstat

  /** The mode values `sys_fstat` reports for a directory and a regular file. */
  const S_IFDIR: bv32 := 0x040000
  const S_IFREG: bv32 := 0x100000

  /** The fixed-layout record `sys_fstat` copies out (padding left out). */
  datatype StatRec = StatRec(dev: Word, ino: Word, mode: bv32, nlink: nat)

  function ModeOf(t: InodeType): bv32
  {
    if t == Directory then S_IFDIR else S_IFREG
  }

  /** The record for inode `inum`; `nlink` goes into a uint32 field. */
  function StatOf(inum: nat, ip: InodeRec): StatRec
  {
    StatRec(ip.dev % WORD_MOD, inum % WORD_MOD, ModeOf(ip.itype), ip.nlink % INT_MOD)
  }

  /** Reading a record back: the type is the directory bit of the mode. */
  function DecodeStat(st: StatRec): (nat, nat, InodeType, int)
  {
    (st.dev, st.ino, if st.mode & S_IFDIR != 0 then Directory else Regular, st.nlink)
  }

  /** The mode tells a directory from a regular file, in both directions. */
  lemma ModeDistinguishesTypes(t: InodeType)
    ensures ModeOf(t) & S_IFDIR != 0 <==> t == Directory
    ensures ModeOf(t) & S_IFREG != 0 <==> t == Regular
  {
  }

  /** Decoding the record gives back the inode's fields whenever they fit
      their record fields. */
  lemma StatRoundTrip(inum: nat, ip: InodeRec)
    requires inum < WORD_MOD && ip.dev < WORD_MOD && 0 <= ip.nlink < INT_MOD
    ensures DecodeStat(StatOf(inum, ip)) == (ip.dev, inum, ip.itype, ip.nlink)
  {
    ModeDistinguishesTypes(ip.itype);
  }

  /** Every open inode-backed file names a cached inode. */
  predicate OpenInodesCached(files: FdTable, inodes: map<nat, InodeRec>)
  {
    forall fd :: 0 <= fd < FD_BUFFER_SIZE && files[fd].Some? && files[fd].value.Inode? ==>
      files[fd].value.inum in inodes
  }

  /** `sys_fstat(fd, va)`: the return value (an `int`) and the record copied
      out to `va`, if any. A console handle has no inode: the model fails
      there. */
  function Fstat(files: FdTable, inodes: map<nat, InodeRec>, fd: int): (int, Option<StatRec>)
    requires OpenInodesCached(files, inodes)
  {
    match FileAt(files, fd)
    case None => (-1, None)
    case Some(Stdio) => (-1, None)
    case Some(Inode(i)) => (0, Some(StatOf(i, inodes[i])))
  }

  /** `sys_fstat` succeeds exactly on a descriptor open on an inode, and then
      reports that inode's number, type and link count. */
  lemma FstatReports(files: FdTable, inodes: map<nat, InodeRec>, fd: int)
    requires OpenInodesCached(files, inodes)
    ensures Fstat(files, inodes, fd).0 == 0 || Fstat(files, inodes, fd).0 == -1
    ensures Fstat(files, inodes, fd).0 == 0 <==> FdInRange(fd) && files[fd].Some? && files[fd].value.Inode?
    ensures Fstat(files, inodes, fd).0 == 0 ==>
              var i := files[fd].value.inum;
              var st := Fstat(files, inodes, fd).1.value;
              st.ino == i % WORD_MOD &&
              (st.mode == S_IFDIR <==> inodes[i].itype == Directory) &&
              st.nlink == inodes[i].nlink % INT_MOD
  {
  }
}
