/** The revision-file handle of the FSX backend (subversion/libsvn_fs_x/rev_file.h).

    A handle owns an open rev or pack file, a byte stream over it, and two
    lazily created packed-number streams over the L2P and P2L indexes whose
    locations come from the file's footer.  The handle is modelled as an
    immutable record and every operation as a function from the old handle to
    the new one.  The filesystem's "revision -> rev / pack file" mapping is
    the `Fs` parameter of the open operations; reading and checksumming the
    footer is the `FooterReader` parameter of the index operations, an
    uninterpreted oracle applied to the handle's own open file. */
module RevFile {
  import opened Wrappers
  import opened Errors
  import opened SvnTypes

  /** The APR status of a file that does not exist. */
  const ENOENT: int := 2

  type TxnId = nat

  /** The MD5 digest of an index, never computed here. */
  datatype Checksum = Md5(digest: seq<int>)

  /** `svn_fs_x__index_info_t`: the byte range [start, end) of an index and
      the checksum over it. */
  datatype IndexInfo = IndexInfo(start: int, end: int, checksum: Checksum)

  /** An index-info field of the handle.  `Unread` is the "-1 / NULL" state
      the fields hold until the footer has been read. */
  datatype InfoState = Unread | Read(info: IndexInfo)

  /** What a successful footer read yields: the L2P and the P2L index info. */
  datatype Footer = Footer(l2p: IndexInfo, p2l: IndexInfo)

  /** An OS file: which on-disk file it is and whether it was opened for writing. */
  datatype OsFile = OsFile(id: nat, writable: bool)

  /** The generic stream over an open file. */
  datatype ByteStream = ByteStream(file: OsFile)

  /** A packed-number stream over one index: the file it reads, the index's
      byte range and the block size used for aligned reads. */
  datatype IndexStream = IndexStream(file: OsFile, start: int, end: int, blockSize: int)

  /** `svn_fs_x__revision_file_t` */
  datatype RevisionFile = RevisionFile(
    startRevision: Revnum,
    isProtoRev: bool,
    isPacked: bool,
    file: Option<OsFile>,
    stream: Option<ByteStream>,
    p2lStream: Option<IndexStream>,
    l2pStream: Option<IndexStream>,
    blockSize: int,
    l2pInfo: InfoState,
    p2lInfo: InfoState)

  /** Where the filesystem keeps a revision: the on-disk file, whether it is
      a pack file, and the first revision that file holds. */
  datatype Placement = Placement(fileId: nat, packed: bool, firstRevision: Revnum)

  /** The parts of the filesystem the handle operations consult: its block
      size, the current placement of every revision that has a file, and
      the proto-rev file of every open transaction. */
  datatype Fs = Fs(blockSize: int, placement: map<Revnum, Placement>, protoRevs: map<TxnId, nat>)

  /** Reads, validates and checksums the footer of an open file. */
  type FooterReader = OsFile -> Result<Footer, SvnError>

  /** A placement is sensible: a rev file holds just its revision, a pack
      file starts at or before it. */
  ghost predicate FsValid(fs: Fs) {
    forall r :: r in fs.placement ==>
      && 0 <= fs.placement[r].firstRevision <= r
      && (!fs.placement[r].packed ==> fs.placement[r].firstRevision == r)
  }

  /** The stream an index accessor builds over `info`. */
  function StreamOver(file: OsFile, info: IndexInfo, blockSize: int): IndexStream {
    IndexStream(file, info.start, info.end, blockSize)
  }

  /** The invariants of a handle stated by the field comments of rev_file.h. */
  ghost predicate Valid(h: RevisionFile) {
    && (h.startRevision >= 0 || h.startRevision == InvalidRevnum)
    // STREAM is not NULL exactly when FILE is not NULL, and reads FILE.
    && (h.stream.Some? <==> h.file.Some?)
    && (h.stream.Some? ==> h.stream.value.file == h.file.value)
    // A transaction's proto-rev file has no revision, is never packed and
    // never gets index streams.
    && (h.isProtoRev ==>
          h.startRevision == InvalidRevnum && !h.isPacked && h.l2pStream.None? && h.p2lStream.None?)
    // The footer yields both infos at once.
    && (h.l2pInfo.Read? <==> h.p2lInfo.Read?)
    // An index stream reads the handle's file over the range its info gives.
    && (h.l2pStream.Some? ==>
          h.file.Some? && h.l2pInfo.Read? && h.l2pStream.value == StreamOver(h.file.value, h.l2pInfo.info, h.blockSize))
    && (h.p2lStream.Some? ==>
          h.file.Some? && h.p2lInfo.Read? && h.p2lStream.value == StreamOver(h.file.value, h.p2lInfo.info, h.blockSize))
  }

  /** The fields fixed when the handle is created: no operation changes them. */
  ghost predicate SameIdentity(h: RevisionFile, h': RevisionFile) {
    && h'.startRevision == h.startRevision
    && h'.isProtoRev == h.isProtoRev
    && h'.isPacked == h.isPacked
    && h'.blockSize == h.blockSize
  }

  /** `create_revision_file` followed by attaching FILE: a fresh handle with
      no index stream and the footer unread. */
  function NewHandle(fs: Fs, start: Revnum, protoRev: bool, packed: bool, file: OsFile): RevisionFile {
    RevisionFile(start, protoRev, packed, Some(file), Some(ByteStream(file)), None, None,
                 fs.blockSize, Unread, Unread)
  }

  function OpenRevision(fs: Fs, rev: Revnum, writable: bool): (r: Result<RevisionFile, SvnError>)
    requires FsValid(fs)
    ensures rev !in fs.placement <==> r == Failure(FsNoSuchRevision)
    ensures r.Success? ==>
      && Valid(r.value)
      && r.value.startRevision == fs.placement[rev].firstRevision <= rev
      && !r.value.isProtoRev
      && r.value.isPacked == fs.placement[rev].packed
      && r.value.file == Some(OsFile(fs.placement[rev].fileId, writable))
      && r.value.blockSize == fs.blockSize
      && r.value.l2pStream.None? && r.value.p2lStream.None?
      && r.value.l2pInfo.Unread? && r.value.p2lInfo.Unread?
  {
    if rev !in fs.placement then
      Failure(FsNoSuchRevision)
    else
      var p := fs.placement[rev];
      Success(NewHandle(fs, p.firstRevision, false, p.packed, OsFile(p.fileId, writable)))
  }

  /** `svn_fs_x__open_pack_or_rev_file`: open, read-only, the pack file
      holding REV if REV is packed and its rev file otherwise.  The packed
      state is taken from the filesystem once, here. */
  function OpenPackOrRev(fs: Fs, rev: Revnum): (r: Result<RevisionFile, SvnError>)
    requires FsValid(fs)
    ensures rev !in fs.placement <==> r == Failure(FsNoSuchRevision)
    ensures r.Success? ==>
      && Valid(r.value)
      && r.value.startRevision == fs.placement[rev].firstRevision <= rev
      && r.value.isPacked == fs.placement[rev].packed
      && r.value.blockSize == fs.blockSize
      && r.value.file == Some(OsFile(fs.placement[rev].fileId, false))
      && r.value.l2pInfo.Unread? && r.value.p2lInfo.Unread?
      && r.value.l2pStream.None? && r.value.p2lStream.None?
  {
    OpenRevision(fs, rev, false)
  }

  /** `svn_fs_x__open_pack_or_rev_file_writable`: the same file, opened for
      reading and writing. */
  function OpenPackOrRevWritable(fs: Fs, rev: Revnum): (r: Result<RevisionFile, SvnError>)
    requires FsValid(fs)
    ensures rev !in fs.placement <==> r == Failure(FsNoSuchRevision)
    ensures r.Success? ==>
      && Valid(r.value)
      && r.value.startRevision == fs.placement[rev].firstRevision <= rev
      && r.value.isPacked == fs.placement[rev].packed
      && r.value.blockSize == fs.blockSize
      && r.value.file == Some(OsFile(fs.placement[rev].fileId, true))
      && r.value.l2pInfo.Unread? && r.value.p2lInfo.Unread?
      && r.value.l2pStream.None? && r.value.p2lStream.None?
  {
    OpenRevision(fs, rev, true)
  }

  /** `svn_fs_x__open_proto_rev_file`: the proto-rev file of a transaction.
      It belongs to no revision, is not packed and has no indexes; a missing
      file is the I/O error of the failed open. */
  function OpenProtoRev(fs: Fs, txn: TxnId): (r: Result<RevisionFile, SvnError>)
    ensures txn !in fs.protoRevs <==> r == Failure(IoError(ENOENT))
    ensures r.Success? ==>
      && Valid(r.value)
      && r.value.startRevision == InvalidRevnum
      && r.value.isProtoRev
      && !r.value.isPacked
      && r.value.file == Some(OsFile(fs.protoRevs[txn], false))
      && r.value.blockSize == fs.blockSize
      && r.value.l2pStream.None? && r.value.p2lStream.None?
      && r.value.l2pInfo.Unread? && r.value.p2lInfo.Unread?
  {
    if txn !in fs.protoRevs then
      Failure(IoError(ENOENT))
    else
      Success(NewHandle(fs, InvalidRevnum, true, false, OsFile(fs.protoRevs[txn], false)))
  }

  /** `svn_fs_x__wrap_temp_rev_file`: give an already open temporary file
      the shape of a handle.  The wrap is given no revision, so the handle
      has none; it is not a proto-rev file, and its indexes are read from its
      footer like those of any other file. */
  function WrapTempRevFile(fs: Fs, temp: OsFile): (h: RevisionFile)
    ensures Valid(h)
    ensures h.file == Some(temp) && h.stream == Some(ByteStream(temp))
    ensures h.startRevision == InvalidRevnum && !h.isProtoRev && !h.isPacked
    ensures h.blockSize == fs.blockSize
    ensures h.l2pStream.None? && h.p2lStream.None? && h.l2pInfo.Unread? && h.p2lInfo.Unread?
  {
    NewHandle(fs, InvalidRevnum, false, false, temp)
  }

  /** `auto_read_footer`: read the footer unless the infos are already known. */
  function AutoReadFooter(h: RevisionFile, read: FooterReader): (r: Result<RevisionFile, SvnError>)
    requires Valid(h) && h.file.Some?
    ensures r.Success? ==>
      && Valid(r.value)
      && SameIdentity(h, r.value)
      && r.value.file == h.file && r.value.stream == h.stream
      && r.value.l2pStream == h.l2pStream && r.value.p2lStream == h.p2lStream
      && r.value.l2pInfo.Read? && r.value.p2lInfo.Read?
    // Infos already read are kept, and the footer is not read again.
    ensures h.l2pInfo.Read? ==> r.Success? && r.value.l2pInfo == h.l2pInfo && r.value.p2lInfo == h.p2lInfo
    // The first read stores what the handle's own footer says, or fails as it does.
    ensures h.l2pInfo.Unread? && r.Success? ==>
      && read(h.file.value).Success?
      && r.value.l2pInfo == Read(read(h.file.value).value.l2p)
      && r.value.p2lInfo == Read(read(h.file.value).value.p2l)
    ensures r.Failure? ==> h.l2pInfo.Unread? && read(h.file.value) == Failure(r.error)
  {
    if h.l2pInfo.Read? then
      Success(h)
    else
      match read(h.file.value)
      case Failure(e) => Failure(e)
      case Success(f) => Success(h.(l2pInfo := Read(f.l2p), p2lInfo := Read(f.p2l)))
  }

  /** Which of the two indexes an accessor is about. */
  datatype Index = L2P | P2L

  function InfoOf(h: RevisionFile, which: Index): InfoState {
    match which
    case L2P => h.l2pInfo
    case P2L => h.p2lInfo
  }

  function StreamOf(h: RevisionFile, which: Index): Option<IndexStream> {
    match which
    case L2P => h.l2pStream
    case P2L => h.p2lStream
  }

  function WithStream(h: RevisionFile, which: Index, s: IndexStream): RevisionFile {
    match which
    case L2P => h.(l2pStream := Some(s))
    case P2L => h.(p2lStream := Some(s))
  }

  /** `svn_fs_x__rev_file_l2p_index` and `svn_fs_x__rev_file_p2l_index`:
      the shared stream of one index, created on the first call over the
      range the footer gives.  A transaction's proto-rev file never gets an
      index stream: the request is refused before any footer read. */
  function IndexStreamOf(h: RevisionFile, which: Index, read: FooterReader)
    : (r: Result<(RevisionFile, IndexStream), SvnError>)
    requires Valid(h) && h.file.Some?
    ensures h.isProtoRev ==> r == Failure(AssertionFail)
    ensures r.Success? ==>
      && Valid(r.value.0)
      && StreamOf(r.value.0, which) == Some(r.value.1)
      && InfoOf(r.value.0, which).Read?
      && r.value.1 == StreamOver(h.file.value, InfoOf(r.value.0, which).info, h.blockSize)
    // Later calls return the same stream and change nothing.
    ensures StreamOf(h, which).Some? ==>
      r == Success((h, StreamOf(h, which).value))
    // Only the requested stream and, on the first index access, the infos change.
    ensures r.Success? ==>
      && SameIdentity(h, r.value.0)
      && r.value.0.file == h.file && r.value.0.stream == h.stream
      && StreamOf(r.value.0, Other(which)) == StreamOf(h, Other(which))
      && (h.l2pInfo.Read? ==> r.value.0.l2pInfo == h.l2pInfo && r.value.0.p2lInfo == h.p2lInfo)
    // The first index access stores what the handle's own footer says.
    ensures r.Success? && h.l2pInfo.Unread? ==>
      && read(h.file.value).Success?
      && r.value.0.l2pInfo == Read(read(h.file.value).value.l2p)
      && r.value.0.p2lInfo == Read(read(h.file.value).value.p2l)
    // A failure other than the proto-rev one is the footer read's failure.
    ensures r.Failure? && !h.isProtoRev ==>
      h.l2pInfo.Unread? && read(h.file.value) == Failure(r.error)
  {
    if h.isProtoRev then
      Failure(AssertionFail)
    else if StreamOf(h, which).Some? then
      Success((h, StreamOf(h, which).value))
    else
      match AutoReadFooter(h, read)
      case Failure(e) => Failure(e)
      case Success(h1) =>
        var s := StreamOver(h1.file.value, InfoOf(h1, which).info, h1.blockSize);
        Success((WithStream(h1, which, s), s))
  }

  function Other(which: Index): Index {
    match which
    case L2P => P2L
    case P2L => L2P
  }

  /** `svn_fs_x__rev_file_l2p_info` and `svn_fs_x__rev_file_p2l_info`: the
      info of one index, reading the footer on the first request. */
  function IndexInfoOf(h: RevisionFile, which: Index, read: FooterReader)
    : (r: Result<(RevisionFile, IndexInfo), SvnError>)
    requires Valid(h) && h.file.Some?
    ensures r.Success? ==>
      && Valid(r.value.0)
      && InfoOf(r.value.0, which) == Read(r.value.1)
      && SameIdentity(h, r.value.0)
      && r.value.0.file == h.file && r.value.0.stream == h.stream
      && r.value.0.l2pStream == h.l2pStream && r.value.0.p2lStream == h.p2lStream
    // Once read, the infos are returned unchanged and the footer is not read again.
    ensures InfoOf(h, which).Read? ==> r == Success((h, InfoOf(h, which).info))
    // The first read returns what the handle's own footer says, and keeps
    // both infos of that footer.
    ensures InfoOf(h, which).Unread? ==>
      match read(h.file.value)
      case Failure(e) => r == Failure(e)
      case Success(f) =>
        && r.Success? && r.value.1 == (if which == L2P then f.l2p else f.p2l)
        && r.value.0.l2pInfo == Read(f.l2p) && r.value.0.p2lInfo == Read(f.p2l)
  {
    match AutoReadFooter(h, read)
    case Failure(e) => Failure(e)
    case Success(h1) => Success((h1, InfoOf(h1, which).info))
  }

  /** `svn_fs_x__close_revision_file`: release the file and every stream. */
  function Close(h: RevisionFile): (h': RevisionFile)
    requires Valid(h)
    ensures Valid(h')
    ensures h'.file.None? && h'.stream.None? && h'.l2pStream.None? && h'.p2lStream.None?
    ensures SameIdentity(h, h') && h'.l2pInfo == h.l2pInfo && h'.p2lInfo == h.p2lInfo
  {
    h.(file := None, stream := None, l2pStream := None, p2lStream := None)
  }

  lemma CloseIsIdempotent(h: RevisionFile)
    requires Valid(h)
    ensures Close(Close(h)) == Close(h)
  {
  }

  // ---------------------------------------------------------------------
  // Sequences of operations on one handle.

  datatype Access = IndexAccess(which: Index) | InfoAccess(which: Index) | CloseAccess

  /** A handle is only used until it is closed. */
  ghost predicate UsedWhileOpen(h: RevisionFile, ops: seq<Access>) {
    forall i :: 0 <= i < |ops| && !ops[i].CloseAccess? ==>
      h.file.Some? && CloseAccess !in ops[..i]
  }

  /** One operation on a handle, keeping only the new handle. */
  function Apply(h: RevisionFile, op: Access, read: FooterReader): (r: Result<RevisionFile, SvnError>)
    requires Valid(h) && (op.CloseAccess? || h.file.Some?)
    ensures r.Success? ==> Valid(r.value) && SameIdentity(h, r.value)
    ensures r.Success? && !op.CloseAccess? ==> r.value.file == h.file
    ensures r.Success? && h.l2pInfo.Read? ==> r.value.l2pInfo == h.l2pInfo && r.value.p2lInfo == h.p2lInfo
  {
    match op
    case CloseAccess => Success(Close(h))
    case IndexAccess(w) =>
      (match IndexStreamOf(h, w, read)
       case Failure(e) => Failure(e)
       case Success(p) => Success(p.0))
    case InfoAccess(w) =>
      (match IndexInfoOf(h, w, read)
       case Failure(e) => Failure(e)
       case Success(p) => Success(p.0))
  }

  /** Apply `ops` in order; the first failure ends the run. */
  function Run(h: RevisionFile, ops: seq<Access>, read: FooterReader): Result<RevisionFile, SvnError>
    requires Valid(h) && UsedWhileOpen(h, ops)
    decreases |ops|
  {
    if |ops| == 0 then Success(h)
    else
      assert !ops[0].CloseAccess? ==> h.file.Some?;
      var step := Apply(h, ops[0], read);
      match step
      case Failure(e) => Failure(e)
      case Success(h1) =>
        RunStepKeepsUsable(h, h1, ops);
        Run(h1, ops[1..], read)
  }

  lemma RunStepKeepsUsable(h: RevisionFile, h1: RevisionFile, ops: seq<Access>)
    requires |ops| > 0 && UsedWhileOpen(h, ops)
    requires ops[0].CloseAccess? || h1.file == h.file
    ensures UsedWhileOpen(h1, ops[1..])
  {
    forall i | 0 <= i < |ops[1..]| && !ops[1..][i].CloseAccess?
      ensures h1.file.Some? && CloseAccess !in ops[1..][..i]
    {
      assert ops[1..][i] == ops[i + 1];
      assert ops[..i + 1] == [ops[0]] + ops[1..][..i];
    }
  }

  /** Whatever a caller does with a handle, the invariants hold, the packed
      state, start revision and block size stay as they were at open time,
      the file is never swapped for another, and infos once read never
      change. */
  lemma {:induction false} RunKeepsLatchedState(h: RevisionFile, ops: seq<Access>, read: FooterReader)
    requires Valid(h) && UsedWhileOpen(h, ops)
    ensures Run(h, ops, read).Success? ==>
      var h' := Run(h, ops, read).value;
      && Valid(h')
      && SameIdentity(h, h')
      && (h'.file.Some? ==> h'.file == h.file)
      && (h.l2pInfo.Read? ==> h'.l2pInfo == h.l2pInfo && h'.p2lInfo == h.p2lInfo)
    decreases |ops|
  {
    if |ops| > 0 {
      var step := Apply(h, ops[0], read);
      if step.Success? {
        var h1 := step.value;
        RunStepKeepsUsable(h, h1, ops);
        RunKeepsLatchedState(h1, ops[1..], read);
      }
    }
  }

  /** A handle only ever reads its own file's footer: two footer readers
      that agree on that file give the same run.  This is why a background
      repack cannot disturb an open handle. */
  lemma {:induction false} RunReadsOnlyOwnFile(h: RevisionFile, ops: seq<Access>, read1: FooterReader, read2: FooterReader)
    requires Valid(h) && UsedWhileOpen(h, ops)
    requires h.file.Some? ==> read1(h.file.value) == read2(h.file.value)
    ensures Run(h, ops, read1) == Run(h, ops, read2)
    decreases |ops|
  {
    if |ops| > 0 {
      var step1 := Apply(h, ops[0], read1);
      if step1.Success? {
        var h1 := step1.value;
        RunStepKeepsUsable(h, h1, ops);
        RunReadsOnlyOwnFile(h1, ops[1..], read1, read2);
      }
    }
  }

  /** Repacking while a handle is open: revision 7 lives in rev file 10
      when the handle is opened; a packer then moves it into pack file 20.
      The open handle keeps reading file 10 as an unpacked revision, and
      only a new open sees the pack file. */
  lemma RepackScenario(read: FooterReader, ops: seq<Access>)
    requires CloseAccess !in ops
    ensures
      var before := Fs(4096, map[7 := Placement(10, false, 7)], map[]);
      var after := Fs(4096, map[7 := Placement(20, true, 0)], map[]);
      var h := OpenPackOrRev(before, 7).value;
      && UsedWhileOpen(h, ops)
      && (Run(h, ops, read).Success? ==>
            && !Run(h, ops, read).value.isPacked
            && Run(h, ops, read).value.file == Some(OsFile(10, false)))
      && OpenPackOrRev(after, 7).value.isPacked
      && OpenPackOrRev(after, 7).value.file == Some(OsFile(20, false))
  {
    var before := Fs(4096, map[7 := Placement(10, false, 7)], map[]);
    var h := OpenPackOrRev(before, 7).value;
    assert UsedWhileOpen(h, ops);
    RunKeepsLatchedState(h, ops, read);
    RunNeverCloses(h, ops, read);
  }

  lemma {:induction false} RunNeverCloses(h: RevisionFile, ops: seq<Access>, read: FooterReader)
    requires Valid(h) && UsedWhileOpen(h, ops) && CloseAccess !in ops && h.file.Some?
    ensures Run(h, ops, read).Success? ==> Run(h, ops, read).value.file == h.file
    decreases |ops|
  {
    if |ops| > 0 {
      var step := Apply(h, ops[0], read);
      if step.Success? {
        var h1 := step.value;
        RunStepKeepsUsable(h, h1, ops);
        assert CloseAccess !in ops[1..];
        RunNeverCloses(h1, ops[1..], read);
      }
    }
  }
}
