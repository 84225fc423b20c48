/** Protocol decisions of the svn:// client (subversion/libsvn_ra_svn/client.c)
    that do not depend on the bytes on the wire: the depth-to-recurse rule,
    optional booleans, the dirent field words, the capability table, the
    greeting checks of `open_session` and the revision-property checks of
    `ra_svn_commit`.  Capability sets stand for the connection's capability
    hash; marshalling is not modelled. */
module RaProtocol {
  import opened Wrappers
  import opened Errors

  // ---------------------------------------------------------------- depth

  /** `svn_depth_t`, ordered as its numeric values. */
  datatype Depth = Unknown | Exclude | Empty | Files | Immediates | Infinity

  /** The numeric value of a depth in `svn_depth_t`. */
  function DepthValue(d: Depth): int {
    match d
    case Unknown => -2
    case Exclude => -1
    case Empty => 0
    case Files => 1
    case Immediates => 2
    case Infinity => 3
  }

  /** `DEPTH_TO_RECURSE`: whether the old boolean `recurse` flag sent to
      the server must be set for the server to cover depth `d`. */
  predicate DepthToRecurse(d: Depth) {
    d == Unknown || DepthValue(d) > DepthValue(Files)
  }

  /** `SVN_DEPTH_IS_RECURSIVE`, which the client deliberately avoids. */
  predicate DepthIsRecursive(d: Depth) {
    d == Infinity || d == Unknown
  }

  /** The recurse flag is requested exactly for the depths that need more
      than a directory's own files, and for the unknown depth. */
  lemma DepthToRecurseCases(d: Depth)
    ensures DepthToRecurse(d) <==> d in {Unknown, Immediates, Infinity}
    ensures !DepthToRecurse(d) <==> d in {Exclude, Empty, Files}
  {
  }

  /** The flag is at least as recursive as the depth asked for: it is set
      wherever `SVN_DEPTH_IS_RECURSIVE` holds, and also for `immediates`,
      the only depth where the two differ. */
  lemma DepthToRecurseCoversRecursive(d: Depth)
    ensures DepthIsRecursive(d) ==> DepthToRecurse(d)
    ensures DepthToRecurse(d) && !DepthIsRecursive(d) <==> d == Immediates
  {
  }

  /** Among known depths the flag is monotone in the depth. */
  lemma DepthToRecurseMonotone(d1: Depth, d2: Depth)
    requires d1 != Unknown && d2 != Unknown
    requires DepthValue(d1) <= DepthValue(d2)
    ensures DepthToRecurse(d1) ==> DepthToRecurse(d2)
  {
  }

  // ----------------------------------------------------- optional booleans

  /** `apr_uint64_t` */
  newtype uint64 = x: int | 0 <= x < 0x1_0000_0000_0000_0000

  /** `SVN_RA_SVN_UNSPECIFIED_NUMBER`, the value a missing optional number
      takes when a tuple is parsed. */
  const UnspecifiedNumber: uint64 := 0xFFFF_FFFF_FFFF_FFFF

  /** `svn_tristate_t` */
  datatype Tristate = TristateFalse | TristateTrue | TristateUnknown

  /** `optbool_to_tristate`: exactly 1 is true, exactly 0 is false, any
      other value (the unspecified marker in particular) is unknown. */
  function OptboolToTristate(v: uint64): (t: Tristate)
    ensures t == TristateTrue <==> v == 1
    ensures t == TristateFalse <==> v == 0
    ensures v == UnspecifiedNumber ==> t == TristateUnknown
  {
    if v == 1 then TristateTrue
    else if v == 0 then TristateFalse
    else TristateUnknown
  }

  /** How a server sends a tristate as an optional boolean number. */
  function TristateToOptbool(t: Tristate): uint64 {
    match t
    case TristateTrue => 1
    case TristateFalse => 0
    case TristateUnknown => UnspecifiedNumber
  }

  /** Decoding what a server encodes gives back the tristate. */
  lemma OptboolRoundTrip(t: Tristate)
    ensures OptboolToTristate(TristateToOptbool(t)) == t
  {
  }

  /** A value other than 0 and 1 is not read as true, unlike a C truth
      test would read it. */
  lemma OptboolIsNotTruthy(v: uint64)
    requires v != 0 && v != 1
    ensures OptboolToTristate(v) == TristateUnknown
  {
  }

  // -------------------------------------------------------- dirent fields

  /** The dirent fields a client can ask `get-dir` for. */
  datatype DirentField = Kind | Size | HasProps | CreatedRev | Time | LastAuthor

  /** The field's `SVN_DIRENT_*` bit. */
  function Flag(f: DirentField): bv32 {
    match f
    case Kind => 0x1
    case Size => 0x2
    case HasProps => 0x4
    case CreatedRev => 0x8
    case Time => 0x10
    case LastAuthor => 0x20
  }

  /** The field's protocol word, `SVN_RA_SVN_DIRENT_*`. */
  function Word(f: DirentField): string {
    match f
    case Kind => "kind"
    case Size => "size"
    case HasProps => "has-props"
    case CreatedRev => "created-rev"
    case Time => "time"
    case LastAuthor => "last-author"
  }

  /** The position at which `send_dirent_fields` tests the field. */
  function Rank(f: DirentField): nat {
    match f
    case Kind => 0
    case Size => 1
    case HasProps => 2
    case CreatedRev => 3
    case Time => 4
    case LastAuthor => 5
  }

  /** The field `send_dirent_fields` tests in position `k`. */
  function FieldAt(k: nat): (f: DirentField)
    requires k < 6
    ensures Rank(f) == k
  {
    if k == 0 then Kind
    else if k == 1 then Size
    else if k == 2 then HasProps
    else if k == 3 then CreatedRev
    else if k == 4 then Time
    else LastAuthor
  }

  /** All the dirent flags together. */
  const AllDirentFields: bv32 := 0x3F

  /** Whether the mask asks for the field. */
  predicate IsSet(fields: bv32, f: DirentField) {
    fields & Flag(f) != 0
  }

  /** The fields written after the first `n` tests, in writing order. */
  function SentUpTo(fields: bv32, n: nat): (sent: seq<DirentField>)
    requires n <= 6
    ensures forall f: DirentField :: f in sent <==> Rank(f) < n && IsSet(fields, f)
    ensures forall j, k :: 0 <= j < k < |sent| ==> Rank(sent[j]) < Rank(sent[k])
    ensures forall j :: 0 <= j < |sent| ==> Rank(sent[j]) < n
  {
    if n == 0 then []
    else
      var f := FieldAt(n - 1);
      var earlier := SentUpTo(fields, n - 1);
      var now := if IsSet(fields, f) then [f] else [];
      AppendInRankOrder(earlier, now, n - 1);
      RankIsInjective(f);
      earlier + now
  }

  /** Fields ranked below `bound`, followed by at most the field of rank
      `bound`, stay in rank order and below `bound + 1`. */
  lemma AppendInRankOrder(earlier: seq<DirentField>, now: seq<DirentField>, bound: nat)
    requires forall j :: 0 <= j < |earlier| ==> Rank(earlier[j]) < bound
    requires forall j, k :: 0 <= j < k < |earlier| ==> Rank(earlier[j]) < Rank(earlier[k])
    requires |now| <= 1 && forall j :: 0 <= j < |now| ==> Rank(now[j]) == bound
    ensures forall j, k :: 0 <= j < k < |earlier + now| ==> Rank((earlier + now)[j]) < Rank((earlier + now)[k])
    ensures forall j :: 0 <= j < |earlier + now| ==> Rank((earlier + now)[j]) < bound + 1
    ensures forall g :: g in earlier + now <==> g in earlier || g in now
  {
  }

  /** Only `f` has the rank of `f`. */
  lemma RankIsInjective(f: DirentField)
    ensures forall g: DirentField :: Rank(g) == Rank(f) ==> g == f
  {
  }

  /** `send_dirent_fields`: the fields whose words are written for a mask,
      each requested field once, in the order kind, size, has-props,
      created-rev, time, last-author. */
  function SendDirentFields(fields: bv32): (sent: seq<DirentField>)
    ensures forall f: DirentField :: f in sent <==> IsSet(fields, f)
    ensures forall j, k :: 0 <= j < k < |sent| ==> Rank(sent[j]) < Rank(sent[k])
  {
    SentUpTo(fields, 6)
  }

  /** How a server reads a protocol word back; unknown words are skipped. */
  function FieldOfWord(w: string): (r: Option<DirentField>)
    ensures r.Some? ==> Word(r.value) == w
  {
    if w == "kind" then Some(Kind)
    else if w == "size" then Some(Size)
    else if w == "has-props" then Some(HasProps)
    else if w == "created-rev" then Some(CreatedRev)
    else if w == "time" then Some(Time)
    else if w == "last-author" then Some(LastAuthor)
    else None
  }

  /** Every field's word reads back as that field, so the words of
      different fields differ. */
  lemma WordRoundTrip(f: DirentField)
    ensures FieldOfWord(Word(f)) == Some(f)
  {
  }

  /** The field mask a server builds from the fields it reads. */
  function MaskOf(sent: seq<DirentField>): bv32 {
    if |sent| == 0 then 0 else MaskOf(sent[..|sent| - 1]) | Flag(sent[|sent| - 1])
  }

  /** A dirent flag is set in `a | Flag(g)` when it is set in `a` or is `g`'s. */
  lemma IsSetOr(a: bv32, g: DirentField, f: DirentField)
    ensures IsSet(a | Flag(g), f) <==> IsSet(a, f) || f == g
  {
    AndDistributes(a, Flag(g), Flag(f));
    FlagsDisjoint(g, f);
    OrNonZero(a & Flag(f), Flag(g) & Flag(f));
  }

  lemma AndDistributes(a: bv32, b: bv32, c: bv32)
    ensures (a | b) & c == (a & c) | (b & c)
  {
  }

  lemma OrNonZero(x: bv32, y: bv32)
    ensures x | y != 0 <==> x != 0 || y != 0
  {
  }

  /** Distinct dirent fields have disjoint flags. */
  lemma FlagsDisjoint(g: DirentField, f: DirentField)
    ensures Flag(g) & Flag(f) != 0 <==> f == g
  {
  }

  /** The mask built from a list of fields has exactly those fields set. */
  lemma {:induction false} MaskOfMembers(sent: seq<DirentField>)
    ensures forall f: DirentField :: IsSet(MaskOf(sent), f) <==> f in sent
  {
    if |sent| > 0 {
      var prev := sent[..|sent| - 1];
      var g := sent[|sent| - 1];
      MaskOfMembers(prev);
      assert sent == prev + [g];
      forall f: DirentField
        ensures IsSet(MaskOf(sent), f) <==> f in sent
      {
        IsSetOr(MaskOf(prev), g, f);
      }
    }
  }

  /** Reading back what is written recovers the requested fields: the mask
      read back agrees with the one sent on every dirent flag. */
  lemma DirentFieldsRoundTrip(fields: bv32, f: DirentField)
    ensures IsSet(MaskOf(SendDirentFields(fields)), f) <==> IsSet(fields, f)
  {
    MaskOfMembers(SendDirentFields(fields));
  }

  /** Bits outside the dirent flags are ignored. */
  lemma {:induction false} DirentFieldsIgnoresOtherBits(fields: bv32)
    ensures SendDirentFields(fields) == SendDirentFields(fields & AllDirentFields)
  {
    forall f: DirentField
      ensures IsSet(fields, f) == IsSet(fields & AllDirentFields, f)
    {
      SameBit(fields, f);
    }
    SentUpToSameBits(fields, fields & AllDirentFields, 6);
  }

  /** A dirent flag lies inside `AllDirentFields`. */
  lemma SameBit(fields: bv32, f: DirentField)
    ensures IsSet(fields, f) == IsSet(fields & AllDirentFields, f)
  {
  }

  /** Masks that agree on every field write the same fields. */
  lemma {:induction false} SentUpToSameBits(a: bv32, b: bv32, n: nat)
    requires n <= 6
    requires forall f: DirentField :: IsSet(a, f) == IsSet(b, f)
    ensures SentUpTo(a, n) == SentUpTo(b, n)
  {
    if n > 0 {
      SentUpToSameBits(a, b, n - 1);
    }
  }

  // --------------------------------------------------------- capabilities

  /** The capabilities `ra_svn_has_capability` knows: each RA capability
      name with the svn:// wire capability that answers for it. */
  const CapabilityTable: seq<(string, string)> := [
    ("depth", "depth"),
    ("mergeinfo", "mergeinfo"),
    ("log-revprops", "log-revprops"),
    ("partial-replay", "partial-replay"),
    ("commit-revprops", "commit-revprops"),
    ("atomic-revprops", "atomic-revprops"),
    ("inherited-props", "inherited-props"),
    ("ephemeral-txnprops", "ephemeral-txnprops"),
    ("get-file-revs-reversed", "file-revs-reverse"),
    ("list", "list")
  ]

  /** Whether the table has an entry for an RA capability name. */
  predicate IsKnownCapability(name: string) {
    exists i :: 0 <= i < |CapabilityTable| && CapabilityTable[i].0 == name
  }

  /** `ra_svn_has_capability`: whether the server announced the wire
      capability behind an RA capability name.  `has` is false whenever the
      name is unknown, and the error is then UNKNOWN_CAPABILITY. */
  method HasCapability(capability: string, serverCaps: set<string>) returns (has: bool, err: Option<SvnError>)
    ensures err.None? <==> IsKnownCapability(capability)
    ensures err.Some? ==> err.value == UnknownCapability && !has
    ensures forall i :: 0 <= i < |CapabilityTable| && CapabilityTable[i].0 == capability ==>
      has == (CapabilityTable[i].1 in serverCaps)
  {
    has := false;
    var i := 0;
    while i < |CapabilityTable|
      invariant 0 <= i <= |CapabilityTable|
      invariant forall j :: 0 <= j < i ==> CapabilityTable[j].0 != capability
    {
      if CapabilityTable[i].0 == capability {
        CapabilityNamesDistinct();
        has := CapabilityTable[i].1 in serverCaps;
        return has, None;
      }
      i := i + 1;
    }
    return has, Some(UnknownCapability);
  }

  /** No RA capability name appears twice in the table, so the lookup is
      unambiguous. */
  lemma CapabilityNamesDistinct()
    ensures forall i, j :: 0 <= i < j < |CapabilityTable| ==> CapabilityTable[i].0 != CapabilityTable[j].0
  {
  }

  // ------------------------------------------------------------ greeting

  /** The only protocol version this client speaks. */
  const ProtocolVersion: uint64 := 2

  /** `SVN_RA_SVN_CAP_EDIT_PIPELINE` */
  const CapEditPipeline: string := "edit-pipeline"

  /** What a session knows about its server once it is open. */
  datatype Session = Session(capabilities: set<string>, reposRoot: Option<string>)

  /** The decisions of `open_session` on the server's greeting
      (`minver`, `maxver`, `serverCaps`) and on the repository answer
      (`reposRoot`, `reposCaps`) for the session URL `url`. */
  function OpenSession(url: string, minver: uint64, maxver: uint64, serverCaps: set<string>,
                       reposRoot: Option<string>, reposCaps: Option<set<string>>)
    : (r: Result<Session, SvnError>)
    ensures r.Success? <==>
      && minver <= ProtocolVersion <= maxver
      && CapEditPipeline in serverCaps
      && (reposRoot.None? || |reposRoot.value| <= |url|)
    ensures r.Failure? && !(minver <= ProtocolVersion <= maxver && CapEditPipeline in serverCaps) ==>
      r.error == RaSvnBadVersion
    ensures r.Failure? && minver <= ProtocolVersion <= maxver && CapEditPipeline in serverCaps ==>
      r.error == RaSvnMalformedData
    ensures r.Success? ==>
      && serverCaps <= r.value.capabilities
      && (reposCaps.Some? ==> reposCaps.value <= r.value.capabilities)
      && (forall c :: c in r.value.capabilities ==> c in serverCaps || (reposCaps.Some? && c in reposCaps.value))
      && r.value.reposRoot == reposRoot
  {
    if minver > ProtocolVersion then Failure(RaSvnBadVersion)
    else if maxver < ProtocolVersion then Failure(RaSvnBadVersion)
    else if CapEditPipeline !in serverCaps then Failure(RaSvnBadVersion)
    else
      var caps := if reposCaps.Some? then serverCaps + reposCaps.value else serverCaps;
      if reposRoot.Some? && |reposRoot.value| > |url| then Failure(RaSvnMalformedData)
      else Success(Session(caps, reposRoot))
  }

  /** A server that speaks version 2 with pipelining and reports a root
      that is a prefix of the session URL, as the API promises, is
      accepted. */
  lemma PrefixRootAccepted(url: string, root: string, minver: uint64, maxver: uint64,
                           serverCaps: set<string>, reposCaps: Option<set<string>>)
    requires minver <= 2 <= maxver && CapEditPipeline in serverCaps
    requires root <= url
    ensures OpenSession(url, minver, maxver, serverCaps, Some(root), reposCaps).Success?
  {
  }

  // -------------------------------------------------------------- commit

  /** `SVN_PROP_REVISION_LOG` */
  const PropRevisionLog: string := "svn:log"
  /** `SVN_PROP_TXN_CLIENT_COMPAT_VERSION` */
  const PropTxnClientCompatVersion: string := "svn:txn-client-compat-version"
  /** `SVN_PROP_TXN_USER_AGENT` */
  const PropTxnUserAgent: string := "svn:txn-user-agent"
  /** `SVN_RA_SVN_CAP_COMMIT_REVPROPS` */
  const CapCommitRevprops: string := "commit-revprops"
  /** `SVN_RA_SVN_CAP_EPHEMERAL_TXNPROPS` */
  const CapEphemeralTxnprops: string := "ephemeral-txnprops"

  /** What the `commit` command carries: the log message argument and the
      revision property table. */
  datatype CommitStart = CommitStart(logMessage: string, revprops: map<string, string>)

  /** The revision-property decisions of `ra_svn_commit` before anything is
      sent.  `clientVersion` stands for `SVN_VER_NUMBER` and `userAgent` for
      the session's user agent string. */
  function PrepareCommit(revprops: map<string, string>, caps: set<string>,
                         clientVersion: string, userAgent: string)
    : (r: Result<CommitStart, SvnError>)
    ensures r.Success? <==> CapCommitRevprops in caps || (PropRevisionLog in revprops && |revprops| <= 1)
    ensures PropRevisionLog !in revprops && CapCommitRevprops !in caps ==> r == Failure(BadPropertyValue)
    ensures PropRevisionLog in revprops && |revprops| > 1 && CapCommitRevprops !in caps ==>
      r == Failure(RaNotImplemented)
    ensures r.Success? ==>
      r.value.logMessage == if PropRevisionLog in revprops then revprops[PropRevisionLog] else ""
    ensures r.Success? ==>
      forall k :: k in revprops && k != PropTxnClientCompatVersion && k != PropTxnUserAgent ==>
        k in r.value.revprops && r.value.revprops[k] == revprops[k]
    ensures r.Success? && CapCommitRevprops in caps && CapEphemeralTxnprops in caps ==>
      && r.value.revprops.Keys == revprops.Keys + {PropTxnClientCompatVersion, PropTxnUserAgent}
      && r.value.revprops[PropTxnClientCompatVersion] == clientVersion
      && r.value.revprops[PropTxnUserAgent] == userAgent
    ensures r.Success? && !(CapCommitRevprops in caps && CapEphemeralTxnprops in caps) ==>
      r.value.revprops == revprops
  {
    if PropRevisionLog !in revprops && CapCommitRevprops !in caps then
      Failure(BadPropertyValue)
    else
      var logMessage := if PropRevisionLog in revprops then revprops[PropRevisionLog] else "";
      if |revprops| > 1 && CapCommitRevprops !in caps then
        Failure(RaNotImplemented)
      else if CapCommitRevprops in caps && CapEphemeralTxnprops in caps then
        Success(CommitStart(logMessage, WithEphemeralTxnprops(revprops, clientVersion, userAgent)))
      else
        Success(CommitStart(logMessage, revprops))
  }

  /** The revision properties with the client's version and user agent
      added as ephemeral transaction properties. */
  function WithEphemeralTxnprops(revprops: map<string, string>, clientVersion: string, userAgent: string)
    : (m: map<string, string>)
    ensures m.Keys == revprops.Keys + {PropTxnClientCompatVersion, PropTxnUserAgent}
    ensures m[PropTxnClientCompatVersion] == clientVersion && m[PropTxnUserAgent] == userAgent
    ensures forall k :: k in revprops && k != PropTxnClientCompatVersion && k != PropTxnUserAgent ==>
      m[k] == revprops[k]
  {
    assert |PropTxnClientCompatVersion| != |PropTxnUserAgent|;
    revprops[PropTxnClientCompatVersion := clientVersion][PropTxnUserAgent := userAgent]
  }

  /** A server without commit-revprops (before 1.5) takes exactly one
      revision property, the log message. */
  lemma {:induction false} OldServerTakesOnlyLog(revprops: map<string, string>, caps: set<string>,
                                                 clientVersion: string, userAgent: string)
    requires CapCommitRevprops !in caps
    ensures PrepareCommit(revprops, caps, clientVersion, userAgent).Success? <==>
      revprops.Keys == {PropRevisionLog}
  {
    if PropRevisionLog in revprops && |revprops| <= 1 {
      forall k | k in revprops
        ensures k == PropRevisionLog
      {
        if k != PropRevisionLog {
          assert {k, PropRevisionLog} <= revprops.Keys;
          assert |{k, PropRevisionLog}| == 2;
          SubsetCardinality({k, PropRevisionLog}, revprops.Keys);
        }
      }
    }
    if revprops.Keys == {PropRevisionLog} {
      assert |revprops| == |revprops.Keys| == 1;
    }
  }

  /** A subset is no larger than its superset. */
  lemma {:induction false} SubsetCardinality<T>(a: set<T>, b: set<T>)
    requires a <= b
    ensures |a| <= |b|
    decreases a
  {
    if a != {} {
      var x :| x in a;
      SubsetCardinality(a - {x}, b - {x});
    }
  }
}
