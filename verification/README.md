# Subversion: UTF-8 validation, FSX revision-file handles, svn:// client decisions

A Dafny model of three self-contained pieces of Subversion, each with the
properties its documentation promises proved about it.

* **UTF-8 validation** (`svn_utf_private.h`), in module `Utf8`:
  * `svn_utf__is_valid`, `svn_utf__cstring_is_valid`, `svn_utf__last_valid`
    and `svn_utf__last_valid2`.
  * The reference definition is `WellFormed`: a byte string splits into
    characters of Table 3-6 of the Unicode 4.0 standard, section 3.9. That
    table is the `UTF8-char` grammar of section 4 of RFC 3629.
  * `IsValid`/`LastValid` run a byte automaton (`Step`/`Scan`) and are proved
    equal to the grammar.
  * `LastValid2` is an imperative scan, one character at a time. It is proved
    to return the same position as `LastValid` on every input.
* **UCS-4 comparison** (`svn_utf__ucs4cmp`), in module `Ucs4`.
* **The FSX revision-file handle** (`rev_file.h`), in module `RevFile`:
  * The handle is an immutable record. Its field invariants are the
    predicate `Valid`.
  * Each open, index-stream, index-info and close operation is a function
    from the old handle to the new one.
  * The filesystem's revision-to-file placement is a parameter, and so is the
    footer reader (an oracle over the handle's own file).
* **Decision logic of the svn:// client** (`client.c`):
  * `RaTunnel`: `parse_tunnel`, `is_valid_hostinfo`, and the command and
    argument assembly of `find_tunnel_agent`. The configuration entry, the
    environment and `apr_tokenize_to_argv` are parameters.
  * `RaProtocol`:
    * `DEPTH_TO_RECURSE` and `optbool_to_tristate`.
    * `send_dirent_fields`, as a bit mask mapped to the ordered list of fields.
    * The capability table of `ra_svn_has_capability`.
    * The greeting checks of `open_session`.
    * The revision-property checks of `ra_svn_commit`.
  * `RaLocks`: the lock filter of `ra_svn_get_locks`.
  * `RaLog`, covering `perform_ra_svn_log` and `ra_svn_log`:
    * Which revision properties are wanted, and how a log item becomes an
      entry.
    * When the receiver is invoked: the limit on top-level entries and the
      CEASE_INVOCATION latch.
    * The nesting counter of merged revisions.
    * The server's items and the receiver's replies are sequences.
* **Shared types**: `Wrappers` (`Option`, `Result`), `Errors` (the
  Subversion error codes raised) and `SvnTypes` (`svn_revnum_t` and
  `SVN_INVALID_REVNUM`).

Strings are sequences of code points where the C code counts bytes. Lock
paths, tunnel definitions and environment values are UTF-8 and may hold
non-ASCII text, but UTF-8 is self-synchronising and every separator the
client searches for ('/', ' ', ':', '$') is a single ASCII byte that never
occurs inside a multi-byte character. So prefix tests, splits at a
separator and component counts give the same answer on code points as on
bytes. The one length comparison whose outcome depends on the count (the
repository root against the URL in `open_session`) is made on URLs, whose
canonical form is ASCII.

The svn:// client functions take their string constants (capability names,
dirent words, property names) from headers that are not part of this model
(`svn_ra.h`, `ra_svn.h`, `svn_props.h`, `svn_types.h`). Their values are
Subversion's published ones. `utf_validate.c` and `rev_file.c` are not part
of this model either. The validators and handle operations therefore
implement the contracts stated in the two headers, not a transcription of
those files.

## Model

| member | source | states |
|---|---|---|
| Utf8.IsValid | subversion/include/private/svn_utf_private.h:40-45 | the automaton accepts a byte string exactly when it splits into well-formed Unicode 4.0 characters; the empty string is valid |
| Utf8.WellFormedIffWholePrefix | subversion/include/private/svn_utf_private.h:40-58 | the grammar and the longest-valid-prefix definition agree: a string is well formed iff its longest prefix of whole valid characters is all of it |
| Utf8.ScanFromBoundary | subversion/include/private/svn_utf_private.h:40-62 | run from a character boundary, the automaton's last return to its start state is exactly the end of the longest valid prefix, and it ends in the start state iff that is the end of the input |
| Utf8.CStringIsValid | subversion/include/private/svn_utf_private.h:47-49 | a NUL-terminated buffer is valid iff the bytes before its first NUL are well formed |
| Utf8.LastValid | subversion/include/private/svn_utf_private.h:51-62 | the position lies in 0..len, everything before it is whole valid characters, it is len iff the input is valid, and otherwise no well-formed character of any length starts there |
| Utf8.LastValidIsLongestValidPrefix | subversion/include/private/svn_utf_private.h:51-58 | the automaton's position is the end of the longest prefix made of whole valid characters |
| Utf8.IsValidIffLastValidAtEnd | subversion/include/private/svn_utf_private.h:51-59 | `is_valid` holds iff `last_valid` points just past the input |
| Utf8.LastValidIsUnique | subversion/include/private/svn_utf_private.h:54-57 | any position with a valid prefix before it and either the end or a non-character at it is the one `last_valid` returns |
| Utf8.ValidPrefixStopsAtBadChar | subversion/include/private/svn_utf_private.h:54-55 | when the input is invalid, the returned position is the start of a byte sequence that is no character |
| Utf8.LastValid2 | subversion/include/private/svn_utf_private.h:64-72 | the second, table-free implementation returns the same position as `last_valid` for every input |
| Utf8.DecodeOne | subversion/include/private/svn_utf_private.h:64-72 | the byte-range tests of one character accept exactly the characters of Unicode 4.0 Table 3-6 and give their length |
| Utf8.CharLengthUnique | subversion/include/private/svn_utf_private.h:51-57 | a valid character at the head of a string has only one possible length, so the split into characters is unique |
| Ucs4.Ucs4Cmp | subversion/include/private/svn_utf_private.h:99-105 | the comparison is zero exactly when both arrays have the same length and contents; the model's results are -1, 0 and 1, a choice of the model since the header promises only a sign |
| Ucs4.Ucs4CmpAntisymmetric | subversion/include/private/svn_utf_private.h:99-102 | swapping the arguments flips the sign of the result |
| Ucs4.Ucs4CmpTransitive | subversion/include/private/svn_utf_private.h:99-102 | the order the sign describes is transitive |
| RevFile.OpenRevision | subversion/libsvn_fs_x/rev_file.h:96-120 | a revision without a file is NO_SUCH_REVISION; otherwise the handle opens its pack or rev file, latches the packed state, copies the block size, has no index streams and has not read the footer |
| RevFile.OpenPackOrRev | subversion/libsvn_fs_x/rev_file.h:96-106 | the read-only open fails with NO_SUCH_REVISION exactly for a revision without a file and otherwise yields a valid handle on that file, with the file's first revision as start revision, the packed state and block size of the filesystem, no index streams and both infos unread |
| RevFile.OpenPackOrRevWritable | subversion/libsvn_fs_x/rev_file.h:108-120 | the writable open fails with NO_SUCH_REVISION exactly for a revision without a file and otherwise yields a valid handle on the same file, writable, with the same start revision, packed state and block size, no index streams and both infos unread |
| RevFile.OpenProtoRev | subversion/libsvn_fs_x/rev_file.h:122-129 | a transaction's proto-rev handle opens that transaction's file (a missing one is ENOENT), has the invalid start revision, is not packed, is marked as a proto-rev and so can never hold an index stream, and starts with both index infos unread |
| RevFile.WrapTempRevFile | subversion/libsvn_fs_x/rev_file.h:131-138 | a wrapped temporary file is a valid handle over that file, with a stream on it, no revision, not a proto-rev, no index streams and the footer unread |
| RevFile.AutoReadFooter | subversion/libsvn_fs_x/rev_file.h:84-90 | the footer is read only while the infos are unread: the first read stores both infos exactly as the handle's own footer gives them or fails with the reader's error, later calls return the handle unchanged, and file, stream and index streams are never touched |
| RevFile.IndexStreamOf | subversion/libsvn_fs_x/rev_file.h:142-154 | the index stream is created on demand over the range the handle's own footer gives, shared on later calls with nothing changed, refused for a txn proto-rev, and touches nothing but itself and, on the first index access, the infos read from that footer |
| RevFile.IndexInfoOf | subversion/libsvn_fs_x/rev_file.h:156-166 | the index info is the handle's own footer's value, read once together with the other index's info and returned unchanged afterwards, and no stream changes |
| RevFile.Close | subversion/libsvn_fs_x/rev_file.h:168-171 | after close the file, stream and both index streams are gone, and the handle stays valid |
| RevFile.CloseIsIdempotent | subversion/libsvn_fs_x/rev_file.h:168-171 | closing a closed handle changes nothing |
| RevFile.Apply | subversion/libsvn_fs_x/rev_file.h:59-94 | every single operation keeps the handle's invariants, the start revision, the packed state and the block size |
| RevFile.RunKeepsLatchedState | subversion/libsvn_fs_x/rev_file.h:59-90 | over any sequence of operations the invariants hold, the packed state, start revision and block size stay as they were at open, the file is never swapped, and infos once read never change |
| RevFile.RunReadsOnlyOwnFile | subversion/libsvn_fs_x/rev_file.h:55-58 | a handle's run depends only on its own file's footer, so other files changing under it make no difference |
| RevFile.RunNeverCloses | subversion/libsvn_fs_x/rev_file.h:55-58 | without a close, every operation keeps the file it was opened with |
| RevFile.RepackScenario | subversion/libsvn_fs_x/rev_file.h:29-34 | a handle opened before a repack keeps reading the unpacked rev file, and only a new open sees the pack file |
| RaTunnel.ParseTunnel | subversion/libsvn_ra_svn/client.c:95-115 | for a C string URL, a tunnel exists iff the URL starts with "svn" in any case, then '+', then has a ':' later; it is then exactly the text between '+' and the first ':' |
| RaTunnel.ParseTunnelRoundTrip | subversion/libsvn_ra_svn/client.c:95-115 | the tunnel name of `svn+NAME:rest` is NAME, whatever the scheme's case and whatever follows the colon |
| RaTunnel.IsValidHostinfo | subversion/libsvn_ra_svn/client.c:816-841 | a host is refused when it starts with '-' and otherwise accepted iff every character is an ASCII letter or digit or one of `:.-_[]@` |
| RaTunnel.HostinfoAcceptsListedForms | subversion/libsvn_ra_svn/client.c:816-823 | the example host forms of the function's comment are accepted: a user at a host, a bracketed IPv6 address with a port, an IPv4 address, and host names with '-' and '_' |
| RaTunnel.HostnameAccepted | subversion/libsvn_ra_svn/client.c:816-841 | any host name of lower-case letters joined by a single '-' or '_' is accepted |
| RaTunnel.HostinfoRefusesOptionsAndShell | subversion/libsvn_ra_svn/client.c:824-841 | an option-like host and a host with a shell metacharacter are refused |
| RaTunnel.TunnelCommand | subversion/libsvn_ra_svn/client.c:389-431 | an undefined or empty definition is BAD_URL (except the built-in "ssh"), every failure is BAD_URL, and a definition not starting with '$' is the command itself |
| RaTunnel.ExpandVariable | subversion/libsvn_ra_svn/client.c:412-429 | the only failure of a `$VAR` definition is BAD_URL, and a bare `$NAME` runs NAME's value when set and is BAD_URL otherwise |
| RaTunnel.BareVariableDefinition | subversion/libsvn_ra_svn/client.c:412-429 | a definition that is only `$NAME` runs the environment's NAME, and is BAD_URL when NAME is unset |
| RaTunnel.VariableDefinition | subversion/libsvn_ra_svn/client.c:412-429 | a definition `$NAME fallback` runs the environment's NAME when set, otherwise the fallback without leading spaces, and a blank fallback is BAD_URL |
| RaTunnel.DefaultSsh | subversion/libsvn_ra_svn/client.c:393-404 | without a configured entry, "ssh" runs `$SVN_SSH` when set and `ssh -q --` otherwise |
| RaTunnel.FindTunnelAgent | subversion/libsvn_ra_svn/client.c:376-455 | the argument vector is the tokenized command followed by the host, `svnserve` and `-t`; a command error is BAD_URL and a tokenizer failure is its APR status |
| RaProtocol.DepthToRecurseCases | subversion/libsvn_ra_svn/client.c:68-75 | the recurse flag is set exactly for unknown, immediates and infinity depth |
| RaProtocol.DepthToRecurseCoversRecursive | subversion/libsvn_ra_svn/client.c:68-75 | the flag covers every depth `SVN_DEPTH_IS_RECURSIVE` accepts, and adds immediates alone |
| RaProtocol.DepthToRecurseMonotone | subversion/libsvn_ra_svn/client.c:68-75 | a deeper known depth never needs less recursion |
| RaProtocol.OptboolToTristate | subversion/libsvn_ra_svn/client.c:1634-1646 | exactly 1 is true, exactly 0 is false, and the unspecified number is unknown |
| RaProtocol.OptboolIsNotTruthy | subversion/libsvn_ra_svn/client.c:1640-1645 | any number other than 0 and 1 is unknown, not true |
| RaProtocol.OptboolRoundTrip | subversion/libsvn_ra_svn/client.c:1634-1646 | decoding the number that encodes a tristate gives the tristate back |
| RaProtocol.SendDirentFields | subversion/libsvn_ra_svn/client.c:1521-1546 | a field is written iff its flag is set, and the fields come in the fixed order kind, size, has-props, created-rev, time, last-author |
| RaProtocol.DirentFieldsRoundTrip | subversion/libsvn_ra_svn/client.c:1521-1546 | the flags of the written fields are exactly the flags requested |
| RaProtocol.DirentFieldsIgnoresOtherBits | subversion/libsvn_ra_svn/client.c:1521-1546 | bits outside the six dirent flags change nothing that is written |
| RaProtocol.MaskOfMembers | subversion/libsvn_ra_svn/client.c:1521-1546 | the mask rebuilt from a list of fields has a field's flag set iff the field is in the list |
| RaProtocol.WordRoundTrip | subversion/libsvn_ra_svn/client.c:1526-1543 | each field's protocol word reads back as that field |
| RaProtocol.HasCapability | subversion/libsvn_ra_svn/client.c:3060-3101 | a known capability name is answered by its wire capability in the server's set; an unknown one is UNKNOWN_CAPABILITY with the answer false |
| RaProtocol.CapabilityNamesDistinct | subversion/libsvn_ra_svn/client.c:3067-3084 | no capability name appears twice in the table, so the first match is the only one |
| RaProtocol.OpenSession | subversion/libsvn_ra_svn/client.c:729-786 | the session opens iff the server's version window contains 2, its greeting announces edit-pipeline and any repository root is no longer than the URL; version and pipeline failures are BAD_VERSION, a long root is MALFORMED_DATA, and the capabilities are the greeting's plus the repository's |
| RaProtocol.PrefixRootAccepted | subversion/libsvn_ra_svn/client.c:775-785 | a repository root that is a prefix of the URL, as the API promises, is always accepted |
| RaProtocol.PrepareCommit | subversion/libsvn_ra_svn/client.c:1282-1324 | without commit-revprops a missing log is BAD_PROPERTY_VALUE and other properties are NOT_IMPLEMENTED; the log argument is the log or ""; properties are kept; the two ephemeral txnprops are added iff both capabilities are present |
| RaProtocol.OldServerTakesOnlyLog | subversion/libsvn_ra_svn/client.c:1285-1313 | a server without commit-revprops accepts a commit exactly when svn:log is its only revision property |
| RaLocks.Filtered | subversion/libsvn_ra_svn/client.c:2929-2948 | every lock in the result is stored under its own path and passes the depth filter |
| RaLocks.FilteredKeys | subversion/libsvn_ra_svn/client.c:2939-2948 | a path is in the result iff some lock on that path was sent and passes the filter |
| RaLocks.FilteredLastWins | subversion/libsvn_ra_svn/client.c:2939-2948 | of several locks on one kept path, the last one sent is the one stored |
| RaLocks.GetLocks | subversion/libsvn_ra_svn/client.c:2917-2949 | the call fails iff some element is not a list or does not parse, with the error of the first such element; otherwise the result is the filtered lock table |
| RaLocks.DepthEmptyKeepsOnlyPath | subversion/libsvn_ra_svn/client.c:2939-2948 | at depth empty only a lock on the queried path itself is kept |
| RaLocks.ImmediateChildKept | subversion/libsvn_ra_svn/client.c:2943-2947 | at depth files a lock on an immediate child of the queried directory is kept |
| RaLocks.GrandchildDropped | subversion/libsvn_ra_svn/client.c:2943-2947 | at depth files a lock two levels down is dropped |
| RaLog.WantsOfNames | subversion/libsvn_ra_svn/client.c:1886-1905 | author, date and log are wanted iff named, and custom properties iff some other name is listed |
| RaLog.WantsOf | subversion/libsvn_ra_svn/client.c:1886-1914 | author, date and log are each wanted iff no list is given or the list names them, and custom properties iff no list is given or it names some other property |
| RaLog.RevisionRoundTrip | subversion/libsvn_ra_svn/client.c:1966-1970 | a revision sent as a non-negative number plus the invalid-revnum flag is recovered exactly, `SVN_INVALID_REVNUM` included |
| RaLog.AddIfWanted | subversion/libsvn_ra_svn/client.c:2035-2043 | a standard property is set when sent and wanted, and no other key changes |
| RaLog.EntryOf | subversion/libsvn_ra_svn/client.c:1956-2043 | the entry's flags are the optional booleans cast to a 32-bit int, author, date and log are present iff sent and wanted or in the server's table (the separate value winning), other properties are present iff in the table, and every property not taken from the separate fields has the table's value |
| RaLog.Step | subversion/libsvn_ra_svn/client.c:1936-2063 | a non-list item is MALFORMED_DATA, a missing property list with custom properties wanted is NOT_IMPLEMENTED, and besides these only a failing receiver and a top-level end marker raise an error; `nreceived` goes up by one exactly for a usable top-level entry under a positive limit, so nested entries are never counted; the receiver is invoked iff not past the limit of top-level entries and not after a CEASE_INVOCATION; nest_level changes only after an invocation the loop survives, going up by one for an entry with children and down by one for an invalid revision, and the assertion on it fails exactly for an invalid revision at the top level |
| RaLog.RunRespectsLimit | subversion/libsvn_ra_svn/client.c:2014-2019 | under a positive limit the receiver sees at most `limit` invocations for top-level entries |
| RaLog.RunFlatStaysTopLevel | subversion/libsvn_ra_svn/client.c:2054-2062 | in an answer with no entry that has children or an invalid revision, nest_level stays zero and every invocation is top level |
| RaLog.FlatLogRespectsLimit | subversion/libsvn_ra_svn/client.c:2014-2062 | under a positive limit, a log without merged revisions invokes the receiver at most `limit` times in all |
| RaLog.RunKeepsCallsInvariant | subversion/libsvn_ra_svn/client.c:2014-2052 | the receiver is invoked in item order, and a CEASE_INVOCATION reply is the last invocation and latches the state |
| RaLog.ReceiveLog | subversion/libsvn_ra_svn/client.c:2071-2109 | the log respects the limit, delivers items in order, and a CEASE_INVOCATION reply ends the invocations and is the error returned |
| RaLog.RunDeliversAll | subversion/libsvn_ra_svn/client.c:2014-2063 | with a receiver that never stops, every item of a well-formed answer (all entries, revision properties sent when custom ones are wanted, no top-level end marker) whose top-level entries fit the limit reaches the receiver in order and the loop ends without error, however many nested entries there are |
| RaLog.LogWithinLimitDeliversAll | subversion/libsvn_ra_svn/client.c:2071-2109 | the same, for a whole log request: no error, and one invocation per item, in order |
| RaLog.UnlimitedLogDeliversAll | subversion/libsvn_ra_svn/client.c:2071-2109 | without a limit, every item of a well-formed answer reaches a receiver that never stops, and the log ends without error |
| RaLog.NestedEntriesNotCounted | subversion/libsvn_ra_svn/client.c:2014-2062 | under a limit of two, two top-level entries plus a merged revision and its end marker nested under the first give four invocations |

## Left out

- Sockets, DNS, keep-alive, tunnel process spawning and pool cleanup (`make_connection`, `make_tunnel` and related): operating-system I/O.
- Wire marshalling, SASL authentication, the editor and reporter drivers, and `handle_auth_request`: protocol I/O through functions outside the model. Every read of a server answer is a parameter of the operation that consumes it.
- The changed-path lists of log entries (`cplist`), `svn_ra_svn__parse_proplist` failures, and the receiver modifying the entry it is handed: these are parsing and callback details. The model hands the receiver a fresh entry and reads `has_children` and `revision` from the entry as built.
- RaProtocol.PrepareCommit: the C code adds the two ephemeral txnprops to the caller's `revprop_table` in place, so the caller sees them afterwards. The model returns the extended table as a new map and leaves the caller's value unchanged, since Dafny values are immutable.
- RaLog.Step: a failed `SVN_ERR_ASSERT` on `nest_level` is modelled as the returned error SVN_ERR_ASSERTION_FAIL. That is the behaviour under a malfunction handler that raises the error. Under Subversion's default handler, which aborts the process, the model's error result stands for the abort.
- RaLog.Step: `nreceived` is an unbounded integer, so the C `int` overflow after 2^31 top-level items is not modelled.
- The path arithmetic of `ra_svn_get_locks` before the filter (`svn_path_url_add_component2`, `path_relative_to_root`, `svn_fspath__canonicalize`): the queried path arrives already as a canonical absolute path. `svn_fspath__skip_ancestor` and `svn_path_component_count` are modelled by small definitions of their own over '/'-separated paths.
- `svn_uri_canonicalize` of the repository root in `open_session`: a foreign helper; the root is compared as given.
- The MD5 checksums of `get_file` and of the index info: checksums are opaque values, never computed.
- The footer layout, the packed-number stream encoding and the contents of the L2P/P2L tables: no modelled file defines them, so the footer reader is an uninterpreted function.
- The read-only bit toggling of the writable open: a filesystem side effect.
- RevFile.OpenRevision, RevFile.OpenPackOrRev, RevFile.OpenPackOrRevWritable, RevFile.OpenProtoRev: the opens fail only with NO_SUCH_REVISION (or ENOENT for a missing proto-rev file). Other I/O failures of opening a file (permissions, descriptor exhaustion) are operating-system errors outside the model.
- RevFile.Close: closing cannot fail in the model. An error from `apr_file_close` is operating-system I/O.
- RevFile.WrapTempRevFile: the header does not say which start revision a wrapped temporary file gets. The model gives it `SVN_INVALID_REVNUM` and treats it as an ordinary file whose indexes come from its own footer.
- RevFile.IndexStreamOf: the header says a txn proto-rev never has index streams but not how a request for one is answered. The model refuses it with SVN_ERR_ASSERTION_FAIL; `rev_file.c` is not part of this model.
- Concurrency with a background packer: stated only as the latched packed state and open file (`RunReadsOnlyOwnFile`, `RepackScenario`).
- The retry with a refreshed `min-unpacked-rev` that `rev_file.c` performs when a revision was packed meanwhile: `rev_file.c` is not part of this model.
- `svn_utf__decompose_normalized` and `svn_utf__utf8proc_version`, which wrap the foreign utf8proc library, and `svn_utf__cstring_from_utf8_fuzzy`, which calls a native-encoding converter.
- Ucs4.Ucs4Cmp: the header comment gives a sign convention ("negative if BUFA is greater") that is the reverse of the usual `strcmp` one. The model implements the comment literally. Of the sign it commits only to zero on equality, opposite signs for swapped arguments and transitivity, not to which side is negative. Its range -1..1 is the model's own choice of values; the header promises a sign only, so callers of the real function may not rely on that range.
- `subversion/clients/cmdline/revert-cmd.c`: command-line dispatch that loops over targets calling `svn_client_revert`, with no logic of its own.
