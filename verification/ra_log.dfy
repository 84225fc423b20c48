/** The entry loop of `perform_ra_svn_log` and `ra_svn_log`
    (subversion/libsvn_ra_svn/client.c): which revision properties are
    wanted, how each log item becomes a `svn_log_entry_t`, when the
    receiver is invoked (the limit on top-level entries and the
    CEASE_INVOCATION latch) and the nesting counter of merged revisions.

    The server's items arrive as a sequence; the receiver is the sequence
    of its replies, one per item, of which only those for invoked items are
    consulted.  Changed-path lists and the wire format are not modelled. */
module RaLog {
  import opened Wrappers
  import opened Errors
  import opened RaProtocol
  import opened SvnTypes

  /** `SVN_PROP_REVISION_AUTHOR` */
  const PropRevisionAuthor: string := "svn:author"
  /** `SVN_PROP_REVISION_DATE` */
  const PropRevisionDate: string := "svn:date"

  /** The revision properties the caller asked for. */
  datatype Wants = Wants(author: bool, date: bool, message: bool, custom: bool)

  /** One of the three revision properties the log command carries on its own. */
  predicate IsStandardRevprop(name: string) {
    name == PropRevisionAuthor || name == PropRevisionDate || name == PropRevisionLog
  }

  /** The wants of an explicit revprops list, by the loop that writes it. */
  function WantsOfNames(names: seq<string>): (w: Wants)
    ensures w.author <==> PropRevisionAuthor in names
    ensures w.date <==> PropRevisionDate in names
    ensures w.message <==> PropRevisionLog in names
    ensures w.custom <==> exists k :: 0 <= k < |names| && !IsStandardRevprop(names[k])
  {
    if |names| == 0 then Wants(false, false, false, false)
    else
      var w := WantsOfNames(names[..|names| - 1]);
      var name := names[|names| - 1];
      assert names == names[..|names| - 1] + [name];
      if name == PropRevisionAuthor then w.(author := true)
      else if name == PropRevisionDate then w.(date := true)
      else if name == PropRevisionLog then w.(message := true)
      else w.(custom := true)
  }

  /** The wants of a log request: no list (`all-revprops`) wants everything. */
  function WantsOf(revprops: Option<seq<string>>): (w: Wants)
    ensures w.author <==> revprops.None? || PropRevisionAuthor in revprops.value
    ensures w.date <==> revprops.None? || PropRevisionDate in revprops.value
    ensures w.message <==> revprops.None? || PropRevisionLog in revprops.value
    ensures w.custom <==>
      revprops.None? || exists k :: 0 <= k < |revprops.value| && !IsStandardRevprop(revprops.value[k])
  {
    match revprops
    case None => Wants(true, true, true, true)
    case Some(names) => WantsOfNames(names)
  }

  /** One item of the server's answer: a parsed log tuple, or an item that
      is not a list.  The optional booleans are the raw numbers of the
      tuple, `UnspecifiedNumber` when absent. */
  datatype LogItem =
    | Entry(rev: int, author: Option<string>, date: Option<string>, message: Option<string>,
            hasChildrenParam: uint64, invalidRevnumParam: uint64,
            revprops: Option<map<string, string>>, subtractiveMergeParam: uint64)
    | NotAList

  /** `svn_log_entry_t` as the receiver sees it. */
  datatype LogEntry = LogEntry(revision: int, hasChildren: bool, subtractiveMerge: bool,
                               revprops: map<string, string>)

  /** `(svn_boolean_t) param` after the unspecified check: the number cast
      to a 32-bit `int`, so only its low 32 bits decide. */
  predicate OptFlag(param: uint64) {
    param != UnspecifiedNumber && (param as int) % 0x1_0000_0000 != 0
  }

  /** The revision the entry reports: the invalid revision when the server
      flags it, since the protocol cannot carry a negative number. */
  function RevisionOf(item: LogItem): (rev: Revnum)
    requires item.Entry?
    ensures item.invalidRevnumParam != UnspecifiedNumber && item.invalidRevnumParam != 0 ==> rev == InvalidRevnum
    ensures item.invalidRevnumParam == UnspecifiedNumber || item.invalidRevnumParam == 0 ==> rev == item.rev
  {
    if item.invalidRevnumParam != UnspecifiedNumber && item.invalidRevnumParam != 0 then InvalidRevnum
    else item.rev
  }

  /** The server's side of the revision field: a revision number, valid or
      `SVN_INVALID_REVNUM`, travels as a non-negative number plus the
      invalid-revnum flag, and `RevisionOf` recovers it. */
  lemma RevisionRoundTrip(r: Revnum, item: LogItem)
    requires r >= 0 || r == InvalidRevnum
    requires item.Entry?
    requires item.rev == (if r < 0 then 0 else r)
    requires item.invalidRevnumParam == (if r < 0 then 1 else 0)
    ensures RevisionOf(item) == r
  {
  }

  /** A standard revision property added when it was sent and is wanted. */
  function AddIfWanted(props: map<string, string>, name: string, value: Option<string>, wanted: bool)
    : (m: map<string, string>)
    ensures name in m <==> name in props || (value.Some? && wanted)
    ensures value.Some? && wanted ==> m[name] == value.value
    ensures forall k :: k != name ==> (k in m <==> k in props) && (k in props ==> m[k] == props[k])
  {
    if value.Some? && wanted then props[name := value.value] else props
  }

  /** The entry handed to the receiver for an item. */
  function EntryOf(item: LogItem, wants: Wants): (e: LogEntry)
    requires item.Entry?
    ensures e.revision == RevisionOf(item)
    ensures e.hasChildren <==> OptFlag(item.hasChildrenParam)
    ensures e.subtractiveMerge <==> OptFlag(item.subtractiveMergeParam)
    ensures PropRevisionAuthor in e.revprops <==>
      (item.author.Some? && wants.author) || (item.revprops.Some? && PropRevisionAuthor in item.revprops.value)
    ensures item.author.Some? && wants.author ==> e.revprops[PropRevisionAuthor] == item.author.value
    ensures PropRevisionDate in e.revprops <==>
      (item.date.Some? && wants.date) || (item.revprops.Some? && PropRevisionDate in item.revprops.value)
    ensures PropRevisionLog in e.revprops <==>
      (item.message.Some? && wants.message) || (item.revprops.Some? && PropRevisionLog in item.revprops.value)
    ensures item.date.Some? && wants.date ==> e.revprops[PropRevisionDate] == item.date.value
    ensures item.message.Some? && wants.message ==> e.revprops[PropRevisionLog] == item.message.value
    ensures forall k :: !IsStandardRevprop(k) ==>
      (k in e.revprops <==> item.revprops.Some? && k in item.revprops.value)
    // Every property not taken from the command's own fields has the value
    // the server's revprops table gives it.
    ensures forall k :: k in e.revprops
                        && !(k == PropRevisionAuthor && item.author.Some? && wants.author)
                        && !(k == PropRevisionDate && item.date.Some? && wants.date)
                        && !(k == PropRevisionLog && item.message.Some? && wants.message) ==>
      item.revprops.Some? && k in item.revprops.value && e.revprops[k] == item.revprops.value[k]
  {
    assert |PropRevisionAuthor| == 10 && |PropRevisionDate| == 8 && |PropRevisionLog| == 7;
    var base := if item.revprops.Some? then item.revprops.value else map[];
    var withAuthor := AddIfWanted(base, PropRevisionAuthor, item.author, wants.author);
    var withDate := AddIfWanted(withAuthor, PropRevisionDate, item.date, wants.date);
    var withLog := AddIfWanted(withDate, PropRevisionLog, item.message, wants.message);
    LogEntry(RevisionOf(item), OptFlag(item.hasChildrenParam), OptFlag(item.subtractiveMergeParam), withLog)
  }

  /** How the receiver answers one invocation. */
  datatype Reply = Continue | Cease | Fail(code: int)

  /** One receiver invocation: the item it was for, the entry, and the
      nesting level at the time. */
  datatype Call = Call(item: nat, entry: LogEntry, nestLevel: nat)

  /** The loop's state: `nest_level`, `nreceived`, whether the outer error
      holds a CEASE_INVOCATION, the invocations so far, and the error that
      ended the loop. */
  datatype LogState = LogState(nest: nat, received: int, ceased: bool, calls: seq<Call>,
                               failed: Option<SvnError>)

  const InitialState: LogState := LogState(0, 0, false, [], None)

  /** Whether the receiver is invoked for a list item given the state:
      not past `limit` top-level entries (the `++nreceived` happens only
      for top-level entries under a positive limit), and not after a
      CEASE_INVOCATION. */
  predicate Delivers(limit: int, st: LogState) {
    var counted := limit > 0 && st.nest == 0;
    !(counted && st.received + 1 > limit) && !st.ceased
  }

  /** One turn of the loop for item number `i`. */
  function Step(limit: int, wants: Wants, st: LogState, i: nat, item: LogItem, reply: Reply): (st': LogState)
    requires st.failed.None?
    ensures item.NotAList? ==> st' == st.(failed := Some(RaSvnMalformedData))
    ensures item.Entry? && wants.custom && item.revprops.None? ==> st' == st.(failed := Some(RaNotImplemented))
    // `++nreceived` runs only for a usable entry at the top level under a
    // positive limit: nested entries are never counted.
    ensures st'.received == st.received +
      (if item.Entry? && !(wants.custom && item.revprops.None?) && limit > 0 && st.nest == 0 then 1 else 0)
    ensures st.ceased ==> st'.ceased && st'.calls == st.calls
    ensures st'.calls == st.calls || st'.calls == st.calls + [Call(i, EntryOf(item, wants), st.nest)]
    ensures st'.calls != st.calls ==>
      && item.Entry? && !st.ceased
      && (limit > 0 && st.nest == 0 ==> st'.received == st.received + 1 <= limit)
      && (reply.Cease? ==> st'.ceased)
      && (reply.Fail? ==> st'.failed == Some(Callback(reply.code)))
    ensures st'.ceased && !st.ceased ==> st'.calls != st.calls && reply.Cease?
    ensures item.Entry? && !(wants.custom && item.revprops.None?) && Delivers(limit, st) ==>
      st'.calls != st.calls
    // `nest_level` moves only after an invocation the loop survives: up for
    // an entry with children, down for the end marker of a merged list.
    ensures st'.calls == st.calls || reply.Fail? ==> st'.nest == st.nest
    ensures st'.calls != st.calls && !reply.Fail? && st'.failed.None? ==>
      st'.nest == st.nest + (if OptFlag(item.hasChildrenParam) then 1 else 0)
                          - (if RevisionOf(item) < 0 then 1 else 0)
    // The only errors: a non-list item, missing revision properties, a
    // failing receiver, and an end marker at the top level.
    ensures st'.failed.Some? ==>
      || item.NotAList?
      || (wants.custom && item.revprops.None?)
      || (st'.calls != st.calls && reply.Fail?)
      || (st'.calls != st.calls && RevisionOf(item) < 0 && st.nest == 0 && !OptFlag(item.hasChildrenParam))
    // The SVN_ERR_ASSERT on `nest_level` fails exactly for an end marker at
    // the top level.
    ensures st'.failed == Some(AssertionFail) <==>
      && st'.calls != st.calls && !reply.Fail?
      && RevisionOf(item) < 0 && st.nest == 0 && !OptFlag(item.hasChildrenParam)
  {
    if item.NotAList? then st.(failed := Some(RaSvnMalformedData))
    else if wants.custom && item.revprops.None? then st.(failed := Some(RaNotImplemented))
    else
      var counted := limit > 0 && st.nest == 0;
      var received := if counted then st.received + 1 else st.received;
      if (counted && received > limit) || st.ceased then
        st.(received := received)
      else
        var entry := EntryOf(item, wants);
        var calls := st.calls + [Call(i, entry, st.nest)];
        if reply.Fail? then
          st.(received := received, calls := calls, failed := Some(Callback(reply.code)))
        else
          var ceased := reply.Cease?;
          var nest := if entry.hasChildren then st.nest + 1 else st.nest;
          if entry.revision < 0 then
            if nest == 0 then LogState(nest, received, ceased, calls, Some(AssertionFail))
            else LogState(nest - 1, received, ceased, calls, None)
          else
            LogState(nest, received, ceased, calls, None)
  }

  /** The loop from item `i` on, until the items run out or an error ends it. */
  function Run(limit: int, wants: Wants, items: seq<LogItem>, replies: seq<Reply>, i: nat, st: LogState)
    : LogState
    requires |replies| == |items| && i <= |items|
    decreases |items| - i
  {
    if i == |items| || st.failed.Some? then st
    else Run(limit, wants, items, replies, i + 1, Step(limit, wants, st, i, items[i], replies[i]))
  }

  /** The number of invocations for top-level entries. */
  function TopLevelCalls(calls: seq<Call>): nat {
    if |calls| == 0 then 0
    else TopLevelCalls(calls[..|calls| - 1]) + (if calls[|calls| - 1].nestLevel == 0 then 1 else 0)
  }

  /** Under a positive limit the receiver sees at most `limit` top-level
      entries, however many the server sends. */
  lemma {:induction false} RunRespectsLimit(limit: int, wants: Wants, items: seq<LogItem>, replies: seq<Reply>,
                                            i: nat, st: LogState)
    requires |replies| == |items| && i <= |items|
    requires limit > 0 ==> TopLevelCalls(st.calls) <= st.received && TopLevelCalls(st.calls) <= limit
    ensures limit > 0 ==> TopLevelCalls(Run(limit, wants, items, replies, i, st).calls) <= limit
    decreases |items| - i
  {
    if i < |items| && st.failed.None? {
      var st' := Step(limit, wants, st, i, items[i], replies[i]);
      if st'.calls != st.calls {
        var c := st'.calls[|st'.calls| - 1];
        assert st'.calls[..|st'.calls| - 1] == st.calls;
        assert c.nestLevel == st.nest;
      }
      RunRespectsLimit(limit, wants, items, replies, i + 1, st');
    }
  }

  /** No entry of the rest of the answer opens or closes a list of merged
      revisions. */
  predicate FlatFrom(items: seq<LogItem>, i: nat) {
    forall k :: i <= k < |items| && items[k].Entry? ==>
      !OptFlag(items[k].hasChildrenParam) && RevisionOf(items[k]) >= 0
  }

  /** In an answer without merged revisions `nest_level` stays zero, so
      every invocation is for a top-level entry. */
  lemma {:induction false} RunFlatStaysTopLevel(limit: int, wants: Wants, items: seq<LogItem>, replies: seq<Reply>,
                                                i: nat, st: LogState)
    requires |replies| == |items| && i <= |items|
    requires FlatFrom(items, i)
    requires st.failed.None? ==> st.nest == 0
    requires forall j :: 0 <= j < |st.calls| ==> st.calls[j].nestLevel == 0
    ensures forall j :: 0 <= j < |Run(limit, wants, items, replies, i, st).calls| ==>
      Run(limit, wants, items, replies, i, st).calls[j].nestLevel == 0
    decreases |items| - i
  {
    if i < |items| && st.failed.None? {
      var st' := Step(limit, wants, st, i, items[i], replies[i]);
      assert st'.failed.None? ==> st'.nest == 0;
      assert forall j :: 0 <= j < |st'.calls| ==> st'.calls[j].nestLevel == 0 by {
        if st'.calls != st.calls {
          assert forall j :: 0 <= j < |st.calls| ==> st'.calls[j] == st.calls[j];
          assert st'.calls[|st.calls|].nestLevel == st.nest;
        }
      }
      assert FlatFrom(items, i + 1);
      RunFlatStaysTopLevel(limit, wants, items, replies, i + 1, st');
    }
  }

  /** When every invocation is top level, all of them are counted. */
  lemma {:induction false} AllTopLevel(calls: seq<Call>)
    requires forall j :: 0 <= j < |calls| ==> calls[j].nestLevel == 0
    ensures TopLevelCalls(calls) == |calls|
  {
    if |calls| > 0 {
      AllTopLevel(calls[..|calls| - 1]);
    }
  }

  /** Under a positive limit, a log without merged revisions invokes the
      receiver at most `limit` times in all. */
  lemma FlatLogRespectsLimit(limit: int, revprops: Option<seq<string>>, items: seq<LogItem>, replies: seq<Reply>)
    requires |replies| == |items| && limit > 0
    requires FlatFrom(items, 0)
    ensures |ReceiveLog(limit, revprops, items, replies).calls| <= limit
  {
    var wants := WantsOf(revprops);
    RunFlatStaysTopLevel(limit, wants, items, replies, 0, InitialState);
    AllTopLevel(ReceiveLog(limit, revprops, items, replies).calls);
  }

  /** What the invocations so far say about the replies: each is for an
      earlier item, in item order, and one answered CEASE_INVOCATION is the
      last and has latched the state. */
  ghost predicate CallsInvariant(replies: seq<Reply>, i: nat, st: LogState) {
    && (forall j :: 0 <= j < |st.calls| ==> st.calls[j].item < i && st.calls[j].item < |replies|)
    && (forall j, k :: 0 <= j < k < |st.calls| ==> st.calls[j].item < st.calls[k].item)
    && (forall j :: 0 <= j < |st.calls| && replies[st.calls[j].item] == Cease ==>
          j == |st.calls| - 1 && st.ceased)
  }

  /** The invariant holds for the rest of the loop. */
  lemma {:induction false} RunKeepsCallsInvariant(limit: int, wants: Wants, items: seq<LogItem>, replies: seq<Reply>,
                                                  i: nat, st: LogState)
    requires |replies| == |items| && i <= |items|
    requires CallsInvariant(replies, i, st)
    ensures CallsInvariant(replies, |items|, Run(limit, wants, items, replies, i, st))
    decreases |items| - i
  {
    if i < |items| && st.failed.None? {
      var st' := Step(limit, wants, st, i, items[i], replies[i]);
      if st'.calls != st.calls {
        assert st'.calls[|st.calls|].item == i;
        assert !st.ceased;
        assert forall j :: 0 <= j < |st.calls| ==> st'.calls[j] == st.calls[j] && replies[st.calls[j].item] != Cease;
      }
      RunKeepsCallsInvariant(limit, wants, items, replies, i + 1, st');
    } else if i < |items| {
      assert CallsInvariant(replies, |items|, st);
    }
  }

  /** The outcome of `ra_svn_log`: the invocations and the error returned,
      the latched CEASE_INVOCATION first. */
  datatype LogResult = LogResult(calls: seq<Call>, error: Option<SvnError>)

  /** `ra_svn_log` over the server's items and the receiver's replies. */
  function ReceiveLog(limit: int, revprops: Option<seq<string>>, items: seq<LogItem>, replies: seq<Reply>)
    : (r: LogResult)
    requires |replies| == |items|
    ensures limit > 0 ==> TopLevelCalls(r.calls) <= limit
    ensures forall j, k :: 0 <= j < k < |r.calls| ==> r.calls[j].item < r.calls[k].item
    ensures forall j :: 0 <= j < |r.calls| ==> r.calls[j].item < |items|
    ensures forall j :: 0 <= j < |r.calls| && replies[r.calls[j].item] == Cease ==>
      j == |r.calls| - 1 && r.error == Some(CeaseInvocation)
  {
    var wants := WantsOf(revprops);
    var st := Run(limit, wants, items, replies, 0, InitialState);
    RunRespectsLimit(limit, wants, items, replies, 0, InitialState);
    RunKeepsCallsInvariant(limit, wants, items, replies, 0, InitialState);
    LogResult(st.calls, if st.ceased then Some(CeaseInvocation) else st.failed)
  }

  /** `nest_level` before item `k` of an answer, by the loop's rule: up by
      one after an entry with children, down by one after an end marker. */
  function NestBefore(items: seq<LogItem>, k: nat): int
    requires k <= |items|
  {
    if k == 0 then 0
    else
      var item := items[k - 1];
      NestBefore(items, k - 1)
        + (if item.Entry? && OptFlag(item.hasChildrenParam) then 1 else 0)
        - (if item.Entry? && RevisionOf(item) < 0 then 1 else 0)
  }

  /** The number of top-level entries among the first `k` items. */
  function TopLevelBefore(items: seq<LogItem>, k: nat): nat
    requires k <= |items|
  {
    if k == 0 then 0
    else TopLevelBefore(items, k - 1) + (if NestBefore(items, k - 1) == 0 then 1 else 0)
  }

  lemma {:induction false} TopLevelBeforeMonotone(items: seq<LogItem>, j: nat, k: nat)
    requires j <= k <= |items|
    ensures TopLevelBefore(items, j) <= TopLevelBefore(items, k)
    decreases k - j
  {
    if j < k {
      TopLevelBeforeMonotone(items, j, k - 1);
    }
  }

  /** An answer the loop takes without error: every item is a log entry,
      the revision properties are sent whenever custom ones are wanted, and
      no end marker of a merged list appears at the top level. */
  predicate WellFormedAnswer(items: seq<LogItem>, wants: Wants) {
    forall k :: 0 <= k < |items| ==>
      && items[k].Entry?
      && !(wants.custom && items[k].revprops.None?)
      && (RevisionOf(items[k]) < 0 && !OptFlag(items[k].hasChildrenParam) ==> NestBefore(items, k) > 0)
  }

  /** With a receiver that never stops, a well-formed answer whose top-level
      entries fit the limit reaches the receiver item by item, without error,
      however many nested entries it carries: only top-level entries count
      toward the limit. */
  lemma {:induction false} RunDeliversAll(limit: int, wants: Wants, items: seq<LogItem>, replies: seq<Reply>,
                                          i: nat, st: LogState)
    requires |replies| == |items| && i <= |items|
    requires WellFormedAnswer(items, wants)
    requires forall k :: 0 <= k < |replies| ==> replies[k] == Continue
    requires limit > 0 ==> TopLevelBefore(items, |items|) <= limit
    requires st.failed.None? && !st.ceased
    requires st.nest == NestBefore(items, i)
    requires limit > 0 ==> st.received == TopLevelBefore(items, i)
    requires |st.calls| == i && forall j :: 0 <= j < i ==> st.calls[j].item == j
    ensures Run(limit, wants, items, replies, i, st).failed.None?
    ensures !Run(limit, wants, items, replies, i, st).ceased
    ensures |Run(limit, wants, items, replies, i, st).calls| == |items|
    ensures forall j :: 0 <= j < |items| ==> Run(limit, wants, items, replies, i, st).calls[j].item == j
    decreases |items| - i
  {
    if i < |items| {
      var item := items[i];
      var st' := Step(limit, wants, st, i, item, replies[i]);
      if limit > 0 && st.nest == 0 {
        TopLevelBeforeMonotone(items, i + 1, |items|);
      }
      assert Delivers(limit, st);
      assert st'.calls == st.calls + [Call(i, EntryOf(item, wants), st.nest)];
      assert st'.failed.None?;
      assert !st'.ceased;
      assert st'.nest == NestBefore(items, i + 1);
      RunDeliversAll(limit, wants, items, replies, i + 1, st');
    }
  }

  /** The same, stated for a whole `ra_svn_log`. */
  lemma LogWithinLimitDeliversAll(limit: int, revprops: Option<seq<string>>, items: seq<LogItem>,
                                  replies: seq<Reply>)
    requires |replies| == |items|
    requires WellFormedAnswer(items, WantsOf(revprops))
    requires forall k :: 0 <= k < |replies| ==> replies[k] == Continue
    requires limit > 0 ==> TopLevelBefore(items, |items|) <= limit
    ensures ReceiveLog(limit, revprops, items, replies).error.None?
    ensures |ReceiveLog(limit, revprops, items, replies).calls| == |items|
    ensures forall j :: 0 <= j < |items| ==> ReceiveLog(limit, revprops, items, replies).calls[j].item == j
  {
    RunDeliversAll(limit, WantsOf(revprops), items, replies, 0, InitialState);
  }

  /** Without a limit every item of a well-formed answer reaches a receiver
      that never stops, in order, and the log ends without error. */
  lemma UnlimitedLogDeliversAll(revprops: Option<seq<string>>, items: seq<LogItem>, replies: seq<Reply>)
    requires |replies| == |items|
    requires WellFormedAnswer(items, WantsOf(revprops))
    requires forall k :: 0 <= k < |replies| ==> replies[k] == Continue
    ensures ReceiveLog(0, revprops, items, replies).error.None?
    ensures |ReceiveLog(0, revprops, items, replies).calls| == |items|
    ensures forall j :: 0 <= j < |items| ==> ReceiveLog(0, revprops, items, replies).calls[j].item == j
  {
    LogWithinLimitDeliversAll(0, revprops, items, replies);
  }

  /** A limit of two lets through two top-level entries and the merged
      revision nested under the first, with its end marker: four calls. */
  lemma NestedEntriesNotCounted()
    ensures
      var merged := Entry(5, None, None, None, 1, 0, Some(map[]), 0);
      var nested := Entry(3, None, None, None, 0, 0, Some(map[]), 0);
      var endMarker := Entry(0, None, None, None, 0, 1, Some(map[]), 0);
      var plain := Entry(2, None, None, None, 0, 0, Some(map[]), 0);
      |ReceiveLog(2, None, [merged, nested, endMarker, plain], [Continue, Continue, Continue, Continue]).calls| == 4
  {
    var merged := Entry(5, None, None, None, 1, 0, Some(map[]), 0);
    var nested := Entry(3, None, None, None, 0, 0, Some(map[]), 0);
    var endMarker := Entry(0, None, None, None, 0, 1, Some(map[]), 0);
    var plain := Entry(2, None, None, None, 0, 0, Some(map[]), 0);
    var items := [merged, nested, endMarker, plain];
    assert NestBefore(items, 1) == 1;
    assert NestBefore(items, 2) == 1;
    assert NestBefore(items, 3) == 0;
    assert TopLevelBefore(items, 1) == 1;
    assert TopLevelBefore(items, 3) == 1;
    assert TopLevelBefore(items, 4) == 2;
    LogWithinLimitDeliversAll(2, None, items, [Continue, Continue, Continue, Continue]);
  }
}
