/** The client-side depth filter of `ra_svn_get_locks`
    (subversion/libsvn_ra_svn/client.c): which of the locks a server
    returns are kept for a query path and depth.  Paths are canonical
    repository paths ("fspaths", starting with '/'); parsing a lock tuple
    is a parameter of each element. */
module RaLocks {
  import opened Wrappers
  import opened Errors
  import opened RaProtocol

  /** The fields of `svn_lock_t` the filter looks at. */
  datatype Lock = Lock(path: string, token: string, owner: string)

  /** One element of the server's lock list: a list whose parse gave a lock
      or an error, or an item that is not a list at all. */
  datatype LockElement = LockList(parsed: Result<Lock, SvnError>) | NotAList

  /** `svn_relpath_skip_ancestor`: `child` relative to `parent`, or none when
      `child` is neither `parent` nor below it.  The empty relpath is the
      ancestor of every relpath. */
  function RelpathSkipAncestor(parent: string, child: string): (r: Option<string>)
    ensures r.Some? ==> parent <= child
    ensures r.Some? && parent != "" && parent != child ==>
      |child| > |parent| && child[|parent|] == '/' && r.value == child[|parent| + 1..]
  {
    var len := |parent|;
    if !(parent <= child) then None
    else if |child| == len then Some("")
    else if len == 0 then Some(child)
    else if child[len] == '/' then Some(child[len + 1..])
    else None
  }

  /** `svn_fspath__skip_ancestor`: the same on paths that start with '/'. */
  function FspathSkipAncestor(parent: string, child: string): Option<string> {
    if |parent| == 0 || parent[0] != '/' || |child| == 0 || child[0] != '/' then None
    else RelpathSkipAncestor(parent[1..], child[1..])
  }

  /** The first `/`-free run of `p`, dropped. */
  function DropComponent(p: string): (q: string)
    requires |p| > 0 && p[0] != '/'
    ensures |q| < |p|
  {
    if |p| == 1 || p[1] == '/' then p[1..] else DropComponent(p[1..])
  }

  /** `svn_path_component_count`: the number of non-empty components. */
  function ComponentCount(p: string): nat
    decreases |p|
  {
    if |p| == 0 then 0
    else if p[0] == '/' then ComponentCount(p[1..])
    else 1 + ComponentCount(DropComponent(p))
  }

  /** Whether a lock on `lockPath` survives the filter for a query on
      `absPath` at `depth`: the queried path itself, anything at depth
      infinity, and at depth files or immediates an immediate child (locks
      are only ever on files, so the two depths filter alike). */
  predicate KeepLock(absPath: string, depth: Depth, lockPath: string) {
    if absPath == lockPath || depth == Infinity then true
    else if depth == Files || depth == Immediates then
      var rel := FspathSkipAncestor(absPath, lockPath);
      rel.Some? && ComponentCount(rel.value) == 1
    else false
  }

  /** The parsed locks, when every element is a well-formed list. */
  predicate IsBad(e: LockElement) {
    e.NotAList? || e.parsed.Failure?
  }

  /** The error a bad element raises: MALFORMED_DATA for a non-list, the
      parse error otherwise. */
  function ErrorOf(e: LockElement): SvnError
    requires IsBad(e)
  {
    if e.NotAList? then RaSvnMalformedData else e.parsed.error
  }

  /** The locks of a list with no bad element, in order. */
  function LocksOf(elements: seq<LockElement>): (locks: seq<Lock>)
    requires forall i :: 0 <= i < |elements| ==> !IsBad(elements[i])
    ensures |locks| == |elements|
    ensures forall i :: 0 <= i < |elements| ==>
      elements[i].LockList? && elements[i].parsed.Success? && locks[i] == elements[i].parsed.value
  {
    if |elements| == 0 then []
    else
      assert !IsBad(elements[|elements| - 1]);
      LocksOf(elements[..|elements| - 1]) + [elements[|elements| - 1].parsed.value]
  }

  /** The hash the filter builds from a list of locks: each kept lock
      stored under its path, a later lock replacing an earlier one. */
  function Filtered(absPath: string, depth: Depth, locks: seq<Lock>): (m: map<string, Lock>)
    ensures forall p :: p in m ==> m[p].path == p && KeepLock(absPath, depth, p)
  {
    if |locks| == 0 then map[]
    else
      var m := Filtered(absPath, depth, locks[..|locks| - 1]);
      var l := locks[|locks| - 1];
      if KeepLock(absPath, depth, l.path) then m[l.path := l] else m
  }

  /** A path is in the hash exactly when some lock on it is kept. */
  lemma {:induction false} FilteredKeys(absPath: string, depth: Depth, locks: seq<Lock>, p: string)
    ensures p in Filtered(absPath, depth, locks) <==>
      exists i :: 0 <= i < |locks| && locks[i].path == p && KeepLock(absPath, depth, p)
  {
    if |locks| > 0 {
      var prev := locks[..|locks| - 1];
      FilteredKeys(absPath, depth, prev, p);
      if exists i :: 0 <= i < |prev| && prev[i].path == p && KeepLock(absPath, depth, p) {
        var i :| 0 <= i < |prev| && prev[i].path == p && KeepLock(absPath, depth, p);
        assert locks[i] == prev[i];
      }
      if exists i :: 0 <= i < |locks| && locks[i].path == p && KeepLock(absPath, depth, p) {
        var i :| 0 <= i < |locks| && locks[i].path == p && KeepLock(absPath, depth, p);
        if i < |prev| {
          assert prev[i] == locks[i];
        }
      }
    }
  }

  /** The lock stored for a path is the last kept lock on that path. */
  lemma {:induction false} FilteredLastWins(absPath: string, depth: Depth, locks: seq<Lock>, i: nat)
    requires i < |locks| && KeepLock(absPath, depth, locks[i].path)
    requires forall j :: i < j < |locks| ==> locks[j].path != locks[i].path
    ensures locks[i].path in Filtered(absPath, depth, locks)
    ensures Filtered(absPath, depth, locks)[locks[i].path] == locks[i]
  {
    var prev := locks[..|locks| - 1];
    if i < |locks| - 1 {
      assert prev[i] == locks[i];
      FilteredLastWins(absPath, depth, prev, i);
    }
  }

  /** The lock-list handling of `ra_svn_get_locks`: the first bad element
      aborts with its error; otherwise the filtered hash. */
  method GetLocks(absPath: string, depth: Depth, elements: seq<LockElement>)
    returns (r: Result<map<string, Lock>, SvnError>)
    ensures r.Failure? <==> exists i :: 0 <= i < |elements| && IsBad(elements[i])
    ensures r.Failure? ==> exists i ::
      && 0 <= i < |elements| && IsBad(elements[i]) && r.error == ErrorOf(elements[i])
      && forall j :: 0 <= j < i ==> !IsBad(elements[j])
    ensures r.Success? ==> r.value == Filtered(absPath, depth, LocksOf(elements))
  {
    var locks: map<string, Lock> := map[];
    var i := 0;
    while i < |elements|
      invariant 0 <= i <= |elements|
      invariant forall j :: 0 <= j < i ==> !IsBad(elements[j])
      invariant locks == Filtered(absPath, depth, LocksOf(elements[..i]))
    {
      var e := elements[i];
      if e.NotAList? {
        FirstBadElement(elements, i);
        return Failure(RaSvnMalformedData);
      }
      if e.parsed.Failure? {
        FirstBadElement(elements, i);
        return Failure(e.parsed.error);
      }
      var lock := e.parsed.value;
      GetLocksStep(absPath, depth, elements, i);
      // The filter of `ra_svn_get_locks`, as `KeepLock` states it.
      if KeepLock(absPath, depth, lock.path) {
        locks := locks[lock.path := lock];
      }
      i := i + 1;
    }
    assert elements[..i] == elements;
    return Success(locks);
  }

  /** The first bad element is the one whose error is reported. */
  lemma FirstBadElement(elements: seq<LockElement>, i: nat)
    requires i < |elements| && IsBad(elements[i])
    requires forall j :: 0 <= j < i ==> !IsBad(elements[j])
    ensures exists k :: 0 <= k < |elements| && IsBad(elements[k])
    ensures exists k ::
      && 0 <= k < |elements| && IsBad(elements[k]) && ErrorOf(elements[i]) == ErrorOf(elements[k])
      && forall j :: 0 <= j < k ==> !IsBad(elements[j])
  {
  }

  /** One more good element extends the filtered hash by its lock when the
      lock is kept. */
  lemma GetLocksStep(absPath: string, depth: Depth, elements: seq<LockElement>, i: nat)
    requires i < |elements|
    requires forall j :: 0 <= j <= i ==> !IsBad(elements[j])
    ensures !IsBad(elements[i]) && elements[i].LockList? && elements[i].parsed.Success?
    ensures
      var m := Filtered(absPath, depth, LocksOf(elements[..i]));
      var l := elements[i].parsed.value;
      Filtered(absPath, depth, LocksOf(elements[..i + 1])) ==
        if KeepLock(absPath, depth, l.path) then m[l.path := l] else m
  {
    var locks := LocksOf(elements[..i + 1]);
    assert elements[..i + 1][..i] == elements[..i];
    assert locks[..i] == LocksOf(elements[..i]);
  }

  /** The path of an entry `name` directly inside directory `dir`. */
  function ChildPath(dir: string, name: string): string {
    if dir == "/" then dir + name else dir + "/" + name
  }

  /** Only the queried path itself survives depth empty. */
  lemma DepthEmptyKeepsOnlyPath(absPath: string, lockPath: string)
    ensures KeepLock(absPath, Empty, lockPath) <==> lockPath == absPath
  {
  }

  /** A lock on a file directly inside the queried directory survives depth
      files, at the repository root as elsewhere. */
  lemma {:induction false} ImmediateChildKept(dir: string, name: string)
    requires |dir| > 0 && dir[0] == '/' && (dir == "/" || dir[|dir| - 1] != '/')
    requires |name| > 0 && '/' !in name
    ensures KeepLock(dir, Files, ChildPath(dir, name))
  {
    var child := ChildPath(dir, name);
    assert child[0] == '/';
    if dir == "/" {
      assert child[1..] == name;
      assert FspathSkipAncestor(dir, child) == Some(name);
    } else {
      assert child[1..] == dir[1..] + "/" + name;
      assert child[1..][|dir| - 1] == '/';
      assert child[1..][|dir|..] == name;
      assert FspathSkipAncestor(dir, child) == Some(name);
    }
    SingleComponent(name);
  }

  /** A lock two levels below the queried directory does not survive depth
      files. */
  lemma {:induction false} GrandchildDropped(dir: string, a: string, b: string)
    requires |dir| > 0 && dir[0] == '/' && (dir == "/" || dir[|dir| - 1] != '/')
    requires |a| > 0 && '/' !in a && |b| > 0 && '/' !in b
    ensures !KeepLock(dir, Files, ChildPath(ChildPath(dir, a), b))
  {
    var sub := ChildPath(dir, a);
    var child := ChildPath(sub, b);
    assert sub != "/";
    assert child == ChildPath(dir, a + "/" + b) by {
      if dir == "/" {
        assert child == dir + a + "/" + b;
      }
    }
    assert child != dir by {
      assert |child| > |dir|;
    }
    var rel := a + "/" + b;
    if dir == "/" {
      assert child[1..] == rel;
    } else {
      assert child[1..] == dir[1..] + "/" + rel;
      assert child[1..][|dir| - 1] == '/';
      assert child[1..][|dir|..] == rel;
    }
    assert FspathSkipAncestor(dir, child) == Some(rel);
    TwoComponents(a, b);
  }

  /** A non-empty name without '/' is one component. */
  lemma {:induction false} SingleComponent(name: string)
    requires |name| > 0 && '/' !in name
    ensures ComponentCount(name) == 1
  {
    assert DropComponent(name) == "" by {
      NoSlashDrops(name);
    }
  }

  /** Dropping the component of a name without '/' leaves nothing. */
  lemma {:induction false} NoSlashDrops(name: string)
    requires |name| > 0 && '/' !in name
    ensures DropComponent(name) == ""
    decreases |name|
  {
    if |name| > 1 {
      assert name[1] in name;
      assert '/' !in name[1..] by {
        forall k | 0 <= k < |name[1..]|
          ensures name[1..][k] != '/'
        {
          assert name[1..][k] == name[k + 1];
        }
      }
      NoSlashDrops(name[1..]);
    }
  }

  /** Dropping the first component of `a/b` leaves `/b`. */
  lemma {:induction false} DropFirstComponent(a: string, b: string)
    requires |a| > 0 && '/' !in a
    ensures DropComponent(a + "/" + b) == "/" + b
    decreases |a|
  {
    var s := a + "/" + b;
    if |a| == 1 {
      assert s[1] == '/';
      assert s[1..] == "/" + b;
    } else {
      assert a[1] in a;
      assert s[1..] == a[1..] + "/" + b;
      assert '/' !in a[1..] by {
        forall k | 0 <= k < |a[1..]|
          ensures a[1..][k] != '/'
        {
          assert a[1..][k] == a[k + 1];
        }
      }
      DropFirstComponent(a[1..], b);
    }
  }

  /** Two names joined by '/' make two components. */
  lemma {:induction false} TwoComponents(a: string, b: string)
    requires |a| > 0 && '/' !in a && |b| > 0 && '/' !in b
    ensures ComponentCount(a + "/" + b) == 2
  {
    DropFirstComponent(a, b);
    var rest := "/" + b;
    assert rest[1..] == b;
    assert ComponentCount(rest) == ComponentCount(b);
    SingleComponent(b);
    assert (a + "/" + b)[0] == a[0];
  }
}
