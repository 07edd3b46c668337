/** `create_dir` of the SSH filesystem handler. With `all`, it walks up the parents of the path
    until a `mkdir` succeeds, then creates the paths that failed, shallowest first. */
module CreateDir {
  import opened Io
  import opened Remote
  import Sorting

  /** The remote namespace as far as `mkdir` sees it. */
  datatype Namespace = Namespace(dirs: set<Path>, files: set<Path>, readOnly: set<Path>)

  predicate Exists(ns: Namespace, p: Path) {
    p in ns.dirs || p in ns.files
  }

  /** A namespace as a file system keeps it: the parent of every entry is a directory, and only
      directories are marked read-only. */
  ghost predicate Wf(ns: Namespace) {
    (forall p :: (p in ns.dirs || p in ns.files) && Parent(p).Some? ==> Parent(p).value in ns.dirs) &&
    ns.readOnly <= ns.dirs
  }

  /** A directory can be made where nothing exists yet, inside a writable directory. */
  predicate Creatable(ns: Namespace, p: Path) {
    !Exists(ns, p) && Parent(p).Some? && Parent(p).value in ns.dirs && Parent(p).value !in ns.readOnly
  }

  /** The answer of the server and the namespace after it. */
  datatype Reply = Reply(result: Result<()>, ns: Namespace)

  /** The inner `mkdir`: `sftp.create_dir(path, 0o755)` with its error mapped through
      `to_other_error`; `refuse` is the reason the server gives for refusing a path. */
  function Mkdir(refuse: Path -> IoError, ns: Namespace, p: Path): (reply: Reply)
    ensures reply.result.Ok? <==> Creatable(ns, p)
    ensures reply.result.Ok? ==> !Exists(ns, p) && p in reply.ns.dirs
    ensures reply.result.Err? ==> reply.ns == ns && reply.result.error.kind == Other
    ensures ns.dirs <= reply.ns.dirs && reply.ns.files == ns.files && reply.ns.readOnly == ns.readOnly
    ensures Wf(ns) ==> Wf(reply.ns)
  {
    if Creatable(ns, p) then Reply(Ok(()), ns.(dirs := ns.dirs + {p}))
    else Reply(Err(ToOther(refuse(p))), ns)
  }

  /** The path followed by each of its parents in turn, up to the one without a parent. */
  function Chain(p: Path): (c: seq<Path>)
    ensures |c| == |p.parts| + 1 && c[0] == p
    decreases |p.parts|
  {
    match Parent(p)
    case None => [p]
    case Some(q) => [p] + Chain(q)
  }

  /** Each path of the chain has one part fewer than the one before it, whose parent it is;
      only the last has no parent. */
  lemma {:induction false} ChainLink(p: Path, i: nat)
    requires i < |Chain(p)|
    ensures |Chain(p)[i].parts| == |p.parts| - i
    ensures Parent(Chain(p)[i]).Some? <==> i < |Chain(p)| - 1
    ensures i < |Chain(p)| - 1 ==> Parent(Chain(p)[i]) == Some(Chain(p)[i + 1])
    decreases |p.parts|
  {
    if i > 0 {
      var q := Parent(p).value;
      ChainLink(q, i - 1);
      assert Chain(p)[i] == Chain(q)[i - 1];
    } else if |Chain(p)| > 1 {
      ChainLink(Parent(p).value, 0);
    }
  }

  /** The first path of `c` that can be made, if any. */
  function FirstCreatable(ns: Namespace, c: seq<Path>): (k: Option<nat>)
    ensures k.Some? ==> k.value < |c| && Creatable(ns, c[k.value])
    ensures k.Some? ==> forall i :: 0 <= i < k.value ==> !Creatable(ns, c[i])
    ensures k.None? ==> forall i :: 0 <= i < |c| ==> !Creatable(ns, c[i])
  {
    if c == [] then None
    else if Creatable(ns, c[0]) then Some(0)
    else
      match FirstCreatable(ns, c[1..])
      case None => None
      case Some(k) => Some(k + 1)
  }

  /** The outcome of a call: its result, the namespace after it and the paths given to `mkdir`,
      in order. */
  datatype Made = Made(result: Result<()>, ns: Namespace, attempts: seq<Path>)

  function Then(done: seq<Path>, t: Made): Made {
    Made(t.result, t.ns, done + t.attempts)
  }

  /** `mkdir` on each path in turn, stopping at the first failure. */
  function Descend(refuse: Path -> IoError, ns: Namespace, ps: seq<Path>): (t: Made)
    ensures t.attempts <= ps
    ensures t.result.Ok? ==> t.attempts == ps
    ensures ns.dirs <= t.ns.dirs && t.ns.files == ns.files
    ensures Wf(ns) ==> Wf(t.ns)
    decreases |ps|
  {
    if ps == [] then Made(Ok(()), ns, [])
    else
      var reply := Mkdir(refuse, ns, ps[0]);
      if reply.result.Err? then Made(reply.result, reply.ns, [ps[0]])
      else Then([ps[0]], Descend(refuse, reply.ns, ps[1..]))
  }

  /** The `all` branch: every path up to the first one that can be made is tried, deepest
      first, then the ones that failed are made again, shallowest first. When no path of the
      chain can be made, the call fails with `PermissionDenied` and the first error. */
  function CreateAll(refuse: Path -> IoError, ns: Namespace, path: Path): (t: Made)
    ensures |t.attempts| > 0 && t.attempts[0] == path
    ensures ns.dirs <= t.ns.dirs && t.ns.files == ns.files
    ensures Wf(ns) ==> Wf(t.ns)
  {
    var c := Chain(path);
    match FirstCreatable(ns, c)
    case None => Made(Err(ToDenied(ToOther(refuse(path)))), ns, c)
    case Some(k) =>
      Then(c[..k + 1], Descend(refuse, Mkdir(refuse, ns, c[k]).ns, Sorting.Reverse(c[..k])))
  }

  /** Making the last failed path first. */
  lemma DescendPop(refuse: Path -> IoError, ns: Namespace, failed: seq<Path>, done: seq<Path>)
    requires failed != []
    ensures var p := failed[|failed| - 1];
      var reply := Mkdir(refuse, ns, p);
      Then(done, Descend(refuse, ns, Sorting.Reverse(failed))) ==
        if reply.result.Err? then Made(reply.result, reply.ns, done + [p])
        else Then(done + [p], Descend(refuse, reply.ns, Sorting.Reverse(failed[..|failed| - 1])))
  {
    Sorting.ReverseLast(failed);
    var p := failed[|failed| - 1];
    var reply := Mkdir(refuse, ns, p);
    var rest := Descend(refuse, reply.ns, Sorting.Reverse(failed[..|failed| - 1]));
    assert done + ([p] + rest.attempts) == (done + [p]) + rest.attempts;
  }

  /** The first loop of the `all` branch: `mkdir` on the path and then on each parent until one
      succeeds; `failed` are the paths that failed, deepest first, and `i` is the index in the
      chain of the last path tried. */
  method Climb(refuse: Path -> IoError, ns: Namespace, path: Path)
    returns (denied: Option<IoError>, after: Namespace, failed: seq<Path>, attempts: seq<Path>, i: nat)
    ensures i < |Chain(path)| && attempts == Chain(path)[..i + 1]
    ensures forall j :: 0 <= j < i ==> !Creatable(ns, Chain(path)[j])
    ensures denied.None? ==>
      Creatable(ns, Chain(path)[i]) && failed == Chain(path)[..i] && after == Mkdir(refuse, ns, Chain(path)[i]).ns
    ensures denied.Some? ==>
      !Creatable(ns, Chain(path)[i]) && i == |Chain(path)| - 1 && after == ns &&
      denied.value == ToDenied(ToOther(refuse(path)))
  {
    ghost var c := Chain(path);
    i := 0;
    failed := [];
    var cur := path;
    var firstErr: Option<IoError> := None;
    attempts := [];
    after := ns;
    while true
      invariant i < |c| && cur == c[i] && failed == c[..i] && attempts == failed && after == ns
      invariant forall j :: 0 <= j < i ==> !Creatable(ns, c[j])
      invariant firstErr == if i == 0 then None else Some(ToOther(refuse(c[0])))
      decreases |cur.parts|
    {
      var reply := Mkdir(refuse, after, cur);
      attempts := attempts + [cur];
      assert attempts == c[..i + 1];
      if reply.result.Ok? {
        after := reply.ns;
        break;
      }
      failed := failed + [cur];
      ChainLink(path, i);
      match Parent(cur)
      case Some(q) =>
        cur := q;
        i := i + 1;
        if firstErr.None? {
          firstErr := Some(reply.result.error);
        }
      case None =>
        denied := Some(ToDenied(firstErr.GetOr(reply.result.error)));
        return;
    }
    denied := None;
  }

  /** Where the first loop stops: at the first path of the chain that can be made. */
  lemma ClimbStops(ns: Namespace, c: seq<Path>, i: nat)
    requires i < |c| && forall j :: 0 <= j < i ==> !Creatable(ns, c[j])
    ensures Creatable(ns, c[i]) ==> FirstCreatable(ns, c) == Some(i)
    ensures !Creatable(ns, c[i]) && i == |c| - 1 ==> FirstCreatable(ns, c).None?
  {
  }

  /** The second loop of the `all` branch: the failed paths are popped, so made shallowest
      first; the first failure ends the call. */
  method Rebuild(refuse: Path -> IoError, ns: Namespace, failed: seq<Path>, done: seq<Path>)
    returns (r: Result<()>, after: Namespace, attempts: seq<Path>)
    ensures Made(r, after, attempts) == Then(done, Descend(refuse, ns, Sorting.Reverse(failed)))
  {
    var pending := failed;
    attempts, after := done, ns;
    while pending != []
      invariant Then(done, Descend(refuse, ns, Sorting.Reverse(failed)))
             == Then(attempts, Descend(refuse, after, Sorting.Reverse(pending)))
      decreases |pending|
    {
      var p := pending[|pending| - 1];
      DescendPop(refuse, after, pending, attempts);
      var reply := Mkdir(refuse, after, p);
      attempts := attempts + [p];
      after := reply.ns;
      if reply.result.Err? {
        r := reply.result;
        return;
      }
      pending := pending[..|pending| - 1];
    }
    r := Ok(());
  }

  /** `create_dir`: `after` is the namespace after the call and `attempts` the paths given to
      `mkdir`, in order. */
  method CreateDirectory(refuse: Path -> IoError, ns: Namespace, path: Path, all: bool)
    returns (r: Result<()>, after: Namespace, attempts: seq<Path>)
    ensures !all ==> r == Mkdir(refuse, ns, path).result && after == Mkdir(refuse, ns, path).ns && attempts == [path]
    ensures all ==> Made(r, after, attempts) == CreateAll(refuse, ns, path)
  {
    if !all {
      var reply := Mkdir(refuse, ns, path);
      return reply.result, reply.ns, [path];
    }
    var denied, climbed, failed, tried, i := Climb(refuse, ns, path);
    ClimbStops(ns, Chain(path), i);
    if denied.Some? {
      return Err(denied.value), climbed, tried;
    }
    r, after, attempts := Rebuild(refuse, climbed, failed, tried);
  }

  /** In a well-formed namespace, nothing exists below a path that can be made. */
  lemma {:induction false} AbsentBelow(ns: Namespace, path: Path, i: nat, k: nat)
    requires Wf(ns) && i <= k < |Chain(path)| && Creatable(ns, Chain(path)[k])
    ensures !Exists(ns, Chain(path)[i])
    decreases k - i
  {
    if i < k {
      AbsentBelow(ns, path, i + 1, k);
      ChainLink(path, i);
    }
  }

  function Members(ps: seq<Path>): set<Path> {
    set p | p in ps
  }

  /** Each path of `ps` is a child of the one before it, the first a child of `anchor`. */
  predicate Line(anchor: Path, ps: seq<Path>) {
    (|ps| > 0 ==> Parent(ps[0]) == Some(anchor)) &&
    forall j :: 0 < j < |ps| ==> Parent(ps[j]) == Some(ps[j - 1])
  }

  lemma {:induction false} LineDeepens(anchor: Path, ps: seq<Path>, j: nat)
    requires Line(anchor, ps) && j < |ps|
    ensures |ps[j].parts| == |anchor.parts| + j + 1
  {
    if j > 0 {
      assert Parent(ps[j]) == Some(ps[j - 1]);
      LineDeepens(anchor, ps, j - 1);
    }
  }

  lemma LineTail(anchor: Path, ps: seq<Path>)
    requires Line(anchor, ps) && ps != []
    ensures Line(ps[0], ps[1..])
  {
    forall j | 0 < j < |ps[1..]|
      ensures Parent(ps[1..][j]) == Some(ps[1..][j - 1])
    {
      assert Parent(ps[j + 1]) == Some(ps[j]);
    }
    if |ps| > 1 {
      assert Parent(ps[1]) == Some(ps[0]);
    }
  }

  lemma MembersCons(ps: seq<Path>)
    requires ps != []
    ensures Members(ps) == {ps[0]} + Members(ps[1..])
  {
    assert ps == [ps[0]] + ps[1..];
  }

  /** Making a line of absent paths under a writable directory succeeds at every step and adds
      exactly those paths as directories. */
  lemma {:induction false} DescendLine(refuse: Path -> IoError, ns: Namespace, anchor: Path, ps: seq<Path>)
    requires Line(anchor, ps) && anchor in ns.dirs && anchor !in ns.readOnly
    requires forall j :: 0 <= j < |ps| ==> !Exists(ns, ps[j]) && ps[j] !in ns.readOnly
    ensures var t := Descend(refuse, ns, ps);
      t.result == Ok(()) && t.attempts == ps && t.ns == ns.(dirs := ns.dirs + Members(ps))
    decreases |ps|
  {
    if ps != [] {
      var ns1 := ns.(dirs := ns.dirs + {ps[0]});
      assert Parent(ps[0]) == Some(anchor);
      assert Mkdir(refuse, ns, ps[0]) == Reply(Ok(()), ns1);
      assert Descend(refuse, ns, ps) == Then([ps[0]], Descend(refuse, ns1, ps[1..]));
      forall j | 0 <= j < |ps[1..]|
        ensures !Exists(ns1, ps[1..][j]) && ps[1..][j] !in ns1.readOnly
      {
        LineDeepens(anchor, ps, 0);
        LineDeepens(anchor, ps, j + 1);
      }
      LineTail(anchor, ps);
      DescendLine(refuse, ns1, ps[0], ps[1..]);
      MembersCons(ps);
    } else {
      assert Members(ps) == {};
    }
  }

  /** The paths below the first one that can be made, shallowest first, form a line under it. */
  lemma ReversedChainIsLine(path: Path, k: nat)
    requires k < |Chain(path)|
    ensures Line(Chain(path)[k], Sorting.Reverse(Chain(path)[..k]))
  {
    var c := Chain(path);
    var ps := Sorting.Reverse(c[..k]);
    if k > 0 {
      ChainLink(path, k - 1);
      assert ps[0] == c[k - 1];
    }
    forall j | 0 < j < |ps|
      ensures Parent(ps[j]) == Some(ps[j - 1])
    {
      ChainLink(path, k - 1 - j);
      assert ps[j] == c[k - 1 - j];
      assert ps[j - 1] == c[k - j];
    }
  }

  /** The missing paths below the first one that can be made, shallowest first. */
  function Missing(path: Path, k: nat): seq<Path>
    requires k < |Chain(path)|
  {
    Sorting.Reverse(Chain(path)[..k])
  }

  lemma MissingAt(path: Path, k: nat, j: nat)
    requires k < |Chain(path)| && j < k
    ensures |Missing(path, k)| == k && Missing(path, k)[j] == Chain(path)[k - 1 - j]
  {
  }

  lemma UnfoldCreateAll(refuse: Path -> IoError, ns: Namespace, path: Path, k: nat)
    requires FirstCreatable(ns, Chain(path)) == Some(k)
    ensures CreateAll(refuse, ns, path) ==
      Then(Chain(path)[..k + 1], Descend(refuse, ns.(dirs := ns.dirs + {Chain(path)[k]}), Missing(path, k)))
  {
  }

  /** Below the first path that can be made, each missing path is absent and not read-only,
      also once that first path is made. */
  lemma MissingAbsent(ns: Namespace, path: Path, k: nat, j: nat)
    requires Wf(ns) && FirstCreatable(ns, Chain(path)) == Some(k) && j < k
    ensures var ns1 := ns.(dirs := ns.dirs + {Chain(path)[k]});
      !Exists(ns1, Missing(path, k)[j]) && Missing(path, k)[j] !in ns1.readOnly
  {
    MissingAt(path, k, j);
    AbsentBelow(ns, path, k - 1 - j, k);
    ChainLink(path, k - 1 - j);
    ChainLink(path, k);
  }

  lemma MissingInChain(path: Path, k: nat)
    requires k < |Chain(path)|
    ensures forall p :: p in Missing(path, k) ==> p in Chain(path)
  {
    forall p | p in Missing(path, k)
      ensures p in Chain(path)
    {
      var j :| 0 <= j < k && Missing(path, k)[j] == p;
      MissingAt(path, k, j);
    }
  }

  /** On a well-formed namespace, once a path of the chain can be made, every later `mkdir`
      succeeds too. */
  lemma MadeFrom(refuse: Path -> IoError, ns: Namespace, path: Path, k: nat)
    requires Wf(ns) && FirstCreatable(ns, Chain(path)) == Some(k)
    ensures CreateAll(refuse, ns, path) ==
      Made(Ok(()), ns.(dirs := ns.dirs + {Chain(path)[k]} + Members(Missing(path, k))),
           Chain(path)[..k + 1] + Missing(path, k))
  {
    var c := Chain(path);
    var ns1 := ns.(dirs := ns.dirs + {c[k]});
    var ps := Missing(path, k);
    UnfoldCreateAll(refuse, ns, path, k);
    ReversedChainIsLine(path, k);
    forall j | 0 <= j < |ps|
      ensures !Exists(ns1, ps[j]) && ps[j] !in ns1.readOnly
    {
      MissingAbsent(ns, path, k, j);
    }
    DescendLine(refuse, ns1, c[k], ps);
    var t := Descend(refuse, ns1, ps);
    var after := ns.(dirs := ns.dirs + {c[k]} + Members(ps));
    assert t == Made(Ok(()), after, ps);
  }

  /** On a well-formed namespace, `create_dir` with `all` succeeds exactly when some path of
      the chain can be made. It then leaves the path a directory, adding directories only along
      the chain and nothing else; otherwise nothing changes and the error is `PermissionDenied`
      with the server's reason for the path itself. */
  lemma CreateAllOutcome(refuse: Path -> IoError, ns: Namespace, path: Path)
    requires Wf(ns)
    ensures var t := CreateAll(refuse, ns, path);
      t.result.Ok? <==> exists i :: 0 <= i < |Chain(path)| && Creatable(ns, Chain(path)[i])
    ensures var t := CreateAll(refuse, ns, path);
      t.result.Ok? ==>
        path in t.ns.dirs && ns.dirs <= t.ns.dirs && t.ns.files == ns.files && t.ns.readOnly == ns.readOnly &&
        forall p :: p in t.ns.dirs && p !in ns.dirs ==> p in Chain(path)
    ensures var t := CreateAll(refuse, ns, path);
      t.result.Err? ==>
        t.ns == ns && t.attempts == Chain(path) && t.result.error == IoError(PermissionDenied, refuse(path).message)
  {
    var c := Chain(path);
    var first := FirstCreatable(ns, c);
    if first.Some? {
      var k := first.value;
      MadeFrom(refuse, ns, path, k);
      var ps := Missing(path, k);
      if k > 0 {
        MissingAt(path, k, k - 1);
      }
      MissingInChain(path, k);
    }
  }

  /** When it succeeds, the path is the first given to `mkdir`, then each parent in turn up to
      the first that can be made, then the ones that failed, shallowest first, so the path
      itself is made last. */
  lemma CreateAllOrder(refuse: Path -> IoError, ns: Namespace, path: Path)
    requires Wf(ns) && CreateAll(refuse, ns, path).result.Ok?
    ensures var t := CreateAll(refuse, ns, path);
      exists k :: 0 <= k < |Chain(path)| && Creatable(ns, Chain(path)[k]) &&
        t.attempts == Chain(path)[..k + 1] + Sorting.Reverse(Chain(path)[..k])
    ensures var t := CreateAll(refuse, ns, path);
      |t.attempts| > 0 && t.attempts[0] == path && t.attempts[|t.attempts| - 1] == path
  {
    var c := Chain(path);
    var k := FirstCreatable(ns, c).value;
    MadeFrom(refuse, ns, path, k);
    var ps := Missing(path, k);
    if k > 0 {
      assert ps[k - 1] == path;
    }
  }

  /** `create_dir` with `all` on a directory that already exists fails with
      `PermissionDenied`: the path and each parent already exist, so no `mkdir` succeeds. */
  lemma ExistingDirectoryRefused(refuse: Path -> IoError, ns: Namespace, path: Path)
    requires Wf(ns) && path in ns.dirs
    ensures CreateAll(refuse, ns, path).result == Err(IoError(PermissionDenied, refuse(path).message))
  {
    var c := Chain(path);
    forall i | 0 <= i < |c|
      ensures !Creatable(ns, c[i])
    {
      AllExist(ns, path, i);
    }
  }

  lemma {:induction false} AllExist(ns: Namespace, path: Path, i: nat)
    requires Wf(ns) && path in ns.dirs && i < |Chain(path)|
    ensures Exists(ns, Chain(path)[i])
  {
    if i > 0 {
      AllExist(ns, path, i - 1);
      ChainLink(path, i - 1);
    }
  }
}
