/** `remove` of the SSH filesystem handler: a file or symlink is unlinked, a directory is
    removed on its own, or, when forced, the whole tree below it is collected with the depth of
    each entry and removed deepest first. */
module RemoveTree {
  import opened Io
  import opened Remote
  import Sorting
  import Worklist

  /** A removal asked of the SFTP session. */
  datatype Removal = RemoveFile(path: Path) | RemoveDir(path: Path)

  /** The answer of the SFTP session to a removal. */
  function Attempt(sftp: Sftp, a: Removal): Result<()> {
    match a
    case RemoveFile(p) => sftp.removeFile(p)
    case RemoveDir(p) => sftp.removeDir(p)
  }

  /** Directories are removed with `remove_dir`, everything else with `remove_file`. */
  function RemovalOf(e: DirEntry): Removal {
    if e.fileType == Dir then RemoveDir(e.path) else RemoveFile(e.path)
  }

  /** What `metadata` reports for a path that is unlinked directly. */
  predicate Unlinkable(k: StatKind) {
    k == FileKind || k == SymlinkKind
  }

  /** The entry the forced removal starts from. */
  function Top(path: Path): DirEntry {
    DirEntry(path, Dir, 0)
  }

  function EntryOf(l: Listed, d: nat): DirEntry {
    DirEntry(l.path, TypeOf(l.stat.kind), d)
  }

  /** The entries of one listing, typed from the listing itself, so symlinks are not followed. */
  function Entries(ls: seq<Listed>, d: nat): (r: seq<DirEntry>)
    ensures |r| == |ls|
    ensures forall i :: 0 <= i < |ls| ==> r[i] == EntryOf(ls[i], d)
  {
    if |ls| == 0 then [] else Entries(ls[..|ls| - 1], d) + [EntryOf(ls[|ls| - 1], d)]
  }

  /** Only directories are listed; a listing failure ends the call. */
  function Below(sftp: Sftp, e: DirEntry): Result<seq<DirEntry>> {
    if e.fileType == Dir then
      match sftp.readDir(e.path)
      case Ok(ls) => Ok(Entries(ls, e.depth + 1))
      case Err(x) => Err(ToOther(x))
    else Ok([])
  }

  function Children(sftp: Sftp, e: DirEntry): (ch: seq<DirEntry>)
    ensures forall i :: 0 <= i < |ch| ==> ch[i].depth == e.depth + 1
  {
    match Below(sftp, e)
    case Ok(ch) => ch
    case Err(_) => []
  }

  // Termination. The collection ends exactly when the entries reachable from the directory
  // are finitely many and none lies on an endless chain of listings. Then they form a finite
  // `region` that holds the directory and the children of each of its entries, on which a
  // `rank` descends from every entry to its children.

  ghost predicate Descending(sftp: Sftp, path: Path, rank: DirEntry -> nat, region: set<DirEntry>) {
    Top(path) in region &&
    forall e, i :: e in region && 0 <= i < |Children(sftp, e)| ==>
      Children(sftp, e)[i] in region && rank(Children(sftp, e)[i]) < rank(e)
  }

  /** The children, for the entries the termination argument covers. */
  ghost function Next(sftp: Sftp, region: set<DirEntry>): DirEntry -> seq<DirEntry> {
    e => if e in region then Children(sftp, e) else []
  }

  lemma NextDecreasing(sftp: Sftp, path: Path, rank: DirEntry -> nat, region: set<DirEntry>)
    requires Descending(sftp, path, rank, region)
    ensures Worklist.Decreasing(Next(sftp, region), rank)
  {
    forall x: DirEntry, i | 0 <= i < |Next(sftp, region)(x)|
      ensures rank(Next(sftp, region)(x)[i]) < rank(x)
    {
      assert x in region;
    }
  }

  lemma InNext(sftp: Sftp, region: set<DirEntry>, x: DirEntry, y: DirEntry)
    requires y in Next(sftp, region)(x)
    ensures x in region && y in Children(sftp, x)
  {
  }

  /** The children of a covered entry are covered. */
  lemma ChildrenInRegion(sftp: Sftp, path: Path, rank: DirEntry -> nat, region: set<DirEntry>, e: DirEntry)
    requires Descending(sftp, path, rank, region) && e in region
    ensures forall x :: x in Children(sftp, e) ==> x in region
  {
    forall x | x in Children(sftp, e) ensures x in region {
      var i :| 0 <= i < |Children(sftp, e)| && Children(sftp, e)[i] == x;
    }
  }

  /** The potential of a stack, which every pop lowers. */
  ghost function Total(sftp: Sftp, path: Path, rank: DirEntry -> nat, region: set<DirEntry>, s: seq<DirEntry>): nat
    requires Descending(sftp, path, rank, region)
  {
    NextDecreasing(sftp, path, rank, region);
    Worklist.Total(Next(sftp, region), rank, s)
  }

  function Stops(sftp: Sftp): DirEntry -> bool {
    e => Below(sftp, e).Err?
  }

  /** The collection loop as a function: the entries popped, or the listing that failed. */
  ghost function Collected(sftp: Sftp, path: Path, rank: DirEntry -> nat, region: set<DirEntry>, stack: seq<DirEntry>): Worklist.Walk<DirEntry>
    requires Descending(sftp, path, rank, region)
  {
    NextDecreasing(sftp, path, rank, region);
    Worklist.Run(Next(sftp, region), rank, Stops(sftp), stack)
  }

  /** Every entry the collection from the directory pops is covered by the termination argument. */
  lemma CollectedInRegion(sftp: Sftp, path: Path, rank: DirEntry -> nat, region: set<DirEntry>)
    requires Descending(sftp, path, rank, region)
    ensures forall x :: x in Collected(sftp, path, rank, region, [Top(path)]).visited ==> x in region
  {
    NextDecreasing(sftp, path, rank, region);
    var v := Collected(sftp, path, rank, region, [Top(path)]).visited;
    Worklist.RunSound(Next(sftp, region), rank, Stops(sftp), [Top(path)]);
    forall i | 0 <= i < |v| ensures v[i] in region {
      if v[i] !in [Top(path)] {
        var j :| 0 <= j < i && v[i] in Next(sftp, region)(v[j]);
        InNext(sftp, region, v[j], v[i]);
        ChildrenInRegion(sftp, path, rank, region, v[j]);
      }
    }
  }

  /** Removing entries in the given order, stopping at the first removal that fails. */
  datatype Outcome = Outcome(result: Result<()>, attempts: seq<Removal>)

  function Unlink(sftp: Sftp, order: seq<DirEntry>): (t: Outcome)
    ensures |t.attempts| <= |order|
    ensures t.result.Ok? ==> |t.attempts| == |order|
    ensures t.result.Err? ==> |t.attempts| > 0 && t.result.error.kind == PermissionDenied
  {
    if order == [] then Outcome(Ok(()), [])
    else
      var a := RemovalOf(order[0]);
      match Attempt(sftp, a)
      case Err(x) => Outcome(Err(ToDenied(x)), [a])
      case Ok(_) =>
        var t := Unlink(sftp, order[1..]);
        Outcome(t.result, [a] + t.attempts)
  }

  /** The removals are asked in the given order; the call succeeds exactly when every one of
      them does, and otherwise ends with the first failure, as `PermissionDenied`. */
  lemma {:induction false} UnlinkStopsAtFirstFailure(sftp: Sftp, order: seq<DirEntry>)
    ensures var t := Unlink(sftp, order);
      |t.attempts| <= |order| &&
      (forall i :: 0 <= i < |t.attempts| ==> t.attempts[i] == RemovalOf(order[i])) &&
      (forall i :: 0 <= i < |t.attempts| - 1 ==> Attempt(sftp, t.attempts[i]).Ok?) &&
      (t.result.Ok? <==> forall i :: 0 <= i < |order| ==> Attempt(sftp, RemovalOf(order[i])).Ok?) &&
      (t.result.Ok? ==> |t.attempts| == |order|) &&
      (t.result.Err? ==>
         |t.attempts| > 0 && Attempt(sftp, t.attempts[|t.attempts| - 1]).Err? &&
         t.result.error == ToDenied(Attempt(sftp, t.attempts[|t.attempts| - 1]).error))
  {
    if order != [] {
      UnlinkStopsAtFirstFailure(sftp, order[1..]);
      var t := Unlink(sftp, order);
      var u := Unlink(sftp, order[1..]);
      if Attempt(sftp, RemovalOf(order[0])).Ok? {
        forall i | 0 <= i < |t.attempts|
          ensures t.attempts[i] == RemovalOf(order[i])
        {
          if i > 0 {
            assert t.attempts[i] == u.attempts[i - 1];
          }
        }
        if u.result.Ok? {
          forall i | 0 <= i < |order|
            ensures Attempt(sftp, RemovalOf(order[i])).Ok?
          {
            if i > 0 {
              assert order[i] == order[1..][i - 1];
            }
          }
        } else {
          assert !Attempt(sftp, RemovalOf(order[1..][|u.attempts| - 1])).Ok?;
        }
      }
    }
  }

  /** Removals already asked, followed by those of the rest of the order. */
  function Then(done: seq<Removal>, t: Outcome): Outcome {
    Outcome(t.result, done + t.attempts)
  }

  /** Deeper entries come first. */
  predicate DeepestFirst(order: seq<DirEntry>) {
    forall i, j :: 0 <= i < j < |order| ==> order[i].depth >= order[j].depth
  }

  /** Reversing an order sorted by increasing depth puts the deepest entries first. */
  lemma ReverseIsDeepestFirst(sorted: seq<DirEntry>)
    requires Sorting.SortedBy(sorted, EntryDepthLe)
    ensures DeepestFirst(Sorting.Reverse(sorted))
  {
    var order := Sorting.Reverse(sorted);
    forall i, j | 0 <= i < j < |order|
      ensures order[i].depth >= order[j].depth
    {
      assert EntryDepthLe(sorted[|sorted| - 1 - j], sorted[|sorted| - 1 - i]);
    }
  }

  /** Popping the last pending entry asks its removal first. */
  lemma PopStep(sftp: Sftp, pending: seq<DirEntry>, done: seq<Removal>)
    requires pending != []
    ensures var a := RemovalOf(pending[|pending| - 1]);
      var rest := Unlink(sftp, Sorting.Reverse(pending[..|pending| - 1]));
      Then(done, Unlink(sftp, Sorting.Reverse(pending))) ==
        match Attempt(sftp, a)
        case Err(x) => Outcome(Err(ToDenied(x)), done + [a])
        case Ok(_) => Then(done + [a], rest)
  {
    Sorting.ReverseLast(pending);
    var rest := Unlink(sftp, Sorting.Reverse(pending[..|pending| - 1]));
    var a := RemovalOf(pending[|pending| - 1]);
    assert done + ([a] + rest.attempts) == (done + [a]) + rest.attempts;
  }

  /** The `while let Some(entry) = entries.pop()` loop over the entries sorted by depth:
      `order` is the popping order. */
  method RemoveDeepestFirst(sftp: Sftp, entries: seq<DirEntry>)
    returns (r: Result<()>, attempts: seq<Removal>, ghost order: seq<DirEntry>)
    ensures multiset(order) == multiset(entries)
    ensures DeepestFirst(order)
    ensures Outcome(r, attempts) == Unlink(sftp, order)
  {
    EntryDepthLeIsTotalPreorder();
    var sorted := Sorting.SortBy(entries, EntryDepthLe);
    order := Sorting.Reverse(sorted);
    Sorting.ReversePermutes(sorted);
    ReverseIsDeepestFirst(sorted);
    var pending := sorted;
    attempts := [];
    while pending != []
      invariant Unlink(sftp, order) == Then(attempts, Unlink(sftp, Sorting.Reverse(pending)))
      decreases |pending|
    {
      var e := pending[|pending| - 1];
      PopStep(sftp, pending, attempts);
      var a := RemovalOf(e);
      var res;
      if e.fileType == Dir {
        res := sftp.removeDir(e.path);
      } else {
        res := sftp.removeFile(e.path);
      }
      assert res == Attempt(sftp, a);
      if res.Err? {
        r, attempts := Err(ToDenied(res.error)), attempts + [a];
        return;
      }
      attempts := attempts + [a];
      pending := pending[..|pending| - 1];
    }
    r := Ok(());
  }

  /** The collection loop so far: `visited` were popped, `stack` is still to be popped. */
  ghost predicate Frontier(sftp: Sftp, path: Path, rank: DirEntry -> nat, region: set<DirEntry>,
                           stack: seq<DirEntry>, visited: seq<DirEntry>)
    requires Descending(sftp, path, rank, region)
  {
    var t := Collected(sftp, path, rank, region, stack);
    Collected(sftp, path, rank, region, [Top(path)]) == Worklist.Walk(visited + t.visited, t.stopped)
  }

  lemma PopKeepsFrontier(sftp: Sftp, path: Path, rank: DirEntry -> nat, region: set<DirEntry>,
                         stack: seq<DirEntry>, visited: seq<DirEntry>)
    requires Descending(sftp, path, rank, region) && stack != [] && stack[|stack| - 1] in region
    requires Frontier(sftp, path, rank, region, stack, visited)
    ensures var e := stack[|stack| - 1];
      Below(sftp, e).Err? ==> Collected(sftp, path, rank, region, [Top(path)]) == Worklist.Walk(visited + [e], true)
    ensures var e := stack[|stack| - 1];
      var rest := stack[..|stack| - 1] + Children(sftp, e);
      Below(sftp, e).Ok? ==>
        Frontier(sftp, path, rank, region, rest, visited + [e]) &&
        Total(sftp, path, rank, region, rest) < Total(sftp, path, rank, region, stack)
  {
    NextDecreasing(sftp, path, rank, region);
    var e := stack[|stack| - 1];
    assert Next(sftp, region)(e) == Children(sftp, e);
    if Below(sftp, e).Ok? {
      var u := Collected(sftp, path, rank, region, stack[..|stack| - 1] + Children(sftp, e));
      assert visited + ([e] + u.visited) == (visited + [e]) + u.visited;
      Worklist.PopDecreases(Next(sftp, region), rank, stack);
    }
  }

  /** The inner `for (path, stat) in ...` loop: each listed entry is pushed one level deeper. */
  method PushListing(stack: seq<DirEntry>, ls: seq<Listed>, d: nat) returns (pushed: seq<DirEntry>)
    ensures pushed == stack + Entries(ls, d)
  {
    pushed := stack;
    for j := 0 to |ls|
      invariant pushed == stack + Entries(ls[..j], d)
    {
      assert ls[..j + 1][..j] == ls[..j];
      pushed := pushed + [EntryOf(ls[j], d)];
    }
    assert ls[..|ls|] == ls;
  }

  /** The `while let Some(entry) = to_traverse.pop()` collection loop: the entries in popping
      order, or the first listing failure. */
  method Collect(sftp: Sftp, path: Path, ghost rank: DirEntry -> nat, ghost region: set<DirEntry>)
    returns (r: Result<seq<DirEntry>>)
    requires Descending(sftp, path, rank, region)
    ensures var w := Collected(sftp, path, rank, region, [Top(path)]);
      (r.Ok? <==> !w.stopped) && (r.Ok? ==> r.value == w.visited) &&
      (r.Err? ==> |w.visited| > 0 && r == Below(sftp, w.visited[|w.visited| - 1]))
  {
    var stack := [Top(path)];
    var entries := [];
    while stack != []
      invariant forall x :: x in stack ==> x in region
      invariant Frontier(sftp, path, rank, region, stack, entries)
      decreases Total(sftp, path, rank, region, stack)
    {
      var e := stack[|stack| - 1];
      PopKeepsFrontier(sftp, path, rank, region, stack, entries);
      ChildrenInRegion(sftp, path, rank, region, e);
      stack := stack[..|stack| - 1];
      entries := entries + [e];
      if e.fileType == Dir {
        var listing := sftp.readDir(e.path);
        if listing.Err? {
          return Err(ToOther(listing.error));
        }
        assert Children(sftp, e) == Entries(listing.value, e.depth + 1);
        stack := PushListing(stack, listing.value, e.depth + 1);
      } else {
        assert stack + Children(sftp, e) == stack;
      }
    }
    return Ok(entries);
  }

  /** A completed collection starts with the directory itself, every later entry lies below
      it, and every entry listed under a collected directory is collected too. */
  lemma CollectedTree(sftp: Sftp, path: Path, rank: DirEntry -> nat, region: set<DirEntry>)
    requires Descending(sftp, path, rank, region) && !Collected(sftp, path, rank, region, [Top(path)]).stopped
    ensures var v := Collected(sftp, path, rank, region, [Top(path)]).visited;
      |v| > 0 && v[0] == Top(path) && (forall i :: 0 < i < |v| ==> v[i].depth > 0) &&
      forall i, k :: 0 <= i < |v| && 0 <= k < |Children(sftp, v[i])| ==> Children(sftp, v[i])[k] in v
  {
    NextDecreasing(sftp, path, rank, region);
    var ch := Children(sftp, Top(path));
    assert Next(sftp, region)(Top(path)) == ch;
    assert [Top(path)][..0] + ch == ch;
    var u := Collected(sftp, path, rank, region, ch).visited;
    Worklist.RunSound(Next(sftp, region), rank, Stops(sftp), ch);
    forall i | 0 <= i < |u|
      ensures 1 <= u[i].depth
    {
      if u[i] !in ch {
        var j :| 0 <= j < i && u[i] in Next(sftp, region)(u[j]);
        InNext(sftp, region, u[j], u[i]);
      }
    }
    var v := Collected(sftp, path, rank, region, [Top(path)]).visited;
    CollectedInRegion(sftp, path, rank, region);
    Worklist.RunClosed(Next(sftp, region), rank, Stops(sftp), [Top(path)]);
    forall i, k | 0 <= i < |v| && 0 <= k < |Children(sftp, v[i])|
      ensures Children(sftp, v[i])[k] in v
    {
      assert v[i] in region;
      assert Children(sftp, v[i]) == Next(sftp, region)(v[i]);
    }
  }

  lemma SameElements(order: seq<DirEntry>, v: seq<DirEntry>)
    requires multiset(order) == multiset(v)
    ensures forall x :: x in order <==> x in v
  {
    forall x
      ensures x in order <==> x in v
    {
      assert x in order <==> x in multiset(order);
    }
  }

  /** In a deepest-first order, an entry listed in a directory comes before that directory. */
  lemma ChildrenFirst(sftp: Sftp, order: seq<DirEntry>)
    requires DeepestFirst(order)
    ensures forall i, j :: 0 <= i < |order| && 0 <= j < |order| && order[i] in Children(sftp, order[j]) ==> i < j
  {
    forall i, j | 0 <= i < |order| && 0 <= j < |order| && order[i] in Children(sftp, order[j])
      ensures i < j
    {
      var k :| 0 <= k < |Children(sftp, order[j])| && Children(sftp, order[j])[k] == order[i];
    }
  }

  /** Closure under listing carries over to any order of the same entries. */
  lemma ClosedOrder(sftp: Sftp, order: seq<DirEntry>, v: seq<DirEntry>)
    requires forall x :: x in order <==> x in v
    requires forall i, k :: 0 <= i < |v| && 0 <= k < |Children(sftp, v[i])| ==> Children(sftp, v[i])[k] in v
    ensures forall i, k :: 0 <= i < |order| && 0 <= k < |Children(sftp, order[i])| ==>
      Children(sftp, order[i])[k] in order
  {
    forall i, k | 0 <= i < |order| && 0 <= k < |Children(sftp, order[i])|
      ensures Children(sftp, order[i])[k] in order
    {
      assert order[i] in v;
      var t :| 0 <= t < |v| && v[t] == order[i];
      assert Children(sftp, v[t])[k] in v;
    }
  }

  /** Removing a completed collection deepest first removes every collected entry, every entry
      before the directory it was listed in, and the directory itself last. */
  lemma DeepestFirstRemovesChildrenFirst(sftp: Sftp, path: Path, rank: DirEntry -> nat, region: set<DirEntry>, order: seq<DirEntry>)
    requires Descending(sftp, path, rank, region) && !Collected(sftp, path, rank, region, [Top(path)]).stopped
    requires multiset(order) == multiset(Collected(sftp, path, rank, region, [Top(path)]).visited)
    requires DeepestFirst(order)
    ensures |order| > 0 && order[|order| - 1] == Top(path)
    ensures forall i, k :: 0 <= i < |order| && 0 <= k < |Children(sftp, order[i])| ==>
      Children(sftp, order[i])[k] in order
    ensures forall i, j :: 0 <= i < |order| && 0 <= j < |order| && order[i] in Children(sftp, order[j]) ==> i < j
  {
    var v := Collected(sftp, path, rank, region, [Top(path)]).visited;
    CollectedTree(sftp, path, rank, region);
    SameElements(order, v);
    ChildrenFirst(sftp, order);
    ClosedOrder(sftp, order, v);
    TopLast(path, order, v);
  }

  /** The only entry at depth 0 is removed last. */
  lemma TopLast(path: Path, order: seq<DirEntry>, v: seq<DirEntry>)
    requires forall x :: x in order <==> x in v
    requires |v| > 0 && v[0] == Top(path) && forall i :: 0 < i < |v| ==> v[i].depth > 0
    requires DeepestFirst(order)
    ensures |order| > 0 && order[|order| - 1] == Top(path)
  {
    assert Top(path) in order;
    var last := order[|order| - 1];
    assert last.depth == 0 by {
      var t :| 0 <= t < |order| && order[t] == Top(path);
    }
    assert last in v;
    var t :| 0 <= t < |v| && v[t] == last;
  }

  /** A forced removal needs the tree below a directory. */
  predicate Forced(sftp: Sftp, path: Path, force: bool) {
    force && sftp.metadata(path).Ok? && !Unlinkable(sftp.metadata(path).value.kind)
  }

  /** `remove`: `attempts` are the removals asked of the SFTP session, in order; for a forced
      removal, `order` is the order in which the collected entries are removed. */
  method Remove(sftp: Sftp, path: Path, force: bool, ghost rank: DirEntry -> nat, ghost region: set<DirEntry>)
    returns (r: Result<()>, attempts: seq<Removal>, ghost order: seq<DirEntry>)
    requires Forced(sftp, path, force) ==> Descending(sftp, path, rank, region)
    ensures sftp.metadata(path).Err? ==> r == Err(ToOther(sftp.metadata(path).error)) && attempts == []
    ensures sftp.metadata(path).Ok? && Unlinkable(sftp.metadata(path).value.kind) ==>
      attempts == [RemoveFile(path)] && Outcome(r, attempts) == Unlink(sftp, [DirEntry(path, File, 0)])
    ensures sftp.metadata(path).Ok? && !Unlinkable(sftp.metadata(path).value.kind) && !force ==>
      attempts == [RemoveDir(path)] && Outcome(r, attempts) == Unlink(sftp, [Top(path)])
    ensures Forced(sftp, path, force) && Collected(sftp, path, rank, region, [Top(path)]).stopped ==> (
      var v := Collected(sftp, path, rank, region, [Top(path)]).visited;
      attempts == [] && |v| > 0 && Below(sftp, v[|v| - 1]).Err? && r == Err(Below(sftp, v[|v| - 1]).error))
    ensures Forced(sftp, path, force) && !Collected(sftp, path, rank, region, [Top(path)]).stopped ==> (
      multiset(order) == multiset(Collected(sftp, path, rank, region, [Top(path)]).visited) &&
      DeepestFirst(order) && Outcome(r, attempts) == Unlink(sftp, order) &&
      |order| > 0 && order[|order| - 1] == Top(path) &&
      (forall i, k :: 0 <= i < |order| && 0 <= k < |Children(sftp, order[i])| ==>
        Children(sftp, order[i])[k] in order) &&
      forall i, j :: 0 <= i < |order| && 0 <= j < |order| && order[i] in Children(sftp, order[j]) ==> i < j)
  {
    var stat := sftp.metadata(path);
    if stat.Err? {
      return Err(ToOther(stat.error)), [], [];
    }
    var kind := stat.value.kind;
    order := [];
    if Unlinkable(kind) {
      attempts := [RemoveFile(path)];
      var res := sftp.removeFile(path);
      r := if res.Err? then Err(ToDenied(res.error)) else Ok(());
    } else if !force {
      attempts := [RemoveDir(path)];
      var res := sftp.removeDir(path);
      r := if res.Err? then Err(ToDenied(res.error)) else Ok(());
    } else {
      var collected := Collect(sftp, path, rank, region);
      if collected.Err? {
        return Err(collected.error), [], [];
      }
      r, attempts, order := RemoveDeepestFirst(sftp, collected.value);
      DeepestFirstRemovesChildrenFirst(sftp, path, rank, region, order);
    }
  }
}
