/** `read_dir` of the SSH filesystem handler: a stack-driven traversal below a canonical root
    that expands directories down to a depth limit, collects the errors of individual entries
    without stopping, and returns the entries sorted by path. */
module ReadDir {
  import opened Io
  import opened Remote
  import Sorting
  import Worklist

  /** The request's flags, and the SFTP session it runs against. */
  datatype Options = Options(sftp: Sftp, depth: nat, absolute: bool, canonicalize: bool, includeRoot: bool)

  /** The reply: the entries found and the errors met on the way. */
  datatype Listing = Listing(entries: seq<DirEntry>, errors: seq<IoError>)

  /** The traversal starts from the canonical root, as a directory at depth 0. */
  function RootEntry(root: Path): DirEntry {
    DirEntry(root, Dir, 0)
  }

  /** Whether a popped entry is a directory; a symlink is resolved with one metadata call,
      and only that call can fail. */
  function Probe(o: Options, root: Path, e: DirEntry): (r: Result<bool>)
    ensures r.Err? ==> e.fileType == Symlink && r.error.kind == Other
    ensures r == Ok(true) <==>
      e.fileType == Dir ||
      (e.fileType == Symlink && o.sftp.metadata(Join(root, e.path)).Ok? &&
       o.sftp.metadata(Join(root, e.path)).value.kind == DirKind)
  {
    match e.fileType
    case Dir => Ok(true)
    case File => Ok(false)
    case Symlink =>
      match o.sftp.metadata(Join(root, e.path))
      case Ok(m) => Ok(m.kind == DirKind)
      case Err(x) => Err(ToOther(x))
  }

  /** Depth 0 means unlimited; otherwise the children of `e` must not go below `depth`. */
  predicate WithinDepth(o: Options, e: DirEntry) {
    o.depth == 0 || e.depth + 1 <= o.depth
  }

  /** The entries whose directory listing is requested. */
  predicate Expands(o: Options, root: Path, e: DirEntry) {
    Probe(o, root, e) == Ok(true) && WithinDepth(o, e)
  }

  /** The path recorded for a listed child: canonicalized when asked, and made relative to the
      root when not absolute and the root is a prefix of it. */
  function ChildPath(o: Options, root: Path, l: Listed): (r: Result<Path>)
    ensures r.Err? <==> o.canonicalize && o.sftp.canonicalize(l.path).Err?
    ensures r.Err? ==> r.error.kind == Other
    ensures r.Ok? && o.absolute ==> r.value == if o.canonicalize then o.sftp.canonicalize(l.path).value else l.path
  {
    var p := if o.canonicalize then o.sftp.canonicalize(l.path) else Ok(l.path);
    match p
    case Err(x) => Err(ToOther(x))
    case Ok(q) => Ok(if o.absolute then q else StripPrefix(q, root).GetOr(q))
  }

  /** When canonicalizing, the metadata is looked up again under the recorded path; the listed
      metadata stays when that lookup fails. */
  function ChildStat(o: Options, p: Path, l: Listed): (st: Stat)
    ensures !o.canonicalize ==> st == l.stat
    ensures st == l.stat || o.sftp.metadata(p) == Ok(st)
    ensures o.canonicalize && o.sftp.metadata(p).Ok? ==> st == o.sftp.metadata(p).value
  {
    if o.canonicalize then
      match o.sftp.metadata(p)
      case Ok(m) => m
      case Err(_) => l.stat
    else l.stat
  }

  /** The entry pushed for one listed child, or the error that drops it. */
  function ChildEntry(o: Options, root: Path, l: Listed, d: nat): (r: Result<DirEntry>)
    ensures r.Ok? <==> ChildPath(o, root, l).Ok?
    ensures r.Err? ==> r.error.kind == Other
    ensures r.Ok? ==> r.value.path == ChildPath(o, root, l).value && r.value.depth == d
  {
    match ChildPath(o, root, l)
    case Err(x) => Err(x)
    case Ok(p) => Ok(DirEntry(p, TypeOf(ChildStat(o, p, l).kind), d))
  }

  /** The children of one listing that are pushed, in listing order. */
  function Pushed(o: Options, root: Path, ls: seq<Listed>, d: nat): (r: seq<DirEntry>)
    ensures forall i :: 0 <= i < |r| ==> r[i].depth == d
  {
    if |ls| == 0 then []
    else
      var last := (match ChildEntry(o, root, ls[|ls| - 1], d) case Ok(x) => [x] case Err(_) => []);
      Pushed(o, root, ls[..|ls| - 1], d) + last
  }

  /** The errors of the children of one listing that could not be canonicalized. */
  function Dropped(o: Options, root: Path, ls: seq<Listed>, d: nat): (r: seq<IoError>)
    ensures forall i :: 0 <= i < |r| ==> r[i].kind == Other
  {
    if |ls| == 0 then []
    else
      var last := (match ChildEntry(o, root, ls[|ls| - 1], d) case Ok(_) => [] case Err(x) => [x]);
      Dropped(o, root, ls[..|ls| - 1], d) + last
  }

  /** No listed child is lost: each one is either pushed or has its error recorded. */
  lemma {:induction false} EveryChildAccounted(o: Options, root: Path, ls: seq<Listed>, d: nat)
    ensures |Pushed(o, root, ls, d)| + |Dropped(o, root, ls, d)| == |ls|
    ensures forall i :: 0 <= i < |ls| && ChildEntry(o, root, ls[i], d).Ok? ==>
      ChildEntry(o, root, ls[i], d).value in Pushed(o, root, ls, d)
    ensures forall i :: 0 <= i < |ls| && ChildEntry(o, root, ls[i], d).Err? ==>
      ChildEntry(o, root, ls[i], d).error in Dropped(o, root, ls, d)
  {
    if |ls| > 0 {
      var init := ls[..|ls| - 1];
      EveryChildAccounted(o, root, init, d);
      forall i | 0 <= i < |ls| - 1
        ensures ls[i] == init[i]
      {
      }
    }
  }

  /** The entries pushed when `e` is popped: one level deeper, and only for an expanded entry. */
  function Children(o: Options, root: Path, e: DirEntry): (ch: seq<DirEntry>)
    ensures forall i :: 0 <= i < |ch| ==> ch[i].depth == e.depth + 1
    ensures |ch| > 0 ==> Expands(o, root, e)
  {
    if Expands(o, root, e) then
      match o.sftp.readDir(Join(root, e.path))
      case Ok(ls) => Pushed(o, root, ls, e.depth + 1)
      case Err(_) => []
    else []
  }

  /** The errors recorded when `e` is popped: a symlink that cannot be resolved, a directory
      that cannot be listed, or children that cannot be canonicalized. */
  function EntryErrors(o: Options, root: Path, e: DirEntry): (r: seq<IoError>)
    ensures forall i :: 0 <= i < |r| ==> r[i].kind == Other
  {
    match Probe(o, root, e)
    case Err(x) => [x]
    case Ok(isDir) =>
      if isDir && WithinDepth(o, e) then
        match o.sftp.readDir(Join(root, e.path))
        case Ok(ls) => Dropped(o, root, ls, e.depth + 1)
        case Err(x) => [ToOther(x)]
      else []
  }

  /** Only a listing failure of the root entry ends the whole call. */
  function Fatal(o: Options, root: Path, e: DirEntry): (r: Option<IoError>)
    ensures r.Some? ==> e.depth == 0 && r.value.kind == Other && o.sftp.readDir(Join(root, e.path)).Err?
    ensures r.Some? <==> e.depth == 0 && Expands(o, root, e) && o.sftp.readDir(Join(root, e.path)).Err?
  {
    if e.depth == 0 && Expands(o, root, e) then
      match o.sftp.readDir(Join(root, e.path))
      case Ok(_) => None
      case Err(x) => Some(ToOther(x))
    else None
  }

  /** The errors of a sequence of visits, in visiting order. */
  function ErrorsOf(o: Options, root: Path, v: seq<DirEntry>): seq<IoError> {
    if |v| == 0 then [] else ErrorsOf(o, root, v[..|v| - 1]) + EntryErrors(o, root, v[|v| - 1])
  }

  lemma ErrorsOfAppend(o: Options, root: Path, v: seq<DirEntry>, e: DirEntry)
    ensures ErrorsOf(o, root, v + [e]) == ErrorsOf(o, root, v) + EntryErrors(o, root, e)
  {
    assert (v + [e])[..|v|] == v;
  }

  /** The popped entries that are reported: all but the root, which only on request. */
  function Keep(o: Options, v: seq<DirEntry>): (r: seq<DirEntry>)
    ensures |r| <= |v|
    ensures o.includeRoot ==> r == v
  {
    if |v| == 0 then []
    else Keep(o, v[..|v| - 1]) + if v[|v| - 1].depth != 0 || o.includeRoot then [v[|v| - 1]] else []
  }

  /** `Keep` drops exactly the depth-0 entries, unless the root is asked for. */
  lemma {:induction false} KeepMembers(o: Options, v: seq<DirEntry>)
    ensures forall x :: x in Keep(o, v) <==> x in v && (x.depth != 0 || o.includeRoot)
  {
    if |v| > 0 {
      KeepMembers(o, v[..|v| - 1]);
      assert v == v[..|v| - 1] + [v[|v| - 1]];
    }
  }

  // Termination. With a depth limit the traversal is bounded by it. Without one it ends exactly
  // when the entries reachable from the root are finitely many and none of them lies on an
  // endless chain of children (a symlink to an ancestor makes one). Then they form a finite
  // `region` that holds the root and the children of each of its entries, on which a `rank`
  // descends from every entry to its children.

  ghost predicate Descending(o: Options, root: Path, rank: DirEntry -> nat, region: set<DirEntry>) {
    RootEntry(root) in region &&
    forall e, i :: e in region && 0 <= i < |Children(o, root, e)| ==>
      Children(o, root, e)[i] in region && rank(Children(o, root, e)[i]) < rank(e)
  }

  ghost predicate Terminates(o: Options, root: Path, rank: DirEntry -> nat, region: set<DirEntry>) {
    o.depth > 0 || Descending(o, root, rank, region)
  }

  /** The entries the termination argument covers. */
  ghost predicate Inside(o: Options, region: set<DirEntry>, e: DirEntry) {
    o.depth > 0 || e in region
  }

  ghost function Measure(o: Options, rank: DirEntry -> nat, e: DirEntry): nat {
    if o.depth > 0 then (if e.depth < o.depth then o.depth - e.depth else 0) else rank(e)
  }

  /** The children, for the entries the termination argument covers. */
  ghost function Next(o: Options, root: Path, region: set<DirEntry>): DirEntry -> seq<DirEntry> {
    e => if Inside(o, region, e) then Children(o, root, e) else []
  }

  ghost function MeasureOf(o: Options, rank: DirEntry -> nat): DirEntry -> nat {
    e => Measure(o, rank, e)
  }

  /** Every pop lowers the total potential of the stack. */
  ghost function Total(o: Options, root: Path, rank: DirEntry -> nat, region: set<DirEntry>, s: seq<DirEntry>): nat
    requires Terminates(o, root, rank, region)
  {
    MeasureDecreases(o, root, rank, region);
    Worklist.Total(Next(o, root, region), MeasureOf(o, rank), s)
  }

  lemma MeasureDecreases(o: Options, root: Path, rank: DirEntry -> nat, region: set<DirEntry>)
    requires Terminates(o, root, rank, region)
    ensures Worklist.Decreasing(Next(o, root, region), MeasureOf(o, rank))
  {
    forall x: DirEntry, i | 0 <= i < |Next(o, root, region)(x)|
      ensures MeasureOf(o, rank)(Next(o, root, region)(x)[i]) < MeasureOf(o, rank)(x)
    {
      assert Inside(o, region, x);
      assert Children(o, root, x)[i].depth == x.depth + 1;
    }
  }

  /** The children of a covered entry are covered. */
  lemma ChildrenInside(o: Options, root: Path, rank: DirEntry -> nat, region: set<DirEntry>, e: DirEntry)
    requires Terminates(o, root, rank, region) && Inside(o, region, e)
    ensures forall x :: x in Children(o, root, e) ==> Inside(o, region, x)
  {
    forall x | x in Children(o, root, e) ensures Inside(o, region, x) {
      var i :| 0 <= i < |Children(o, root, e)| && Children(o, root, e)[i] == x;
    }
  }

  /** A successor of the termination argument is a child of a covered entry. */
  lemma InNext(o: Options, root: Path, region: set<DirEntry>, x: DirEntry, y: DirEntry)
    requires y in Next(o, root, region)(x)
    ensures Inside(o, region, x) && y in Children(o, root, x)
  {
  }

  lemma PopDecreases(o: Options, root: Path, rank: DirEntry -> nat, region: set<DirEntry>, s: seq<DirEntry>)
    requires Terminates(o, root, rank, region) && |s| > 0 && Inside(o, region, s[|s| - 1])
    ensures Total(o, root, rank, region, s[..|s| - 1] + Children(o, root, s[|s| - 1])) < Total(o, root, rank, region, s)
  {
    MeasureDecreases(o, root, rank, region);
    assert Next(o, root, region)(s[|s| - 1]) == Children(o, root, s[|s| - 1]);
    Worklist.PopDecreases(Next(o, root, region), MeasureOf(o, rank), s);
  }

  /** Visits one popped entry: resolves its type, lists it when it expands, and harvests the
      listing. */
  method VisitEntry(o: Options, root: Path, e: DirEntry) returns (children: seq<DirEntry>, errs: seq<IoError>, fatal: Option<IoError>)
    ensures fatal == Fatal(o, root, e)
    ensures fatal.None? ==> children == Children(o, root, e) && errs == EntryErrors(o, root, e)
  {
    var full := Join(root, e.path);
    var isDir: bool;
    match e.fileType {
      case Dir => isDir := true;
      case File => isDir := false;
      case Symlink =>
        var m := o.sftp.metadata(full);
        if m.Err? {
          return [], [ToOther(m.error)], None;
        }
        isDir := m.value.kind == DirKind;
    }
    if !(isDir && (o.depth == 0 || e.depth + 1 <= o.depth)) {
      return [], [], None;
    }
    var listing := o.sftp.readDir(full);
    if listing.Err? {
      if e.depth == 0 {
        return [], [], Some(ToOther(listing.error));
      }
      return [], [ToOther(listing.error)], None;
    }
    children, errs := Harvest(o, root, listing.value, e.depth + 1);
    fatal := None;
  }

  /** The inner loop over one directory listing. */
  method Harvest(o: Options, root: Path, ls: seq<Listed>, d: nat) returns (pushed: seq<DirEntry>, errs: seq<IoError>)
    ensures pushed == Pushed(o, root, ls, d) && errs == Dropped(o, root, ls, d)
  {
    pushed, errs := [], [];
    for j := 0 to |ls|
      invariant pushed == Pushed(o, root, ls[..j], d) && errs == Dropped(o, root, ls[..j], d)
    {
      assert ls[..j + 1][..j] == ls[..j];
      var l := ls[j];
      var p: Path;
      if o.canonicalize {
        var c := o.sftp.canonicalize(l.path);
        if c.Err? {
          errs := errs + [ToOther(c.error)];
          continue;
        }
        p := c.value;
      } else {
        p := l.path;
      }
      if !o.absolute {
        var s := StripPrefix(p, root);
        if s.Some? {
          p := s.value;
        }
      }
      var stat := l.stat;
      if o.canonicalize {
        var m := o.sftp.metadata(p);
        if m.Ok? {
          stat := m.value;
        }
      }
      pushed := pushed + [DirEntry(p, TypeOf(stat.kind), d)];
    }
    assert ls[..|ls|] == ls;
  }

  function Stops(o: Options, root: Path): DirEntry -> bool {
    e => Fatal(o, root, e).Some?
  }

  /** The traversal as a function of the stack. */
  ghost function Walked(o: Options, root: Path, rank: DirEntry -> nat, region: set<DirEntry>, stack: seq<DirEntry>): Worklist.Walk<DirEntry>
    requires Terminates(o, root, rank, region)
  {
    MeasureDecreases(o, root, rank, region);
    Worklist.Run(Next(o, root, region), MeasureOf(o, rank), Stops(o, root), stack)
  }

  /** Every entry the traversal from the root pops is covered by the termination argument. */
  lemma VisitedInside(o: Options, root: Path, rank: DirEntry -> nat, region: set<DirEntry>)
    requires Terminates(o, root, rank, region)
    ensures forall x :: x in Walked(o, root, rank, region, [RootEntry(root)]).visited ==> Inside(o, region, x)
  {
    MeasureDecreases(o, root, rank, region);
    var v := Walked(o, root, rank, region, [RootEntry(root)]).visited;
    Worklist.RunSound(Next(o, root, region), MeasureOf(o, rank), Stops(o, root), [RootEntry(root)]);
    forall i | 0 <= i < |v| ensures Inside(o, region, v[i]) {
      if v[i] !in [RootEntry(root)] {
        var j :| 0 <= j < i && v[i] in Next(o, root, region)(v[j]);
        InNext(o, root, region, v[j], v[i]);
        ChildrenInside(o, root, rank, region, v[j]);
      }
    }
  }

  /** The traversal from the root stops exactly when the root cannot be listed, and then the
      root is the only entry popped. */
  lemma FromRootFatal(o: Options, root: Path, rank: DirEntry -> nat, region: set<DirEntry>)
    requires Terminates(o, root, rank, region)
    ensures Walked(o, root, rank, region, [RootEntry(root)]).stopped <==> Fatal(o, root, RootEntry(root)).Some?
    ensures Walked(o, root, rank, region, [RootEntry(root)]).stopped ==> Walked(o, root, rank, region, [RootEntry(root)]).visited == [RootEntry(root)]
  {
    MeasureDecreases(o, root, rank, region);
    var ch := Children(o, root, RootEntry(root));
    assert Next(o, root, region)(RootEntry(root)) == ch;
    assert [RootEntry(root)][..0] + ch == ch;
    forall x: DirEntry, k | x.depth > 0 && 0 <= k < |Next(o, root, region)(x)|
      ensures Next(o, root, region)(x)[k].depth > 0
    {
    }
    Worklist.RunNeverStops(Next(o, root, region), MeasureOf(o, rank), Stops(o, root), (e: DirEntry) => e.depth > 0, ch);
  }

  /** The root is a directory within any depth limit, so it is always listed. */
  lemma RootListing(o: Options, root: Path)
    ensures Fatal(o, root, RootEntry(root)) ==
      match o.sftp.readDir(Join(root, root))
      case Ok(_) => None
      case Err(x) => Some(ToOther(x))
  {
  }

  /** Entries pushed below the root only ever lead to entries below the root. */
  lemma BelowRoot(o: Options, root: Path, rank: DirEntry -> nat, region: set<DirEntry>, s: seq<DirEntry>)
    requires Terminates(o, root, rank, region) && forall x :: x in s ==> 1 <= x.depth
    ensures var u := Walked(o, root, rank, region, s).visited; forall i :: 0 <= i < |u| ==> 1 <= u[i].depth
  {
    MeasureDecreases(o, root, rank, region);
    var u := Walked(o, root, rank, region, s).visited;
    Worklist.RunSound(Next(o, root, region), MeasureOf(o, rank), Stops(o, root), s);
    forall i | 0 <= i < |u|
      ensures 1 <= u[i].depth
    {
      if u[i] !in s {
        var j :| 0 <= j < i && u[i] in Next(o, root, region)(u[j]);
        InNext(o, root, region, u[j], u[i]);
      }
    }
  }

  /** Otherwise it starts at the root, and every later entry lies below it. */
  lemma FromRootDepth(o: Options, root: Path, rank: DirEntry -> nat, region: set<DirEntry>)
    requires Terminates(o, root, rank, region) && !Walked(o, root, rank, region, [RootEntry(root)]).stopped
    ensures var v := Walked(o, root, rank, region, [RootEntry(root)]).visited;
      |v| > 0 && v[0] == RootEntry(root) && forall i :: 0 < i < |v| ==> 1 <= v[i].depth
  {
    MeasureDecreases(o, root, rank, region);
    var ch := Children(o, root, RootEntry(root));
    assert Next(o, root, region)(RootEntry(root)) == ch;
    assert [RootEntry(root)][..0] + ch == ch;
    BelowRoot(o, root, rank, region, ch);
  }

  /** ... and every later entry is a child of an entry visited before it. */
  lemma FromRootSound(o: Options, root: Path, rank: DirEntry -> nat, region: set<DirEntry>)
    requires Terminates(o, root, rank, region) && !Walked(o, root, rank, region, [RootEntry(root)]).stopped
    ensures var v := Walked(o, root, rank, region, [RootEntry(root)]).visited;
      forall i :: 0 < i < |v| ==> exists j :: 0 <= j < i && v[i] in Children(o, root, v[j])
  {
    MeasureDecreases(o, root, rank, region);
    FromRootDepth(o, root, rank, region);
    var v := Walked(o, root, rank, region, [RootEntry(root)]).visited;
    Worklist.RunSound(Next(o, root, region), MeasureOf(o, rank), Stops(o, root), [RootEntry(root)]);
    forall i | 0 < i < |v|
      ensures exists j :: 0 <= j < i && v[i] in Children(o, root, v[j])
    {
      assert v[i] != RootEntry(root);
      var j :| 0 <= j < i && v[i] in Next(o, root, region)(v[j]);
      InNext(o, root, region, v[j], v[i]);
    }
  }

  /** With `absolute` off, a recorded child path is relative to the root whenever the root is
      a prefix of it (joining the root back gives the full path), and is kept whole otherwise. */
  lemma ChildPathRelativeToRoot(o: Options, root: Path, l: Listed)
    requires !o.absolute && ChildPath(o, root, l).Ok?
    ensures var full := if o.canonicalize then o.sftp.canonicalize(l.path).value else l.path;
      var p := ChildPath(o, root, l).value;
      (StripPrefix(full, root).Some? ==> (p.absolute <==> IsEmpty(root) && full.absolute) && Join(root, p) == full) &&
      (StripPrefix(full, root).None? ==> p == full)
  {
    var full := if o.canonicalize then o.sftp.canonicalize(l.path).value else l.path;
    if StripPrefix(full, root).Some? {
      StripThenJoin(full, root);
    }
  }

  /** Only the first popped entry lies at depth 0, so only it is filtered by `include_root`. */
  lemma {:induction false} KeepShape(o: Options, v: seq<DirEntry>)
    requires |v| > 0 && v[0].depth == 0
    requires forall i :: 0 < i < |v| ==> 1 <= v[i].depth
    ensures Keep(o, v) == if o.includeRoot then v else v[1..]
    decreases |v|
  {
    if |v| > 1 {
      var w := v[..|v| - 1];
      KeepShape(o, w);
      assert v == w + [v[|v| - 1]];
      assert v[1..] == w[1..] + [v[|v| - 1]];
    } else {
      assert v[..0] == [];
    }
  }

  /** The root is reported exactly when asked for, and a depth limit bounds every entry. */
  lemma EntriesOfTraversal(o: Options, root: Path, v: seq<DirEntry>, entries: seq<DirEntry>)
    requires |v| > 0 && v[0] == RootEntry(root)
    requires forall i :: 0 < i < |v| ==> exists j :: 0 <= j < i && v[i] in Children(o, root, v[j])
    requires multiset(entries) == multiset(if o.includeRoot then v else v[1..])
    ensures (exists k :: 0 <= k < |entries| && entries[k].depth == 0) <==> o.includeRoot
    ensures o.depth > 0 ==> forall k :: 0 <= k < |entries| ==> entries[k].depth <= o.depth
  {
    forall i | 0 < i < |v|
      ensures 1 <= v[i].depth && (o.depth > 0 ==> v[i].depth <= o.depth)
    {
      var j :| 0 <= j < i && v[i] in Children(o, root, v[j]);
    }
    forall k | 0 <= k < |entries|
      ensures exists i :: 0 <= i < |v| && v[i] == entries[k] && (i == 0 ==> o.includeRoot)
    {
      assert entries[k] in multiset(if o.includeRoot then v else v[1..]);
      if !o.includeRoot {
        var i :| 0 <= i < |v[1..]| && v[1..][i] == entries[k];
        assert v[i + 1] == entries[k];
      }
    }
    if o.includeRoot {
      assert v[0] in multiset(entries);
      var k :| 0 <= k < |entries| && entries[k] == v[0];
    }
  }

  /** `read_dir`: canonicalizes the requested path, then pops entries off a stack until it is
      empty. `visited` is the sequence of popped entries, in popping order. */
  method ReadDir(o: Options, path: Path, ghost rank: DirEntry -> nat, ghost region: set<DirEntry>)
    returns (r: Result<Listing>, ghost visited: seq<DirEntry>)
    requires o.depth == 0 && o.sftp.canonicalize(path).Ok? ==> Descending(o, o.sftp.canonicalize(path).value, rank, region)
    ensures o.sftp.canonicalize(path).Err? ==> r == Err(o.sftp.canonicalize(path).error)
    ensures o.sftp.canonicalize(path).Ok? ==>
      var root := o.sftp.canonicalize(path).value;
      match o.sftp.readDir(Join(root, root))
      case Err(x) => r == Err(ToOther(x))
      case Ok(_) => r.Ok?
    ensures r.Ok? ==> o.sftp.canonicalize(path).Ok?
    // the popped entries are exactly those of the stack traversal from the root
    ensures r.Ok? ==> var root := o.sftp.canonicalize(path).value;
      visited == Walked(o, root, rank, region, [RootEntry(root)]).visited
    // the traversal starts at the canonical root
    ensures r.Ok? ==> |visited| > 0 && visited[0] == RootEntry(o.sftp.canonicalize(path).value)
    // every other visited entry was pushed by an earlier one
    ensures r.Ok? ==> var root := o.sftp.canonicalize(path).value;
      forall i :: 0 < i < |visited| ==> exists j :: 0 <= j < i && visited[i] in Children(o, root, visited[j])
    // and everything pushed was visited: an error below the root does not stop the traversal
    ensures r.Ok? ==> var root := o.sftp.canonicalize(path).value;
      forall i, k :: 0 <= i < |visited| && 0 <= k < |Children(o, root, visited[i])| ==> Children(o, root, visited[i])[k] in visited
    ensures r.Ok? ==> Sorting.SortedBy(r.value.entries, EntryPathLe)
    ensures r.Ok? ==> multiset(r.value.entries) == multiset(if o.includeRoot then visited else visited[1..])
    ensures r.Ok? ==> r.value.errors == ErrorsOf(o, o.sftp.canonicalize(path).value, visited)
    ensures r.Ok? ==> ((exists k :: 0 <= k < |r.value.entries| && r.value.entries[k].depth == 0) <==> o.includeRoot)
    ensures r.Ok? && o.depth > 0 ==> forall k :: 0 <= k < |r.value.entries| ==> r.value.entries[k].depth <= o.depth
  {
    var canon := o.sftp.canonicalize(path);
    if canon.Err? {
      return Err(canon.error), [];
    }
    var root := canon.value;
    var fatal, kept, errors;
    fatal, kept, errors, visited := Traverse(o, root, rank, region);
    FromRootFatal(o, root, rank, region);
    RootListing(o, root);
    if fatal.Some? {
      assert visited == [RootEntry(root)];
      return Err(fatal.value), visited;
    }
    EntryPathLeIsTotalPreorder();
    var entries := Sorting.SortBy(kept, EntryPathLe);
    Reported(o, root, rank, region, visited, kept, entries);
    r := Ok(Listing(entries, errors));
  }

  /** What a traversal from the root that was not stopped reports. */
  lemma Reported(o: Options, root: Path, rank: DirEntry -> nat, region: set<DirEntry>,
                 visited: seq<DirEntry>, kept: seq<DirEntry>, entries: seq<DirEntry>)
    requires Terminates(o, root, rank, region) && !Walked(o, root, rank, region, [RootEntry(root)]).stopped
    requires visited == Walked(o, root, rank, region, [RootEntry(root)]).visited && kept == Keep(o, visited)
    requires multiset(entries) == multiset(kept)
    ensures |visited| > 0 && visited[0] == RootEntry(root)
    ensures forall i :: 0 < i < |visited| ==> exists j :: 0 <= j < i && visited[i] in Children(o, root, visited[j])
    ensures forall i, k :: 0 <= i < |visited| && 0 <= k < |Children(o, root, visited[i])| ==> Children(o, root, visited[i])[k] in visited
    ensures multiset(entries) == multiset(if o.includeRoot then visited else visited[1..])
    ensures (exists k :: 0 <= k < |entries| && entries[k].depth == 0) <==> o.includeRoot
    ensures o.depth > 0 ==> forall k :: 0 <= k < |entries| ==> entries[k].depth <= o.depth
  {
    FromRootDepth(o, root, rank, region);
    FromRootSound(o, root, rank, region);
    FromRootClosed(o, root, rank, region);
    KeepShape(o, visited);
    EntriesOfTraversal(o, root, visited, entries);
  }

  /** ... and everything pushed during such a traversal was popped. */
  lemma FromRootClosed(o: Options, root: Path, rank: DirEntry -> nat, region: set<DirEntry>)
    requires Terminates(o, root, rank, region) && !Walked(o, root, rank, region, [RootEntry(root)]).stopped
    ensures var v := Walked(o, root, rank, region, [RootEntry(root)]).visited;
      forall i, k :: 0 <= i < |v| && 0 <= k < |Children(o, root, v[i])| ==> Children(o, root, v[i])[k] in v
  {
    MeasureDecreases(o, root, rank, region);
    VisitedInside(o, root, rank, region);
    var v := Walked(o, root, rank, region, [RootEntry(root)]).visited;
    Worklist.RunClosed(Next(o, root, region), MeasureOf(o, rank), Stops(o, root), [RootEntry(root)]);
    forall i, k | 0 <= i < |v| && 0 <= k < |Children(o, root, v[i])|
      ensures Children(o, root, v[i])[k] in v
    {
      assert Inside(o, region, v[i]);
      assert Children(o, root, v[i]) == Next(o, root, region)(v[i]);
    }
  }

  /** The loop invariant of `Traverse`: what is already popped, followed by what the rest of
      the stack produces, is the traversal from the root. */
  ghost predicate Frontier(o: Options, root: Path, rank: DirEntry -> nat, region: set<DirEntry>,
                           stack: seq<DirEntry>, visited: seq<DirEntry>)
    requires Terminates(o, root, rank, region)
  {
    var t := Walked(o, root, rank, region, stack);
    Walked(o, root, rank, region, [RootEntry(root)]) == Worklist.Walk(visited + t.visited, t.stopped)
  }

  lemma PopKeepsFrontier(o: Options, root: Path, rank: DirEntry -> nat, region: set<DirEntry>,
                         stack: seq<DirEntry>, visited: seq<DirEntry>)
    requires Terminates(o, root, rank, region) && stack != [] && Inside(o, region, stack[|stack| - 1])
    requires Frontier(o, root, rank, region, stack, visited)
    ensures var e := stack[|stack| - 1];
      Fatal(o, root, e).Some? ==> Walked(o, root, rank, region, [RootEntry(root)]) == Worklist.Walk(visited + [e], true)
    ensures var e := stack[|stack| - 1];
      Fatal(o, root, e).None? ==>
        Frontier(o, root, rank, region, stack[..|stack| - 1] + Children(o, root, e), visited + [e]) &&
        Total(o, root, rank, region, stack[..|stack| - 1] + Children(o, root, e)) < Total(o, root, rank, region, stack)
  {
    MeasureDecreases(o, root, rank, region);
    var e := stack[|stack| - 1];
    assert Next(o, root, region)(e) == Children(o, root, e);
    if Fatal(o, root, e).None? {
      var u := Walked(o, root, rank, region, stack[..|stack| - 1] + Children(o, root, e));
      assert visited + ([e] + u.visited) == (visited + [e]) + u.visited;
      PopDecreases(o, root, rank, region, stack);
    }
  }

  /** The loop invariant of `Traverse`, on top of the frontier: the stack is covered by the
      termination argument, and the errors and kept entries are those of the popped ones. */
  ghost predicate Traversing(o: Options, root: Path, rank: DirEntry -> nat, region: set<DirEntry>,
                             stack: seq<DirEntry>, visited: seq<DirEntry>, kept: seq<DirEntry>, errors: seq<IoError>)
    requires Terminates(o, root, rank, region)
  {
    (forall x :: x in stack ==> Inside(o, region, x)) &&
    Frontier(o, root, rank, region, stack, visited) &&
    errors == ErrorsOf(o, root, visited) && kept == Keep(o, visited)
  }

  /** One turn of the loop below: the popped entry either stops the walk, or its children are
      pushed, its errors appended and, unless it is the unrequested root, it is kept. */
  lemma PopStep(o: Options, root: Path, rank: DirEntry -> nat, region: set<DirEntry>,
                stack: seq<DirEntry>, visited: seq<DirEntry>, kept: seq<DirEntry>, errors: seq<IoError>)
    requires Terminates(o, root, rank, region) && stack != []
    requires Traversing(o, root, rank, region, stack, visited, kept, errors)
    ensures var e := stack[|stack| - 1];
      Fatal(o, root, e).Some? ==> Walked(o, root, rank, region, [RootEntry(root)]) == Worklist.Walk(visited + [e], true)
    ensures var e := stack[|stack| - 1]; var next := stack[..|stack| - 1] + Children(o, root, e);
      Fatal(o, root, e).None? ==>
        Traversing(o, root, rank, region, next, visited + [e],
                   kept + (if e.depth != 0 || o.includeRoot then [e] else []), errors + EntryErrors(o, root, e)) &&
        Total(o, root, rank, region, next) < Total(o, root, rank, region, stack)
  {
    var e := stack[|stack| - 1];
    assert Inside(o, region, e);
    PopKeepsFrontier(o, root, rank, region, stack, visited);
    ErrorsOfAppend(o, root, visited, e);
    assert (visited + [e])[..|visited|] == visited;
    ChildrenInside(o, root, rank, region, e);
    forall x | x in stack[..|stack| - 1] ensures Inside(o, region, x) {
      var i :| 0 <= i < |stack| - 1 && stack[i] == x;
      assert stack[i] in stack;
    }
  }

  /** The `while let Some(entry) = to_traverse.pop()` loop: `kept` are the entries in popping
      order before sorting, `visited` all popped entries, `errors` their errors. */
  method Traverse(o: Options, root: Path, ghost rank: DirEntry -> nat, ghost region: set<DirEntry>)
    returns (fatal: Option<IoError>, kept: seq<DirEntry>, errors: seq<IoError>, ghost visited: seq<DirEntry>)
    requires Terminates(o, root, rank, region)
    ensures visited == Walked(o, root, rank, region, [RootEntry(root)]).visited
    ensures fatal.Some? <==> Walked(o, root, rank, region, [RootEntry(root)]).stopped
    ensures fatal.Some? ==> |visited| > 0 && fatal == Fatal(o, root, visited[|visited| - 1])
    ensures fatal.None? ==> errors == ErrorsOf(o, root, visited) && kept == Keep(o, visited)
  {
    var stack := [RootEntry(root)];
    kept, errors, visited := [], [], [];
    while stack != []
      invariant Terminates(o, root, rank, region)
      invariant Traversing(o, root, rank, region, stack, visited, kept, errors)
      decreases Total(o, root, rank, region, stack)
    {
      var e := stack[|stack| - 1];
      PopStep(o, root, rank, region, stack, visited, kept, errors);
      kept := kept + if e.depth != 0 || o.includeRoot then [e] else [];
      var children, errs, stop := VisitEntry(o, root, e);
      if stop.Some? {
        return stop, kept, errors, visited + [e];
      }
      visited := visited + [e];
      errors := errors + errs;
      stack := stack[..|stack| - 1] + children;
    }
    fatal := None;
  }
}
