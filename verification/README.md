# distant: manager client and SSH filesystem handler, modelled in Dafny

This project models two parts of distant, a tool for working with a remote machine:

- **The manager client** (`ManagerClient`, `Auth`). `launch` and `connect` read the manager's
  responses from a mailbox. They answer each authentication question through the caller's
  `AuthHandler` and fire an `Authenticate` request carrying the question's id. They stop at
  the first terminal response, at a fatal authentication error, or when the mailbox runs dry.
  `capabilities`, `info`, `kill` and `list` each turn their single response into a result.
- **The SSH filesystem handler** (`ReadDir`, `RemoveTree`, `CreateDir`, `MetadataQuery`,
  `Capabilities`, `Processes`). These are the algorithms around the SFTP session:
  - the depth-limited `read_dir` traversal, which collects errors and sorts its result;
  - `remove`, which unlinks a file, removes an empty directory, or with `force` collects a
    tree and removes it deepest first;
  - `create_dir` with `all`, which climbs the parents until a `mkdir` succeeds and then makes
    the failed paths again, shallowest first;
  - the reply of `metadata`;
  - the capability set of `version`;
  - the process-table lookups of `proc_kill`, `proc_stdin` and `proc_resize_pty`.

Shared pieces:

- `Io` holds the error values: an `io::ErrorKind` and a message. It also holds `Option`
  and `Result`.
- `Remote` models paths (`std::path` join, `strip_prefix`, `parent` and ordering), SFTP
  metadata and the SFTP session.
- `Sorting` is a sort specified as "sorted and a permutation", together with `Reverse`.
- `Worklist` is the stack-driven traversal that both `read_dir` and `remove` use. It is
  written as a function of the stack, with the lemmas that relate it to its successor
  relation.

How the model is built:

- **The mailbox.** It is a sequence of responses in arrival order. The requests the loop
  fires are returned as a sequence.
- **The authentication handler.** It is a record of three functions, one per question kind.
  Each may fail.
- **The SFTP session.** It is a record of lookups that may fail: `canonicalize`, `metadata`,
  `symlink_metadata`, `read_dir`, `remove_file` and `remove_dir`. Each gives the same answer
  for the same path throughout a call.
- **`create_dir`.** Its `mkdir`s change what later `mkdir`s see, so `create_dir` runs against
  an explicit namespace instead: directories, files and read-only directories.
  - `mkdir` succeeds exactly when nothing exists at the path and its parent is a writable
    directory, as POSIX `mkdir` does.
  - The server's error text for a refused path is a parameter.
- **Loops.** Every loop of the source is a method with a `while` or `for` loop. Each method is
  proved against a function that specifies it: `Drive`, `Worklist.Run`, `Unlink`,
  `CreateAll`, `Pushed` and `Entries`. The properties the source promises are proved about
  those functions.
- **Termination.** An unbounded traversal (`read_dir` with depth 0, `remove` with `force`)
  ends exactly when the entries reachable from its start are finitely many and none of them
  starts an endless chain of listings. The methods take a ghost `region` and a ghost `rank`:
  the region holds the start and every child listed under one of its entries, and the rank
  descends from each entry of the region to its children. Only the reachable entries are
  constrained, so any finite listing meets the precondition, whatever else the SFTP session
  answers.

## Model

| member | source | states |
|---|---|---|
| Auth.AuthStep | distant-net/src/manager/client.rs:47-99 | An initialization, challenge or verification question gets a reply exactly when the handler answers it, and the reply is the handler's answer wrapped in the response of the same kind; a handler error ends the call with that error; `StartMethod`, `Info`, `Finished` and a non-fatal `Error` go on silently; a fatal `Error` ends the call with `PermissionDenied` and the message's text |
| ManagerClient.ExpectCapabilities | distant-net/src/manager/client.rs:235-248 | Ok exactly on `Capabilities`, with its payload; `Error { description }` gives kind `Other` with the description; anything else gives `InvalidData` |
| ManagerClient.ExpectInfo | distant-net/src/manager/client.rs:251-264 | Ok exactly on `Info`, returning that payload unchanged; `Error` gives `Other` with the description; any other response gives `InvalidData` |
| ManagerClient.ExpectKilled | distant-net/src/manager/client.rs:267-280 | Succeeds on `Killed` and on nothing else; `Error` gives `Other`, any other response (such as `Connected`) `InvalidData` |
| ManagerClient.ExpectList | distant-net/src/manager/client.rs:283-296 | Ok exactly on `List`, returning that payload unchanged; `Error` gives `Other`; any other response gives `InvalidData` |
| ManagerClient.Expect | distant-net/src/manager/client.rs:100-110 | The final match: Ok exactly when the response carries the awaited payload, with that payload; the manager's `Error` gives `Other` with its description; any other response `InvalidData` |
| ManagerClient.Drive | distant-net/src/manager/client.rs:45-117 | The response loop fires at most one request per authentication question, and it succeeds only with the awaited payload of some response in the mailbox |
| ManagerClient.StepOf | distant-net/src/manager/client.rs:46-111 | A non-authentication response ends the call with its mapped result. A question continues the loop exactly when the handler answers it, firing exactly one request with the message's id and the handler's answer; a handler error ends the call with that error. A silent message fires nothing and continues; a fatal error ends the call with `PermissionDenied` |
| ManagerClient.Await | distant-net/src/manager/client.rs:45-117 | The response loop returns exactly the result and the fired requests of `Drive` on the mailbox |
| ManagerClient.Launch | distant-net/src/manager/client.rs:26-118 | `launch` is the loop of `Await`, waiting for `Launched` |
| ManagerClient.Connect | distant-net/src/manager/client.rs:125-217 | `connect` is the loop of `Await`, waiting for `Connected` |
| ManagerClient.DriveSplit | distant-net/src/manager/client.rs:45-99 | Authentication messages the loop gets past only add their replies to the fired requests; the rest of the mailbox decides the outcome |
| ManagerClient.AllContinueTail | distant-net/src/manager/client.rs:45-99 | A run of messages the loop gets past stays one when its first message is dropped |
| ManagerClient.FirstStopDecides | distant-net/src/manager/client.rs:100-110 | The first response the loop does not get past decides the result, and nothing after it is read; a non-authentication response gives its mapped result (`Error` becomes `Other`, an unexpected one `InvalidData`) |
| ManagerClient.DriveEof | distant-net/src/manager/client.rs:113-117 | A mailbox that ends while the loop is still authenticating fails with `UnexpectedEof` "Missing connection confirmation", after firing every reply |
| ManagerClient.FiredCount | distant-net/src/manager/client.rs:47-99 | Exactly one request is fired per question the loop gets past |
| ManagerClient.FiredAnswers | distant-net/src/manager/client.rs:59-62 | Every fired request carries the id of an authentication question it answers, with a reply of that question's kind |
| ManagerClient.DriveOkIff | distant-net/src/manager/client.rs:100-101 | The loop returns `Ok(x)` exactly when, after messages it gets past, it meets a non-authentication response whose payload is `x` |
| ManagerClient.ConnectOkIff | distant-net/src/manager/client.rs:200 | `connect` returns `Ok(id)` exactly when it reaches `Connected { id }`, and returns that id unchanged |
| ManagerClient.LaunchOkIff | distant-net/src/manager/client.rs:101 | `launch` returns `Ok(d)` exactly when the first response it stops at is `Launched { destination: d }` |
| Remote.StripThenJoin | distant-ssh2/src/api.rs:330-339 | Joining the base back onto a stripped path gives the original path; the stripped path is absolute only when the base is empty and the path absolute |
| Remote.JoinThenStrip | distant-ssh2/src/api.rs:281-285 | Joining a relative path to a base and stripping the base gives the relative path back |
| Remote.TypeOf | distant-ssh2/src/api.rs:352-362 | `Dir` exactly for a directory, `File` exactly for a regular file, `Symlink` for everything else |
| Remote.Join | distant-ssh2/src/api.rs:281-285 | `Path::join`: an absolute path replaces the base; a relative one is appended to the base's parts, keeping the base's absoluteness |
| Remote.StripPrefix | distant-ssh2/src/api.rs:335-338 | `strip_prefix` succeeds exactly when the base is the empty path or has the same absoluteness with its parts a prefix of the path's. The empty base leaves the path whole, absolute or not; any other base leaves a relative rest that completes the base's parts to the path's |
| Remote.StripPrefixByComponents | distant-ssh2/src/api.rs:335-338 | `strip_prefix` agrees with its definition on components: it succeeds exactly when the base's components begin the path's, and the rest has exactly the remaining components |
| Remote.PrefixStrips | distant-ssh2/src/api.rs:335-338 | A base whose components begin the path's can be stripped |
| Remote.StripIsPrefix | distant-ssh2/src/api.rs:335-338 | A base that can be stripped has components beginning the path's |
| Remote.StripRest | distant-ssh2/src/api.rs:335-338 | What stripping leaves has the path's components after the base's |
| Remote.NormalsPrefix | distant-ssh2/src/api.rs:335-338 | The normal components of one list of parts begin those of another exactly when the parts do |
| Remote.Parent | distant-ssh2/src/api.rs:411 | `Path::parent` is none exactly for a path without parts; otherwise it keeps the absoluteness and is the path without its last part (a prefix one part shorter) |
| Remote.Components | distant-ssh2/src/api.rs:373 | The components `Path`'s order compares: a root component first exactly for an absolute path, then one normal component per part (the paths compared are canonical or listed names, with no `.` or `..` part) |
| Remote.StrLeTotal | distant-ssh2/src/api.rs:373 | Any two path components are comparable |
| Remote.StrLeAntisymmetric | distant-ssh2/src/api.rs:373 | Components that compare both ways are equal |
| Remote.StrLeTransitive | distant-ssh2/src/api.rs:373 | The component order is transitive |
| Remote.StrLtTransitive | distant-ssh2/src/api.rs:373 | A chain of component comparisons with one strict step is strict |
| Remote.ComponentLtTotal | distant-ssh2/src/api.rs:373 | Two different components are ordered one way or the other, the root before every normal component |
| Remote.ComponentLtTransitive | distant-ssh2/src/api.rs:373 | The strict component order is transitive |
| Remote.ComponentsLeTotal | distant-ssh2/src/api.rs:373 | Any two paths are comparable component by component |
| Remote.ComponentsLeTransitive | distant-ssh2/src/api.rs:373 | The lexicographic component order is transitive |
| Remote.EmptyPathFirst | distant-ssh2/src/api.rs:373 | The empty path sorts before every path, and only the empty path sorts before it |
| Remote.AbsoluteBeforeRelative | distant-ssh2/src/api.rs:373 | An absolute path sorts strictly before every non-empty relative path, since the root component precedes every normal one |
| Remote.EntryPathLeIsTotalPreorder | distant-ssh2/src/api.rs:373 | Ordering entries by path is a total preorder, so sorting by it is well defined |
| Remote.EntryDepthLeIsTotalPreorder | distant-ssh2/src/api.rs:509 | Ordering entries by depth is a total preorder |
| Sorting.Insert | distant-ssh2/src/api.rs:373 | Inserting into a sorted sequence keeps it sorted and adds exactly the one element |
| Sorting.HeadBelow | distant-ssh2/src/api.rs:373 | A head below every element of a sorted rest gives a sorted sequence |
| Sorting.SortBy | distant-ssh2/src/api.rs:373 | `sort_unstable_by_key`: the result is sorted by the key and a permutation of the input |
| Sorting.Reverse | distant-ssh2/src/api.rs:429-431 | Repeated `pop`s take the elements from last to first |
| Sorting.ReversePermutes | distant-ssh2/src/api.rs:511-523 | Popping every element takes each element exactly once |
| Sorting.ReverseLast | distant-ssh2/src/api.rs:511 | The first pop takes the last element, then the pops go on with the rest |
| Worklist.SumAppend | distant-ssh2/src/api.rs:277-370 | The potential of a stack is additive over its parts |
| Worklist.PotentialUnfold | distant-ssh2/src/api.rs:277-370 | An item's potential is one more than that of its successors |
| Worklist.TotalAppend | distant-ssh2/src/api.rs:277-370 | The potential of a stack is the sum of that of its parts |
| Worklist.TotalSingle | distant-ssh2/src/api.rs:277-370 | A one-item stack has the item's potential |
| Worklist.Run | distant-ssh2/src/api.rs:277-370 | The stack-driven traversal pops something exactly when the stack is non-empty, and the first item popped is the top of the stack |
| Worklist.PopDecreases | distant-ssh2/src/api.rs:482-505 | Popping an item and pushing its successors, or popping it alone, lowers the stack's potential, so the loop ends |
| Worklist.RunCovers | distant-ssh2/src/api.rs:277-370 | Unless the traversal stops, every item on the stack is popped |
| Worklist.ClosedStep | distant-ssh2/src/api.rs:277-370 | Prefixing an item whose successors were all visited keeps the visited sequence closed |
| Worklist.RunClosed | distant-ssh2/src/api.rs:277-370 | Unless the traversal stops, every successor of a popped item is popped too |
| Worklist.RunSound | distant-ssh2/src/api.rs:277-370 | Every popped item was on the stack or is a successor of an item popped before it |
| Worklist.RunStopped | distant-ssh2/src/api.rs:366 | A traversal that stops ends at an item that stops it |
| Worklist.RunStopsOnlyAtEnd | distant-ssh2/src/api.rs:366 | No item popped before the last stops the traversal, and none does when it runs to the end |
| Worklist.RunNeverStops | distant-ssh2/src/api.rs:366-367 | A traversal never stops when a property that successors inherit rules stopping out |
| ReadDir.Probe | distant-ssh2/src/api.rs:293-303 | An entry is a directory when typed `Dir`, or when it is a symlink whose metadata says so; only the metadata call of a symlink can fail, as `Other` |
| ReadDir.ChildPath | distant-ssh2/src/api.rs:317-339 | A child's path fails exactly when canonicalization is asked for and fails, as `Other`; with `absolute` it is the (canonical) listed path itself |
| ReadDir.ChildStat | distant-ssh2/src/api.rs:343-350 | Without `canonicalize` the listed metadata is kept; with it the metadata is looked up again and the listed one is kept only when that fails |
| ReadDir.ChildEntry | distant-ssh2/src/api.rs:353-363 | A listed child is pushed exactly when its path can be computed, with that path and one level below its directory; otherwise it is dropped with an `Other` error |
| ReadDir.Fatal | distant-ssh2/src/api.rs:366 | Only a root entry that is expanded and whose listing fails ends the call, with that error as `Other` |
| ReadDir.Keep | distant-ssh2/src/api.rs:289-291 | At most the popped entries are kept, and all of them when `include_root` is set |
| ReadDir.KeepMembers | distant-ssh2/src/api.rs:289-291 | An entry is kept exactly when it was popped and is not at depth 0, unless `include_root` is set |
| ReadDir.Pushed | distant-ssh2/src/api.rs:314-364 | Every child pushed from one listing lies one level below the listed entry |
| ReadDir.Dropped | distant-ssh2/src/api.rs:318-323 | Every recorded error has kind `Other`; that each child which cannot be canonicalized is recorded is stated by `ReadDir.EveryChildAccounted` |
| ReadDir.EveryChildAccounted | distant-ssh2/src/api.rs:314-364 | No listed child is lost: the pushed children and the recorded errors together number the listing, every child whose path computes is pushed, and every child whose canonicalization fails has its error recorded |
| ReadDir.Children | distant-ssh2/src/api.rs:306-364 | Children are one level deeper and are pushed only from an entry that is a directory (a symlink after resolving it) within the depth limit |
| ReadDir.EntryErrors | distant-ssh2/src/api.rs:296-301 | Every error recorded for a popped entry has kind `Other` |
| ReadDir.ErrorsOfAppend | distant-ssh2/src/api.rs:296-367 | The errors of the traversal are those of each popped entry, in popping order |
| ReadDir.MeasureDecreases | distant-ssh2/src/api.rs:306 | With a depth limit, or with a rank descending on a region closed under listing, every child pushed from a covered entry lies below its parent |
| ReadDir.ChildrenInside | distant-ssh2/src/api.rs:306-364 | The children of an entry the termination argument covers are covered too |
| ReadDir.VisitedInside | distant-ssh2/src/api.rs:277-370 | Every entry the traversal from the root pops is covered by the termination argument |
| ReadDir.PopDecreases | distant-ssh2/src/api.rs:277 | Each turn of the loop lowers the stack's potential |
| ReadDir.VisitEntry | distant-ssh2/src/api.rs:293-368 | One turn of the loop: only a root that cannot be listed ends the call; otherwise it pushes the entry's children and records its errors |
| ReadDir.Harvest | distant-ssh2/src/api.rs:314-364 | The inner loop over a listing pushes exactly the children of `Pushed` and records exactly the errors of `Dropped` |
| ReadDir.FromRootFatal | distant-ssh2/src/api.rs:366 | The traversal stops exactly when the root cannot be listed, and then only the root was popped |
| ReadDir.RootListing | distant-ssh2/src/api.rs:306-366 | The root is always listed, so the call fails exactly with the root's listing error |
| ReadDir.BelowRoot | distant-ssh2/src/api.rs:353-363 | Entries pushed below the root only lead to entries below the root |
| ReadDir.FromRootDepth | distant-ssh2/src/api.rs:271-279 | A completed traversal starts at the root, and every later entry lies at depth 1 or below |
| ReadDir.FromRootSound | distant-ssh2/src/api.rs:353-363 | Every later entry was listed in a directory popped before it |
| ReadDir.ChildPathRelativeToRoot | distant-ssh2/src/api.rs:330-339 | With `absolute` off, when the root is a prefix of a child path the recorded path is the rest, and joining the root back gives the full path (it is relative unless the root is the empty path); otherwise it is left whole |
| ReadDir.KeepShape | distant-ssh2/src/api.rs:289-291 | Of the popped entries, all are kept except the root, which is kept exactly when `include_root` is set |
| ReadDir.EntriesOfTraversal | distant-ssh2/src/api.rs:289-306 | An entry at depth 0 is returned exactly when `include_root` is set, and with a depth limit every entry lies within it |
| ReadDir.ReadDir | distant-ssh2/src/api.rs:248-376 | The root is canonicalized and its errors are returned unchanged, and the call fails exactly when the root cannot be listed. Otherwise the popped entries are exactly those of the stack traversal from the root: it starts at the root, pops every listed child, and keeps going past errors below the root. The entries are sorted by path and are a permutation of the popped entries, with the root included exactly when asked. The errors are those of each entry in popping order, and a depth limit bounds every entry |
| ReadDir.Reported | distant-ssh2/src/api.rs:277-375 | What a completed traversal reports: the root first, every child popped, entries with the root only on request and within the depth limit |
| ReadDir.FromRootClosed | distant-ssh2/src/api.rs:277-370 | A completed traversal pops every child pushed by an entry it popped: an error below the root does not stop it |
| ReadDir.PopKeepsFrontier | distant-ssh2/src/api.rs:277-370 | Popping an entry keeps the loop invariant "popped so far, then what the stack produces, is the traversal" and lowers the potential |
| ReadDir.PopStep | distant-ssh2/src/api.rs:277-370 | One turn of the loop: popping an entry either stops the walk, or keeps the invariant with its children pushed, its errors appended and the entry kept unless it is the unrequested root |
| ReadDir.Traverse | distant-ssh2/src/api.rs:271-370 | The loop pops exactly the entries of the traversal from the root; it ends early exactly when the traversal stops, with the fatal error of the last entry; otherwise its errors and kept entries are those of the traversal |
| RemoveTree.Entries | distant-ssh2/src/api.rs:489-501 | One listing becomes one entry per listed path, one level deeper, typed from the listing's metadata |
| RemoveTree.Children | distant-ssh2/src/api.rs:483-504 | Entries pushed from a popped entry lie one level below it |
| RemoveTree.Unlink | distant-ssh2/src/api.rs:511-523 | Removing in order asks at most one removal per entry, all of them on success; a failure is returned as `PermissionDenied` after at least one removal |
| RemoveTree.UnlinkStopsAtFirstFailure | distant-ssh2/src/api.rs:511-523 | Removals are asked in the given order, `remove_dir` for a directory and `remove_file` otherwise. The call succeeds exactly when every removal does. Otherwise it stops at the first failure, returned as `PermissionDenied` with that failure's text |
| RemoveTree.ReverseIsDeepestFirst | distant-ssh2/src/api.rs:507-511 | Popping entries sorted by increasing depth takes the deepest first |
| RemoveTree.PopStep | distant-ssh2/src/api.rs:511-523 | Popping the last pending entry asks its removal before the rest |
| RemoveTree.RemoveDeepestFirst | distant-ssh2/src/api.rs:509-523 | The removal loop removes a permutation of the collected entries, in non-increasing depth, with exactly the outcome of `Unlink` |
| RemoveTree.NextDecreasing | distant-ssh2/src/api.rs:482-505 | A rank descending on a region closed under listing makes the collection loop's successor relation decrease |
| RemoveTree.ChildrenInRegion | distant-ssh2/src/api.rs:489-501 | The entries listed under an entry of the region are in the region |
| RemoveTree.CollectedInRegion | distant-ssh2/src/api.rs:482-505 | Every entry the collection pops lies in the region |
| RemoveTree.PopKeepsFrontier | distant-ssh2/src/api.rs:482-505 | Popping an entry keeps the collection loop's invariant and lowers the potential |
| RemoveTree.PushListing | distant-ssh2/src/api.rs:489-501 | The inner loop pushes the listing's entries in order onto the stack |
| RemoveTree.Collect | distant-ssh2/src/api.rs:474-505 | The collection loop returns the popped entries exactly when no listing fails; otherwise it returns the failing listing's error as `Other` |
| RemoveTree.CollectedTree | distant-ssh2/src/api.rs:475-505 | A completed collection starts with the directory itself; every later entry lies below it, and every listed entry is collected |
| RemoveTree.SameElements | distant-ssh2/src/api.rs:509 | Sorting keeps exactly the collected entries |
| RemoveTree.ChildrenFirst | distant-ssh2/src/api.rs:507-523 | In a deepest-first order, every entry listed in a directory comes before that directory |
| RemoveTree.ClosedOrder | distant-ssh2/src/api.rs:509 | Every listed entry of a collected directory is still in the sorted order |
| RemoveTree.DeepestFirstRemovesChildrenFirst | distant-ssh2/src/api.rs:507-523 | The directory itself is removed last, every listed entry is removed, and every child before its parent |
| RemoveTree.TopLast | distant-ssh2/src/api.rs:475-523 | The only entry at depth 0, the directory itself, is removed last |
| RemoveTree.Remove | distant-ssh2/src/api.rs:439-527 | A failing `metadata` gives `Other`, with nothing removed. A file or symlink gets exactly one `remove_file`, and a directory without `force` exactly one `remove_dir`; their failures become `PermissionDenied`. With `force`, a failing listing ends the call as `Other` before anything is removed. Otherwise every collected entry is removed deepest first, each child before its parent and the directory last, stopping at the first failure |
| CreateDir.Mkdir | distant-ssh2/src/api.rs:392-399 | `mkdir` succeeds exactly when the path can be made, and then makes it a directory; a refusal is `Other` and changes nothing; directories are only added, and a well-formed namespace stays well-formed |
| CreateDir.Descend | distant-ssh2/src/api.rs:429-431 | The paths tried are a prefix of those given, all of them on success; directories are only added, and well-formedness is kept |
| CreateDir.CreateAll | distant-ssh2/src/api.rs:401-431 | The first path given to `mkdir` is the path itself; directories are only added, files stay, and a well-formed namespace stays well-formed |
| CreateDir.Chain | distant-ssh2/src/api.rs:404-412 | The path, then each parent in turn: one more element than the path has parts, starting at the path |
| CreateDir.ChainLink | distant-ssh2/src/api.rs:411-417 | Each element of the chain has one part fewer than the one before and is its parent; only the last has no parent |
| CreateDir.FirstCreatable | distant-ssh2/src/api.rs:406-408 | The first path of the chain that `mkdir` accepts, with every earlier one refused, or none |
| CreateDir.DescendPop | distant-ssh2/src/api.rs:429-431 | Popping the last failed path makes it first |
| CreateDir.Climb | distant-ssh2/src/api.rs:403-425 | The first loop gives `mkdir` the path and each parent up to the first it accepts. If none accepts, the call ends with `PermissionDenied` carrying the first error |
| CreateDir.ClimbStops | distant-ssh2/src/api.rs:406-424 | The first loop stops at the first creatable path, or runs out at the top of the chain |
| CreateDir.Rebuild | distant-ssh2/src/api.rs:429-431 | The second loop makes the failed paths shallowest first, stopping at the first failure |
| CreateDir.CreateDirectory | distant-ssh2/src/api.rs:378-437 | Without `all`, exactly one `mkdir` on the path. With `all`, exactly the outcome, namespace and `mkdir` sequence of `CreateAll` |
| CreateDir.AbsentBelow | distant-ssh2/src/api.rs:406-412 | Nothing exists below a path of the chain that `mkdir` accepts |
| CreateDir.LineDeepens | distant-ssh2/src/api.rs:429-431 | Each path of the failed list, shallowest first, lies one level below the one before |
| CreateDir.LineTail | distant-ssh2/src/api.rs:429-431 | The rest of the list still descends from its first path |
| CreateDir.MembersCons | distant-ssh2/src/api.rs:429-431 | The paths made are the first path and those made after it |
| CreateDir.DescendLine | distant-ssh2/src/api.rs:429-431 | Making a line of absent paths below a writable directory succeeds at every step and adds exactly those directories |
| CreateDir.ReversedChainIsLine | distant-ssh2/src/api.rs:426-431 | The failed paths, popped, form a line below the path that was made |
| CreateDir.MissingAt | distant-ssh2/src/api.rs:429-431 | The j-th path made again is the (k-1-j)-th of the chain |
| CreateDir.UnfoldCreateAll | distant-ssh2/src/api.rs:401-431 | When the k-th path is made first, the failed paths are made again in reverse order |
| CreateDir.MissingAbsent | distant-ssh2/src/api.rs:406-431 | The failed paths below the one made are absent and not read-only |
| CreateDir.MissingInChain | distant-ssh2/src/api.rs:410 | Every path made again is a path of the chain |
| CreateDir.MadeFrom | distant-ssh2/src/api.rs:401-431 | Once a path of the chain is made, every later `mkdir` succeeds, adding exactly the failed paths |
| CreateDir.CreateAllOutcome | distant-ssh2/src/api.rs:401-431 | With `all`, the call succeeds exactly when some path of the chain can be made. It then leaves the path a directory, adding directories only along the chain. Otherwise nothing changes, every path of the chain was tried, and the error is `PermissionDenied` with the server's reason for the path itself |
| CreateDir.CreateAllOrder | distant-ssh2/src/api.rs:403-431 | On success the paths given to `mkdir` are the path and each parent up to the first made, then the failed ones, shallowest first, so the path itself is made last |
| CreateDir.ExistingDirectoryRefused | distant-ssh2/src/api.rs:406-421 | With `all`, a path that already is a directory fails with `PermissionDenied`, since no `mkdir` along its chain can succeed |
| CreateDir.AllExist | distant-ssh2/src/api.rs:411 | Every parent of an existing directory exists |
| MetadataQuery.MetadataOf | distant-ssh2/src/api.rs:613-674 | Succeeds exactly when canonicalizing (if asked) and the stat both succeed. A canonicalize error is returned unchanged, a stat error as `Other`. The canonical path is present exactly when asked. The type is `Dir` / `File` / `Symlink` by the stat's kind, the length defaults to 0, and the times and mode bits are copied. Read-only holds exactly unless some write bit is reported |
| Capabilities.Take | distant-ssh2/src/api.rs:1008-1012 | `take` leaves the kind absent and removes nothing else; putting the kind back when it was reported present gives the original set, so the report is true exactly when the kind was there and the set shrinks by exactly one then |
| Capabilities.Version | distant-ssh2/src/api.rs:1001-1019 | The reported capabilities are exactly those of the full set other than `Search`, `CancelSearch` and `SetPermissions` |
| Processes.Decimal | distant-ssh2/src/api.rs:889 | A number formats as a non-empty string of digits, without a leading zero, whose decimal value is the number |
| Processes.DecimalInjective | distant-ssh2/src/api.rs:889 | Different numbers format differently, so the message names the process unambiguously |
| Processes.ProcKill | distant-ssh2/src/api.rs:877-893 | `proc_kill` succeeds exactly when the id is in the table and its kill channel is open; otherwise it fails with `BrokenPipe` and the kill message naming the connection and the id |
| Processes.ProcStdin | distant-ssh2/src/api.rs:895-919 | `proc_stdin` succeeds exactly when the id is in the table and its stdin channel is open; otherwise it fails with `BrokenPipe` and the stdin message |
| Processes.ProcResizePty | distant-ssh2/src/api.rs:921-945 | `proc_resize_pty` succeeds exactly when the id is in the table and its resize channel is open; otherwise it fails with `BrokenPipe` and the resize message |
| Processes.Send | distant-ssh2/src/api.rs:877-945 | A lookup succeeds exactly when the id is in the table and its channel accepts the send; otherwise it fails with `BrokenPipe` and the call's own message |
| Processes.UnknownProcessBrokenPipe | distant-ssh2/src/api.rs:877-945 | An id missing from the table fails `proc_kill`, `proc_stdin` and `proc_resize_pty` with `BrokenPipe` |
| Processes.OtherProcessesIrrelevant | distant-ssh2/src/api.rs:880 | A lookup depends only on its own process: adding, replacing or removing any other entry of the table does not change it |

## Left out

- The transport of the manager client: the async mailbox, `fire` and `send` failures, and logging. The handler's own mutable state is not modelled either; the handler is three fixed functions.
- The text of an unexpected response: the model keeps the prefix "Got unexpected response" of its message and not the `Debug` rendering of the response.
- `open_raw_channel` in the manager client: it spawns a channel and makes no decision.
- The SFTP session and `utils::canonicalize`: these are foreign code. They are pure lookups here, answering the same for the same path during one call.
- `read_dir` without a depth limit can loop forever: it follows symlinks, so a symlink to an ancestor makes an endless chain of listings. The model covers the calls that end, those whose reachable entries form a finite region on which a ghost rank descends. `remove` with `force` types each child from its own listing's metadata and so never follows a symlink; it carries the same ghost region and rank only because the SFTP session is an arbitrary lookup here, and any finite directory tree meets that precondition.
- `sort_unstable_by_key`: its order among equal keys is unspecified. The model takes one sorted permutation, and every property proved holds for any sorted permutation.
- The remote `mkdir` of `create_dir` is modelled by POSIX semantics on an explicit namespace (absent path, writable parent directory); the server's own rules, mode 0o755 and symlinked parents are not modelled.
- Integer widths (`usize` depths, `u64` sizes and times, `u32` process ids and `u32` connection ids, `ConnectionId`) are unbounded naturals.
- Remote.Components: every part is a normal component. Rust gives `..` its own component, `ParentDir`, and a leading `.` the component `CurDir`. Both sort before every normal component, and any other `.` part is dropped. The paths `read_dir` sorts come from a canonicalized root and SFTP listings, which hold no such parts, so that ordering is not modelled.
- `metadata`: the `windows` field (always `None`) and the conversion of times are not modelled.
- `version`: the `server_version` and `protocol_version` fields are constants and are not modelled. The `CapabilityKind` enum and `Capabilities::all` are not part of this model, so the full set is a parameter.
- `proc_stdin` and `proc_resize_pty`: the bytes and the size are not delivered anywhere; the model decides only whether the send succeeds.
- `proc_spawn`, `system_info` and `is_windows`: process spawning, async channels and cached remote queries.
- `read_file`, `read_file_text`, `write_file`, `write_file_text`, `append_file`, `append_file_text`, `rename` and `exists`: each is one SFTP call with no logic of its own.
- `copy`: it runs `cp` or PowerShell on the remote machine.
- `set_permissions`: it returns `Unsupported` before any of its logic.
