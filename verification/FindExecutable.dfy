/** The worklist search of self_update.rs for the one executable in an extraction directory. */
module FindExecutable {
  import opened Prelude
  import Archives

  /** A directory entry's name; `Raw` ones are not UTF-8. */
  datatype Name = Utf8(text: string) | Raw(id: nat)

  type Path = seq<Name>

  /** What `symlink_metadata` and `read_dir` see. A directory's entries come in no particular order. */
  datatype Node =
    | File
    | Link
    | Special
    | Unreadable
    | Dir(readable: bool, children: map<Name, Node>)

  datatype SearchError = IoFailure | ContainsLink | ContainsSpecial | NotExactlyOne(found: nat)

  type Names = Archives.Names

  function Lookup(t: Node, p: Path): Option<Node> {
    if p == [] then Some(t)
    else if t.Dir? && p[0] in t.children then Lookup(t.children[p[0]], p[1..])
    else None
  }

  function AllPaths(t: Node): set<Path> {
    {[]} + if t.Dir? then set k, q | k in t.children && q in AllPaths(t.children[k]) :: [k] + q else {}
  }

  lemma {:induction false} AllPathsAreLookups(t: Node, p: Path)
    ensures p in AllPaths(t) <==> Lookup(t, p).Some?
    decreases |p|
  {
    if p != [] && t.Dir? {
      if p[0] in t.children {
        AllPathsAreLookups(t.children[p[0]], p[1..]);
        assert p == [p[0]] + p[1..];
      }
      if p in AllPaths(t) {
        var k, q :| k in t.children && q in AllPaths(t.children[k]) && p == [k] + q;
        assert p[0] == k && p[1..] == q;
      }
    }
  }

  lemma {:induction false} LookupChild(t: Node, p: Path, k: Name)
    requires Lookup(t, p).Some?
    ensures Lookup(t, p + [k]) == var n := Lookup(t, p).value;
                                  if n.Dir? && k in n.children then Some(n.children[k]) else None
    decreases |p|
  {
    if p == [] {
      assert (p + [k])[1..] == [];
    } else {
      assert (p + [k])[1..] == p[1..] + [k];
      LookupChild(t.children[p[0]], p[1..], k);
    }
  }

  lemma {:induction false} LookupPrefix(t: Node, p: Path, q: Path)
    requires Lookup(t, q).Some? && p <= q
    ensures Lookup(t, p).Some?
    ensures p < q ==> Lookup(t, p).value.Dir? && q[|p|] in Lookup(t, p).value.children
    decreases |p|
  {
    if p != [] {
      LookupPrefix(t.children[p[0]], p[1..], q[1..]);
    }
  }

  // ----- What the search promises -----

  predicate IsOrdinary(n: Node) {
    n.File? || (n.Dir? && n.readable)
  }

  predicate IsWanted(names: Names, name: Name) {
    name == Utf8(names.wanted) || name == Utf8(names.binary)
  }

  /** `p` is a regular file with an executable name. */
  predicate Matches(root: Node, names: Names, p: Path) {
    p != [] && Lookup(root, p) == Some(File) && IsWanted(names, p[|p| - 1])
  }

  /** The whole tree holds only readable directories and regular files. */
  ghost predicate Tidy(root: Node) {
    root.Dir? && forall p :: Lookup(root, p).Some? ==> IsOrdinary(Lookup(root, p).value)
  }

  ghost function MatchSet(root: Node, names: Names): set<Path> {
    set p | p in AllPaths(root) && Matches(root, names, p)
  }

  /** Somewhere in the tree there is such a node. */
  ghost predicate Holds(root: Node, n: Node) {
    exists p :: Lookup(root, p) == Some(n)
  }

  /** A search error other than a wrong count names something that is in the tree. */
  ghost predicate IsCause(root: Node, e: SearchError) {
    match e
    case IoFailure => !Tidy(root)
    case ContainsLink => Holds(root, Link)
    case ContainsSpecial => Holds(root, Special)
    case NotExactlyOne(_) => false
  }

  ghost predicate OnlyMatch(root: Node, names: Names, p: Path) {
    Matches(root, names, p) && forall q :: Matches(root, names, q) ==> q == p
  }

  // ----- The frontier -----

  /** `p` lies at or below an unvisited node. */
  predicate Covered(frontier: set<Path>, p: Path) {
    exists f :: f in frontier && f <= p
  }

  predicate Visited(root: Node, names: Names, matches: seq<Path>, p: Path)
    requires Lookup(root, p).Some?
  {
    IsOrdinary(Lookup(root, p).value) && (Matches(root, names, p) ==> p in matches)
  }

  ghost predicate Inv(root: Node, names: Names, frontier: set<Path>, matches: seq<Path>) {
    && root.Dir?
    && (forall f :: f in frontier ==> Lookup(root, f).Some?)
    && (forall f, g :: f in frontier && g in frontier && f <= g ==> f == g)
    && (forall p :: Lookup(root, p).Some? ==> Covered(frontier, p) || Visited(root, names, matches, p))
    && (forall m :: m in matches ==> Matches(root, names, m) && !Covered(frontier, m))
    && (forall i, j :: 0 <= i < j < |matches| ==> matches[i] != matches[j])
  }

  /** The termination measure: the nodes still reachable from the frontier. */
  ghost function Unvisited(root: Node, frontier: set<Path>): set<Path> {
    set p | p in AllPaths(root) && Covered(frontier, p)
  }

  ghost function Children(d: Path, keys: set<Name>): set<Path> {
    set k | k in keys :: d + [k]
  }

  lemma ChildrenBelow(d: Path, keys: set<Name>, f: Path)
    requires f in Children(d, keys)
    ensures d < f && |f| == |d| + 1 && f[..|d|] == d && f[|d|] in keys && f == d + [f[|d|]]
  {
  }

  /** Below a directory lies itself and what its children cover. */
  lemma CoveredByChildren(root: Node, d: Path, p: Path)
    requires Lookup(root, p).Some? && d <= p && Lookup(root, d).Some? && Lookup(root, d).value.Dir?
    ensures p == d || Covered(Children(d, Lookup(root, d).value.children.Keys), p)
  {
    if p != d {
      LookupPrefix(root, d, p);
      var child := d + [p[|d|]];
      assert child in Children(d, Lookup(root, d).value.children.Keys);
      assert child <= p;
    }
  }

  lemma ExpandKeepsAntichain(root: Node, frontier: set<Path>, d: Path, keys: set<Name>)
    requires d in frontier
    requires forall f, g :: f in frontier && g in frontier && f <= g ==> f == g
    ensures var next := frontier - {d} + Children(d, keys);
            && (forall f, g :: f in next && g in next && f <= g ==> f == g)
            && (forall p :: Covered(next, p) ==> Covered(frontier, p))
            && !Covered(next, d)
  {
    var next := frontier - {d} + Children(d, keys);
    forall f, g | f in next && g in next && f <= g ensures f == g {
      if f in Children(d, keys) {
        ChildrenBelow(d, keys, f);
        if g in Children(d, keys) {
          ChildrenBelow(d, keys, g);
        }
      } else if g in Children(d, keys) {
        ChildrenBelow(d, keys, g);
        assert f <= d || f == g;
      }
    }
    forall p | Covered(next, p) ensures Covered(frontier, p) {
      var f :| f in next && f <= p;
      if f in Children(d, keys) {
        ChildrenBelow(d, keys, f);
        assert d <= p;
      }
    }
    if Covered(next, d) {
      var f :| f in next && f <= d;
      if f in Children(d, keys) {
        ChildrenBelow(d, keys, f);
      }
    }
  }

  /** Opening a readable directory replaces it in the frontier by its entries. */
  lemma ExpandKeepsInv(root: Node, names: Names, frontier: set<Path>, matches: seq<Path>, d: Path)
    requires Inv(root, names, frontier, matches) && d in frontier
    requires Lookup(root, d).value.Dir? && Lookup(root, d).value.readable
    ensures var next := frontier - {d} + Children(d, Lookup(root, d).value.children.Keys);
            Inv(root, names, next, matches) && Unvisited(root, next) < Unvisited(root, frontier)
  {
    var keys := Lookup(root, d).value.children.Keys;
    var next := frontier - {d} + Children(d, keys);
    ExpandKeepsAntichain(root, frontier, d, keys);
    forall f | f in next ensures Lookup(root, f).Some? {
      if f in Children(d, keys) {
        ChildrenBelow(d, keys, f);
        LookupChild(root, d, f[|d|]);
      }
    }
    forall p | Lookup(root, p).Some? ensures Covered(next, p) || Visited(root, names, matches, p) {
      if Covered(frontier, p) {
        var f :| f in frontier && f <= p;
        if f == d {
          CoveredByChildren(root, d, p);
          if p != d {
            CoverageGrows(Children(d, keys), next, p);
          }
        } else {
          assert f in next;
        }
      }
    }
    AllPathsAreLookups(root, d);
    assert d in Unvisited(root, frontier) && d !in Unvisited(root, next);
  }

  lemma CoverageGrows(small: set<Path>, large: set<Path>, p: Path)
    requires small <= large && Covered(small, p)
    ensures Covered(large, p)
  {
  }

  /** Visiting a regular file removes it from the frontier and may record it. */
  lemma FileKeepsInv(root: Node, names: Names, frontier: set<Path>, matches: seq<Path>, f: Path)
    requires Inv(root, names, frontier, matches) && f in frontier && Lookup(root, f) == Some(File)
    ensures Inv(root, names, frontier - {f}, if Matches(root, names, f) then matches + [f] else matches)
    ensures Unvisited(root, frontier - {f}) < Unvisited(root, frontier)
  {
    var next := frontier - {f};
    var found := if Matches(root, names, f) then matches + [f] else matches;
    assert Covered(frontier, f);
    assert !Covered(next, f);
    assert forall m :: m in matches ==> m in found;
    assert Matches(root, names, f) ==> f in found;
    forall p | Lookup(root, p).Some? ensures Covered(next, p) || Visited(root, names, found, p) {
      if Covered(frontier, p) {
        var g :| g in frontier && g <= p;
        if g != f {
          assert g in next;
        } else if p != f {
          LookupPrefix(root, f, p);
        }
      }
    }
    forall m | m in found ensures Matches(root, names, m) && !Covered(next, m) {
      if Covered(next, m) {
        CoverageGrows(next, frontier, m);
      }
    }
    AllPathsAreLookups(root, f);
    assert f in Unvisited(root, frontier) && f !in Unvisited(root, next);
    forall p | p in Unvisited(root, next) ensures p in Unvisited(root, frontier) {
      CoverageGrows(next, frontier, p);
    }
  }

  lemma FirstTwoDiffer(s: seq<Path>)
    requires |s| >= 2
    requires forall i, j :: 0 <= i < j < |s| ==> s[i] != s[j]
    ensures s[0] in s && s[1] in s && s[0] != s[1]
  {
  }

  lemma OnlyElement(s: seq<Path>, p: Path)
    requires p in s && forall q :: q in s ==> q == p
    requires forall i, j :: 0 <= i < j < |s| ==> s[i] != s[j]
    ensures s == [p]
  {
    assert s[0] in s;
    if |s| >= 2 {
      FirstTwoDiffer(s);
    }
  }

  /** With nothing left to visit the matches found are all there are. */
  lemma EmptyFrontier(root: Node, names: Names, matches: seq<Path>)
    requires Inv(root, names, {}, matches)
    ensures Tidy(root)
    ensures forall p :: p in matches <==> Matches(root, names, p)
    ensures forall p :: OnlyMatch(root, names, p) <==> matches == [p]
    ensures |matches| == |MatchSet(root, names)|
  {
    forall p | Lookup(root, p).Some? ensures Visited(root, names, matches, p) {
      assert !Covered({}, p);
    }
    forall p ensures OnlyMatch(root, names, p) <==> matches == [p] {
      if OnlyMatch(root, names, p) {
        assert p in matches;
        OnlyElement(matches, p);
      }
    }
    forall p ensures p in MatchSet(root, names) <==> p in matches {
      AllPathsAreLookups(root, p);
    }
    assert MatchSet(root, names) == set p | p in matches;
    DistinctCount(matches);
  }

  lemma {:induction false} DistinctCount(s: seq<Path>)
    requires forall i, j :: 0 <= i < j < |s| ==> s[i] != s[j]
    ensures |set p | p in s| == |s|
  {
    if s != [] {
      DistinctCount(s[1..]);
      assert (set p | p in s) == {s[0]} + (set p | p in s[1..]);
    }
  }

  // ----- The search -----

  /** A stack entry: a directory's path and what was found there. */
  type Pending = (Path, Node)

  ghost function StackPaths(stack: seq<Pending>): set<Path> {
    set e | e in stack :: e.0
  }

  ghost predicate StackOk(root: Node, stack: seq<Pending>) {
    && (forall e :: e in stack ==> Lookup(root, e.0) == Some(e.1))
    && (forall i, j :: 0 <= i < j < |stack| ==> stack[i].0 != stack[j].0)
  }

  lemma PopStack(root: Node, stack: seq<Pending>)
    requires StackOk(root, stack) && stack != []
    ensures var rest, top := stack[..|stack| - 1], stack[|stack| - 1];
            && StackOk(root, rest) && top.0 !in StackPaths(rest)
            && StackPaths(stack) == StackPaths(rest) + {top.0}
  {
    var rest, top := stack[..|stack| - 1], stack[|stack| - 1];
    assert stack == rest + [top];
  }

  lemma PushStack(root: Node, stack: seq<Pending>, e: Pending)
    requires StackOk(root, stack) && Lookup(root, e.0) == Some(e.1) && e.0 !in StackPaths(stack)
    ensures StackOk(root, stack + [e]) && StackPaths(stack + [e]) == StackPaths(stack) + {e.0}
  {
    var all := stack + [e];
    forall i, j | 0 <= i < j < |all| ensures all[i].0 != all[j].0 {
      assert all[i] in stack;
      assert all[i].0 in StackPaths(stack);
    }
    forall p | p in StackPaths(stack) + {e.0} ensures p in StackPaths(all) {
      if p in StackPaths(stack) {
        var f :| f in stack && f.0 == p;
        assert f in all;
      } else {
        assert e in all;
      }
    }
  }

  /**
   Terminates on every finite tree, in whatever order directories list their entries, and succeeds
   with `p` exactly when the tree is tidy and `p` is its one match. A wrong count is reported exactly on
   tidy trees, and is the number of matches; other errors name something found in the tree.
   */
  method Find(root: Node, names: Names) returns (r: Result<Path, SearchError>)
    ensures forall p :: r == Ok(p) <==> Tidy(root) && OnlyMatch(root, names, p)
    ensures r.Err? && Tidy(root) ==> r.error == NotExactlyOne(|MatchSet(root, names)|)
    ensures r.Err? && !Tidy(root) ==> IsCause(root, r.error)
  {
    if !root.Dir? {
      return Err(IoFailure);
    }
    var stack: seq<Pending> := [([], root)];
    var matches: seq<Path> := [];
    StartInv(root, names);
    assert StackPaths(stack) == {[]};
    while stack != []
      invariant StackOk(root, stack)
      invariant forall e :: e in stack ==> e.1.Dir?
      invariant Inv(root, names, StackPaths(stack), matches)
      decreases Unvisited(root, StackPaths(stack))
    {
      ghost var before := StackPaths(stack);
      PopStack(root, stack);
      var (directory, node) := stack[|stack| - 1];
      assert stack[|stack| - 1] in stack;
      stack := stack[..|stack| - 1];
      if !node.readable {
        NotTidy(root, directory);
        return Err(IoFailure);
      }
      var failure;
      stack, matches, failure := VisitEntries(root, names, stack, matches, directory, node);
      if failure.Some? {
        return Err(failure.value);
      }
      assert Ahead(stack, directory, {}) == StackPaths(stack);
    }
    assert StackPaths(stack) == {};
    EmptyFrontier(root, names, matches);
    r := if |matches| == 1 then Ok(matches[0]) else Err(NotExactlyOne(|matches|));
  }

  lemma StartInv(root: Node, names: Names)
    requires root.Dir?
    ensures Inv(root, names, {[]}, [])
  {
    var top: Path := [];
    forall p ensures Covered({top}, p) {
      assert top <= p;
    }
  }

  lemma NotTidy(root: Node, p: Path)
    requires Lookup(root, p).Some? && !IsOrdinary(Lookup(root, p).value)
    ensures !Tidy(root)
  {
  }

  lemma TakeChild(d: Path, keys: set<Name>, k: Name)
    requires k in keys
    ensures d + [k] in Children(d, keys)
    ensures d + [k] !in Children(d, keys - {k})
    ensures Children(d, keys) == Children(d, keys - {k}) + {d + [k]}
  {
    if d + [k] in Children(d, keys - {k}) {
      ChildrenBelow(d, keys - {k}, d + [k]);
    }
    forall f | f in Children(d, keys) ensures f in Children(d, keys - {k}) + {d + [k]} {
      ChildrenBelow(d, keys, f);
    }
  }

  /** Midway through a directory: some of its entries are still ahead. */
  ghost predicate Visiting(root: Node, names: Names, stack: seq<Pending>, matches: seq<Path>,
                           directory: Path, remaining: set<Name>)
  {
    && StackOk(root, stack)
    && (forall e :: e in stack ==> e.1.Dir?)
    && StackPaths(stack) !! Children(directory, remaining)
    && Inv(root, names, StackPaths(stack) + Children(directory, remaining), matches)
  }

  ghost function Ahead(stack: seq<Pending>, directory: Path, remaining: set<Name>): set<Path> {
    StackPaths(stack) + Children(directory, remaining)
  }

  lemma PushChild(root: Node, names: Names, stack: seq<Pending>, matches: seq<Path>,
                  directory: Path, remaining: set<Name>, name: Name, entry: Node)
    requires Visiting(root, names, stack, matches, directory, remaining) && name in remaining
    requires Lookup(root, directory + [name]) == Some(entry) && entry.Dir?
    ensures Visiting(root, names, stack + [(directory + [name], entry)], matches, directory, remaining - {name})
    ensures Ahead(stack + [(directory + [name], entry)], directory, remaining - {name}) == Ahead(stack, directory, remaining)
  {
    TakeChild(directory, remaining, name);
    PushStack(root, stack, (directory + [name], entry));
    assert Ahead(stack + [(directory + [name], entry)], directory, remaining - {name}) == Ahead(stack, directory, remaining);
  }

  lemma RecordFile(root: Node, names: Names, stack: seq<Pending>, matches: seq<Path>,
                   directory: Path, remaining: set<Name>, name: Name)
    requires Visiting(root, names, stack, matches, directory, remaining) && name in remaining
    requires Lookup(root, directory + [name]) == Some(File)
    ensures Visiting(root, names, stack, if IsWanted(names, name) then matches + [directory + [name]] else matches,
                     directory, remaining - {name})
    ensures Unvisited(root, Ahead(stack, directory, remaining - {name})) < Unvisited(root, Ahead(stack, directory, remaining))
  {
    var path := directory + [name];
    TakeChild(directory, remaining, name);
    FileKeepsInv(root, names, Ahead(stack, directory, remaining), matches, path);
    assert Ahead(stack, directory, remaining) - {path} == Ahead(stack, directory, remaining - {name});
  }

  /** The loop over one directory's entries, in an arbitrary order. */
  method VisitEntries(root: Node, names: Names, stack0: seq<Pending>, matches0: seq<Path>, directory: Path, node: Node)
    returns (stack: seq<Pending>, matches: seq<Path>, failure: Option<SearchError>)
    requires StackOk(root, stack0) && directory !in StackPaths(stack0)
    requires forall e :: e in stack0 ==> e.1.Dir?
    requires Lookup(root, directory) == Some(node) && node.Dir? && node.readable
    requires Inv(root, names, StackPaths(stack0) + {directory}, matches0)
    ensures failure.Some? ==> !Tidy(root) && IsCause(root, failure.value)
    ensures failure.None? ==> Visiting(root, names, stack, matches, directory, {})
    ensures failure.None? ==>
              Unvisited(root, Ahead(stack, directory, {})) < Unvisited(root, StackPaths(stack0) + {directory})
  {
    stack, matches, failure := stack0, matches0, None;
    var remaining := node.children.Keys;
    StartVisit(root, names, stack0, matches0, directory);
    while remaining != {}
      invariant remaining <= node.children.Keys
      invariant Visiting(root, names, stack, matches, directory, remaining)
      invariant Unvisited(root, Ahead(stack, directory, remaining)) < Unvisited(root, StackPaths(stack0) + {directory})
      decreases remaining
    {
      var name :| name in remaining;
      var path := directory + [name];
      var entry := node.children[name];
      LookupChild(root, directory, name);
      match entry {
        case Unreadable =>
          NotTidy(root, path);
          failure := Some(IoFailure);
          return;
        case Link =>
          NotTidy(root, path);
          failure := Some(ContainsLink);
          return;
        case Special =>
          NotTidy(root, path);
          failure := Some(ContainsSpecial);
          return;
        case Dir(_, _) =>
          PushChild(root, names, stack, matches, directory, remaining, name, entry);
          stack := stack + [(path, entry)];
        case File =>
          RecordFile(root, names, stack, matches, directory, remaining, name);
          if IsWanted(names, name) {
            matches := matches + [path];
          }
      }
      remaining := remaining - {name};
    }
  }

  lemma StartVisit(root: Node, names: Names, stack: seq<Pending>, matches: seq<Path>, directory: Path)
    requires StackOk(root, stack) && directory !in StackPaths(stack)
    requires forall e :: e in stack ==> e.1.Dir?
    requires Lookup(root, directory).Some? && Lookup(root, directory).value.Dir? && Lookup(root, directory).value.readable
    requires Inv(root, names, StackPaths(stack) + {directory}, matches)
    ensures var keys := Lookup(root, directory).value.children.Keys;
            && Visiting(root, names, stack, matches, directory, keys)
            && Unvisited(root, Ahead(stack, directory, keys)) < Unvisited(root, StackPaths(stack) + {directory})
  {
    var frontier := StackPaths(stack) + {directory};
    var keys := Lookup(root, directory).value.children.Keys;
    ExpandKeepsInv(root, names, frontier, matches, directory);
    assert frontier - {directory} == StackPaths(stack);
    forall f | f in Children(directory, keys) ensures f !in StackPaths(stack) {
      ChildrenBelow(directory, keys, f);
      assert directory in frontier;
    }
  }

  /** A readable directory holding just these regular files. */
  function DirectoryOf(files: map<string, seq<Byte>>): Node {
    Dir(true, map name | name in files :: Utf8(name) := File)
  }

  /** What a successful zip extraction leaves in an empty directory: one file, named as wanted. */
  lemma SingleFileIsFound(names: Names, content: seq<Byte>)
    ensures var root := DirectoryOf(map[names.wanted := content]);
            Tidy(root) && OnlyMatch(root, names, [Utf8(names.wanted)])
  {
    var root := DirectoryOf(map[names.wanted := content]);
    assert root == Dir(true, map[Utf8(names.wanted) := File]);
    forall p | Lookup(root, p).Some? ensures p == [] || p == [Utf8(names.wanted)] {
      if p != [] {
        assert Lookup(File, p[1..]).Some?;
        assert p == [p[0]] + p[1..];
      }
    }
    assert Lookup(root, [Utf8(names.wanted)]) == Lookup(File, [Utf8(names.wanted)][1..]);
  }

  /** A regular file below a chain of directories, and nothing else. */
  function Nest(dirs: Path, name: Name): Node {
    if dirs == [] then Dir(true, map[name := File]) else Dir(true, map[dirs[0] := Nest(dirs[1..], name)])
  }

  lemma {:induction false} NestHolds(dirs: Path, name: Name, p: Path)
    requires Lookup(Nest(dirs, name), p).Some?
    ensures IsOrdinary(Lookup(Nest(dirs, name), p).value)
    ensures Lookup(Nest(dirs, name), p).value.File? <==> p == dirs + [name]
    decreases |dirs|
  {
    if p != [] {
      assert p == [p[0]] + p[1..];
      if dirs == [] {
        assert p[1..] == [];
      } else {
        NestHolds(dirs[1..], name, p[1..]);
        assert dirs + [name] == [dirs[0]] + (dirs[1..] + [name]);
      }
    }
  }

  lemma {:induction false} NestEnds(dirs: Path, name: Name)
    ensures Lookup(Nest(dirs, name), dirs + [name]) == Some(File)
  {
    if dirs == [] {
      assert [name][1..] == [];
    } else {
      NestEnds(dirs[1..], name);
      assert (dirs + [name])[1..] == dirs[1..] + [name];
    }
  }

  /** The only file in a tree is found exactly when its own name is an executable name, however deep it lies. */
  lemma LoneFileIsFoundIff(dirs: Path, name: Name, names: Names)
    ensures Tidy(Nest(dirs, name))
    ensures OnlyMatch(Nest(dirs, name), names, dirs + [name]) <==> name == Utf8(names.wanted) || name == Utf8(names.binary)
  {
    var root, path := Nest(dirs, name), dirs + [name];
    forall p | Lookup(root, p).Some? ensures IsOrdinary(Lookup(root, p).value) && (Lookup(root, p).value.File? <==> p == path) {
      NestHolds(dirs, name, p);
    }
    NestEnds(dirs, name);
  }
}
