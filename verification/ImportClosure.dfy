/** The files a packed script needs, after adapters/native/packer.py and domain/packing.py. */
module ImportClosure {
  import opened Texts

  type Path = string

  /** A dotted name, part by part. */
  type Name = seq<string>

  // ----- the names a source imports

  /** An import statement: `import a.b, c`, or `from ..module import names`, the module empty where none is
      named. */
  datatype Node = Import(modules: seq<Name>) | FromImport(level: nat, module_: Name, names: seq<string>)

  /** `_with_parents`: the name after each of its parent packages. */
  function WithParents(name: Name): seq<Name> {
    if name == [] then [] else WithParents(name[..|name| - 1]) + [name]
  }

  /** `_resolve_from_base`: a relative import climbs from the package the module is in; one that climbs past
      the root is dropped. */
  function ResolveFromBase(level: nat, module_: Name, package: Name): Option<Name> {
    if level == 0 then Some(module_)
    else
      var climb := level - 1;
      if climb > |package| then None else Some(package[..|package| - climb] + module_)
  }

  function AllWithParents(modules: seq<Name>): seq<Name> {
    if modules == [] then [] else AllWithParents(modules[..|modules| - 1]) + WithParents(modules[|modules| - 1])
  }

  /** The imported names as submodules of the base, `*` left out. */
  function Below(base: Name, names: seq<string>): seq<Name> {
    if names == [] then []
    else
      var last := names[|names| - 1];
      Below(base, names[..|names| - 1]) + if last == "*" then [] else [base + [last]]
  }

  /** `_node_candidates`. */
  function NodeCandidates(node: Node, package: Name): seq<Name> {
    match node
    case Import(modules) => AllWithParents(modules)
    case FromImport(level, module_, names) =>
      match ResolveFromBase(level, module_, package)
      case None => []
      case Some(base) => WithParents(base) + Below(base, names)
  }

  function AddNew(seen: seq<Name>, more: seq<Name>): seq<Name> {
    if more == [] then seen
    else
      var before, last := AddNew(seen, more[..|more| - 1]), more[|more| - 1];
      if last in before then before else before + [last]
  }

  /** `iter_import_candidates`: each name once, in the order of its first appearance. */
  function Candidates(nodes: seq<Node>, package: Name): seq<Name> {
    if nodes == [] then []
    else AddNew(Candidates(nodes[..|nodes| - 1], package), NodeCandidates(nodes[|nodes| - 1], package))
  }

  /** A name stands with all its parent packages among the names. */
  ghost predicate HoldsParents(names: seq<Name>) {
    forall n, k :: n in names && 1 <= k <= |n| ==> n[..k] in names
  }

  /** The parents come first, the outermost before the others. */
  lemma {:induction false} WithParentsInOrder(name: Name)
    ensures |WithParents(name)| == |name|
    ensures forall i :: 0 <= i < |name| ==> WithParents(name)[i] == name[..i + 1]
  {
    if name != [] {
      var init := name[..|name| - 1];
      WithParentsInOrder(init);
      forall i | 0 <= i < |name|
        ensures WithParents(name)[i] == name[..i + 1]
      {
        assert i < |init| ==> WithParents(init)[i] == init[..i + 1] == name[..i + 1];
      }
    }
  }

  lemma WithParentsMembers(name: Name)
    ensures forall n :: n in WithParents(name) <==> 1 <= |n| <= |name| && n == name[..|n|]
  {
    WithParentsInOrder(name);
    forall n | 1 <= |n| <= |name| && n == name[..|n|]
      ensures n in WithParents(name)
    {
      assert WithParents(name)[|n| - 1] == n;
    }
  }

  lemma HoldsBoth(a: seq<Name>, b: seq<Name>)
    requires HoldsParents(a) && HoldsParents(b)
    ensures HoldsParents(a + b)
  {
  }

  lemma WithParentsHold(name: Name)
    ensures HoldsParents(WithParents(name)) && [] !in WithParents(name)
  {
    WithParentsMembers(name);
    forall n, k | n in WithParents(name) && 1 <= k <= |n|
      ensures n[..k] in WithParents(name)
    {
      assert n[..k] == name[..k];
    }
  }

  lemma {:induction false} AllWithParentsHold(modules: seq<Name>)
    ensures HoldsParents(AllWithParents(modules)) && [] !in AllWithParents(modules)
  {
    if modules != [] {
      var last := modules[|modules| - 1];
      AllWithParentsHold(modules[..|modules| - 1]);
      WithParentsHold(last);
      HoldsBoth(AllWithParents(modules[..|modules| - 1]), WithParents(last));
      hide HoldsParents, WithParents;
    }
  }

  lemma {:induction false} BelowMembers(base: Name, names: seq<string>)
    ensures forall n :: n in Below(base, names) <==> exists x :: x in names && x != "*" && n == base + [x]
  {
    if names != [] {
      var init, last := names[..|names| - 1], names[|names| - 1];
      BelowMembers(base, init);
      assert names == init + [last];
    }
  }

  lemma ParentsArePrefixes(name: Name)
    ensures forall n :: n in WithParents(name) <==> n != [] && n <= name
  {
    WithParentsMembers(name);
  }

  /** The name is one of the modules or a parent of one. */
  ghost predicate IsPrefixOfOne(n: Name, modules: seq<Name>) {
    exists m :: m in modules && n != [] && n <= m
  }

  lemma PrefixOfOneMore(n: Name, modules: seq<Name>, last: Name)
    ensures IsPrefixOfOne(n, modules + [last]) <==> IsPrefixOfOne(n, modules) || (n != [] && n <= last)
  {
    if IsPrefixOfOne(n, modules) {
      var m :| m in modules && n != [] && n <= m;
      assert m in modules + [last];
    }
    if n != [] && n <= last {
      assert last in modules + [last];
    }
  }

  lemma {:induction false} AllWithParentsMembers(modules: seq<Name>)
    ensures forall n :: n in AllWithParents(modules) <==> IsPrefixOfOne(n, modules)
  {
    if modules != [] {
      var init, last := modules[..|modules| - 1], modules[|modules| - 1];
      AllWithParentsMembers(init);
      ParentsArePrefixes(last);
      assert modules == init + [last];
      hide IsPrefixOfOne, WithParents;
      forall n
        ensures n in AllWithParents(modules) <==> IsPrefixOfOne(n, modules)
      {
        PrefixOfOneMore(n, init, last);
      }
    }
  }

  /** Where a relative import of the level starts from: the package with its last `level - 1` parts climbed out
      of; an import without a level starts from the root. */
  ghost predicate IsAnchor(level: nat, package: Name, anchor: Name) {
    if level == 0 then anchor == [] else exists climbed: Name :: |climbed| == level - 1 && anchor + climbed == package
  }

  /** What a statement in a module of the package imports: each module named with its parents; or, below the anchor,
      the module imported from with its parents, and the names imported as submodules of it. */
  ghost predicate Names(node: Node, package: Name, n: Name) {
    match node
    case Import(modules) => IsPrefixOfOne(n, modules)
    case FromImport(level, module_, names) =>
      exists anchor :: IsAnchor(level, package, anchor) &&
        ((n != [] && n <= anchor + module_) || exists x :: x in names && x != "*" && n == anchor + module_ + [x])
  }

  /** The base is the module below the one anchor there is, and none where the import climbs past the root. */
  lemma BaseIsBelowTheAnchor(level: nat, module_: Name, package: Name)
    ensures var base := ResolveFromBase(level, module_, package);
      && (base.None? <==> level > |package| + 1)
      && (base.None? <==> forall anchor :: !IsAnchor(level, package, anchor))
      && forall anchor :: IsAnchor(level, package, anchor) ==> base == Some(anchor + module_)
  {
    if 1 <= level <= |package| + 1 {
      var cut := |package| - (level - 1);
      assert package[..cut] + package[cut..] == package;
      assert IsAnchor(level, package, package[..cut]);
    } else if level == 0 {
      assert IsAnchor(level, package, []);
      assert [] + module_ == module_;
    }
    forall anchor | IsAnchor(level, package, anchor)
      ensures ResolveFromBase(level, module_, package) == Some(anchor + module_)
    {
      if level > 0 {
        var climbed: Name :| |climbed| == level - 1 && anchor + climbed == package;
        assert anchor == package[..|anchor|];
      }
    }
  }

  /** The candidates of a statement are exactly the names it imports. */
  lemma NodeCandidatesMembers(node: Node, package: Name, n: Name)
    ensures n in NodeCandidates(node, package) <==> Names(node, package, n)
  {
    match node {
      case Import(modules) =>
        AllWithParentsMembers(modules);
      case FromImport(level, module_, names) =>
        BaseIsBelowTheAnchor(level, module_, package);
        hide IsAnchor;
        var base := ResolveFromBase(level, module_, package);
        if base.Some? {
          ParentsArePrefixes(base.value);
          BelowMembers(base.value, names);
        }
    }
  }

  lemma BaseHoldsParents(base: Name, names: seq<string>)
    ensures HoldsParents(WithParents(base) + Below(base, names)) && [] !in WithParents(base) + Below(base, names)
  {
    var above, below := WithParents(base), Below(base, names);
    WithParentsHold(base);
    WithParentsMembers(base);
    BelowMembers(base, names);
    hide WithParents, Below;
    forall n, k | n in above + below && 1 <= k <= |n|
      ensures n[..k] in above + below
    {
      if n in below {
        if k == |n| {
          assert n[..k] == n;
        } else {
          assert n[..k] == base[..k];
        }
      }
    }
  }

  lemma NodeHoldsParents(node: Node, package: Name)
    ensures HoldsParents(NodeCandidates(node, package)) && [] !in NodeCandidates(node, package)
  {
    match node {
      case Import(modules) =>
        AllWithParentsHold(modules);
      case FromImport(level, module_, names) =>
        var base := ResolveFromBase(level, module_, package);
        if base.Some? {
          BaseHoldsParents(base.value, names);
        }
    }
  }

  lemma {:induction false} AddNewMembers(seen: seq<Name>, more: seq<Name>)
    ensures forall n :: n in AddNew(seen, more) <==> n in seen || n in more
  {
    if more != [] {
      AddNewMembers(seen, more[..|more| - 1]);
      assert more == more[..|more| - 1] + [more[|more| - 1]];
    }
  }

  /** Some statement imports the name. */
  ghost predicate IsNamed(nodes: seq<Node>, package: Name, n: Name) {
    exists node :: node in nodes && Names(node, package, n)
  }

  lemma NamedStep(nodes: seq<Node>, package: Name, n: Name)
    requires nodes != []
    ensures IsNamed(nodes, package, n) <==>
      IsNamed(nodes[..|nodes| - 1], package, n) || Names(nodes[|nodes| - 1], package, n)
  {
    hide Names;
    assert nodes == nodes[..|nodes| - 1] + [nodes[|nodes| - 1]];
  }

  /** The candidates of a source are exactly the names its statements import. */
  lemma {:induction false} CandidatesMembers(nodes: seq<Node>, package: Name, n: Name)
    ensures n in Candidates(nodes, package) <==> IsNamed(nodes, package, n)
  {
    if nodes != [] {
      var last := |nodes| - 1;
      CandidatesMembers(nodes[..last], package, n);
      NamedStep(nodes, package, n);
      NodeCandidatesMembers(nodes[last], package, n);
      AddNewMembers(Candidates(nodes[..last], package), NodeCandidates(nodes[last], package));
      hide NodeCandidates, AddNew, IsNamed, Names;
    }
  }

  lemma {:induction false} AddNewOnce(seen: seq<Name>, more: seq<Name>)
    requires Distinct(seen)
    ensures Distinct(AddNew(seen, more)) && seen <= AddNew(seen, more)
  {
    if more != [] {
      AddNewOnce(seen, more[..|more| - 1]);
    }
  }

  /** Each of them once. */
  lemma {:induction false} CandidatesOnce(nodes: seq<Node>, package: Name)
    ensures Distinct(Candidates(nodes, package))
  {
    if nodes != [] {
      var last := |nodes| - 1;
      CandidatesOnce(nodes[..last], package);
      AddNewOnce(Candidates(nodes[..last], package), NodeCandidates(nodes[last], package));
    }
  }

  /** Importing a name imports its parent packages: the candidates of a source are closed under them, and none
      is empty. */
  lemma {:induction false} CandidatesHoldParents(nodes: seq<Node>, package: Name)
    ensures HoldsParents(Candidates(nodes, package)) && [] !in Candidates(nodes, package)
  {
    if nodes != [] {
      CandidatesHoldParents(nodes[..|nodes| - 1], package);
      NodeHoldsParents(nodes[|nodes| - 1], package);
      AddNewMembers(Candidates(nodes[..|nodes| - 1], package), NodeCandidates(nodes[|nodes| - 1], package));
    }
  }

  // ----- the disk

  /** What a file is to the packer. */
  datatype Source = Unreadable | NotPython | Module(nodes: seq<Node>)

  /** The disk: what stands in each file, the package each file under the root is in, which file each name
      resolves to under the root (always one that exists), the standard library's top-level names, and which
      files lie under the root. */
  datatype World = World(files: map<Path, Source>, packages: map<Path, Name>, resolve: map<Name, Path>,
                         stdlib: set<string>, underRoot: set<Path>)

  ghost predicate IsWorld(w: World) {
    forall n :: n in w.resolve ==> w.resolve[n] in w.files
  }

  /** `_package_parts`: a file outside the root is in no package. */
  function PackageOf(w: World, p: Path): Name {
    if p in w.packages then w.packages[p] else []
  }

  // ----- classifying one name

  datatype ImportKind = Stdlib | Local | External

  /** `classify_import`: a local file shadows the standard library. */
  function ClassifyImport(name: Name, stdlib: set<string>, localNames: set<Name>): ImportKind
    requires name != []
  {
    if name in localNames then Local else if name[0] in stdlib then Stdlib else External
  }

  /** The name is neither local nor of the standard library. */
  predicate IsExternal(w: World, name: Name) {
    name != [] && name !in w.resolve && name[0] !in w.stdlib
  }

  // ----- what should be collected

  /** The names a file imports. */
  function ImportsOf(w: World, p: Path): seq<Name> {
    if p in w.files && w.files[p].Module? then Candidates(w.files[p].nodes, PackageOf(w, p)) else []
  }

  lemma ImportsHoldParents(w: World, p: Path)
    ensures HoldsParents(ImportsOf(w, p)) && [] !in ImportsOf(w, p)
  {
    if p in w.files && w.files[p].Module? {
      CandidatesHoldParents(w.files[p].nodes, PackageOf(w, p));
    }
  }

  /** The file lies in the package, or outside the root and in none. */
  ghost predicate IsInPackage(w: World, p: Path, package: Name) {
    (p in w.packages && w.packages[p] == package) || (p !in w.packages && package == [])
  }

  /** A statement of the file imports the name. */
  ghost predicate ImportsName(w: World, p: Path, n: Name) {
    && p in w.files && w.files[p].Module?
    && exists package :: IsInPackage(w, p, package) && IsNamed(w.files[p].nodes, package, n)
  }

  lemma ImportsMembers(w: World, p: Path)
    ensures forall n :: n in ImportsOf(w, p) <==> ImportsName(w, p, n)
  {
    assert IsInPackage(w, p, PackageOf(w, p));
    hide IsNamed;
    if p in w.files && w.files[p].Module? {
      forall n
        ensures n in ImportsOf(w, p) <==> ImportsName(w, p, n)
      {
        CandidatesMembers(w.files[p].nodes, PackageOf(w, p), n);
      }
    }
  }

  /** File `a` imports a name that resolves to file `b`. */
  ghost predicate Imports(w: World, a: Path, b: Path) {
    exists n :: ImportsName(w, a, n) && n in w.resolve && w.resolve[n] == b
  }

  ghost predicate ReachedIn(w: World, entry: Path, p: Path, n: nat)
    decreases n
  {
    if n == 0 then p == entry else exists q :: ReachedIn(w, entry, q, n - 1) && Imports(w, q, p)
  }

  /** The file can be reached from the entry through locally resolving names. */
  ghost predicate Reached(w: World, entry: Path, p: Path) {
    exists n: nat :: ReachedIn(w, entry, p, n)
  }

  lemma ReachedOneMore(w: World, entry: Path, q: Path, p: Path)
    requires Reached(w, entry, q) && Imports(w, q, p)
    ensures Reached(w, entry, p)
  {
    var n: nat :| ReachedIn(w, entry, q, n);
    assert ReachedIn(w, entry, p, n + 1);
  }

  /** `root` is the top-level part of a name, imported by one of the files, that is not local nor standard. */
  ghost predicate IsExternalRoot(w: World, files: set<Path>, root: string) {
    exists p, n :: p in files && ImportsName(w, p, n) && IsExternal(w, n) && n[0] == root
  }

  ghost predicate IsModule(w: World, p: Path) {
    p in w.files && w.files[p].Module?
  }

  /** The log names each of the files once. */
  ghost predicate ReadOnce(log: seq<Path>, files: set<Path>) {
    && (forall p :: p in files <==> p in log)
    && forall i, j :: 0 <= i < j < |log| ==> log[i] != log[j]
  }

  lemma ReadOneMore(log: seq<Path>, files: set<Path>, p: Path)
    requires ReadOnce(log, files) && p !in files
    ensures ReadOnce(log + [p], files + {p})
  {
    assert forall i :: 0 <= i < |log| ==> log[i] in log;
  }

  ghost predicate IsReadable(w: World, p: Path) {
    p in w.files && !w.files[p].Unreadable?
  }

  // ----- the worklist

  /** What one file's imports add: external top-level names, and local files not found before. */
  method SortImports(w: World, imports: seq<Name>, found: map<Path, Source>, external0: set<string>,
                     pending0: seq<Path>)
    returns (external: set<string>, pending: seq<Path>)
    requires forall n :: n in imports ==> n != []
    ensures forall r :: r in external <==> r in external0 || exists n :: n in imports && IsExternal(w, n) && n[0] == r
    ensures forall p :: p in pending <==>
      p in pending0 || (p !in found && exists n :: n in imports && n in w.resolve && w.resolve[n] == p)
  {
    external, pending := external0, pending0;
    for i := 0 to |imports|
      invariant forall r :: r in external <==>
        r in external0 || exists n :: n in imports[..i] && IsExternal(w, n) && n[0] == r
      invariant forall p :: p in pending <==>
        p in pending0 || (p !in found && exists n :: n in imports[..i] && n in w.resolve && w.resolve[n] == p)
    {
      var name := imports[i];
      assert name in imports;
      assert imports[..i + 1] == imports[..i] + [name];
      var localNames := if name in w.resolve then {name} else {};
      var kind := ClassifyImport(name, w.stdlib, localNames);
      if kind == External {
        external := external + {name[0]};
      } else if kind == Local && name in w.resolve && w.resolve[name] !in found {
        pending := pending + [w.resolve[name]];
      }
    }
    assert imports[..|imports|] == imports;
  }

  /** Found and pending files are reached; whatever a found file imports is found or pending. */
  ghost predicate Collecting(w: World, entry: Path, found: map<Path, Source>, external: set<string>,
                             pending: seq<Path>) {
    && (forall p :: p in found ==> IsModule(w, p) && found[p] == w.files[p] && Reached(w, entry, p))
    && (forall p :: p in pending ==> Reached(w, entry, p))
    && (entry in found || entry in pending)
    && (forall a, b :: a in found && Imports(w, a, b) ==> b in found || b in pending)
    && (forall r :: r in external <==> IsExternalRoot(w, found.Keys, r))
  }

  datatype Walked = Walked(found: map<Path, Source>, external: set<string>) | ReadFailed

  lemma LastAndRest(pending: seq<Path>)
    requires pending != []
    ensures pending == pending[..|pending| - 1] + [pending[|pending| - 1]]
  {
  }

  lemma NothingRead()
    ensures ReadOnce([], {})
  {
  }

  lemma StartsCollecting(w: World, entry: Path)
    ensures Collecting(w, entry, map[], {}, [entry])
  {
    assert ReachedIn(w, entry, entry, 0);
  }

  lemma DropFound(w: World, entry: Path, found: map<Path, Source>, external: set<string>, below: seq<Path>,
                  current: Path)
    requires Collecting(w, entry, found, external, below + [current]) && current in found
    ensures Collecting(w, entry, found, external, below)
  {
    assert forall p :: p in below ==> p in below + [current];
  }

  lemma CannotRead(w: World, entry: Path, found: map<Path, Source>, external: set<string>, pending: seq<Path>,
                   current: Path)
    requires Collecting(w, entry, found, external, pending)
    requires current in pending && (current !in w.files || !w.files[current].Module?)
    ensures Reached(w, entry, current) && !IsModule(w, current)
  {
  }

  lemma FewerUnfound(w: World, found: map<Path, Source>, current: Path)
    requires current in w.files && current !in found
    ensures |w.files.Keys - found[current := w.files[current]].Keys| < |w.files.Keys - found.Keys|
  {
    assert w.files.Keys - found.Keys == (w.files.Keys - found[current := w.files[current]].Keys) + {current};
  }

  lemma ExternalRootsGrow(w: World, files: set<Path>, p: Path)
    requires IsModule(w, p)
    ensures forall r :: IsExternalRoot(w, files + {p}, r) <==>
      IsExternalRoot(w, files, r) || exists n :: ImportsName(w, p, n) && IsExternal(w, n) && n[0] == r
  {
    hide ImportsName;
  }

  lemma NewAreReached(w: World, entry: Path, current: Path, below: seq<Path>,
                      pending': seq<Path>)
    requires Reached(w, entry, current) && forall p :: p in below ==> Reached(w, entry, p)
    requires forall p :: p in pending' ==>
      p in below || exists n :: ImportsName(w, current, n) && n in w.resolve && w.resolve[n] == p
    ensures forall p :: p in pending' ==> Reached(w, entry, p)
  {
    hide ImportsName, Reached;
    forall p | p in pending' && p !in below
      ensures Reached(w, entry, p)
    {
      assert Imports(w, current, p);
      ReachedOneMore(w, entry, current, p);
    }
  }

  lemma ImportedAreKept(w: World, current: Path, found: map<Path, Source>, below: seq<Path>, found': map<Path, Source>,
                        pending': seq<Path>)
    requires found'.Keys == found.Keys + {current}
    requires forall a, b :: a in found && Imports(w, a, b) ==> b in found || b in below + [current]
    requires forall p :: p in below ==> p in pending'
    requires forall n :: ImportsName(w, current, n) && n in w.resolve ==>
      w.resolve[n] in found' || w.resolve[n] in pending'
    ensures forall a, b :: a in found' && Imports(w, a, b) ==> b in found' || b in pending'
  {
    hide ImportsName;
    forall a, b | a in found' && Imports(w, a, b)
      ensures b in found' || b in pending'
    {
      if a in found {
        assert b in found || b in below + [current];
      }
    }
  }

  lemma Collect(w: World, entry: Path, found: map<Path, Source>, external: set<string>, below: seq<Path>, current: Path,
                external': set<string>, pending': seq<Path>)
    requires IsWorld(w) && Collecting(w, entry, found, external, below + [current])
    requires current !in found && IsModule(w, current)
    requires var found' := found[current := w.files[current]];
      && (forall r :: r in external' <==>
            r in external || exists n :: ImportsName(w, current, n) && IsExternal(w, n) && n[0] == r)
      && (forall p :: p in pending' <==>
            || p in below
            || (p !in found' && exists n :: ImportsName(w, current, n) && n in w.resolve && w.resolve[n] == p))
    ensures Collecting(w, entry, found[current := w.files[current]], external', pending')
  {
    var found' := found[current := w.files[current]];
    var before := below + [current];
    hide ImportsName, Imports, Reached, IsExternalRoot, IsExternal, IsWorld;
    assert current in before && forall p :: p in below ==> p in before;
    assert found'.Keys == found.Keys + {current};
    NewAreReached(w, entry, current, below, pending');
    ImportedAreKept(w, current, found, below, found', pending');
    assert entry in found || entry in before;
    ExternalRootsGrow(w, found.Keys, current);
  }

  lemma {:induction false} ReachedIsFound(w: World, entry: Path, found: map<Path, Source>, external: set<string>,
                                          p: Path, n: nat)
    requires Collecting(w, entry, found, external, []) && ReachedIn(w, entry, p, n)
    ensures p in found
    decreases n
  {
    hide IsExternalRoot, Imports, IsModule, Reached;
    if n > 0 {
      var q :| ReachedIn(w, entry, q, n - 1) && Imports(w, q, p);
      ReachedIsFound(w, entry, found, external, q, n - 1);
    }
  }

  lemma CollectedAll(w: World, entry: Path, found: map<Path, Source>, external: set<string>)
    requires Collecting(w, entry, found, external, [])
    ensures forall p :: p in found <==> Reached(w, entry, p)
    ensures forall p :: Reached(w, entry, p) ==> IsModule(w, p)
    ensures forall p :: p in found ==> p in w.files && found[p] == w.files[p]
    ensures forall x :: x in external <==> IsExternalRoot(w, found.Keys, x)
  {
    forall p | Reached(w, entry, p)
      ensures p in found
    {
      var n: nat :| ReachedIn(w, entry, p, n);
      ReachedIsFound(w, entry, found, external, p, n);
    }
  }

  /** One file read: its imports sorted. */
  method CollectFile(w: World, ghost entry: Path, found: map<Path, Source>, external: set<string>, below: seq<Path>,
                     current: Path)
    returns (found': map<Path, Source>, external': set<string>, pending: seq<Path>)
    requires IsWorld(w) && Collecting(w, entry, found, external, below + [current])
    requires current !in found && IsModule(w, current)
    ensures Collecting(w, entry, found', external', pending)
    ensures found' == found[current := w.files[current]] && found'.Keys == found.Keys + {current}
    ensures |w.files.Keys - found'.Keys| < |w.files.Keys - found.Keys|
  {
    hide Collecting, IsExternal, ImportsOf, ImportsName, HoldsParents, IsWorld;
    found' := found[current := w.files[current]];
    ImportsHoldParents(w, current);
    external', pending := SortImports(w, ImportsOf(w, current), found', external, below);
    ImportsMembers(w, current);
    Collect(w, entry, found, external, below, current, external', pending);
    FewerUnfound(w, found, current);
    assert found'.Keys == found.Keys + {current};
  }

  /** The loop of `_collect_sources`: it ends, having read each file once, with exactly the files reached
      from the entry, cycles and duplicates notwithstanding; it fails exactly where one of them cannot be
      read as Python. */
  method WalkImports(w: World, entry: Path) returns (r: Walked, log: seq<Path>)
    requires IsWorld(w)
    ensures r.ReadFailed? <==> exists p :: Reached(w, entry, p) && !IsModule(w, p)
    ensures r.Walked? ==> forall p :: p in r.found <==> Reached(w, entry, p)
    ensures r.Walked? ==> forall p :: p in r.found ==> p in w.files && r.found[p] == w.files[p]
    ensures r.Walked? ==> forall x :: x in r.external <==> IsExternalRoot(w, r.found.Keys, x)
    ensures r.Walked? ==> ReadOnce(log, r.found.Keys)
  {
    hide Collecting, Reached, IsExternalRoot, ReadOnce, IsWorld;
    var found: map<Path, Source> := map[];
    var external: set<string> := {};
    var pending := [entry];
    log := [];
    StartsCollecting(w, entry);
    assert ReadOnce(log, found.Keys) by { NothingRead(); }
    while pending != []
      invariant Collecting(w, entry, found, external, pending)
      invariant ReadOnce(log, found.Keys)
      decreases |w.files.Keys - found.Keys|, |pending|
    {
      var current := pending[|pending| - 1];
      var below := pending[..|pending| - 1];
      LastAndRest(pending);
      if current in found {
        DropFound(w, entry, found, external, below, current);
        pending := below;
        continue;
      }
      ReadOneMore(log, found.Keys, current);
      log := log + [current];
      if current !in w.files || !w.files[current].Module? {
        CannotRead(w, entry, found, external, pending, current);
        return ReadFailed, log;
      }
      found, external, pending := CollectFile(w, entry, found, external, below, current);
    }
    CollectedAll(w, entry, found, external);
    return Walked(found, external), log;
  }

  /** Importing a submodule runs its parents, and they are packed too: whatever a reached file imports, each
      parent package of it that resolves is reached. */
  lemma ParentsAreReached(w: World, entry: Path, p: Path, n: Name, k: nat)
    requires Reached(w, entry, p) && ImportsName(w, p, n)
    requires 1 <= k <= |n| && n[..k] in w.resolve
    ensures Reached(w, entry, w.resolve[n[..k]])
  {
    ImportsHoldParents(w, p);
    ImportsMembers(w, p);
    assert n[..k] in ImportsOf(w, p);
    ReachedOneMore(w, entry, p, w.resolve[n[..k]]);
  }

  // ----- the whole collection

  datatype Collection = Collected(files: map<Path, Source>, external: set<string>) | Failed

  /** The collection succeeds: every file reached is Python, every included file can be read, and all lie
      under the root. */
  ghost predicate CanCollect(w: World, entry: Path, extras: seq<Path>) {
    && (forall p :: Reached(w, entry, p) ==> IsModule(w, p) && p in w.underRoot)
    && (forall p :: p in extras ==> IsReadable(w, p) && p in w.underRoot)
  }

  lemma ExternalRootsOfReached(w: World, entry: Path, found: set<Path>)
    requires forall p :: p in found <==> Reached(w, entry, p)
    requires forall p :: Reached(w, entry, p) ==> IsModule(w, p)
    ensures forall x :: IsExternalRoot(w, found, x) <==>
      exists p, n :: Reached(w, entry, p) && ImportsName(w, p, n) && IsExternal(w, n) && n[0] == x
  {
  }

  /** `_collect_sources`: exactly the files reached and the files included (which are not walked), each
      read once, and exactly the top-level names that neither resolve, nor are standard, nor resolve by
      themselves. */
  method CollectSources(w: World, entry: Path, extras: seq<Path>) returns (r: Collection, log: seq<Path>)
    requires IsWorld(w)
    ensures r.Collected? <==> CanCollect(w, entry, extras)
    ensures r.Collected? ==> forall p :: p in r.files <==> Reached(w, entry, p) || p in extras
    ensures r.Collected? ==> forall p :: p in r.files ==> p in w.files && r.files[p] == w.files[p]
    ensures r.Collected? ==> forall x :: x in r.external <==>
      [x] !in w.resolve && exists p, n :: Reached(w, entry, p) && ImportsName(w, p, n) && IsExternal(w, n) && n[0] == x
    ensures r.Collected? ==> ReadOnce(log, r.files.Keys)
  {
    var walked;
    walked, log := WalkImports(w, entry);
    if walked.ReadFailed? {
      return Failed, log;
    }
    var files := walked.found;
    for i := 0 to |extras|
      invariant forall p :: p in files <==> p in walked.found || p in extras[..i]
      invariant forall p :: p in files ==> p in w.files && files[p] == w.files[p]
      invariant ReadOnce(log, files.Keys)
      invariant forall p :: p in extras[..i] ==> IsReadable(w, p)
    {
      var path := extras[i];
      assert path in extras;
      assert extras[..i + 1] == extras[..i] + [path];
      if path !in w.files {
        return Failed, log;
      }
      if path !in files {
        ReadOneMore(log, files.Keys, path);
        log := log + [path];
        if w.files[path].Unreadable? {
          return Failed, log;
        }
        assert files[path := w.files[path]].Keys == files.Keys + {path};
        files := files[path := w.files[path]];
      }
    }
    assert extras[..|extras|] == extras;
    if exists p :: p in files && p !in w.underRoot {
      return Failed, log;
    }
    ExternalRootsOfReached(w, entry, walked.found.Keys);
    return Collected(files, set x | x in walked.external && [x] !in w.resolve), log;
  }
}
