/** The search for a process's descendants in a map from pid to parent pid, after
    adapters/native/_tree_reaper.py. The map is read piece by piece from a changing system, so it may
    hold cycles. */
module Descendants {
  import opened Sets

  type Pid = nat

  /** `pid` comes to `root` in exactly `n` parent steps. */
  ghost predicate Reaches(parents: map<Pid, Pid>, pid: Pid, root: Pid, n: nat)
    decreases n
  {
    if n == 0 then pid == root else pid in parents && Reaches(parents, parents[pid], root, n - 1)
  }

  /** In one parent step or more. */
  ghost predicate IsDescendant(parents: map<Pid, Pid>, pid: Pid, root: Pid) {
    exists n: nat :: n >= 1 && Reaches(parents, pid, root, n)
  }

  lemma ChildIsDescendant(parents: map<Pid, Pid>, pid: Pid, root: Pid)
    requires pid in parents
    requires parents[pid] == root || IsDescendant(parents, parents[pid], root)
    ensures IsDescendant(parents, pid, root)
  {
    if parents[pid] == root {
      assert Reaches(parents, root, root, 0);
      assert Reaches(parents, pid, root, 1);
    } else {
      var n: nat :| n >= 1 && Reaches(parents, parents[pid], root, n);
      assert Reaches(parents, pid, root, n + 1);
    }
  }

  /** The root is no exception: where it is its own parent, it is found as its own descendant. */
  lemma RootCanBeItsOwnDescendant()
    ensures IsDescendant(map[1 := 1], 1, 1)
  {
    ChildIsDescendant(map[1 := 1], 1, 1);
  }

  /** The children of each pid, in some order. */
  ghost predicate AreChildren(children: map<Pid, seq<Pid>>, parents: map<Pid, Pid>, done: set<Pid>) {
    forall p, c :: (p in children && c in children[p]) <==> (c in done && c in parents && parents[c] == p)
  }

  method ChildrenOf(parents: map<Pid, Pid>) returns (children: map<Pid, seq<Pid>>)
    ensures AreChildren(children, parents, parents.Keys)
  {
    children := map[];
    var left := parents.Keys;
    while left != {}
      invariant left <= parents.Keys
      invariant AreChildren(children, parents, parents.Keys - left)
    {
      assert Pick(left) in left;   // there is one to take
      var pid :| pid in left;
      var ppid := parents[pid];
      var siblings := if ppid in children then children[ppid] else [];
      children := children[ppid := siblings + [pid]];
      left := left - {pid};
    }
    assert parents.Keys - left == parents.Keys;
  }

  /** Everything found hangs below the root, and what hangs below something found that is no longer on
      the stack is found. */
  ghost predicate Searched(parents: map<Pid, Pid>, root: Pid, found: set<Pid>, stack: seq<Pid>) {
    && found <= parents.Keys
    && (forall p :: p in found ==> IsDescendant(parents, p, root))
    && (forall x :: x in stack ==> x == root || x in found)
    && (forall c :: c in parents && c !in found && (parents[c] == root || parents[c] in found) ==> parents[c] in stack)
  }

  /** The children not found before are found and pushed, each once. */
  method PushNew(kids: seq<Pid>, found0: set<Pid>, stack0: seq<Pid>) returns (found: set<Pid>, stack: seq<Pid>)
    ensures found == found0 + set kid | kid in kids
    ensures forall x :: x in stack <==> x in stack0 || (x in kids && x !in found0)
    ensures found == found0 ==> stack == stack0
  {
    found, stack := found0, stack0;
    for i := 0 to |kids|
      invariant found == found0 + set kid | kid in kids[..i]
      invariant forall x :: x in stack <==> x in stack0 || (x in kids[..i] && x !in found0)
      invariant found == found0 ==> stack == stack0
    {
      var child := kids[i];
      assert kids[..i + 1] == kids[..i] + [child];
      if child !in found {
        found := found + {child};
        stack := stack + [child];
      }
    }
    assert kids[..|kids|] == kids;
  }

  /** Popping a pid and pushing its new children keeps the search right. */
  lemma PopAndPush(parents: map<Pid, Pid>, root: Pid, kids: seq<Pid>, found: set<Pid>, stack: seq<Pid>,
                   top: Pid, found': set<Pid>, stack': seq<Pid>)
    requires Searched(parents, root, found, stack + [top])
    requires forall c :: c in kids <==> c in parents && parents[c] == top
    requires found' == found + set kid | kid in kids
    requires forall x :: x in stack' <==> x in stack || (x in kids && x !in found)
    ensures Searched(parents, root, found', stack')
  {
    assert top in stack + [top];
    forall p | p in kids
      ensures IsDescendant(parents, p, root)
    {
      ChildIsDescendant(parents, p, root);
    }
    forall c | c in parents && c !in found' && (parents[c] == root || parents[c] in found')
      ensures parents[c] in stack'
    {
      if parents[c] == root || parents[c] in found {
        assert parents[c] in stack + [top];
      }
    }
  }

  lemma KidsAreChildren(children: map<Pid, seq<Pid>>, parents: map<Pid, Pid>, top: Pid)
    requires AreChildren(children, parents, parents.Keys)
    ensures forall c :: c in (if top in children then children[top] else []) <==> c in parents && parents[c] == top
  {
  }

  lemma StartsSearched(parents: map<Pid, Pid>, root: Pid)
    ensures Searched(parents, root, {}, [root])
  {
  }

  lemma FoundShrinksRest(parents: map<Pid, Pid>, root: Pid, found: set<Pid>, found': set<Pid>, stack': seq<Pid>)
    requires Searched(parents, root, found', stack')
    requires found <= found'
    ensures found == found' || |parents.Keys - found'| < |parents.Keys - found|
  {
    if found != found' {
      FewerLeft(parents.Keys, found, found');
    }
  }

  lemma {:induction false} ClosedHoldsDescendants(parents: map<Pid, Pid>, root: Pid, found: set<Pid>, pid: Pid, n: nat)
    requires Searched(parents, root, found, [])
    requires n >= 1 && Reaches(parents, pid, root, n)
    ensures pid in found
    decreases n
  {
    if n > 1 {
      ClosedHoldsDescendants(parents, root, found, parents[pid], n - 1);
    } else {
      assert Reaches(parents, parents[pid], root, 0);
    }
  }

  lemma SearchedIsComplete(parents: map<Pid, Pid>, root: Pid, found: set<Pid>)
    requires Searched(parents, root, found, [])
    ensures forall pid :: pid in found <==> IsDescendant(parents, pid, root)
  {
    forall pid | IsDescendant(parents, pid, root)
      ensures pid in found
    {
      var n: nat :| n >= 1 && Reaches(parents, pid, root, n);
      ClosedHoldsDescendants(parents, root, found, pid, n);
    }
  }

  /** One step of the search: the topmost pid popped, its new children found and pushed. */
  method SearchChildren(children: map<Pid, seq<Pid>>, ghost parents: map<Pid, Pid>, ghost root: Pid, found: set<Pid>,
                        stack: seq<Pid>) returns (found': set<Pid>, stack': seq<Pid>)
    requires stack != [] && AreChildren(children, parents, parents.Keys) && Searched(parents, root, found, stack)
    ensures Searched(parents, root, found', stack')
    ensures |parents.Keys - found'| < |parents.Keys - found| || (found' == found && |stack'| < |stack|)
  {
    hide Searched, AreChildren;
    var top := stack[|stack| - 1];
    var below := stack[..|stack| - 1];
    assert stack == below + [top];
    var kids := if top in children then children[top] else [];
    KidsAreChildren(children, parents, top);
    found', stack' := PushNew(kids, found, below);
    PopAndPush(parents, root, kids, found, below, top, found', stack');
    FoundShrinksRest(parents, root, found, found', stack');
  }

  /** `descendants`: exactly the pids that come to `root` in one parent step or more, on every map. */
  method FindDescendants(root: Pid, parents: map<Pid, Pid>) returns (found: set<Pid>)
    ensures forall pid :: pid in found <==> IsDescendant(parents, pid, root)
  {
    hide Searched, IsDescendant, AreChildren;
    var children := ChildrenOf(parents);
    found := {};
    var stack := [root];
    StartsSearched(parents, root);
    while stack != []
      invariant Searched(parents, root, found, stack)
      decreases |parents.Keys - found|, |stack|
    {
      found, stack := SearchChildren(children, parents, root, found, stack);
    }
    SearchedIsComplete(parents, root, found);
  }
}
