/**
 The closure of C++ includes: a depth-first walk that shares one set of seen
 files.  File names are canonical: one name for each existing file.
 */
module IncludeClosure {
  import opened Options

  /**
   The source tree: for each existing file the include directives in it, and
   for a file and a directive the candidate names to try, in order.
   */
  datatype Tree = Tree(files: map<string, seq<string>>, candidates: (string, string) -> seq<string>)

  /** The first of the names that is a file. */
  function FirstExisting(tree: Tree, names: seq<string>): (r: Option<string>)
    ensures r.Some? ==>
              exists k :: 0 <= k < |names| && names[k] == r.value && names[k] in tree.files
                          && forall i :: 0 <= i < k ==> names[i] !in tree.files
    ensures r.None? ==> forall k :: 0 <= k < |names| ==> names[k] !in tree.files
  {
    if names == [] then None
    else if names[0] in tree.files then Some(names[0])
    else FirstExisting(tree, names[1..])
  }

  /** The file that an include directive in entry stands for, if any candidate exists. */
  function Target(tree: Tree, entry: string, inc: string): Option<string> {
    FirstExisting(tree, tree.candidates(entry, inc))
  }

  ghost predicate Includes(tree: Tree, f: string, g: string) {
    f in tree.files && exists inc :: inc in tree.files[f] && Target(tree, f, inc) == Some(g)
  }

  /** A non-empty chain of files, each including the next. */
  ghost predicate Chain(tree: Tree, p: seq<string>) {
    && p != [] && p[0] in tree.files
    && forall k :: 0 <= k < |p| - 1 ==> Includes(tree, p[k], p[k + 1])
  }

  ghost predicate Reachable(tree: Tree, entry: string, f: string) {
    exists p :: Chain(tree, p) && p[0] == entry && p[|p| - 1] == f
  }

  lemma {:induction false} ReachableSelf(tree: Tree, entry: string)
    requires entry in tree.files
    ensures Reachable(tree, entry, entry)
  {
    assert Chain(tree, [entry]);
  }

  lemma {:induction false} ReachableStep(tree: Tree, entry: string, g: string, f: string)
    requires Includes(tree, entry, g) && Reachable(tree, g, f)
    ensures Reachable(tree, entry, f)
  {
    var p :| Chain(tree, p) && p[0] == g && p[|p| - 1] == f;
    var q := [entry] + p;
    assert forall k :: 1 <= k < |q| ==> q[k] == p[k - 1];
    forall k | 0 <= k < |q| - 1
      ensures Includes(tree, q[k], q[k + 1])
    {
      if k > 0 {
        assert Includes(tree, p[k - 1], p[k]);
      }
    }
    assert Chain(tree, q);
  }

  /** Every file that f includes has been seen. */
  ghost predicate Explored(tree: Tree, seen: set<string>, f: string) {
    forall g :: Includes(tree, f, g) ==> g in seen
  }

  lemma {:induction false} ExploredContainsChain(tree: Tree, seen: set<string>, p: seq<string>)
    requires Chain(tree, p) && p[0] in seen
    requires forall f :: f in seen ==> Explored(tree, seen, f)
    ensures p[|p| - 1] in seen
    decreases |p|
  {
    if |p| > 1 {
      assert Includes(tree, p[0], p[1]) && Explored(tree, seen, p[0]);
      assert p[1] in tree.files;
      forall k | 0 <= k < |p[1..]| - 1
        ensures Includes(tree, p[1..][k], p[1..][k + 1])
      {
        assert Includes(tree, p[k + 1], p[k + 2]);
      }
      ExploredContainsChain(tree, seen, p[1..]);
    }
  }

  /** The recursion and the set it shares. */
  class Walk {
    const tree: Tree
    var seen: set<string>

    constructor (tree: Tree)
      ensures this.tree == tree && seen == {}
    {
      this.tree, seen := tree, {};
    }

    method Visit(entry: string)
      modifies this
      ensures old(seen) <= seen
      ensures entry in tree.files ==> entry in seen
      ensures forall f :: f in seen && f !in old(seen) ==> Reachable(tree, entry, f) && Explored(tree, seen, f)
      decreases tree.files.Keys - seen
    {
      if entry !in tree.files || entry in seen {
        return;
      }
      ghost var before := seen;
      seen := seen + {entry};
      ReachableSelf(tree, entry);
      var incs := tree.files[entry];
      for i := 0 to |incs|
        invariant before + {entry} <= seen
        invariant forall f :: f in seen && f !in before ==> Reachable(tree, entry, f)
        invariant forall f :: f in seen && f !in before && f != entry ==> Explored(tree, seen, f)
        invariant forall k :: 0 <= k < i && Target(tree, entry, incs[k]).Some? ==> Target(tree, entry, incs[k]).value in seen
      {
        var target := Target(tree, entry, incs[i]);
        if target.Some? {
          ghost var seenBefore := seen;
          assert Includes(tree, entry, target.value);
          Visit(target.value);
          forall f | f in seen && f !in before
            ensures Reachable(tree, entry, f)
          {
            if f !in seenBefore {
              ReachableStep(tree, entry, target.value, f);
            }
          }
        }
      }
    }
  }

  /** The closure is exactly the set of existing files reachable from the entry; cycles do no harm. */
  method Closure(tree: Tree, entry: string) returns (closure: set<string>)
    ensures forall f :: f in closure <==> Reachable(tree, entry, f)
  {
    var walk := new Walk(tree);
    walk.Visit(entry);
    closure := walk.seen;
    forall f | Reachable(tree, entry, f)
      ensures f in closure
    {
      var p :| Chain(tree, p) && p[0] == entry && p[|p| - 1] == f;
      ExploredContainsChain(tree, closure, p);
    }
  }
}
