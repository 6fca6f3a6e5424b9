/**
 Redirected paths: a rule set from path prefixes to replacements, kept in an
 unordered map, and resolution of a path by the longest matching prefix.
 */
module VirtualPaths {

  type Mounts = map<string, string>

  /** fake is a rule that applies to path; <= on strings is "is a prefix of". */
  predicate Applies(mounts: Mounts, path: string, fake: string) {
    fake in mounts && fake <= path
  }

  ghost predicate Longest(mounts: Mounts, path: string, fake: string) {
    Applies(mounts, path, fake) && forall k :: Applies(mounts, path, k) ==> |k| <= |fake|
  }

  function Replaced(mounts: Mounts, path: string, fake: string): string
    requires Applies(mounts, path, fake)
  {
    mounts[fake] + path[|fake|..]
  }

  /** Only non-empty rules are tried as prefixes; the empty rule serves only the empty path, by exact lookup. */
  ghost predicate ResolvesTo(mounts: Mounts, path: string, r: string) {
    if exists k :: k != "" && Applies(mounts, path, k) then
      exists k :: k != "" && Longest(mounts, path, k) && r == Replaced(mounts, path, k)
    else
      r == if path in mounts then mounts[path] else path
  }

  ghost predicate Redirected(mounts: Mounts, path: string) {
    exists k :: Applies(mounts, path, k)
  }

  /** An order in which the map may be walked: all its keys. */
  ghost predicate WalkOrder(mounts: Mounts, order: seq<string>) {
    forall k :: k in order <==> k in mounts
  }

  lemma {:induction false} LongestIsUnique(mounts: Mounts, path: string, k: string, k': string)
    requires Longest(mounts, path, k) && Longest(mounts, path, k')
    ensures k == k'
  {
  }

  lemma {:induction false} ExactIsLongest(mounts: Mounts, path: string)
    requires path in mounts
    ensures Longest(mounts, path, path) && Replaced(mounts, path, path) == mounts[path]
  {
  }

  class VirtualFS {
    var mounts: Mounts

    constructor ()
      ensures mounts == map[]
    {
      mounts := map[];
    }

    method AddRedirect(fakePath: string, realPath: string)
      modifies this
      ensures mounts == old(mounts)[fakePath := realPath]
    {
      mounts := mounts[fakePath := realPath];
    }

    method RemoveRedirect(fakePath: string)
      modifies this
      ensures mounts == old(mounts) - {fakePath}
    {
      mounts := mounts - {fakePath};
    }

    /** order is the order in which this walk meets the map's entries. */
    method Resolve(path: string, order: seq<string>) returns (r: string)
      requires WalkOrder(mounts, order)
      ensures ResolvesTo(mounts, path, r)
      ensures path in mounts ==> r == mounts[path]
      ensures path !in mounts && (forall k :: k in mounts && k != "" ==> !(k <= path)) ==> r == path
      ensures path !in mounts && (exists k :: k in mounts && k != "" && k <= path) ==>
                exists fake, rest :: fake in mounts && fake + rest == path && r == mounts[fake] + rest
                                     && forall k :: k in mounts && k <= path ==> |k| <= |fake|
    {
      if path in mounts {
        ExactIsLongest(mounts, path);
        return mounts[path];
      }
      var bestMatch, bestReplacement := "", "";
      for i := 0 to |order|
        invariant bestMatch != "" ==> Applies(mounts, path, bestMatch) && bestReplacement == mounts[bestMatch]
        invariant forall k :: 0 <= k < i && order[k] <= path ==> |order[k]| <= |bestMatch|
      {
        var fake := order[i];
        if fake <= path {
          if |fake| > |bestMatch| {
            bestMatch, bestReplacement := fake, mounts[fake];
          }
        }
      }
      forall k | Applies(mounts, path, k)
        ensures |k| <= |bestMatch|
      {
        assert k in order;
      }
      if bestMatch != "" {
        assert bestMatch + path[|bestMatch|..] == path;
        assert Longest(mounts, path, bestMatch) && bestReplacement + path[|bestMatch|..] == Replaced(mounts, path, bestMatch);
        return bestReplacement + path[|bestMatch|..];
      }
      return path;
    }

    method HasRedirect(path: string, order: seq<string>) returns (b: bool)
      requires WalkOrder(mounts, order)
      ensures b <==> Redirected(mounts, path)
      ensures b <==> exists k :: k in mounts && k <= path
    {
      if path in mounts {
        assert Applies(mounts, path, path);
        return true;
      }
      for i := 0 to |order|
        invariant forall k :: 0 <= k < i ==> !(order[k] <= path)
      {
        if order[i] <= path {
          assert Applies(mounts, path, order[i]);
          return true;
        }
      }
      forall k | k in mounts
        ensures !(k <= path)
      {
        assert k in order;
      }
      return false;
    }
  }

  /** Two walks in different orders resolve a path to the same text. */
  lemma {:induction false} ResolutionIsUnique(mounts: Mounts, path: string, r: string, r': string)
    requires ResolvesTo(mounts, path, r) && ResolvesTo(mounts, path, r')
    ensures r == r'
  {
    if exists k :: k != "" && Applies(mounts, path, k) {
      var k :| k != "" && Longest(mounts, path, k) && r == Replaced(mounts, path, k);
      var k' :| k' != "" && Longest(mounts, path, k') && r' == Replaced(mounts, path, k');
      LongestIsUnique(mounts, path, k, k');
    }
  }

  lemma {:induction false} UnredirectedIsIdentity(mounts: Mounts, path: string, r: string)
    requires ResolvesTo(mounts, path, r) && !Redirected(mounts, path)
    ensures r == path
  {
    assert !Applies(mounts, path, path);
  }

  /** The plain rule: replace the longest matching key, or leave the path alone when none matches. */
  ghost predicate LongestPrefixResult(mounts: Mounts, path: string, r: string) {
    if Redirected(mounts, path) then exists k :: Longest(mounts, path, k) && r == Replaced(mounts, path, k)
    else r == path
  }

  /** A non-empty path to which only an empty key with a non-empty replacement applies. */
  ghost predicate OnlyEmptyKeyApplies(mounts: Mounts, path: string) {
    && path != "" && "" in mounts && mounts[""] != ""
    && forall k :: Applies(mounts, path, k) ==> k == ""
  }

  lemma {:induction false} EmptyKeyIsLongest(mounts: Mounts, path: string, k: string)
    requires "" in mounts && forall k :: Applies(mounts, path, k) ==> k == ""
    requires Longest(mounts, path, k)
    ensures k == "" && Replaced(mounts, path, k) == mounts[""] + path
  {
  }

  /**
   Resolution follows the plain rule on every path but those to which only an
   empty key applies; with no empty key it always does.
   */
  lemma {:induction false} LongestPrefixIff(mounts: Mounts, path: string, r: string)
    requires ResolvesTo(mounts, path, r)
    ensures LongestPrefixResult(mounts, path, r) <==> !OnlyEmptyKeyApplies(mounts, path)
  {
    if exists k :: k != "" && Applies(mounts, path, k) {
      var k :| k != "" && Longest(mounts, path, k) && r == Replaced(mounts, path, k);
      assert Applies(mounts, path, k);
    } else {
      assert forall k :: Applies(mounts, path, k) ==> k == "";
      assert path in mounts ==> Applies(mounts, path, path);
      if "" in mounts {
        assert Applies(mounts, path, "") && Longest(mounts, path, "");
        EmptyKeyIsLongest(mounts, path, "");
        assert |mounts[""] + path| == |mounts[""]| + |path|;
        if LongestPrefixResult(mounts, path, r) {
          var k :| Longest(mounts, path, k) && r == Replaced(mounts, path, k);
          EmptyKeyIsLongest(mounts, path, k);
        }
        assert mounts[""] == "" ==> mounts[""] + path == path;
        assert path == "" ==> mounts[""] + path == mounts[""];
      }
    }
  }

  // ---- Rule sets built by adding and removing ----

  datatype Edit = Add(fakePath: string, realPath: string) | Remove(fakePath: string)

  function Edited(mounts: Mounts, es: seq<Edit>): Mounts
    decreases |es|
  {
    if es == [] then mounts
    else
      match es[0]
      case Add(f, r) => Edited(mounts[f := r], es[1..])
      case Remove(f) => Edited(mounts - {f}, es[1..])
  }

  lemma {:induction false} NoEmptyKey(mounts: Mounts, es: seq<Edit>)
    requires "" !in mounts
    requires forall k :: 0 <= k < |es| && es[k].Add? ==> es[k].fakePath != ""
    ensures "" !in Edited(mounts, es)
    decreases |es|
  {
    if es != [] {
      match es[0]
      case Add(f, r) => NoEmptyKey(mounts[f := r], es[1..]);
      case Remove(f) => NoEmptyKey(mounts - {f}, es[1..]);
    }
  }

  /** Every rule set built by adding non-empty paths and removing any resolves by the longest prefix, in any walk order. */
  lemma {:induction false} BuiltRulesResolveByLongestPrefix(es: seq<Edit>, path: string, r: string)
    requires forall k :: 0 <= k < |es| && es[k].Add? ==> es[k].fakePath != ""
    requires ResolvesTo(Edited(map[], es), path, r)
    ensures LongestPrefixResult(Edited(map[], es), path, r)
  {
    NoEmptyKey(map[], es);
    LongestPrefixIff(Edited(map[], es), path, r);
  }
}
