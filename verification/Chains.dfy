/** Chains of nested groups: how long a search can follow them, and when its caps never bite. */
module Chains {
  import opened Directory

  /** A route of at most `len` DNs. */
  ghost predicate ShortRoute(g: Graph, roots: seq<Dn>, to: Dn, avoid: set<Dn>, len: int) {
    exists p :: Route(g, p, roots, to, avoid) && |p| <= len
  }

  lemma ShortRouteWeaken(g: Graph, roots: seq<Dn>, more: seq<Dn>, to: Dn, avoid: set<Dn>, less: set<Dn>, len: int)
    requires ShortRoute(g, roots, to, avoid, len)
    requires less <= avoid && forall r :: r in roots ==> r in more
    ensures ShortRoute(g, more, to, less, len)
  {
  }

  /** One step in front of a short route. */
  lemma ShortRouteExtends(g: Graph, head: Dn, to: Dn, avoid: set<Dn>, len: int)
    requires ShortRoute(g, Next(g, head), to, avoid + {head}, len) && head !in avoid
    ensures ShortRoute(g, [head], to, avoid, len + 1)
  {
    var p :| Route(g, p, Next(g, head), to, avoid + {head}) && |p| <= len;
    RouteExtends(g, head, p, Next(g, head), to, avoid, avoid + {head});
    assert |[head] + p| <= len + 1;
  }

  // ---- directories in which no cap bites ----

  ghost predicate Distinct(p: seq<Dn>) {
    forall i, j :: 0 <= i < j < |p| ==> p[i] != p[j]
  }

  /** The longest chain a search follows whose nesting counts from `start`. */
  function LongestChain(start: nat): int {
    MAX_TREE_DEPTH + 1 - start
  }

  /** No chain without repetition from `roots` is longer than that. */
  ghost predicate ChainsAreShort(g: Graph, roots: seq<Dn>, start: nat) {
    forall p :: IsPath(g, p) && p[0] in roots && Distinct(p) ==> |p| <= LongestChain(start)
  }

  /** A set that holds everything reachable from `roots`. */
  ghost predicate HoldsAllBeyond(g: Graph, roots: seq<Dn>, all: set<Dn>) {
    && (forall r :: r in roots ==> r in all)
    && ClosedBeyond(g, {}, all)
  }

  ghost predicate SmallDirectory(g: Graph, roots: seq<Dn>, all: set<Dn>, start: nat) {
    HoldsAllBeyond(g, roots, all) && |all| <= MAX_LDAP_GRP_HASH_SIZE && ChainsAreShort(g, roots, start)
  }

  /** The DNs whose searches are still open form a chain from the roots, without repetition. */
  ghost predicate OpenChain(g: Graph, roots: seq<Dn>, stack: seq<Dn>, seen: set<Dn>) {
    && Distinct(stack)
    && (forall x :: x in stack ==> x in seen)
    && (stack != [] ==> IsPath(g, stack) && stack[0] in roots)
  }

  ghost predicate Extends(g: Graph, roots: seq<Dn>, stack: seq<Dn>, name: Dn) {
    name in if stack == [] then roots else Next(g, stack[|stack| - 1])
  }

  lemma OpenChainGrows(g: Graph, roots: seq<Dn>, stack: seq<Dn>, seen: set<Dn>, name: Dn)
    requires name !in seen && OpenChain(g, roots, stack, seen) && Extends(g, roots, stack, name)
    ensures OpenChain(g, roots, stack + [name], seen + {name})
  {
  }
}
