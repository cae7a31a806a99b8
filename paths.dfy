/**
 Paths through the suffix trie and the facts about them that do not depend on
 the nodes' mutable state: how many inserted label sequences start with a path,
 the shape of a trie given as a map from paths to nodes and a map from paths to
 children maps, and the bookkeeping of the traversal's output.
 */
module Paths {
  import opened Bytes
  import opened Labels

  type Path = seq<Label>

  /** Number of the `lines` that start with `p`. */
  function PrefixCount(lines: seq<Path>, p: Path): (n: nat)
    ensures n <= |lines|
  {
    if lines == [] then 0
    else PrefixCount(lines[..|lines| - 1], p) + (if p <= lines[|lines| - 1] then 1 else 0)
  }

  /** Some line starts with `p`. */
  ghost predicate Occurs(lines: seq<Path>, p: Path) {
    exists k :: 0 <= k < |lines| && p <= lines[k]
  }

  predicate NoDuplicates<T(==)>(s: seq<T>) {
    forall i, j :: 0 <= i < j < |s| ==> s[i] != s[j]
  }

  lemma PrefixCountAppend(lines: seq<Path>, l: Path, p: Path)
    ensures PrefixCount(lines + [l], p) == PrefixCount(lines, p) + (if p <= l then 1 else 0)
  {
    assert (lines + [l])[..|lines|] == lines;
  }

  /** A longer path is shared by at most as many lines as its prefix. */
  lemma {:induction false} PrefixCountMonotone(lines: seq<Path>, p: Path, q: Path)
    requires p <= q
    ensures PrefixCount(lines, q) <= PrefixCount(lines, p)
    decreases |lines|
  {
    if lines != [] {
      PrefixCountMonotone(lines[..|lines| - 1], p, q);
    }
  }

  /** The count is positive exactly when some line starts with the path. */
  lemma {:induction false} PrefixCountPositive(lines: seq<Path>, p: Path)
    ensures PrefixCount(lines, p) > 0 <==> Occurs(lines, p)
    decreases |lines|
  {
    if lines != [] {
      var init := lines[..|lines| - 1];
      PrefixCountPositive(init, p);
      if Occurs(init, p) {
        var k :| 0 <= k < |init| && p <= init[k];
        assert p <= lines[k];
      }
      if Occurs(lines, p) && !(p <= lines[|lines| - 1]) {
        var k :| 0 <= k < |lines| && p <= lines[k];
        assert p <= init[k];
      }
    }
  }

  lemma PrefixStep(s: Path, i: nat, p: Path)
    requires i < |s|
    ensures p <= s[..i + 1] <==> p <= s[..i] || p == s[..i + 1]
  {
    if p <= s[..i + 1] && p != s[..i + 1] {
      assert |p| <= i;
      assert p == s[..i + 1][..|p|];
      assert s[..i + 1][..|p|] == s[..i][..|p|];
    }
  }

  /** The prefix of `p` one label longer than its prefix `q`. */
  lemma TakeOneMore(q: Path, p: Path)
    requires q <= p && |q| < |p|
    ensures p[..|q| + 1] == q + [p[|q|]]
  {
    assert p[..|q|] == q;
  }

  /** A set of paths that holds the parent of each of its non-empty members holds every prefix of them. */
  lemma {:induction false} PrefixOfMember(paths: set<Path>, p: Path, k: nat)
    requires forall q, l :: q + [l] in paths ==> q in paths
    requires p in paths && k <= |p|
    ensures p[..k] in paths
    decreases |p| - k
  {
    if k < |p| {
      PrefixOfMember(paths, p, k + 1);
      TakeOneMore(p[..k], p);
    } else {
      assert p[..k] == p;
    }
  }

  lemma AppendOneInjective(p: Path, l: Label, q: Path, m: Label)
    requires p + [l] == q + [m]
    ensures p == q && l == m
  {
    assert p == (p + [l])[..|p|];
    assert q == (q + [m])[..|q|];
  }

  /** `paths` are the root, the prefixes of `lines` and the prefixes of `walked`. */
  ghost predicate Reached(paths: set<Path>, lines: seq<Path>, walked: Path) {
    forall p :: p in paths <==> p == [] || PrefixCount(lines, p) > 0 || p <= walked
  }

  /** Walking one label further adds exactly the path one label longer. */
  lemma ReachedStep(before: set<Path>, after: set<Path>, lines: seq<Path>, labels: Path, i: nat)
    requires i < |labels| && Reached(before, lines, labels[..i])
    requires forall p :: p in after <==> p in before || p == labels[..i + 1]
    ensures Reached(after, lines, labels[..i + 1])
  {
    forall p ensures p in after <==> p == [] || PrefixCount(lines, p) > 0 || p <= labels[..i + 1] {
      PrefixStep(labels, i, p);
    }
  }

  /** `out` holds, line by line, the domain string of each path in `emitted`. */
  predicate Written(out: seq<seq<byte>>, emitted: seq<Path>) {
    && |out| == |emitted|
    && forall k :: 0 <= k < |emitted| ==> |emitted[k]| >= 1 && out[k] == DomainOf(emitted[k])
  }

  lemma WrittenConcat(out1: seq<seq<byte>>, emitted1: seq<Path>, out2: seq<seq<byte>>, emitted2: seq<Path>)
    requires Written(out1, emitted1) && Written(out2, emitted2)
    ensures Written(out1 + out2, emitted1 + emitted2)
  {
    var out, emitted := out1 + out2, emitted1 + emitted2;
    forall k | 0 <= k < |emitted|
      ensures |emitted[k]| >= 1 && out[k] == DomainOf(emitted[k])
    {
      if k >= |emitted1| {
        assert emitted[k] == emitted2[k - |emitted1|];
        assert out[k] == out2[k - |out1|];
      }
    }
  }

  /** Moving one key from the pending set to the visited ones. */
  lemma MoveToDone<T>(all: set<T>, keys: set<T>, x: T)
    requires x in keys && keys <= all
    ensures (all - keys) + {x} == all - (keys - {x})
  {
  }

  /** `m1` keeps every entry of `m0`. */
  ghost predicate Extends<K, V>(m0: map<K, V>, m1: map<K, V>) {
    forall k :: k in m0 ==> k in m1 && m1[k] == m0[k]
  }

  lemma ExtendsAdd<K, V>(m0: map<K, V>, m1: map<K, V>, k: K, v: V)
    requires Extends(m0, m1) && k !in m1
    ensures Extends(m0, m1[k := v])
  {
  }

  lemma NoDuplicatesConcat<T>(a: seq<T>, b: seq<T>)
    requires NoDuplicates(a) && NoDuplicates(b)
    requires forall x :: x in a ==> x !in b
    ensures NoDuplicates(a + b)
  {
    forall i, j | 0 <= i < j < |a + b|
      ensures (a + b)[i] != (a + b)[j]
    {
      if i < |a| && |a| <= j {
        assert (a + b)[i] in a;
        assert (a + b)[j] in b;
      }
    }
  }

  /**
   A trie's shape: `nodes` gives the node at each path and `kids` the children map
   of the node at each path. The root path is present; the child under label `l`
   of the node at `p` is the node at `p + [l]`, and every path but the root hangs
   that way under its parent.
   */
  ghost predicate TreeShaped<N>(nodes: map<Path, N>, kids: map<Path, map<Label, N>>) {
    && [] in nodes
    && (forall p :: p in nodes <==> p in kids)
    && (forall p, l :: p in kids && l in kids[p] ==> p + [l] in nodes && kids[p][l] == nodes[p + [l]])
    && (forall p, l :: p + [l] in nodes ==> p in kids && l in kids[p])
  }

  /**
   Hanging a new node `n` under label `lab` of the node at `at`, where there was no
   child yet, keeps the shape; the new path had no node before.
   */
  lemma TreeShapedAdd<N>(nodes: map<Path, N>, kids: map<Path, map<Label, N>>, at: Path, lab: Label, n: N)
    requires TreeShaped(nodes, kids) && at in nodes && lab !in kids[at]
    ensures at + [lab] !in nodes
    ensures TreeShaped(nodes[at + [lab] := n], kids[at := kids[at][lab := n]][at + [lab] := map[]])
  {
    var below := at + [lab];
    var nodes', kids' := nodes[below := n], kids[at := kids[at][lab := n]][below := map[]];
    forall p, l | p in kids' && l in kids'[p]
      ensures p + [l] in nodes' && kids'[p][l] == nodes'[p + [l]]
    {
      if p == at && l != lab {
        assert p + [l] != below;
      } else if p != at {
        assert p + [l] in nodes;
        if p + [l] == below {
          AppendOneInjective(p, l, at, lab);
        }
      }
    }
    forall p, l | p + [l] in nodes' ensures p in kids' && l in kids'[p] {
      if p + [l] == below {
        AppendOneInjective(p, l, at, lab);
      }
    }
  }

  /** In a trie shape, every prefix of a path with a node has a node. */
  lemma PrefixHasNode<N>(nodes: map<Path, N>, kids: map<Path, map<Label, N>>, p: Path, k: nat)
    requires TreeShaped(nodes, kids) && p in nodes && k <= |p|
    ensures p[..k] in nodes
  {
    PrefixOfMember(nodes.Keys, p, k);
  }

  /** A path strictly below `q` hangs under one of the children of the node at `q`. */
  lemma BelowChild<N>(nodes: map<Path, N>, kids: map<Path, map<Label, N>>, q: Path, p: Path)
    requires TreeShaped(nodes, kids) && q in nodes && p in nodes && q <= p && |q| < |p|
    ensures p[|q|] in kids[q]
  {
    PrefixHasNode(nodes, kids, p, |q| + 1);
    TakeOneMore(q, p);
  }
}
