/**
 The suffix trie: nodes keyed by label, holding how many inserted label
 sequences pass through them, with the insertion loop of processLine and the
 reporting traversal traverseTrie.

 A path is the sequence of labels from the root to a node, top-level label
 first. Inserting the reversed labels of a line adds one to the count of every
 node on that line's path; so a non-root node's count is the number of
 inserted sequences that start with the node's path.
 */
module Trie {
  import opened Bytes
  import opened Labels
  import opened Paths
  import opened Node

  /**
   The trie together with its abstract view. `Nodes` gives the node at every
   path and `Kids` that node's children map; `Lines` are the label sequences
   inserted so far; `Repr` holds every node.
   */
  class SuffixTrie {
    var root: TrieNode
    ghost var Nodes: map<Path, TrieNode>
    ghost var Kids: map<Path, map<Label, TrieNode>>
    ghost var Lines: seq<Path>
    ghost var Repr: set<TrieNode>

    /**
     The nodes form a tree rooted at `root`, with a node of its own for each
     path; every node is in `Repr`, and each node's children map is the one
     recorded for its path. `ShapeOf` on this trie's fields; it lives in another
     module so that the verifier keeps it as one fact in proof goals, which keeps
     the insertion proofs cheap.
     */
    ghost predicate Shape()
      reads this`Nodes, this`Kids, this`Repr, this`root, Repr`children, Repr`path
    {
      ShapeOf(Nodes, Kids, Repr, root)
    }

    /**
     The counting invariant: the root's count is 0, every other node's count is the
     number of inserted sequences starting with its path, and a path has a node
     exactly when some inserted sequence starts with it.
     */
    ghost predicate Valid()
      reads this, Repr
    {
      && Shape()
      && root.count == 0
      && (forall p :: p in Nodes && p != [] ==> Nodes[p].count == PrefixCount(Lines, p))
      && (forall p :: p in Nodes <==> p == [] || PrefixCount(Lines, p) > 0)
    }

    /** `root := &TrieNode{Children: make(map[string]*TrieNode)}`: the empty trie. */
    constructor ()
      ensures Valid() && fresh(Repr)
      ensures Lines == [] && Nodes.Keys == {[]}
    {
      var r := new TrieNode.At([]);
      root := r;
      Nodes := map[[] := r];
      Kids := map[[] := map[]];
      Lines := [];
      Repr := {r};
    }

    /** Every non-root node was reached by some inserted line, and so has count at least 1. */
    lemma NodesAreOccurrences()
      requires Valid()
      ensures forall p :: p in Nodes && p != [] <==> p != [] && Occurs(Lines, p)
      ensures forall p :: p in Nodes && p != [] ==> Nodes[p].count >= 1
    {
      forall p
        ensures p in Nodes && p != [] <==> p != [] && Occurs(Lines, p)
      {
        PrefixCountPositive(Lines, p);
      }
    }

    /** Counts never increase from a non-root node to its child. */
    lemma CountsNonIncreasing()
      requires Valid()
      ensures forall p, l :: p in Nodes && p != [] && l in Nodes[p].children ==>
                Nodes[p].children[l].count <= Nodes[p].count
    {
      forall p, l | p in Nodes && p != [] && l in Nodes[p].children
        ensures Nodes[p].children[l].count <= Nodes[p].count
      {
        PrefixCountMonotone(Lines, p, p + [l]);
      }
    }

    /** The paths with a node at or below `labels`; visiting a child leaves fewer of them. */
    ghost function Below(labels: Path): set<Path>
      reads this`Nodes
    {
      set p | p in Nodes && labels <= p
    }

    lemma BelowShrinks(labels: Path, lab: Label)
      requires labels in Nodes
      ensures Below(labels + [lab]) < Below(labels)
    {
      assert labels in Below(labels) - Below(labels + [lab]);
    }

    /** The nodes traverseTrie emits below `labels` for this threshold. */
    ghost predicate Qualifies(p: Path, labels: Path, threshold: int)
      reads this, Nodes.Values
    {
      p in Nodes && p != [] && labels <= p && Nodes[p].count >= threshold
    }

    /** The nodes qualifying below one child are those qualifying below the parent whose next label is the child's. */
    lemma QualifiesBelowChild(labels: Path, lab: Label, threshold: int)
      ensures forall p :: Qualifies(p, labels + [lab], threshold) <==>
                Qualifies(p, labels, threshold) && |p| > |labels| && p[|labels|] == lab
    {
      var below := labels + [lab];
      forall p ensures below <= p <==> labels <= p && |p| > |labels| && p[|labels|] == lab {
        if labels <= p && |p| > |labels| && p[|labels|] == lab {
          TakeOneMore(labels, p);
        }
      }
    }

    /**
     What traverseTrie has emitted below `labels` once the children in `done` are
     visited: the qualifying node at `labels` itself and those below a visited child.
     */
    ghost predicate EmittedSoFar(emitted: seq<Path>, labels: Path, threshold: int, done: set<Label>)
      reads this, Nodes.Values
    {
      && NoDuplicates(emitted)
      && forall p :: p in emitted <==>
           Qualifies(p, labels, threshold) && (|p| == |labels| || p[|labels|] in done)
    }

    /** Visiting one more child appends exactly the nodes qualifying below it. */
    lemma EmitChild(emitted: seq<Path>, sub: seq<Path>, labels: Path, lab: Label, threshold: int, done: set<Label>)
      requires EmittedSoFar(emitted, labels, threshold, done) && lab !in done
      requires NoDuplicates(sub) && forall p :: p in sub <==> Qualifies(p, labels + [lab], threshold)
      ensures EmittedSoFar(emitted + sub, labels, threshold, done + {lab})
    {
      QualifiesBelowChild(labels, lab, threshold);
      NoDuplicatesConcat(emitted, sub);
    }

    /** One iteration of traverseTrie's loop over the children keeps what has been emitted so far accurate. */
    lemma VisitStep(out: seq<seq<byte>>, emitted: seq<Path>, sub: seq<seq<byte>>, subEmitted: seq<Path>,
                    labels: Path, lab: Label, threshold: int, all: set<Label>, keys: set<Label>)
      requires lab in keys && keys <= all
      requires Written(out, emitted) && EmittedSoFar(emitted, labels, threshold, all - keys)
      requires Written(sub, subEmitted) && NoDuplicates(subEmitted)
      requires forall p :: p in subEmitted <==> Qualifies(p, labels + [lab], threshold)
      ensures Written(out + sub, emitted + subEmitted)
      ensures EmittedSoFar(emitted + subEmitted, labels, threshold, all - (keys - {lab}))
    {
      EmitChild(emitted, subEmitted, labels, lab, threshold, all - keys);
      WrittenConcat(out, emitted, sub, subEmitted);
      MoveToDone(all, keys, lab);
    }

    /** Before any child is visited, only the node at `labels` itself can have been emitted. */
    lemma StartEmitting(out: seq<seq<byte>>, emitted: seq<Path>, labels: Path, threshold: int, all: set<Label>)
      requires labels in Nodes
      requires if Nodes[labels].count >= threshold && |labels| > 0
               then out == [DomainOf(labels)] && emitted == [labels]
               else out == [] && emitted == []
      ensures Written(out, emitted) && EmittedSoFar(emitted, labels, threshold, all - all)
    {
      forall p | labels <= p && |p| == |labels| ensures p == labels {
        assert p == p[..|labels|];
      }
      assert all - all == {};
    }

    /** Once every child is visited, everything qualifying below `labels` is emitted. */
    lemma EmittedAll(emitted: seq<Path>, labels: Path, threshold: int, all: set<Label>, keys: set<Label>)
      requires Shape() && labels in Nodes
      requires all == Nodes[labels].children.Keys && keys == {}
      requires EmittedSoFar(emitted, labels, threshold, all - keys)
      ensures forall p :: p in emitted <==> Qualifies(p, labels, threshold)
    {
      assert all - keys == all;
      forall p | Qualifies(p, labels, threshold) && |p| > |labels|
        ensures p[|labels|] in all
      {
        BelowChild(Nodes, Kids, labels, p);
      }
    }

    /**
     The counts part of the invariant while a line is being inserted: the node at
     every non-root path counts the earlier lines starting with it, plus one if the
     walk has already passed it. `CountsAgree` on this trie's nodes, kept in the
     Node module for the same reason as `Shape`.
     */
    ghost predicate CountsWalked(lines: seq<Path>, walked: Path)
      reads this`Nodes, Nodes.Values`count
    {
      CountsAgree(Nodes, lines, walked)
    }

    /**
     The paths with a node are the root, those of the earlier lines and those the
     walk has reached: `Reached` on this trie's paths, named like `CountsWalked`.
     */
    ghost predicate DomainWalked(lines: seq<Path>, walked: Path)
      reads this`Nodes
    {
      Reached(Nodes.Keys, lines, walked)
    }

    /** Once the whole line is walked, it counts as one more inserted line. */
    lemma WalkDone(lines: seq<Path>, labels: Path)
      requires CountsWalked(lines, labels) && DomainWalked(lines, labels)
      ensures CountsWalked(lines + [labels], []) && DomainWalked(lines + [labels], [])
    {
      forall p ensures PrefixCount(lines + [labels], p) == PrefixCount(lines, p) + (if p <= labels then 1 else 0) {
        PrefixCountAppend(lines, labels, p);
      }
    }

    /**
     `node.Children[label] = &TrieNode{}`: hang a fresh node with count 0 under
     `node`, at the path one label below `at`, which had no node yet.
     */
    method AddChild(node: TrieNode, lab: Label, ghost at: Path) returns (child: TrieNode)
      requires Shape() && at in Nodes && Nodes[at] == node && lab !in node.children
      modifies this`Nodes, this`Kids, this`Repr, node`children
      ensures Shape() && fresh(child) && child.count == 0
      ensures at + [lab] !in old(Nodes) && Nodes == old(Nodes)[at + [lab] := child]
      ensures node.children == old(node.children)[lab := child] && Repr == old(Repr) + {child}
    {
      ghost var below, nodes0, kids0, repr0 := at + [lab], Nodes, Kids, Repr;
      child := new TrieNode.At(below);
      MirrorsExcept(nodes0, kids0, repr0, at);
      node.children := node.children[lab := child];
      ShapeAdd(nodes0, kids0, repr0, root, at, lab, child);
      Nodes, Kids, Repr := nodes0[below := child], kids0[at := kids0[at][lab := child]][below := map[]], repr0 + {child};
    }

    /**
     `node.Count++` on the node at `labels[..i + 1]`, the walk's next step: the
     walked prefix grows by one label and the counts follow.
     */
    method Bump(next: TrieNode, labels: Path, i: nat, ghost lines: seq<Path>)
      requires i < |labels| && Shape() && root.count == 0
      requires labels[..i + 1] in Nodes && Nodes[labels[..i + 1]] == next
      requires CountsWalked(lines, labels[..i])
      modifies next`count
      ensures Shape() && root.count == 0 && CountsWalked(lines, labels[..i + 1])
    {
      next.count := next.count + 1;
      forall p | p in Nodes && p != [] ensures Nodes[p].count == PrefixCount(lines, p) + (if p <= labels[..i + 1] then 1 else 0) {
        PrefixStep(labels, i, p);
      }
    }

    /**
     The first half of one round of the insertion loop at `node`, the node at
     `labels[..i]`: create the child under `labels[i]` if it is missing, and move
     to it. The walk has now reached the child's path.
     */
    method Descend(node: TrieNode, labels: Path, i: nat, ghost lines: seq<Path>) returns (next: TrieNode)
      requires i < |labels|
      requires Shape() && labels[..i] in Nodes && Nodes[labels[..i]] == node
      requires CountsWalked(lines, labels[..i]) && DomainWalked(lines, labels[..i])
      modifies this`Nodes, this`Kids, this`Repr, node`children
      ensures Shape() && labels[..i + 1] in Nodes && Nodes[labels[..i + 1]] == next
      ensures CountsWalked(lines, labels[..i]) && DomainWalked(lines, labels[..i + 1])
      ensures || (Nodes == old(Nodes) && Repr == old(Repr))
              || (labels[..i + 1] !in old(Nodes) && Nodes == old(Nodes)[labels[..i + 1] := next]
                  && fresh(next) && Repr == old(Repr) + {next})
    {
      var lab := labels[i];
      ghost var before := Nodes.Keys;
      TakeOneMore(labels[..i], labels);
      if lab !in node.children {
        ghost var nodes0 := Nodes;
        assert PrefixCount(lines, labels[..i + 1]) == 0 && !(labels[..i + 1] <= labels[..i]);
        var child := AddChild(node, lab, labels[..i]);
        CountsAgreeAdd(nodes0, labels[..i + 1], child, lines, labels[..i]);
      }
      ReachedStep(before, Nodes.Keys, lines, labels, i);
      next := node.children[lab];
    }

    /**
     One round of the insertion loop at `node`, the node at `labels[..i]`: create
     the child under `labels[i]` if it is missing, move to it and add one to its count.
     */
    method Step(node: TrieNode, labels: Path, i: nat, ghost lines: seq<Path>) returns (next: TrieNode)
      requires i < |labels|
      requires Shape() && root.count == 0 && labels[..i] in Nodes && Nodes[labels[..i]] == node
      requires CountsWalked(lines, labels[..i]) && DomainWalked(lines, labels[..i])
      modifies this`Nodes, this`Kids, this`Repr, node`children, Repr`count
      ensures Shape() && root.count == 0 && labels[..i + 1] in Nodes && Nodes[labels[..i + 1]] == next
      ensures CountsWalked(lines, labels[..i + 1]) && DomainWalked(lines, labels[..i + 1])
      ensures || (Nodes == old(Nodes) && Repr == old(Repr))
              || (labels[..i + 1] !in old(Nodes) && Nodes == old(Nodes)[labels[..i + 1] := next]
                  && fresh(next) && Repr == old(Repr) + {next})
    {
      next := Descend(node, labels, i, lines);
      Bump(next, labels, i, lines);
    }

    /**
     The insertion loop of processLine: from the root, for each label, create the
     child if it is missing, move to it and add one to its count. The line's own
     path ends up counted once more, and the nodes it adds are exactly the missing
     prefixes of the line, each with count 1.
     */
    method Walk(labels: Path, ghost lines: seq<Path>)
      requires Shape() && root.count == 0
      requires CountsWalked(lines, []) && DomainWalked(lines, [])
      modifies this`Nodes, this`Kids, this`Repr, Repr
      ensures Shape() && root.count == 0 && CountsWalked(lines, labels) && DomainWalked(lines, labels)
      ensures Extends(old(Nodes), Nodes) && fresh(Repr - old(Repr))
    {
      var node := root;
      var i := 0;
      assert labels[..0] == [];
      while i < |labels|
        invariant i <= |labels|
        invariant Shape() && root.count == 0 && labels[..i] in Nodes && Nodes[labels[..i]] == node
        invariant CountsWalked(lines, labels[..i]) && DomainWalked(lines, labels[..i])
        invariant Extends(old(Nodes), Nodes) && fresh(Repr - old(Repr))
      {
        ghost var nodes1 := Nodes;
        node := Step(node, labels, i, lines);
        if Nodes != nodes1 {
          ExtendsAdd(old(Nodes), nodes1, labels[..i + 1], node);
        }
        i := i + 1;
      }
      assert labels[..i] == labels;
    }

    /** The counting invariant, from the walk's invariant once the walk is over. */
    lemma WalkedValid()
      requires Shape() && root.count == 0 && CountsWalked(Lines, []) && DomainWalked(Lines, [])
      ensures Valid()
    {
    }

    /**
     Inserting one reversed label sequence, as processLine's loop does: the line
     is recorded, every node on its path counts it once more, and the counting
     invariant is kept.
     */
    method Insert(labels: seq<Label>)
      requires Valid()
      modifies this, Repr
      ensures Valid() && Lines == old(Lines) + [labels] && root == old(root)
      ensures Extends(old(Nodes), Nodes) && fresh(Repr - old(Repr))
      ensures forall p :: p in old(Nodes) ==>
                Nodes[p].count == old(Nodes[p].count) + (if p != [] && p <= labels then 1 else 0)
      ensures forall p :: p in Nodes && p !in old(Nodes) ==> p != [] && p <= labels && Nodes[p].count == 1
    {
      ghost var lines0 := Lines;
      Lines := Lines + [labels];
      Walk(labels, lines0);
      WalkDone(lines0, labels);
      WalkedValid();
      forall p ensures PrefixCount(Lines, p) == PrefixCount(lines0, p) + (if p <= labels then 1 else 0) {
        PrefixCountAppend(lines0, labels, p);
      }
    }

    /**
     traverseTrie on the node at path `labels`: the paths at or below it that are
     not the root and whose count reaches the threshold, each once, with the domain
     string written for each. Sibling order is left open, as Go's map iteration is.
     */
    method Traverse(node: TrieNode, labels: Path, threshold: int) returns (out: seq<seq<byte>>, ghost emitted: seq<Path>)
      requires Shape()
      requires labels in Nodes && Nodes[labels] == node
      ensures Written(out, emitted)
      ensures forall p :: p in emitted <==> Qualifies(p, labels, threshold)
      ensures NoDuplicates(emitted)
      decreases Below(labels)
    {
      out, emitted := [], [];
      if node.count >= threshold && |labels| > 0 {
        var suffix := LabelsToDomain(labels);
        out, emitted := [suffix], [labels];
      }
      var keys := node.children.Keys;
      ghost var all := keys;
      StartEmitting(out, emitted, labels, threshold, all);
      while keys != {}
        invariant keys <= all
        invariant Written(out, emitted)
        invariant EmittedSoFar(emitted, labels, threshold, all - keys)
        decreases keys
      {
        var lab :| lab in keys;
        BelowShrinks(labels, lab);
        var sub, subEmitted := Traverse(node.children[lab], labels + [lab], threshold);
        VisitStep(out, emitted, sub, subEmitted, labels, lab, threshold, all, keys);
        out, emitted := out + sub, emitted + subEmitted;
        keys := keys - {lab};
      }
      EmittedAll(emitted, labels, threshold, all, keys);
    }

    /**
     `traverseTrie(root, []string{}, threshold, writer)`: every suffix that at
     least `threshold` inserted lines end with (and at least one does), each once.
     */
    method Report(threshold: int) returns (out: seq<seq<byte>>, ghost emitted: seq<Path>)
      requires Valid()
      ensures Written(out, emitted)
      ensures forall p :: p in emitted <==>
                p != [] && PrefixCount(Lines, p) >= 1 && PrefixCount(Lines, p) >= threshold
      ensures NoDuplicates(emitted)
    {
      out, emitted := Traverse(root, [], threshold);
    }
  }
}
