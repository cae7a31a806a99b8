/**
 The trie's node type and the facts about a whole family of nodes that the
 trie keeps while it grows: which node sits at which path with which children,
 and what each node's count is during an insertion.
 */
module Node {
  import opened Labels
  import opened Paths

  /** Go's TrieNode: a count and the children by label. A nil Children map reads as the empty map. */
  class TrieNode {
    var count: int
    var children: map<Label, TrieNode>
    /** The path from the root to this node, once it is linked into a trie. */
    ghost var path: Path

    /** `&TrieNode{}`, to be linked in at path `at` (the root, whose Children map is made eagerly, at the empty path). */
    constructor At(ghost at: Path)
      ensures count == 0 && children == map[] && path == at
    {
      count := 0;
      children := map[];
      path := at;
    }
  }

  /** Each path's node is in `repr`, sits at that path, and has the children map recorded for the path. */
  ghost predicate Mirrors(nodes: map<Path, TrieNode>, kids: map<Path, map<Label, TrieNode>>, repr: set<TrieNode>)
    reads repr`children, repr`path
  {
    forall p :: p in nodes ==> nodes[p] in repr && nodes[p].path == p && p in kids && nodes[p].children == kids[p]
  }

  /** `Mirrors`, except for the children of the node at `at`; it does not depend on them. */
  ghost predicate MirrorsBut(nodes: map<Path, TrieNode>, kids: map<Path, map<Label, TrieNode>>, repr: set<TrieNode>, at: Path)
    requires at in nodes
    reads (repr - {nodes[at]})`children, repr`path
  {
    forall p :: p in nodes ==>
      nodes[p] in repr && nodes[p].path == p && p in kids && (nodes[p] != nodes[at] ==> nodes[p].children == kids[p])
  }

  lemma MirrorsExcept(nodes: map<Path, TrieNode>, kids: map<Path, map<Label, TrieNode>>, repr: set<TrieNode>, at: Path)
    requires Mirrors(nodes, kids, repr) && at in nodes
    ensures MirrorsBut(nodes, kids, repr, at)
  {
  }

  /** Hanging a fresh, childless node under the node at `at` keeps the correspondence. */
  lemma MirrorsAdd(nodes: map<Path, TrieNode>, kids: map<Path, map<Label, TrieNode>>, repr: set<TrieNode>,
                   at: Path, lab: Label, child: TrieNode)
    requires at in nodes && at + [lab] !in nodes && MirrorsBut(nodes, kids, repr, at)
    requires nodes[at].children == kids[at][lab := child]
    requires child !in repr && child.children == map[] && child.path == at + [lab]
    ensures Mirrors(nodes[at + [lab] := child], kids[at := kids[at][lab := child]][at + [lab] := map[]], repr + {child})
  {
    var nodes1, kids1 := nodes[at + [lab] := child], kids[at := kids[at][lab := child]][at + [lab] := map[]];
    forall p | p in nodes1
      ensures nodes1[p] in repr + {child} && nodes1[p].path == p && p in kids1 && nodes1[p].children == kids1[p]
    {
      if p != at && p != at + [lab] {
        assert nodes[p].path != nodes[at].path;
      }
    }
  }

  /**
   A trie's nodes and children maps: tree-shaped, rooted at `root`, and in step
   with the nodes in the heap.
   */
  ghost predicate ShapeOf(nodes: map<Path, TrieNode>, kids: map<Path, map<Label, TrieNode>>, repr: set<TrieNode>, root: TrieNode)
    reads repr`children, repr`path
  {
    TreeShaped(nodes, kids) && nodes[[]] == root && Mirrors(nodes, kids, repr)
  }

  /**
   Hanging the fresh, childless node `child` under label `lab` of the node at
   `at`, once that node's children map has been extended, keeps the shape.
   */
  lemma ShapeAdd(nodes: map<Path, TrieNode>, kids: map<Path, map<Label, TrieNode>>, repr: set<TrieNode>, root: TrieNode,
                 at: Path, lab: Label, child: TrieNode)
    requires TreeShaped(nodes, kids) && nodes[[]] == root && at in nodes && lab !in kids[at]
    requires MirrorsBut(nodes, kids, repr, at) && nodes[at].children == kids[at][lab := child]
    requires child !in repr && child.children == map[] && child.path == at + [lab]
    ensures at + [lab] !in nodes
    ensures ShapeOf(nodes[at + [lab] := child], kids[at := kids[at][lab := child]][at + [lab] := map[]], repr + {child}, root)
  {
    TreeShapedAdd(nodes, kids, at, lab, child);
    MirrorsAdd(nodes, kids, repr, at, lab, child);
  }

  /** The counts of the nodes while a line is being walked; see `SuffixTrie.CountsWalked`. */
  ghost predicate CountsAgree(nodes: map<Path, TrieNode>, lines: seq<Path>, walked: Path)
    reads nodes.Values`count
  {
    forall p :: p in nodes && p != [] ==> nodes[p].count == PrefixCount(lines, p) + (if p <= walked then 1 else 0)
  }

  /** A new node with count 0 at a path no line and not the walk has reached keeps the counts right. */
  lemma CountsAgreeAdd(nodes: map<Path, TrieNode>, below: Path, child: TrieNode, lines: seq<Path>, walked: Path)
    requires CountsAgree(nodes, lines, walked) && below !in nodes && child.count == 0
    requires PrefixCount(lines, below) == 0 && !(below <= walked)
    ensures CountsAgree(nodes[below := child], lines, walked)
  {
  }
}
