# subtrie in Dafny

subtrie reads domain names, one per line, and counts every domain suffix
(`com`, `example.com`, `www.example.com`, ...) in a trie keyed by label, with
the top-level label nearest the root. It then writes every suffix that at
least a threshold number of lines end with. This project models that core,
all of it in `main.go`:

- `processLine`: trim whitespace, lower-case in place, split on dots, reverse
  the labels and walk the trie, creating missing nodes and counting;
- `trimSpaces`, `splitLabels`, `labelsToDomain` and `joinLabels`;
- `traverseTrie`, the report;
- the part of `main` that builds the empty trie, feeds it every line and
  starts the report.

Layout, one module per file:

- `bytes.dfy` (module `Bytes`): Go's `byte`; the four whitespace bytes;
  `byte(unicode.ToLower(rune(b)))` on every byte value.
- `line.dfy` (module `Line`): `trimSpaces` as a loop proved against the
  functions `TrimLo`, `TrimHi` and `Trim`; the in-place lower-casing loop over
  the caller's buffer, an `array<byte>`.
- `labels.dfy` (module `Labels`): the functions `Split`, `Join`, `Reverse`
  and `DomainOf`, and their laws. It also holds the loops `splitLabels`,
  `joinLabels` and `labelsToDomain`, and the swap loop over an
  `array<Label>`, each proved against those functions.
- `paths.dfy` (module `Paths`): paths (label sequences, top-level label
  first); `PrefixCount`, the number of inserted sequences that start with a
  path; the shape of a trie given as maps from paths; the bookkeeping of the
  report.
- `node.dfy` (module `Node`): the class `TrieNode`, whose `count` and
  `children` fields are updated in place as in Go, and the facts about a
  family of nodes that the trie keeps as it grows.
- `trie.dfy` (module `Trie`): the class `SuffixTrie`. It holds the root and a
  ghost view:
  - `Nodes`: the node at each path;
  - `Kids`: the children map at each path;
  - `Lines`: the sequences inserted so far;
  - `Repr`: every node.

  The class also holds the insertion loop (`Insert`, built from `Walk`,
  `Step`, `Descend`, `AddChild` and `Bump`) and the recursive report
  (`Traverse`, `Report`). Its invariant `Valid` is the counting invariant:
  - the root's count is 0;
  - every other node's count is the number of inserted sequences that start
    with its path;
  - a path has a node exactly when it is the root or some inserted sequence
    starts with it.
- `subtrie.dfy` (module `Subtrie`): `processLine` on the caller's buffer, and
  `Run`, main's run over a sequence of lines. `Run` is proved end to end:
  - the output lines are distinct;
  - each output line splits back into the labels of a suffix;
  - a suffix is written exactly when at least one non-blank line ends with
    it and at least `threshold` do.

Lower-casing is `byte(unicode.ToLower(rune(b)))` on each byte, so besides
`A`–`Z` the Latin-1 bytes 0xC0–0xD6 and 0xD8–0xDE are shifted by 0x20
(`Bytes.ToLower`); every other byte, 0xD7 included, is kept.

## Model

| member | source | states |
|---|---|---|
| Bytes.ToLower | main.go:93-95 | No upper-case byte survives. A byte changes exactly when it is upper case (`A`–`Z`, Latin-1 0xC0–0xD6, 0xD8–0xDE), and then by +0x20. ASCII-ness, whitespace and dots are kept. |
| Bytes.ToLowerIdempotent | main.go:94 | Lower-casing a byte twice is lower-casing it once. |
| Bytes.LowerProperties | main.go:93-95 | Lower-casing a slice keeps its length and the positions of its dots and whitespace, and is idempotent. |
| Bytes.LowerSlice | main.go:93-95 | Lower-casing commutes with taking a sub-slice. |
| Line.Leading | main.go:122-124 | The first loop of trimSpaces stops at the first non-whitespace byte; all bytes before it are whitespace. |
| Line.Trailing | main.go:125-127 | The second loop stops at the last non-whitespace byte; all bytes after it are whitespace. |
| Line.TrimSpaces | main.go:121-130 | The two index loops return exactly the bounds of the trimmed slice. |
| Line.TrimCharacterised | main.go:121-130 | The line is whitespace, then the trimmed slice, then whitespace. A non-empty trimmed slice neither starts nor ends with whitespace. It is empty exactly when the whole line is whitespace. |
| Line.TrimIdempotent | main.go:121-130 | Trimming a trimmed line changes nothing. |
| Line.LeadingLower | main.go:87-95 | Lower-casing keeps the leading whitespace count. |
| Line.TrailingLower | main.go:87-95 | Lower-casing keeps the trailing whitespace count. |
| Line.TrimLower | main.go:87-95 | Trimming and lower-casing commute, with the same bounds. |
| Line.LowerInPlace | main.go:93-95 | The loop lower-cases exactly the bytes of the slice and leaves the rest of the caller's buffer as it was. |
| Labels.LastDot | main.go:136-139 | The index found is a dot, and no dot follows it. |
| Labels.Split | main.go:133-143 | A line splits into at least one label, and no label holds a dot. |
| Labels.SplitLabels | main.go:133-143 | The scanning loop yields exactly `Split` of the line, empty labels included. |
| Labels.SplitAtLastDot | main.go:136-139 | Cutting at a dot with no dot after it is the split at the last dot. |
| Labels.SplitCount | main.go:133-143 | A line yields one label more than it has dots. |
| Labels.JoinSplit | main.go:133-143 | Joining a line's labels with dots gives the line back. |
| Labels.SplitJoin | main.go:166-184 | Splitting the join of dot-free labels gives the labels back. |
| Labels.JoinLength | main.go:167-172 | The join is as long as the labels together plus one dot between each two. |
| Labels.JoinAt | main.go:174-182 | The join splits at any label boundary into the joins of the two sides and a dot. |
| Labels.FilledStep | main.go:174-182 | Each copied label extends the buffer by the label and, except after the last, a dot; the buffer never overflows. |
| Labels.JoinLabels | main.go:166-184 | Given at least one label, the two passes over a fixed-size buffer produce exactly the dot-join of the labels. |
| Labels.Reverse | main.go:101-103 | The reverse has the same length, and position k holds the element at position n-1-k. |
| Labels.ReverseInvolutive | main.go:101-103 | Reversing twice gives the sequence back. |
| Labels.ReverseMultiset | main.go:101-103 | Reversal keeps the multiset of labels. |
| Labels.ReverseInPlace | main.go:101-103 | The swap loop leaves the array holding the reverse of its old contents, a permutation of them. |
| Labels.LabelsToDomain | main.go:157-163 | The copy loop followed by joinLabels gives the path's labels in reverse order joined with dots. |
| Labels.DomainRoundTrip | main.go:157-163 | Splitting the domain string of a dot-free path gives the path reversed; reversing that gives the path. |
| Labels.DomainInjective | main.go:157-163 | Two dot-free paths with the same domain string are equal. |
| Labels.DomainOfEmptyLabel | main.go:157-184 | A path of a single empty label is written as the empty string. |
| Paths.PrefixCount | main.go:106-117 | No path starts more sequences than were inserted. |
| Paths.PrefixCountAppend | main.go:106-117 | One more inserted sequence adds one to the count of each of its prefixes and nothing to other paths. |
| Paths.PrefixCountMonotone | main.go:106-117 | A longer path is started by at most as many sequences as its prefix. |
| Paths.PrefixCountPositive | main.go:106-117 | A count is positive exactly when some inserted sequence starts with the path. |
| Paths.PrefixStep | main.go:107-116 | The prefixes of a path one label longer are the old prefixes and the new path. |
| Paths.ReachedStep | main.go:112-115 | After one more step of the walk, the paths with a node are the old ones plus the path just reached. |
| Paths.TreeShapedAdd | main.go:112-114 | Hanging a node under a label that was missing keeps the tree shape, and the new path had no node. |
| Paths.PrefixHasNode | main.go:106-117 | Every prefix of a path with a node has a node. |
| Paths.BelowChild | main.go:151 | A path strictly below a node hangs under one of that node's children. |
| Paths.WrittenConcat | main.go:148-153 | The output of a parent followed by a child's output still pairs each line with its path. |
| Paths.NoDuplicatesConcat | main.go:151-153 | Outputs of disjoint subtrees, each without repeats, concatenate without repeats. |
| Node.TrieNode.At | main.go:113 | `&TrieNode{}`: count 0 and no children. |
| Node.MirrorsAdd | main.go:113 | Linking a fresh childless node under the node at a path keeps every node's children in step with the recorded ones. |
| Node.ShapeAdd | main.go:112-114 | Linking a fresh childless node under a missing label keeps the trie's shape, rooted at the same root. |
| Node.CountsAgreeAdd | main.go:113 | A new node with count 0, at a path no sequence has reached, keeps the counts right. |
| Trie.SuffixTrie.constructor | main.go:41 | The empty trie: only the root, with count 0, and nothing inserted. |
| Trie.SuffixTrie.NodesAreOccurrences | main.go:106-117 | A non-root path has a node exactly when some inserted sequence starts with it, so every non-root count is at least 1. |
| Trie.SuffixTrie.CountsNonIncreasing | main.go:106-117 | No child counts more than its non-root parent. |
| Trie.SuffixTrie.AddChild | main.go:112-114 | The missing child is created with count 0 at the path one label down. Only the parent's children map and the view change; the shape is kept. |
| Trie.SuffixTrie.Bump | main.go:116 | `node.Count++` on the node just reached extends the counted prefix by one label. |
| Trie.SuffixTrie.Descend | main.go:107-115 | One step: the child exists afterwards and is the next node. At most that one path gains a node; counts are unchanged. |
| Trie.SuffixTrie.Step | main.go:107-117 | One round of the loop: move to the child, creating it if missing, and count it. |
| Trie.SuffixTrie.Walk | main.go:106-117 | The whole loop: every prefix of the sequence is counted once more, and no node is removed or replaced. |
| Trie.SuffixTrie.WalkDone | main.go:106-117 | A finished walk counts as one more inserted sequence. |
| Trie.SuffixTrie.WalkedValid | main.go:106-117 | The walk's invariant with no walk in progress is the counting invariant. |
| Trie.SuffixTrie.Insert | main.go:106-117 | Keeps the counting invariant and records the sequence. Each existing node on its path gains exactly 1; every other count, the root's included, is unchanged. New nodes are exactly missing non-empty prefixes, each with count 1. No node is removed. |
| Trie.SuffixTrie.BelowShrinks | main.go:151-152 | Recursing into a child leaves strictly fewer nodes to visit, so the recursion ends. |
| Trie.SuffixTrie.QualifiesBelowChild | main.go:151-152 | The nodes qualifying below a child are those qualifying below the parent whose next label is the child's. |
| Trie.SuffixTrie.StartEmitting | main.go:147-150 | Before the children are visited, only the node itself has been emitted, and only if it qualifies and is not the root. |
| Trie.SuffixTrie.EmitChild | main.go:151-153 | Visiting one more child adds exactly the nodes qualifying below it, without repeats. |
| Trie.SuffixTrie.VisitStep | main.go:151-153 | One round of the loop over the children keeps the output accurate. |
| Trie.SuffixTrie.EmittedAll | main.go:151-153 | Once every child is visited, everything qualifying below the node has been emitted. |
| Trie.SuffixTrie.Traverse | main.go:146-154 | Emits exactly the non-root paths at or below the node whose count is at least the threshold, each once, writing `labelsToDomain` of each. |
| Trie.SuffixTrie.Report | main.go:81 | From the root: exactly the suffixes that at least one inserted sequence, and at least `threshold` of them, start with, each once. |
| Subtrie.InsertedAppend | main.go:47-64 | Processing more lines appends what they insert, in order. |
| Subtrie.InsertedOne | main.go:87-90 | A blank line inserts nothing; any other line inserts its normalised labels. |
| Subtrie.InsertedStep | main.go:57-58 | Each round of the read loop inserts what its one line contributes. |
| Subtrie.Reversed | main.go:101-103 | The labels come out in reverse order. |
| Subtrie.Normalise | main.go:87-103 | Reports a blank line without touching the buffer. Otherwise the buffer becomes the line with its trimmed part lower-cased, and the labels are that part split on dots and reversed. |
| Subtrie.ProcessLine | main.go:86-118 | A blank line leaves the buffer and the trie as they are. Otherwise the buffer is lower-cased in its trimmed part and the trie records the line's reversed labels. The counting invariant is kept. |
| Subtrie.CaseInsensitive | main.go:93-95 | Lower-casing a line first changes neither whether it is blank nor what it inserts. |
| Subtrie.LineLabelsShape | main.go:87-103 | A non-blank line inserts one label more than it has dots, none holding a dot. The domain string of the whole sequence is the trimmed, lower-cased line. |
| Subtrie.InsertedDotFree | main.go:98-103 | No inserted label holds a dot. |
| Subtrie.OccursDotFree | main.go:106-117 | A path that some inserted sequence starts with is dot-free. |
| Subtrie.OutputNamesPaths | main.go:148-149 | Distinct dot-free paths are written as distinct lines, and each line splits back into its path's labels. |
| Subtrie.ReportNamesSuffixes | main.go:81 | The report's lines are distinct, and each names the suffix it was written for. |
| Subtrie.FeedLine | main.go:57-59 | A completed line is copied into a fresh buffer and processed; the trie records what the line inserts. |
| Subtrie.Run | main.go:41-82 | From an empty trie and the input lines, writes distinct lines. A suffix is written exactly when at least one non-blank line ends with it and at least `threshold` do. Each line splits back into that suffix's labels. |

## Left out

- Flag parsing (main.go:17-24), opening and creating files, the error exits and the buffered writer (main.go:26-38, main.go:66-78, main.go:82). These are I/O. The threshold is a parameter. The output is a sequence of lines, and the newline written after each is left out.
- The `ReadLine` reassembly of long lines (main.go:47-56, main.go:61-63). `Run` takes the logical lines directly. The empty piece `ReadLine` may deliver at end of input is a blank line, which inserts nothing.
- Go's `int` width: `Count` is unbounded here, so overflow after 2^63 increments is not modelled.
- The lazy `make` of a nil `Children` map (main.go:109-111). A nil map reads as an empty map in Go, and the model gives every node an empty map from the start.
- Go's map iteration order (main.go:151). The traversal picks any remaining child. The result is stated as a set of paths without repeats; sibling order is not fixed.
- `unicode.ToLower` beyond the 256 byte values: only its effect on single bytes read as runes is modelled.
- Slice aliasing and the claims of working without allocations (main.go:97, main.go:132, main.go:165). Labels are values here, so the sharing of the line buffer by the label slices is not modelled.
- The ghost fields `Nodes`, `Kids`, `Lines`, `Repr` and `path` are proof aids with no counterpart in the Go code.
