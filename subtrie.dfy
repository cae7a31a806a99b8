/**
 The program as a whole: processLine on each input line, and main's run from
 an empty trie through every line to the report of the suffixes that reach
 the threshold.
 */
module Subtrie {
  import opened Bytes
  import opened Line
  import opened Labels
  import opened Paths
  import opened Trie

  /** The label sequence processLine inserts for a non-blank line: trimmed, lower-cased, split and reversed. */
  function LineLabels(b: seq<byte>): seq<Label>
  {
    Reverse(Split(Lower(Trim(b))))
  }

  /** A line holding only spaces, tabs, carriage returns and newlines; processLine ignores it. */
  predicate Blank(b: seq<byte>) {
    Trim(b) == []
  }

  /** The label sequences the trie receives for `lines`, in order; blank lines contribute nothing. */
  function Inserted(lines: seq<seq<byte>>): (r: seq<Path>)
    ensures |r| <= |lines|
  {
    if lines == [] then []
    else
      var last := lines[|lines| - 1];
      Inserted(lines[..|lines| - 1]) + (if Blank(last) then [] else [LineLabels(last)])
  }

  /** Reading more lines appends what they insert: the lines are processed one by one, in order. */
  lemma InsertedAppend(lines: seq<seq<byte>>, more: seq<seq<byte>>)
    ensures Inserted(lines + more) == Inserted(lines) + Inserted(more)
    decreases |more|
  {
    if more != [] {
      var init := more[..|more| - 1];
      InsertedAppend(lines, init);
      assert (lines + more)[..|lines + more| - 1] == lines + init;
    } else {
      assert lines + more == lines;
    }
  }

  lemma InsertedOne(b: seq<byte>)
    ensures Inserted([b]) == if Blank(b) then [] else [LineLabels(b)]
  {
    assert [b][..0] == [];
  }

  lemma InsertedStep(lines: seq<seq<byte>>, i: nat)
    requires i < |lines|
    ensures Inserted(lines[..i + 1]) == Inserted(lines[..i]) + Inserted([lines[i]])
  {
    InsertedAppend(lines[..i], [lines[i]]);
    assert lines[..i] + [lines[i]] == lines[..i + 1];
  }

  /** The label slice splitLabels returns, reversed in place by processLine's swap loop. */
  method Reversed(split: seq<Label>) returns (labels: seq<Label>)
    ensures labels == Reverse(split)
  {
    var parts := new Label[|split|];
    forall k | 0 <= k < parts.Length {
      parts[k] := split[k];
    }
    assert parts[..] == split;
    ReverseInPlace(parts);
    labels := parts[..];
  }

  /**
   The first half of processLine on the caller's buffer: trim it, stop if
   nothing is left, otherwise lower-case the trimmed slice in place, split it
   into labels and reverse them, top-level label first.
   */
  method Normalise(line: array<byte>) returns (blank: bool, labels: seq<Label>)
    modifies line
    ensures blank == Blank(old(line[..]))
    ensures !blank ==> labels == LineLabels(old(line[..]))
    ensures line[..] == if blank then old(line[..]) else LowerTrimmed(old(line[..]))
  {
    ghost var raw := line[..];
    var lo, hi := TrimSpaces(line[..]);
    blank, labels := lo == hi, [];
    if blank {
      return;
    }
    LowerInPlace(line, lo, hi);
    assert line[..] == LowerTrimmed(raw);
    var trimmed := line[lo..hi];
    assert trimmed == Lower(Trim(raw));
    var split := SplitLabels(trimmed);
    labels := Reversed(split);
  }

  /**
   processLine: a blank line leaves the buffer and the trie as they are; any
   other line is trimmed and lower-cased in place in the caller's buffer, and
   its reversed labels are inserted into the trie.
   */
  method ProcessLine(line: array<byte>, t: SuffixTrie)
    requires t.Valid()
    modifies line, t, t.Repr
    ensures t.Valid() && t.root == old(t.root) && fresh(t.Repr - old(t.Repr))
    ensures t.Lines == old(t.Lines) + Inserted([old(line[..])])
    ensures line[..] == if Blank(old(line[..])) then old(line[..]) else LowerTrimmed(old(line[..]))
    ensures Blank(old(line[..])) ==> unchanged(t) && unchanged(t.Repr)
  {
    ghost var raw := line[..];
    var blank, labels := Normalise(line);
    assert unchanged(t) && unchanged(t.Repr);
    assert t.Valid();
    InsertedOne(raw);
    if blank {
      return;
    }
    assert !Blank(old(line[..]));
    t.Insert(labels);
  }

  /** Lower-casing a line first changes neither whether it is blank nor what processLine inserts for it. */
  lemma CaseInsensitive(b: seq<byte>)
    ensures Blank(Lower(b)) <==> Blank(b)
    ensures LineLabels(Lower(b)) == LineLabels(b)
  {
    TrimLower(b);
    LowerProperties(Trim(b));
  }

  /**
   The labels inserted for a non-blank line are its dot-separated labels,
   top-level label first, none holding a dot; one more than its dots; and the
   domain string of the whole sequence is the normalised line itself.
   */
  lemma LineLabelsShape(b: seq<byte>)
    requires !Blank(b)
    ensures |LineLabels(b)| == Dots(Lower(Trim(b))) + 1
    ensures AllDotFree(LineLabels(b))
    ensures DomainOf(LineLabels(b)) == Lower(Trim(b))
  {
    var s := Lower(Trim(b));
    SplitCount(s);
    ReverseInvolutive(Split(s));
    JoinSplit(s);
  }

  /** Every inserted label sequence is dot-free, whatever the lines were. */
  lemma {:induction false} InsertedDotFree(lines: seq<seq<byte>>)
    ensures forall k :: 0 <= k < |Inserted(lines)| ==> AllDotFree(Inserted(lines)[k])
    decreases |lines|
  {
    if lines != [] {
      var last := lines[|lines| - 1];
      InsertedDotFree(lines[..|lines| - 1]);
      if !Blank(last) {
        LineLabelsShape(last);
      }
    }
  }

  /** A path that some dot-free sequence starts with is dot-free. */
  lemma OccursDotFree(lines: seq<Path>, p: Path)
    requires forall k :: 0 <= k < |lines| ==> AllDotFree(lines[k])
    requires Occurs(lines, p)
    ensures AllDotFree(p)
  {
    var k :| 0 <= k < |lines| && p <= lines[k];
    forall i | 0 <= i < |p| ensures DotFree(p[i]) {
      assert p[i] == lines[k][i];
    }
  }

  /**
   The lines written for distinct dot-free paths are distinct, and each one
   splits back into its path's labels.
   */
  lemma OutputNamesPaths(out: seq<seq<byte>>, emitted: seq<Path>)
    requires Written(out, emitted) && NoDuplicates(emitted)
    requires forall k :: 0 <= k < |emitted| ==> AllDotFree(emitted[k])
    ensures NoDuplicates(out)
    ensures forall k :: 0 <= k < |out| ==> Reverse(Split(out[k])) == emitted[k]
  {
    forall k | 0 <= k < |out| ensures Reverse(Split(out[k])) == emitted[k] {
      DomainRoundTrip(emitted[k]);
    }
  }

  /**
   What main writes for the lines read: distinct lines, each splitting back into
   the labels of the suffix it names.
   */
  lemma ReportNamesSuffixes(lines: seq<seq<byte>>, threshold: int, out: seq<seq<byte>>, emitted: seq<Path>)
    requires Written(out, emitted) && NoDuplicates(emitted)
    requires forall p :: p in emitted ==> PrefixCount(Inserted(lines), p) >= 1
    ensures NoDuplicates(out)
    ensures forall k :: 0 <= k < |out| ==> Reverse(Split(out[k])) == emitted[k]
  {
    InsertedDotFree(lines);
    forall k | 0 <= k < |emitted| ensures AllDotFree(emitted[k]) {
      PrefixCountPositive(Inserted(lines), emitted[k]);
      OccursDotFree(Inserted(lines), emitted[k]);
    }
    OutputNamesPaths(out, emitted);
  }

  /**
   One round of main's read loop once ReadLine has delivered a whole line: the
   line is gathered into a fresh buffer and handed to processLine.
   */
  method FeedLine(t: SuffixTrie, l: seq<byte>)
    requires t.Valid()
    modifies t, t.Repr
    ensures t.Valid() && fresh(t.Repr - old(t.Repr))
    ensures t.Lines == old(t.Lines) + Inserted([l])
  {
    var buf := new byte[|l|](k requires 0 <= k < |l| => l[k]);
    assert buf[..] == l;
    ProcessLine(buf, t);
  }

  /**
   main: an empty trie, processLine on every line in input order, then
   traverseTrie from the root. The output lines are distinct; each names a
   suffix (top-level label first in `emitted`) that at least `threshold`
   non-blank lines, and at least one, end with; and every such suffix is written.
   */
  method Run(lines: seq<seq<byte>>, threshold: int) returns (out: seq<seq<byte>>, ghost emitted: seq<Path>)
    ensures Written(out, emitted) && NoDuplicates(out)
    ensures forall p :: p in emitted <==>
              p != [] && PrefixCount(Inserted(lines), p) >= 1 && PrefixCount(Inserted(lines), p) >= threshold
    ensures forall k :: 0 <= k < |out| ==> Reverse(Split(out[k])) == emitted[k]
  {
    var t := new SuffixTrie();
    for i := 0 to |lines|
      invariant t.Valid() && fresh(t.Repr)
      invariant t.Lines == Inserted(lines[..i])
    {
      FeedLine(t, lines[i]);
      InsertedStep(lines, i);
    }
    assert lines[..|lines|] == lines;
    out, emitted := t.Report(threshold);
    ReportNamesSuffixes(lines, threshold, out, emitted);
  }
}
