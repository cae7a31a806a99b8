/**
 Domain labels: splitting a line on dots (splitLabels), reversing the label order,
 and building a domain string back from a trie path (labelsToDomain, joinLabels).
 A Go string is a sequence of bytes, so a label is `seq<byte>`.
 */
module Labels {
  import opened Bytes

  type Label = seq<byte>

  predicate DotFree(l: Label) {
    Dot !in l
  }

  predicate AllDotFree(ls: seq<Label>) {
    forall k :: 0 <= k < |ls| ==> DotFree(ls[k])
  }

  /** Number of `.` bytes in `s`. */
  function Dots(s: seq<byte>): nat
  {
    multiset(s)[Dot]
  }

  /** Position of the last `.` in `s`. */
  function LastDot(s: seq<byte>): (d: nat)
    requires Dot in s
    ensures d < |s| && s[d] == Dot
    ensures DotFree(s[d + 1..])
  {
    if s[|s| - 1] == Dot then |s| - 1
    else
      assert Dot in s[..|s| - 1] by {
        var k :| 0 <= k < |s| && s[k] == Dot;
        assert s[..|s| - 1][k] == Dot;
      }
      LastDot(s[..|s| - 1])
  }

  /**
   The labels of a line: the maximal dot-free runs between dots, empty ones included.
   Defined from the right (everything before the last dot, then the last label).
   */
  function Split(s: seq<byte>): (r: seq<Label>)
    ensures |r| >= 1
    ensures AllDotFree(r)
    decreases |s|
  {
    if Dot in s then
      var d := LastDot(s);
      Split(s[..d]) + [s[d + 1..]]
    else
      [s]
  }

  /** The labels joined with `.` between consecutive ones. */
  function Join(ls: seq<Label>): seq<byte>
    requires |ls| >= 1
  {
    if |ls| == 1 then ls[0] else Join(ls[..|ls| - 1]) + [Dot] + ls[|ls| - 1]
  }

  /** Sum of the label lengths. */
  function TotalLen(ls: seq<Label>): nat
  {
    if ls == [] then 0 else TotalLen(ls[..|ls| - 1]) + |ls[|ls| - 1]|
  }

  function Reverse<T>(s: seq<T>): (r: seq<T>)
    ensures |r| == |s|
    ensures forall k :: 0 <= k < |s| ==> r[k] == s[|s| - 1 - k]
  {
    if s == [] then [] else [s[|s| - 1]] + Reverse(s[..|s| - 1])
  }

  /** labelsToDomain: a trie path (top-level label first) written as a domain. */
  function DomainOf(p: seq<Label>): seq<byte>
    requires |p| >= 1
  {
    Join(Reverse(p))
  }

  /** Splitting at a dot after which no dot follows is splitting at the last dot. */
  lemma SplitAtLastDot(s: seq<byte>, d: nat)
    requires d < |s| && s[d] == Dot && DotFree(s[d + 1..])
    ensures Split(s) == Split(s[..d]) + [s[d + 1..]]
  {
    var e := LastDot(s);
    assert e == d;
  }

  /** splitLabels yields one label more than there are dots. */
  lemma {:induction false} SplitCount(s: seq<byte>)
    ensures |Split(s)| == Dots(s) + 1
    decreases |s|
  {
    if Dot in s {
      var d := LastDot(s);
      SplitCount(s[..d]);
      assert s == s[..d] + [Dot] + s[d + 1..];
      assert multiset(s) == multiset(s[..d]) + multiset{Dot} + multiset(s[d + 1..]);
    } else {
      assert multiset(s)[Dot] == 0;
    }
  }

  /** Joining the labels of a line gives the line back. */
  lemma {:induction false} JoinSplit(s: seq<byte>)
    ensures Join(Split(s)) == s
    decreases |s|
  {
    if Dot in s {
      var d := LastDot(s);
      var init := Split(s[..d]);
      JoinSplit(s[..d]);
      var r := init + [s[d + 1..]];
      assert r[..|r| - 1] == init;
      assert s == s[..d] + [Dot] + s[d + 1..];
    }
  }

  /** Splitting a join of dot-free labels gives the labels back. */
  lemma {:induction false} SplitJoin(ls: seq<Label>)
    requires |ls| >= 1 && AllDotFree(ls)
    ensures Split(Join(ls)) == ls
    decreases |ls|
  {
    if |ls| > 1 {
      var init := ls[..|ls| - 1];
      SplitJoin(init);
      var j := Join(init);
      var s := Join(ls);
      assert s == j + [Dot] + ls[|ls| - 1];
      assert s[..|j|] == j;
      assert s[|j| + 1..] == ls[|ls| - 1];
      SplitAtLastDot(s, |j|);
    }
  }

  /** The joined string is as long as the labels plus one dot between each two. */
  lemma {:induction false} JoinLength(ls: seq<Label>)
    requires |ls| >= 1
    ensures |Join(ls)| == TotalLen(ls) + |ls| - 1
    decreases |ls|
  {
    if |ls| > 1 {
      JoinLength(ls[..|ls| - 1]);
    } else {
      assert ls[..0] == [];
    }
  }

  lemma ReverseInvolutive<T>(s: seq<T>)
    ensures Reverse(Reverse(s)) == s
  {
  }

  /** Reversal keeps the multiset of labels. */
  lemma {:induction false} ReverseMultiset<T>(s: seq<T>)
    ensures multiset(Reverse(s)) == multiset(s)
    decreases |s|
  {
    if s != [] {
      ReverseMultiset(s[..|s| - 1]);
      assert s == s[..|s| - 1] + [s[|s| - 1]];
    }
  }

  /**
   A domain string names its path: splitting it gives the path's labels in domain
   order, and two dot-free paths with the same domain string are equal.
   */
  lemma DomainRoundTrip(p: seq<Label>)
    requires |p| >= 1 && AllDotFree(p)
    ensures Split(DomainOf(p)) == Reverse(p)
    ensures Reverse(Split(DomainOf(p))) == p
  {
    SplitJoin(Reverse(p));
    ReverseInvolutive(p);
  }

  lemma DomainInjective(p: seq<Label>, q: seq<Label>)
    requires |p| >= 1 && AllDotFree(p)
    requires |q| >= 1 && AllDotFree(q)
    requires DomainOf(p) == DomainOf(q)
    ensures p == q
  {
    DomainRoundTrip(p);
    DomainRoundTrip(q);
  }

  /** A path of one empty label is written as the empty string. */
  lemma DomainOfEmptyLabel()
    ensures DomainOf([[]]) == []
  {
  }

  /** splitLabels: scans the line once, cutting a label at every dot and at the end. */
  method SplitLabels(line: seq<byte>) returns (labels: seq<Label>)
    ensures labels == Split(line)
  {
    labels := [];
    var start := 0;
    var i := 0;
    while i <= |line|
      invariant 0 <= start <= i <= |line| + 1
      invariant i <= |line| ==> DotFree(line[start..i])
      invariant i > |line| ==> labels == Split(line)
      invariant i <= |line| && start == 0 ==> labels == []
      invariant i <= |line| && start > 0 ==> line[start - 1] == Dot && labels == Split(line[..start - 1])
      decreases |line| + 1 - i
    {
      if i == |line| || line[i] == Dot {
        ghost var piece := line[..i];
        assert line[start..i] == piece[start..];
        if start == 0 {
          assert piece == line[start..i];
        } else {
          assert piece[..start - 1] == line[..start - 1];
          SplitAtLastDot(piece, start - 1);
        }
        labels := labels + [line[start..i]];
        start := i + 1;
        if i == |line| {
          assert piece == line;
        }
      }
      i := i + 1;
    }
  }

  /** Joining splits at any label boundary. */
  lemma {:induction false} JoinAt(ls: seq<Label>, i: nat)
    requires 0 < i < |ls|
    ensures Join(ls) == Join(ls[..i]) + [Dot] + Join(ls[i..])
    decreases |ls|
  {
    var n := |ls| - 1;
    if i < n {
      var rest := ls[i..];
      JoinAt(ls[..n], i);
      assert ls[..n][..i] == ls[..i];
      assert rest[..|rest| - 1] == ls[..n][i..] && rest[|rest| - 1] == ls[n];
      calc {
        Join(ls);
        Join(ls[..n]) + [Dot] + ls[n];
        (Join(ls[..i]) + [Dot] + Join(ls[..n][i..])) + [Dot] + ls[n];
        Join(ls[..i]) + [Dot] + (Join(ls[..n][i..]) + [Dot] + ls[n]);
        Join(ls[..i]) + [Dot] + Join(rest);
      }
    } else {
      assert ls[i..] == [ls[n]];
    }
  }

  /** What joinLabels has written into its buffer once the first `i` labels are copied. */
  function Filled(ls: seq<Label>, i: nat): seq<byte>
    requires i <= |ls|
  {
    if i == 0 then []
    else if i < |ls| then Join(ls[..i]) + [Dot]
    else Join(ls)
  }

  /** Each copied label extends the buffer by the label and, except after the last one, a dot. */
  lemma FilledStep(ls: seq<Label>, i: nat)
    requires i < |ls|
    ensures Filled(ls, i + 1) == Filled(ls, i) + ls[i] + (if i + 1 < |ls| then [Dot] else [])
    ensures |Filled(ls, i + 1)| <= |Join(ls)|
  {
    var n := |ls|;
    var head := ls[..i + 1];
    if i == 0 {
      assert head == [ls[0]];
      assert Join(head) == ls[0];
    } else {
      assert head[..i] == ls[..i];
      assert head[i] == ls[i];
      assert Join(head) == Join(ls[..i]) + [Dot] + ls[i];
    }
    if i + 1 == n {
      assert head == ls;
    } else {
      JoinAt(ls, i + 1);
    }
  }

  /** joinLabels: measures the result, then fills a buffer label by label, with dots between. */
  method JoinLabels(labels: seq<Label>) returns (s: seq<byte>)
    requires |labels| >= 1
    ensures s == Join(labels)
  {
    var n := |labels|;
    var totalLen := 0;
    for i := 0 to n
      invariant totalLen == TotalLen(labels[..i]) + i
    {
      assert labels[..i + 1][..i] == labels[..i];
      totalLen := totalLen + |labels[i]| + 1;
    }
    totalLen := totalLen - 1;
    assert labels[..n] == labels;
    JoinLength(labels);

    var buf := new byte[totalLen];
    var pos := 0;
    for i := 0 to n
      invariant buf.Length == totalLen == |Join(labels)|
      invariant 0 <= pos <= totalLen
      invariant buf[..pos] == Filled(labels, i)
    {
      var piece := labels[i];
      FilledStep(labels, i);
      ghost var before := buf[..pos];
      forall k | 0 <= k < |piece| {
        buf[pos + k] := piece[k];
      }
      assert buf[..pos + |piece|] == before + piece;
      pos := pos + |piece|;
      if i < n - 1 {
        ghost var written := buf[..pos];
        buf[pos] := Dot;
        assert buf[..pos + 1] == written + [Dot];
        pos := pos + 1;
      }
    }
    assert buf[..] == buf[..pos];
    s := buf[..];
  }

  /** labelsToDomain: copies the path into a new slice back to front, then joins it. */
  method LabelsToDomain(labels: seq<Label>) returns (s: seq<byte>)
    requires |labels| >= 1
    ensures s == DomainOf(labels)
  {
    var n := |labels|;
    var domainParts := new Label[n];
    for i := 0 to n
      invariant forall k :: 0 <= k < i ==> domainParts[k] == labels[n - 1 - k]
    {
      domainParts[i] := labels[n - 1 - i];
    }
    assert domainParts[..] == Reverse(labels);
    s := JoinLabels(domainParts[..]);
  }

  /** The swap loop of processLine that puts the top-level label first. */
  method ReverseInPlace(a: array<Label>)
    modifies a
    ensures a[..] == Reverse(old(a[..]))
    ensures multiset(a[..]) == multiset(old(a[..]))
  {
    ghost var was := a[..];
    var i, j := 0, a.Length - 1;
    while i < j
      invariant 0 <= i && 2 * i <= a.Length && j == a.Length - 1 - i
      invariant forall k {:trigger a[k]} :: 0 <= k < a.Length ==>
                  a[k] == if i <= k <= j then was[k] else was[a.Length - 1 - k]
    {
      a[i], a[j] := a[j], a[i];
      i, j := i + 1, j - 1;
    }
    assert a[..] == Reverse(was);
    ReverseMultiset(was);
  }
}
