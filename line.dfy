/**
 The first two steps of processLine on one raw input line: trimming whitespace
 from both ends (trimSpaces) and lower-casing the trimmed slice in place.
 */
module Line {
  import opened Bytes

  /** Number of whitespace bytes at the front of `b`. */
  function Leading(b: seq<byte>): (n: nat)
    ensures n <= |b|
    ensures forall k :: 0 <= k < n ==> IsSpace(b[k])
    ensures n < |b| ==> !IsSpace(b[n])
  {
    if |b| > 0 && IsSpace(b[0]) then 1 + Leading(b[1..]) else 0
  }

  /** Number of whitespace bytes at the back of `b`. */
  function Trailing(b: seq<byte>): (n: nat)
    ensures n <= |b|
    ensures forall k :: |b| - n <= k < |b| ==> IsSpace(b[k])
    ensures n < |b| ==> !IsSpace(b[|b| - 1 - n])
  {
    if |b| > 0 && IsSpace(b[|b| - 1]) then 1 + Trailing(b[..|b| - 1]) else 0
  }

  /** Start of the slice trimSpaces returns: the leading whitespace count, named for its role as a bound. */
  function TrimLo(b: seq<byte>): nat
  {
    Leading(b)
  }

  /** End (exclusive) of the slice trimSpaces returns; a blank line yields the empty slice at its end. */
  function TrimHi(b: seq<byte>): (hi: nat)
    ensures TrimLo(b) <= hi <= |b|
  {
    if Leading(b) == |b| then |b| else |b| - Trailing(b)
  }

  function Trim(b: seq<byte>): seq<byte>
  {
    b[TrimLo(b)..TrimHi(b)]
  }

  /**
   Trimming removes whitespace only, and only at the ends: the line is the trimmed
   slice with whitespace before and after it, and the slice neither starts nor ends
   with whitespace. It is empty exactly when the whole line is whitespace.
   */
  lemma TrimCharacterised(b: seq<byte>)
    ensures b == b[..TrimLo(b)] + Trim(b) + b[TrimHi(b)..]
    ensures forall k :: 0 <= k < TrimLo(b) ==> IsSpace(b[k])
    ensures forall k :: TrimHi(b) <= k < |b| ==> IsSpace(b[k])
    ensures Trim(b) != [] ==> !IsSpace(Trim(b)[0]) && !IsSpace(Trim(b)[|Trim(b)| - 1])
    ensures Trim(b) == [] <==> forall k :: 0 <= k < |b| ==> IsSpace(b[k])
  {
    var lo, hi := TrimLo(b), TrimHi(b);
    assert b == b[..lo] + b[lo..hi] + b[hi..];
    if lo < |b| {
      assert !IsSpace(b[lo]);
      assert hi == |b| - Trailing(b);
      assert !IsSpace(b[hi - 1]);
    }
  }

  /** Trimming an already trimmed line changes nothing. */
  lemma TrimIdempotent(b: seq<byte>)
    ensures Trim(Trim(b)) == Trim(b)
  {
    var t := Trim(b);
    TrimCharacterised(b);
    if t != [] {
      assert Leading(t) == 0;
      assert Trailing(t) == 0;
    }
  }

  /** Lower-casing neither creates nor removes whitespace, so it commutes with trimming. */
  lemma {:induction false} LeadingLower(b: seq<byte>)
    ensures Leading(Lower(b)) == Leading(b)
    decreases |b|
  {
    LowerProperties(b);
    if |b| > 0 && IsSpace(b[0]) {
      LeadingLower(b[1..]);
      assert Lower(b)[1..] == Lower(b[1..]);
    }
  }

  lemma {:induction false} TrailingLower(b: seq<byte>)
    ensures Trailing(Lower(b)) == Trailing(b)
    decreases |b|
  {
    LowerProperties(b);
    if |b| > 0 && IsSpace(b[|b| - 1]) {
      TrailingLower(b[..|b| - 1]);
      assert Lower(b)[..|b| - 1] == Lower(b[..|b| - 1]);
    }
  }

  lemma TrimLower(b: seq<byte>)
    ensures TrimLo(Lower(b)) == TrimLo(b) && TrimHi(Lower(b)) == TrimHi(b)
    ensures Trim(Lower(b)) == Lower(Trim(b))
  {
    LeadingLower(b);
    TrailingLower(b);
    LowerSlice(b, TrimLo(b), TrimHi(b));
  }

  /** trimSpaces: the bounds `start` and `end + 1` of the slice it returns. */
  method TrimSpaces(b: seq<byte>) returns (lo: nat, hi: nat)
    ensures lo == TrimLo(b) && hi == TrimHi(b)
    ensures b[lo..hi] == Trim(b)
  {
    var start, end := 0, |b| - 1;
    while start <= end && IsSpace(b[start])
      invariant 0 <= start <= |b|
      invariant end == |b| - 1
      invariant forall k :: 0 <= k < start ==> IsSpace(b[k])
    {
      start := start + 1;
    }
    while end >= start && IsSpace(b[end])
      invariant start - 1 <= end <= |b| - 1
      invariant start < |b| ==> !IsSpace(b[start]) && start <= end
      invariant forall k :: end < k < |b| ==> IsSpace(b[k])
    {
      end := end - 1;
    }
    lo, hi := start, end + 1;
  }

  /** The line after processLine's in-place lower-casing of its trimmed slice. */
  function LowerTrimmed(b: seq<byte>): seq<byte>
  {
    b[..TrimLo(b)] + Lower(Trim(b)) + b[TrimHi(b)..]
  }

  /** The lower-casing loop of processLine, run on the slice `a[lo..hi]` of the caller's buffer. */
  method LowerInPlace(a: array<byte>, lo: nat, hi: nat)
    requires lo <= hi <= a.Length
    modifies a
    ensures a[..] == old(a[..lo]) + Lower(old(a[lo..hi])) + old(a[hi..])
  {
    for i := lo to hi
      invariant forall k :: lo <= k < i ==> a[k] == ToLower(old(a[k]))
      invariant forall k :: 0 <= k < lo || i <= k < a.Length ==> a[k] == old(a[k])
    {
      a[i] := ToLower(a[i]);
    }
    assert a[..] == a[..lo] + a[lo..hi] + a[hi..];
  }
}
