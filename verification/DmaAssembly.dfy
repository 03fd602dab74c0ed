/**
 `_dal_find_largest_segment`: the in-place search for the longest run of adjacent blocks.
 */
module DmaAssembly {
  import opened Arithmetic
  import opened DmaSegment
  import opened DmaGrowth

  /** Blocks end before the top of the address space. */
  predicate InAddressSpace(bases: seq<nat>, size: BlockSize) {
    forall k :: 0 <= k < |bases| ==> bases[k] + size < WORD
  }

  /** Some untagged entries have become part of the current segment, the others are as before. */
  ghost predicate Marked(s: seq<nat>, t: seq<nat>) {
    |s| == |t| && forall k :: 0 <= k < |s| ==> t[k] == s[k] || (Tag(s[k]) == UNTAGGED && t[k] == Or3(s[k]))
  }

  ghost function Untagged(s: seq<nat>): set<int> {
    set k | 0 <= k < |s| && Tag(s[k]) == UNTAGGED
  }

  /** No untagged entry behind `i` is adjacent to [begin, end). */
  predicate NoneAdjacent(s: seq<nat>, i: int, n: nat, begin: int, end: int, size: BlockSize)
    requires -1 <= i && n <= |s|
  {
    forall j :: i < j < n && Tag(s[j]) == UNTAGGED ==> !IsAdjacent(s[j], begin, end, size)
  }

  /** The wrap-around of the subtraction does not matter for real blocks. */
  lemma BelowExactly(x: nat, begin: nat, size: BlockSize)
    requires x + size < WORD && begin < WORD
    ensures x == WordMinus(begin, size) <==> x == begin - size
  {
  }

  lemma MarkedTrans(s: seq<nat>, t: seq<nat>, u: seq<nat>)
    requires Marked(s, t) && Marked(t, u)
    ensures Marked(s, u)
  {
    forall k | 0 <= k < |s|
      ensures u[k] == s[k] || (Tag(s[k]) == UNTAGGED && u[k] == Or3(s[k]))
    {
      TagLaws(s[k]);
    }
  }

  lemma MarkOne(s: seq<nat>, j: nat)
    requires j < |s| && Tag(s[j]) == UNTAGGED
    ensures Marked(s, s[j := Or3(s[j])]) && Untagged(s[j := Or3(s[j])]) < Untagged(s)
    ensures forall bases :: SameBases(s, bases) ==> SameBases(s[j := Or3(s[j])], bases)
  {
    TagLaws(s[j]);
    assert j in Untagged(s);
  }

  method Mark(a: array<nat>, n: nat, j: nat)
    requires j < n <= a.Length && Tag(a[j]) == UNTAGGED
    modifies a
    ensures a[..n] == old(a[..n])[j := Or3(old(a[j]))] && a[n..] == old(a[n..])
    ensures Marked(old(a[..n]), a[..n]) && Untagged(a[..n]) < old(Untagged(a[..n]))
    ensures forall bases :: SameBases(old(a[..n]), bases) ==> SameBases(a[..n], bases)
  {
    MarkOne(a[..n], j);
    a[j] := Or3(a[j]);
    assert a[..n] == old(a[..n])[j := Or3(old(a[j]))];
  }

  lemma NoWrap(x: nat)
    requires x < WORD
    ensures x % WORD == x
  {
  }

  /** Comparison with the address one block below, in unsigned longs. */
  method EqualsBelow(x: nat, begin: nat, size: BlockSize) returns (r: bool)
    requires x + size < WORD && begin < WORD
    ensures r <==> x == begin - size
  {
    BelowExactly(x, begin, size);
    r := x == WordMinus(begin, size);
  }

  /** The end of a block, in unsigned longs. */
  method EndAbove(x: nat, size: BlockSize) returns (end: nat)
    requires x + size < WORD
    ensures end == x + size
  {
    NoWrap(x + size);
    end := (x + size) % WORD;
  }

  /** The growth follows the addresses alone, unless the block `start` lies in short runs only. */
  ghost predicate Follows(bases: seq<nat>, start: int, bound: int, size: BlockSize, p: Span, q: Span) {
    p == q || Covered(bases, start, bound, size)
  }

  lemma PassFollows(bases: seq<nat>, start: int, bound: int, size: BlockSize, j: nat, req: nat, p: Span, p': Span, q: Span)
    requires j < |bases| && Length(p) < req && Follows(bases, start, bound, size, Passed(bases, j, req, p, size), q)
    requires Follows(bases, start, bound, size, p', Joined(p, bases[j], size))
    ensures Follows(bases, start, bound, size, Passed(bases, j + 1, req, p', size), q)
  {
  }

  lemma GrowFollows(bases: seq<nat>, bound: int, size: BlockSize, i: nat, req: nat, p: Span, p': Span, q: Span)
    requires i < |bases| && Follows(bases, bases[i], bound, size, Grown(bases, i, req, p, size), q)
    requires Follows(bases, bases[i], bound, size, p', Passed(bases, i + 1, req, p, size))
    ensures Follows(bases, bases[i], bound, size, Grown(bases, i, req, p', size), q)
    ensures p' == p ==> Follows(bases, bases[i], bound, size, p', q)
  {
  }

  lemma OthersKept(s: seq<nat>, t: seq<nat>, bases: seq<nat>, bound: int, size: BlockSize)
    requires SameBases(s, bases) && SameBases(t, bases) && Marked(s, t) && OthersCovered(s, bases, bound, size)
    ensures OthersCovered(t, bases, bound, size)
  {
    forall k | 0 <= k < |t| && Tag(t[k]) in {DISCARDED, MATCHED}
      ensures t[k] == s[k]
    {
      TagLaws(s[k]);
    }
  }

  /** A tagged neighbour of the current segment belongs to short runs, and so does the whole segment. */
  lemma TaggedNeighbour(s: seq<nat>, bases: seq<nat>, j: nat, begin: int, end: int, size: BlockSize, bound: int, start: int)
    requires SameBases(s, bases) && Tiles(s, CURRENT, begin, end, size) && OthersCovered(s, bases, bound, size)
    requires j < |s| && Tag(s[j]) != UNTAGGED && IsAdjacent(bases[j], begin, end, size) && InSpan(start, begin, end, size)
    ensures Covered(bases, start, bound, size)
  {
    assert !InSpan(bases[j], begin, end, size);
    assert Tag(s[j]) in {DISCARDED, MATCHED};
    TilesAreRun(s, bases, CURRENT, begin, end, size);
    NeighbourCovers(bases, begin, end, size, bases[j], start, bound);
  }

  /** The block `start` stays in a span that is extended by a block. */
  lemma StaysInSpan(start: int, p: Span, x: nat, size: BlockSize)
    requires InSpan(start, p.begin, p.end, size)
    ensures InSpan(start, Joined(p, x, size).begin, Joined(p, x, size).end, size)
  {
    AddOnce(start - p.begin, size);
  }

  /** The current segment `p`, which holds the block `start`. */
  ghost predicate Current(s: seq<nat>, bases: seq<nat>, p: Span, start: int, bound: int, size: BlockSize) {
    && SameBases(s, bases) && Tiles(s, CURRENT, p.begin, p.end, size) && p.end < WORD
    && OthersCovered(s, bases, bound, size) && InSpan(start, p.begin, p.end, size)
  }

  /** What looking at entry `j` does to the entries `s` and the current segment `p`. */
  ghost predicate Tried(s: seq<nat>, t: seq<nat>, bases: seq<nat>, j: nat, p: Span, q: Span, start: int, bound: int,
      found: bool, size: BlockSize)
    requires j < |s| == |t| == |bases|
  {
    && Current(t, bases, q, start, bound, size) && Marked(s, t)
    && (found ==> Untagged(t) < Untagged(s))
    && (!found ==> t == s && q == p && !(Tag(t[j]) == UNTAGGED && IsAdjacent(t[j], q.begin, q.end, size)))
    && Length(q) <= Length(p) + size && Follows(bases, start, bound, size, q, Joined(p, bases[j], size))
  }

  /** The body of the search for adjacent blocks, for one entry. */
  method TryBlock(a: array<nat>, n: nat, j: nat, size: BlockSize, begin0: nat, end0: nat, ghost bases: seq<nat>,
      ghost start: int, ghost bound: int)
    returns (begin: nat, end: nat, found: bool)
    requires j < n <= a.Length && SameBases(a[..n], bases) && InAddressSpace(bases, size)
    requires Tiles(a[..n], CURRENT, begin0, end0, size) && end0 < WORD
    requires OthersCovered(a[..n], bases, bound, size) && InSpan(start, begin0, end0, size)
    modifies a
    ensures SameBases(a[..n], bases) && Tiles(a[..n], CURRENT, begin, end, size) && end < WORD
    ensures a[n..] == old(a[n..]) && Marked(old(a[..n]), a[..n])
    ensures found ==> Untagged(a[..n]) < old(Untagged(a[..n]))
    ensures !found ==> a[..n] == old(a[..n]) && begin == begin0 && end == end0
    ensures !found ==> !(Tag(a[j]) == UNTAGGED && IsAdjacent(a[j], begin, end, size))
    ensures end - begin <= end0 - begin0 + size && InSpan(start, begin, end, size)
    ensures OthersCovered(a[..n], bases, bound, size)
    ensures Follows(bases, start, bound, size, Span(begin, end), Joined(Span(begin0, end0), bases[j], size))
  {
    begin, end, found := begin0, end0, false;
    var tmp := a[j];
    ghost var s := a[..n];
    assert s[j] == tmp && Base(tmp) == bases[j];
    StaysInSpan(start, Span(begin0, end0), bases[j], size);
    if Tag(tmp) == UNTAGGED {
      var below := EqualsBelow(tmp, begin, size);
      if below {
        ExtendTiles(s, j, begin, end, size, tmp, end);
        Mark(a, n, j);
        begin, found := tmp, true;
      } else if tmp == end {
        ExtendTiles(s, j, begin, end, size, begin, end + size);
        Mark(a, n, j);
        end := EndAbove(end, size);
        found := true;
      }
    } else if IsAdjacent(bases[j], begin, end, size) {
      TaggedNeighbour(s, bases, j, begin, end, size, bound, start);
    }
    OthersKept(s, a[..n], bases, bound, size);
  }

  /** The state of a pass before it looks at entry `j`. */
  ghost predicate Passing(s: seq<nat>, t: seq<nat>, bases: seq<nat>, i: nat, j: nat, p: Span, q: Span, bound: int,
      found: bool, req: nat, size: BlockSize)
    requires i < j <= |t| == |bases|
  {
    && Current(t, bases, q, bases[i], bound, size) && Marked(s, t) && Length(q) < req + size
    && (found ==> Untagged(t) < Untagged(s))
    && (!found ==> t == s && q == p && NoneAdjacent(t, i, j, q.begin, q.end, size))
    && Follows(bases, bases[i], bound, size, Passed(bases, j, req, q, size), Passed(bases, i + 1, req, p, size))
  }

  lemma PassingStep(s: seq<nat>, t: seq<nat>, u: seq<nat>, bases: seq<nat>, i: nat, j: nat, p: Span, q: Span, q': Span,
      bound: int, found: bool, more: bool, req: nat, size: BlockSize)
    requires i < j < |t| == |u| == |bases| && Passing(s, t, bases, i, j, p, q, bound, found, req, size)
    requires Length(q) < req && Tried(t, u, bases, j, q, q', bases[i], bound, more, size)
    ensures Passing(s, u, bases, i, j + 1, p, q', bound, found || more, req, size)
  {
    MarkedTrans(s, t, u);
    PassFollows(bases, bases[i], bound, size, j, req, q, q', Passed(bases, i + 1, req, p, size));
  }

  lemma PassingStart(s: seq<nat>, bases: seq<nat>, i: nat, p: Span, bound: int, req: nat, size: BlockSize)
    requires i < |s| == |bases| && Current(s, bases, p, bases[i], bound, size) && Length(p) < req + size
    ensures Passing(s, s, bases, i, i + 1, p, p, bound, false, req, size)
  {
  }

  lemma PassingEnd(s: seq<nat>, t: seq<nat>, bases: seq<nat>, i: nat, j: nat, p: Span, q: Span, bound: int, found: bool,
      req: nat, size: BlockSize)
    requires i < j <= |t| == |bases| && Passing(s, t, bases, i, j, p, q, bound, found, req, size)
    requires j == |t| || Length(q) >= req
    ensures PassedOver(s, t, bases, i, p, q, bound, found, req, size)
  {
  }

  /** What a pass does to the entries `s` and the current segment `p`. Without a find nothing changes, and the
      request is met or no untagged entry behind `i` is adjacent. */
  ghost predicate PassedOver(s: seq<nat>, t: seq<nat>, bases: seq<nat>, i: nat, p: Span, q: Span, bound: int, found: bool,
      req: nat, size: BlockSize)
    requires i < |t| == |bases|
  {
    && Current(t, bases, q, bases[i], bound, size) && Marked(s, t) && Length(q) < req + size
    && (found ==> Untagged(t) < Untagged(s))
    && (!found ==> t == s && q == p && (Length(q) >= req || NoneAdjacent(t, i, |t|, q.begin, q.end, size)))
    && Follows(bases, bases[i], bound, size, q, Passed(bases, i + 1, req, p, size))
  }

  /** A pass looks at entry `j`. */
  method Visit(a: array<nat>, n: nat, i: nat, j: nat, size: BlockSize, ghost req: nat, begin0: nat, end0: nat,
      found0: bool, ghost bases: seq<nat>, ghost bound: int, ghost s: seq<nat>, ghost p: Span)
    returns (begin: nat, end: nat, found: bool)
    requires i < j < n <= a.Length && n == |bases| && InAddressSpace(bases, size) && end0 - begin0 < req
    requires Passing(s, a[..n], bases, i, j, p, Span(begin0, end0), bound, found0, req, size)
    modifies a
    ensures a[n..] == old(a[n..])
    ensures Passing(s, a[..n], bases, i, j + 1, p, Span(begin, end), bound, found, req, size)
  {
    ghost var t, q := a[..n], Span(begin0, end0);
    var more;
    begin, end, more := TryBlock(a, n, j, size, begin0, end0, bases, bases[i], bound);
    assert a[j] == a[..n][j];
    PassingStep(s, t, a[..n], bases, i, j, p, q, Span(begin, end), bound, found0, more, req, size);
    found := found0 || more;
  }

  /** One pass over the entries behind `i`. */
  method Pass(a: array<nat>, n: nat, i: nat, size: BlockSize, req: nat, begin0: nat, end0: nat, ghost bases: seq<nat>,
      ghost bound: int)
    returns (begin: nat, end: nat, found: bool)
    requires i < n <= a.Length && n == |bases| && InAddressSpace(bases, size)
    requires Current(a[..n], bases, Span(begin0, end0), bases[i], bound, size) && end0 - begin0 < req + size
    modifies a
    ensures a[n..] == old(a[n..])
    ensures PassedOver(old(a[..n]), a[..n], bases, i, Span(begin0, end0), Span(begin, end), bound, found, req, size)
  {
    begin, end, found := begin0, end0, false;
    var j := i + 1;
    ghost var s, p := a[..n], Span(begin0, end0);
    PassingStart(s, bases, i, p, bound, req, size);
    while j < n && end - begin < req
      invariant i < j <= n && a[n..] == old(a[n..])
      invariant Passing(s, a[..n], bases, i, j, p, Span(begin, end), bound, found, req, size)
    {
      begin, end, found := Visit(a, n, i, j, size, req, begin, end, found, bases, bound, s, p);
      j := j + 1;
    }
    PassingEnd(s, a[..n], bases, i, j, p, Span(begin, end), bound, found, req, size);
  }

  /** The current segment starts as the block of the untagged entry `i`. */
  method Start(a: array<nat>, n: nat, i: nat, size: BlockSize, ghost bases: seq<nat>) returns (begin: nat, end: nat)
    requires i < n <= a.Length && SameBases(a[..n], bases) && InAddressSpace(bases, size)
    requires (forall k :: 0 <= k < n ==> Tag(a[k]) != CURRENT) && Tag(a[i]) == UNTAGGED
    modifies a
    ensures SameBases(a[..n], bases) && Tiles(a[..n], CURRENT, begin, end, size) && end < WORD
    ensures begin == bases[i] && end == begin + size && InSpan(bases[i], begin, end, size)
    ensures a[n..] == old(a[n..]) && Marked(old(a[..n]), a[..n]) && a[..n][i] == Or3(old(a[i]))
  {
    assert Base(a[i]) == a[..n][i] == bases[i];
    begin := a[i];
    end := EndAbove(begin, size);
    StartTiles(a[..n], i, size);
    Mark(a, n, i);
    AddOnce(0, size);
  }

  /** The passes over the entries until one finds nothing. */
  method Extend(a: array<nat>, n: nat, i: nat, size: BlockSize, req: nat, begin0: nat, end0: nat, ghost bases: seq<nat>,
      ghost bound: int)
    returns (begin: nat, end: nat)
    requires i < n <= a.Length && SameBases(a[..n], bases) && InAddressSpace(bases, size)
    requires Current(a[..n], bases, Span(begin0, end0), bases[i], bound, size) && end0 - begin0 < req + size
    modifies a
    ensures SameBases(a[..n], bases) && Tiles(a[..n], CURRENT, begin, end, size) && end - begin < req + size
    ensures a[n..] == old(a[n..]) && Marked(old(a[..n]), a[..n])
    ensures end - begin >= req || NoneAdjacent(a[..n], i, n, begin, end, size)
    ensures Follows(bases, bases[i], bound, size, Span(begin, end), Grown(bases, i, req, Span(begin0, end0), size))
  {
    begin, end := begin0, end0;
    ghost var q := Grown(bases, i, req, Span(begin0, end0), size);
    var found := true;
    while found
      invariant |bases| == n && Current(a[..n], bases, Span(begin, end), bases[i], bound, size)
      invariant a[n..] == old(a[n..]) && Marked(old(a[..n]), a[..n]) && end - begin < req + size
      invariant !found ==> end - begin >= req || NoneAdjacent(a[..n], i, n, begin, end, size)
      invariant Follows(bases, bases[i], bound, size, Grown(bases, i, req, Span(begin, end), size), q)
      invariant !found ==> Follows(bases, bases[i], bound, size, Span(begin, end), q)
      decreases Untagged(a[..n]), found
    {
      ghost var s, p := a[..n], Span(begin, end);
      begin, end, found := Pass(a, n, i, size, req, begin, end, bases, bound);
      GrowFollows(bases, bound, size, i, req, p, Span(begin, end), q);
      MarkedTrans(old(a[..n]), s, a[..n]);
    }
  }

  /** The current segment, grown from the untagged entry `i` until it is long enough or no untagged
      block is adjacent. */
  method Grow(a: array<nat>, n: nat, i: nat, size: BlockSize, req: nat, ghost bases: seq<nat>, ghost bound: int)
    returns (begin: nat, end: nat)
    requires i < n <= a.Length && SameBases(a[..n], bases) && InAddressSpace(bases, size)
    requires forall k :: 0 <= k < n ==> Tag(a[k]) != CURRENT
    requires forall k :: 0 <= k < i ==> Tag(a[k]) != UNTAGGED
    requires Tag(a[i]) == UNTAGGED && req > 0 && OthersCovered(a[..n], bases, bound, size)
    modifies a
    ensures SameBases(a[..n], bases) && Tiles(a[..n], CURRENT, begin, end, size) && end - begin < req + size
    ensures a[n..] == old(a[n..]) && Marked(old(a[..n]), a[..n]) && Tag(a[i]) == CURRENT
    ensures end - begin >= req || NoneAdjacent(a[..n], -1, n, begin, end, size)
    ensures Follows(bases, bases[i], bound, size, Span(begin, end), Growth(bases, i, req, size))
  {
    ghost var s := a[..n];
    begin, end := Start(a, n, i, size, bases);
    ghost var t := a[..n];
    OthersKept(s, t, bases, bound, size);
    begin, end := Extend(a, n, i, size, req, begin, end, bases, bound);
    MarkedTrans(s, t, a[..n]);
    StaysMarked(s, t, a[..n], i);
    MarkedTagged(s, a[..n], i);
  }

  lemma StaysMarked(s: seq<nat>, t: seq<nat>, u: seq<nat>, i: nat)
    requires Marked(t, u) && i < |s| == |t| && t[i] == Or3(s[i])
    ensures u[i] == Or3(s[i]) && Tag(u[i]) == CURRENT
  {
    TagLaws(s[i]);
  }

  lemma StartTiles(s: seq<nat>, i: nat, size: BlockSize)
    requires i < |s| && Tag(s[i]) == UNTAGGED && forall k :: 0 <= k < |s| ==> Tag(s[k]) != CURRENT
    ensures Tiles(s[i := Or3(s[i])], CURRENT, s[i], s[i] + size, size)
  {
    var t := s[i := Or3(s[i])];
    TagLaws(s[i]);
    AddOnce(0, size);
    forall x | InSpan(x, s[i], s[i] + size, size)
      ensures HasTagged(t, CURRENT, x)
    {
      ModLaws(x - s[i], 0, size);
      assert Tag(t[i]) == CURRENT && Base(t[i]) == x;
    }
  }

  lemma MarkedTagged(s: seq<nat>, t: seq<nat>, i: nat)
    requires Marked(s, t) && i < |s| && t[i] == Or3(s[i])
    requires forall k :: 0 <= k < i ==> Tag(s[k]) != UNTAGGED
    ensures forall k :: 0 <= k <= i ==> Tag(t[k]) != UNTAGGED
  {
  }

  // ---- Retagging ----

  function Promoted(x: nat): nat {
    if Tag(x) == CURRENT then ClearBit0(x) else if Tag(x) == MATCHED then Xor3(x) else x
  }

  function Dropped(x: nat): nat {
    if Tag(x) == CURRENT then ClearBit1(x) else x
  }

  /** The current segment becomes the largest one, the previous largest is discarded. */
  method Promote(a: array<nat>, n: nat)
    requires n <= a.Length
    modifies a
    ensures forall k :: 0 <= k < n ==> a[k] == Promoted(old(a[k]))
    ensures a[n..] == old(a[n..])
  {
    for j := 0 to n
      invariant forall k :: 0 <= k < a.Length ==> a[k] == if k < j then Promoted(old(a[k])) else old(a[k])
    {
      if Tag(a[j]) == CURRENT {
        a[j] := ClearBit0(a[j]);
      } else if Tag(a[j]) == MATCHED {
        a[j] := Xor3(a[j]);
      }
    }
  }

  /** The current segment is discarded. */
  method Drop(a: array<nat>, n: nat)
    requires n <= a.Length
    modifies a
    ensures forall k :: 0 <= k < n ==> a[k] == Dropped(old(a[k]))
    ensures a[n..] == old(a[n..])
  {
    for j := 0 to n
      invariant forall k :: 0 <= k < a.Length ==> a[k] == if k < j then Dropped(old(a[k])) else old(a[k])
    {
      if Tag(a[j]) == CURRENT {
        a[j] := ClearBit1(a[j]);
      }
    }
  }

  method ClearTags(a: array<nat>, n: nat)
    requires n <= a.Length
    modifies a
    ensures forall k :: 0 <= k < n ==> a[k] == Base(old(a[k]))
    ensures a[n..] == old(a[n..])
  {
    for i := 0 to n
      invariant forall k :: 0 <= k < a.Length ==> a[k] == if k < i then Base(old(a[k])) else old(a[k])
    {
      a[i] := Base(a[i]);
    }
  }
}
