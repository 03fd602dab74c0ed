/**
 The answers of the page allocator, and what the grow and retry loop makes of them: the entries that
 each search sees, and which search is the last.
 */
module DmaSupply {
  import opened Arithmetic
  import opened DmaSegment

  const MORE_BLOCKS := 8

  /** A request for `req` bytes in blocks of `size` bytes, from at most `most` entries. `supply` is what
      the page allocator answers in turn, 0 where it fails; it fails for good when the supply ends. */
  datatype Request = Request(supply: seq<nat>, req: Positive, size: BlockSize, most: nat)

  // ---- Batches of pages ----

  /** How many of `n` pages are granted before the first failure. */
  function Granted(supply: seq<nat>, n: nat): (m: nat)
    ensures m <= n && m <= |supply| && (forall i :: 0 <= i < m ==> supply[i] != 0)
    ensures m < n && m < |supply| ==> supply[m] == 0
  {
    if n == 0 || supply == [] || supply[0] == 0 then 0 else 1 + Granted(supply[1..], n - 1)
  }

  lemma GrantedIs(supply: seq<nat>, n: nat, m: nat)
    requires m <= n && m <= |supply| && forall i :: 0 <= i < m ==> supply[i] != 0
    requires m < n && m < |supply| ==> supply[m] == 0
    ensures Granted(supply, n) == m
  {
  }

  /** The entries that a batch of `n` requests fills: the pages granted, and 0 from the first failure on. */
  function Batch(supply: seq<nat>, n: nat): (b: seq<nat>)
    ensures |b| == n
  {
    supply[..Granted(supply, n)] + seq(n - Granted(supply, n), _ => 0)
  }

  /** What is left of the supply; the answer that was a failure is used up. */
  function Left(supply: seq<nat>, n: nat): seq<nat> {
    var m := Granted(supply, n);
    if m == n then supply[n..] else if m < |supply| then supply[m + 1..] else []
  }

  /** A batch is free of empty entries if and only if all of its requests are granted. */
  lemma BatchGranted(supply: seq<nat>, n: nat)
    ensures 0 in Batch(supply, n) <==> Granted(supply, n) < n
  {
    var b := Batch(supply, n);
    if Granted(supply, n) < n {
      assert b[Granted(supply, n)] == 0;
    }
  }

  // ---- The searches ----

  /** The entries before the first search. Whether that batch was granted is not looked at. */
  function First(r: Request): seq<nat> {
    if r.req / r.size > r.most then [] else Batch(r.supply, r.req / r.size)
  }

  function Rest(r: Request): seq<nat> {
    if r.req / r.size > r.most then r.supply else Left(r.supply, r.req / r.size)
  }

  /** `k` more batches have room and are granted in full. */
  predicate CanGrow(r: Request, k: nat) {
    |First(r)| + MORE_BLOCKS * k <= r.most && Granted(Rest(r), MORE_BLOCKS * k) == MORE_BLOCKS * k
  }

  /** The entries that search `k` sees. */
  function Entries(r: Request, k: nat): (s: seq<nat>)
    requires CanGrow(r, k)
    ensures |s| == |First(r)| + MORE_BLOCKS * k
  {
    First(r) + Rest(r)[..MORE_BLOCKS * k]
  }

  lemma GrewBefore(r: Request, j: nat, k: nat)
    requires CanGrow(r, k) && j <= k
    ensures CanGrow(r, j) && Entries(r, j) <= Entries(r, k)
  {
    GrantedIs(Rest(r), MORE_BLOCKS * j, MORE_BLOCKS * j);
    assert Rest(r)[..MORE_BLOCKS * j] <= Rest(r)[..MORE_BLOCKS * k];
  }

  /** What the search before search `k` saw. */
  function Previous(r: Request, k: nat): seq<nat>
    requires CanGrow(r, k)
  {
    if k == 0 then [] else GrewBefore(r, k - 1, k); Entries(r, k - 1)
  }

  lemma PreviousIsPrefix(r: Request, k: nat)
    requires CanGrow(r, k)
    ensures Previous(r, k) <= Entries(r, k)
  {
    if k > 0 {
      GrewBefore(r, k - 1, k);
    }
  }

  /** What remains of the supply at search `k`. */
  function RestAt(r: Request, k: nat): seq<nat>
    requires CanGrow(r, k)
  {
    Rest(r)[MORE_BLOCKS * k..]
  }

  lemma GrantedMore(supply: seq<nat>, n: nat, m: nat)
    requires Granted(supply, n) == n
    ensures Granted(supply, n + m) == n + Granted(supply[n..], m)
  {
    var g := Granted(supply[n..], m);
    forall i | 0 <= i < n + g
      ensures supply[i] != 0
    {
      assert i >= n ==> supply[i] == supply[n..][i - n];
    }
    GrantedIs(supply, n + m, n + g);
  }

  lemma TwoPieces(s: seq<nat>, t: seq<nat>, n: nat, m: nat)
    requires n + m <= |t|
    ensures s + t[..n + m] == s + t[..n] + t[n..][..m] && t[n..][m..] == t[n + m..]
  {
  }

  lemma FullBatch(supply: seq<nat>, n: nat)
    requires Granted(supply, n) == n
    ensures Batch(supply, n) == supply[..n] && Left(supply, n) == supply[n..]
  {
  }

  /** Search `k + 1` takes place if and only if there is room and the next batch is granted. */
  lemma GrowStep(r: Request, k: nat)
    requires CanGrow(r, k)
    ensures CanGrow(r, k + 1) <==>
      |Entries(r, k)| + MORE_BLOCKS <= r.most && Granted(RestAt(r, k), MORE_BLOCKS) == MORE_BLOCKS
  {
    GrantedMore(Rest(r), MORE_BLOCKS * k, MORE_BLOCKS);
  }

  lemma NextEntries(r: Request, k: nat)
    requires CanGrow(r, k) && CanGrow(r, k + 1)
    ensures Entries(r, k + 1) == Entries(r, k) + Batch(RestAt(r, k), MORE_BLOCKS)
    ensures RestAt(r, k + 1) == Left(RestAt(r, k), MORE_BLOCKS) && Previous(r, k + 1) == Entries(r, k)
  {
    var rest, n := Rest(r), MORE_BLOCKS * k;
    GrantedMore(rest, n, MORE_BLOCKS);
    FullBatch(rest[n..], MORE_BLOCKS);
    TwoPieces(First(r), rest, n, MORE_BLOCKS);
  }

  // ---- Runs of blocks ----

  ghost predicate HasRun(bases: seq<nat>, length: int, size: BlockSize) {
    exists begin, end :: IsRun(bases, begin, end, size) && end - begin >= length
  }

  /** Some run afterwards is longer than all before. */
  ghost predicate Improves(before: seq<nat>, after: seq<nat>, size: BlockSize) {
    exists n: nat :: HasRun(after, n, size) && !HasRun(before, n, size)
  }

  /** Search `k` is the last one: it meets the request as the first one to do so, or no further batch is
      to be had. */
  ghost predicate LastSearch(r: Request, k: nat) {
    && CanGrow(r, k)
    && (HasRun(Entries(r, k), r.req, r.size) || !CanGrow(r, k + 1))
    && (k > 0 ==> !HasRun(Previous(r, k), r.req, r.size))
  }

  lemma MoreRuns(s: seq<nat>, t: seq<nat>, length: int, size: BlockSize)
    requires s <= t && HasRun(s, length, size)
    ensures HasRun(t, length, size)
  {
    var begin, end :| IsRun(s, begin, end, size) && end - begin >= length;
    forall x | InSpan(x, begin, end, size)
      ensures HasBlock(t, x)
    {
      var k :| 0 <= k < |s| && s[k] == x;
      assert t[k] == x;
    }
    assert IsRun(t, begin, end, size);
  }

  lemma NoLaterSearch(r: Request, j: nat, k: nat)
    requires LastSearch(r, j) && LastSearch(r, k)
    ensures k <= j
  {
    if j < k {
      GrewBefore(r, j + 1, k);
      GrewBefore(r, j, k - 1);
      MoreRuns(Entries(r, j), Previous(r, k), r.req, r.size);
      assert false;
    }
  }

  /** The supply and the sizes determine which search is the last. */
  lemma LastSearchUnique(r: Request, j: nat, k: nat)
    requires LastSearch(r, j) && LastSearch(r, k)
    ensures j == k
  {
    NoLaterSearch(r, j, k);
    NoLaterSearch(r, k, j);
  }

  /** If the request is met, the last search improves on the one before. */
  lemma MetImproves(r: Request, k: nat)
    requires LastSearch(r, k) && HasRun(Entries(r, k), r.req, r.size)
    ensures Improves(Previous(r, k), Entries(r, k), r.size)
  {
    EmptyHasNoRun(r.req, r.size);
  }

  lemma EmptyHasNoRun(length: int, size: BlockSize)
    ensures !HasRun([], length, size)
  {
    if begin, end :| IsRun([], begin, end, size) {
      assert InSpan(begin, begin, end, size);
    }
  }

  /** All entries of the block pool in the end: a last batch that is not granted in full is not searched. */
  ghost function AllEntries(r: Request, k: nat): seq<nat>
    requires CanGrow(r, k)
  {
    if HasRun(Entries(r, k), r.req, r.size) || |Entries(r, k)| + MORE_BLOCKS > r.most then Entries(r, k)
    else Entries(r, k) + Batch(RestAt(r, k), MORE_BLOCKS)
  }

  /** Address 0 is searched if and only if the first batch is not granted in full. */
  lemma ZeroSearched(r: Request, k: nat)
    requires CanGrow(r, k)
    ensures 0 in Entries(r, k) <==> r.req / r.size <= r.most && Granted(r.supply, r.req / r.size) < r.req / r.size
  {
    BatchGranted(r.supply, r.req / r.size);
    assert 0 in Entries(r, k) <==> 0 in First(r) || 0 in Rest(r)[..MORE_BLOCKS * k];
  }

  lemma FromSupply(r: Request, k: nat, x: int)
    requires CanGrow(r, k) && HasBlock(Entries(r, k), x)
    ensures x == 0 || HasBlock(r.supply, x)
  {
    var s := Entries(r, k);
    var i :| 0 <= i < |s| && s[i] == x;
    if i < |First(r)| {
      assert First(r)[i] == x;
    } else {
      RestFromSupply(r, i - |First(r)|);
    }
  }

  lemma RestFromSupply(r: Request, i: nat)
    requires i < |Rest(r)|
    ensures HasBlock(r.supply, Rest(r)[i])
  {
    var rest := Rest(r);
    var d := |r.supply| - |rest|;
    assert rest[i] == r.supply[d + i];
  }
}
