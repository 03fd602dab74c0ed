/**
 Keys of version components and the order in which the version manager folds them.

 A component is addressed by its component type, distribution and architecture;
 the word "all" stands for "every distribution" or "every architecture".
 `sorted(..., key=get_order_keys())` puts general components before specific ones.
 */
module VersionOrder {
  import opened Wrappers

  const ALL := "all"

  /** The first of two optional values that is present. */
  function OrElse<T>(x: Option<T>, y: Option<T>): Option<T> {
    if x.Some? then x else y
  }

  datatype Key = Key(ctype: string, dist: string, arch: string)

  /** The value of a component: where it applies, and which package is pinned to which version. */
  datatype Comp = Comp(key: Key, versions: map<string, string>)

  /** `Component.__init__` turns an empty distribution or architecture into "all". */
  function Normalise(name: string): string {
    if name == "" then ALL else name
  }

  predicate WellFormedKey(k: Key) {
    k.dist != "" && k.arch != ""
  }

  predicate WellFormed(cs: seq<Comp>) {
    forall i :: 0 <= i < |cs| ==> WellFormedKey(cs[i].key)
  }

  // ---- The lexicographic order on strings, by code point ----

  predicate StringLe(a: string, b: string) {
    a == "" || (b != "" && (a[0] < b[0] || (a[0] == b[0] && StringLe(a[1..], b[1..]))))
  }

  lemma {:induction false} StringLeReflexive(a: string)
    ensures StringLe(a, a)
  {
    if a != "" {
      StringLeReflexive(a[1..]);
    }
  }

  lemma {:induction false} StringLeTotal(a: string, b: string)
    ensures StringLe(a, b) || StringLe(b, a)
  {
    if a != "" && b != "" && a[0] == b[0] {
      StringLeTotal(a[1..], b[1..]);
    }
  }

  lemma {:induction false} StringLeAntisymmetric(a: string, b: string)
    requires StringLe(a, b) && StringLe(b, a)
    ensures a == b
  {
    if a != "" {
      StringLeAntisymmetric(a[1..], b[1..]);
      assert a == [a[0]] + a[1..] && b == [b[0]] + b[1..];
    }
  }

  lemma {:induction false} StringLeTransitive(a: string, b: string, c: string)
    requires StringLe(a, b) && StringLe(b, c)
    ensures StringLe(a, c)
  {
    if a != "" && a[0] == b[0] == c[0] {
      StringLeTransitive(a[1..], b[1..], c[1..]);
    }
  }

  // ---- The order keys of components ----

  /** "all" sorts as the empty string, that is, before every named distribution or architecture. */
  function Rank(name: string): string {
    if name == ALL then "" else name
  }

  /** Comparison of `get_order_keys()` triples. */
  predicate KeyLe(k: Key, l: Key) {
    if k.ctype != l.ctype then StringLe(k.ctype, l.ctype)
    else if Rank(k.dist) != Rank(l.dist) then StringLe(Rank(k.dist), Rank(l.dist))
    else StringLe(Rank(k.arch), Rank(l.arch))
  }

  lemma KeyLeTotal(k: Key, l: Key)
    ensures KeyLe(k, k)
    ensures KeyLe(k, l) || KeyLe(l, k)
  {
    StringLeReflexive(Rank(k.arch));
    StringLeTotal(k.ctype, l.ctype);
    StringLeTotal(Rank(k.dist), Rank(l.dist));
    StringLeTotal(Rank(k.arch), Rank(l.arch));
  }

  lemma KeyLeTransitive(k: Key, l: Key, m: Key)
    requires KeyLe(k, l) && KeyLe(l, m)
    ensures KeyLe(k, m)
  {
    if k.ctype != l.ctype || l.ctype != m.ctype {
      StringLeReflexive(l.ctype);
      StringLeTransitive(k.ctype, l.ctype, m.ctype);
      if k.ctype == m.ctype { StringLeAntisymmetric(k.ctype, l.ctype); }
    } else if Rank(k.dist) != Rank(l.dist) || Rank(l.dist) != Rank(m.dist) {
      StringLeReflexive(Rank(l.dist));
      StringLeTransitive(Rank(k.dist), Rank(l.dist), Rank(m.dist));
      if Rank(k.dist) == Rank(m.dist) { StringLeAntisymmetric(Rank(k.dist), Rank(l.dist)); }
    } else {
      StringLeTransitive(Rank(k.arch), Rank(l.arch), Rank(m.arch));
    }
  }

  // ---- Stable sorting ----

  predicate Sorted(cs: seq<Comp>) {
    forall i, j :: 0 <= i < j < |cs| ==> KeyLe(cs[i].key, cs[j].key)
  }

  /** Inserts `c` behind every component whose key is not greater. */
  function Insert(cs: seq<Comp>, c: Comp): seq<Comp> {
    if cs == [] || KeyLe(cs[|cs| - 1].key, c.key) then cs + [c]
    else Insert(cs[..|cs| - 1], c) + [cs[|cs| - 1]]
  }

  /** Python's `sorted(components, key=get_order_keys)`. */
  function Sort(cs: seq<Comp>): seq<Comp> {
    if cs == [] then [] else Insert(Sort(cs[..|cs| - 1]), cs[|cs| - 1])
  }

  lemma {:induction false} InsertContents(cs: seq<Comp>, c: Comp)
    ensures multiset(Insert(cs, c)) == multiset(cs) + multiset{c}
  {
    if cs == [] || KeyLe(cs[|cs| - 1].key, c.key) {
    } else {
      InsertContents(cs[..|cs| - 1], c);
      assert cs == cs[..|cs| - 1] + [cs[|cs| - 1]];
    }
  }

  lemma {:induction false} SortContents(cs: seq<Comp>)
    ensures multiset(Sort(cs)) == multiset(cs)
  {
    if cs != [] {
      SortContents(cs[..|cs| - 1]);
      InsertContents(Sort(cs[..|cs| - 1]), cs[|cs| - 1]);
      assert cs == cs[..|cs| - 1] + [cs[|cs| - 1]];
    }
  }

  lemma SameMembers(a: seq<Comp>, b: seq<Comp>)
    requires multiset(a) == multiset(b)
    ensures forall c :: c in a <==> c in b
  {
    forall c
      ensures c in a <==> c in b
    {
      assert c in a <==> multiset(a)[c] > 0;
      assert c in b <==> multiset(b)[c] > 0;
    }
  }

  lemma {:induction false} InsertSorted(cs: seq<Comp>, c: Comp)
    requires Sorted(cs)
    ensures Sorted(Insert(cs, c))
  {
    if cs == [] {
    } else if KeyLe(cs[|cs| - 1].key, c.key) {
      forall i | 0 <= i < |cs|
        ensures KeyLe(cs[i].key, c.key)
      {
        if i < |cs| - 1 { KeyLeTransitive(cs[i].key, cs[|cs| - 1].key, c.key); }
      }
    } else {
      var pre, last := cs[..|cs| - 1], cs[|cs| - 1];
      InsertSorted(pre, c);
      InsertContents(pre, c);
      KeyLeTotal(last.key, c.key);
      var s := Insert(pre, c);
      SameMembers(s, pre + [c]);
      forall i | 0 <= i < |s|
        ensures KeyLe(s[i].key, last.key)
      {
        assert s[i] in pre + [c];
      }
    }
  }

  lemma {:induction false} SortSorted(cs: seq<Comp>)
    ensures Sorted(Sort(cs))
  {
    if cs != [] {
      SortSorted(cs[..|cs| - 1]);
      InsertSorted(Sort(cs[..|cs| - 1]), cs[|cs| - 1]);
    }
  }
}
