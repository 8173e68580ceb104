/**
 Residue counting shared by both scripts: `str.count` for a single residue
 letter, the composition table `collections.Counter(seq)` (a dictionary whose
 keys come in order of first appearance), and the restriction of that table to
 the aromatic residues F, W and Y.
 */
module Residues {

  /** The aromatic residues: phenylalanine, tryptophan, tyrosine. */
  predicate IsAromatic(c: char) {
    c == 'F' || c == 'W' || c == 'Y'
  }

  /** Number of positions of `s` that hold `c` (`s.count(c)` for a one-letter `c`). */
  function Occurrences(s: string, c: char): (n: nat)
    ensures n <= |s|
    ensures n == 0 <==> c !in s
  {
    if s == [] then 0
    else
      var p, last := s[..|s| - 1], s[|s| - 1];
      assert s == p + [last];
      Occurrences(p, c) + (if last == c then 1 else 0)
  }

  /** `Occurrences` is the multiplicity of `c` in the multiset of residues. */
  lemma {:induction false} OccurrencesIsMultiplicity(s: string, c: char)
    ensures Occurrences(s, c) == multiset(s)[c]
  {
    if s != [] {
      var p := s[..|s| - 1];
      assert s == p + [s[|s| - 1]];
      OccurrencesIsMultiplicity(p, c);
    }
  }

  /** Counting distributes over concatenation. */
  lemma {:induction false} OccurrencesConcat(a: string, b: string, c: char)
    ensures Occurrences(a + b, c) == Occurrences(a, c) + Occurrences(b, c)
  {
    if b != [] {
      var p := b[..|b| - 1];
      assert a + b == (a + p) + [b[|b| - 1]];
      assert (a + b)[..|a + b| - 1] == a + p;
      assert (a + b)[|a + b| - 1] == b[|b| - 1];
      OccurrencesConcat(a, p, c);
      assert Occurrences(a + b, c) == Occurrences(a + p, c) + (if b[|b| - 1] == c then 1 else 0);
    } else {
      assert a + b == a;
    }
  }

  /** Number of positions of `s` that hold an aromatic residue. */
  function AromaticPositions(s: string): (n: nat)
    ensures n <= |s|
    ensures n == 0 <==> 'F' !in s && 'W' !in s && 'Y' !in s
  {
    if s == [] then 0
    else
      var p, last := s[..|s| - 1], s[|s| - 1];
      assert s == p + [last];
      AromaticPositions(p) + (if IsAromatic(last) then 1 else 0)
  }

  /** The three aromatic counts together are the number of aromatic positions. */
  lemma {:induction false} AromaticOccurrences(s: string)
    ensures Occurrences(s, 'F') + Occurrences(s, 'W') + Occurrences(s, 'Y') == AromaticPositions(s)
  {
    if s != [] {
      AromaticOccurrences(s[..|s| - 1]);
    }
  }

  predicate Distinct(ks: seq<char>) {
    forall i, j :: 0 <= i < j < |ks| ==> ks[i] != ks[j]
  }

  /**
   A `collections.Counter` built from a string: `keys` lists the residues in the
   order the dictionary iterates them, `counts` maps each to its count.
   */
  datatype Counter = Counter(keys: seq<char>, counts: map<char, nat>)

  /** `Counter(s)`: one key per distinct residue of `s`, mapped to its number of occurrences. */
  function Count(s: string): (t: Counter)
    ensures forall c :: c in t.counts <==> c in s
    ensures forall c :: c in t.counts ==> t.counts[c] == Occurrences(s, c) > 0
    ensures Distinct(t.keys)
    ensures forall c :: c in t.keys <==> c in t.counts
  {
    if s == [] then Counter([], map[])
    else
      var p, c := s[..|s| - 1], s[|s| - 1];
      assert s == p + [c];
      var t := Count(p);
      if c in t.counts then Counter(t.keys, t.counts[c := t.counts[c] + 1])
      else Counter(t.keys + [c], t.counts[c := 1])
  }

  /** `counter.get(c, 0)`. */
  function Get(t: Counter, c: char): nat {
    if c in t.counts then t.counts[c] else 0
  }

  /** Looking up any residue in `Counter(s)` with default 0 gives its number of occurrences. */
  lemma GetCount(s: string, c: char)
    ensures Get(Count(s), c) == Occurrences(s, c)
    ensures Get(Count(s), c) == multiset(s)[c]
  {
    OccurrencesIsMultiplicity(s, c);
  }

  /** Sum of the counts of the listed keys. */
  function SumAlong(m: map<char, nat>, ks: seq<char>): nat {
    if ks == [] then 0
    else
      var k := ks[|ks| - 1];
      SumAlong(m, ks[..|ks| - 1]) + (if k in m then m[k] else 0)
  }

  /** `sum(counter.values())`. */
  function Total(t: Counter): nat {
    SumAlong(t.counts, t.keys)
  }

  /** Updating one entry changes the sum along duplicate-free keys by the difference at that entry. */
  lemma {:induction false} SumAlongUpdate(m: map<char, nat>, ks: seq<char>, c: char, v: nat)
    requires Distinct(ks)
    ensures c !in ks ==> SumAlong(m[c := v], ks) == SumAlong(m, ks)
    ensures c in ks ==> SumAlong(m[c := v], ks) + (if c in m then m[c] else 0) == SumAlong(m, ks) + v
  {
    if ks != [] {
      var p := ks[..|ks| - 1];
      assert ks == p + [ks[|ks| - 1]];
      SumAlongUpdate(m, p, c, v);
    }
  }

  /** The composition counts sum to the length of the sequence. */
  lemma {:induction false} CountTotal(s: string)
    ensures Total(Count(s)) == |s|
  {
    if s != [] {
      CountTotal(s[..|s| - 1]);
      CountStep(s);
    }
  }

  /** Counting one more residue adds one to the total. */
  lemma CountStep(s: string)
    requires s != []
    ensures Total(Count(s)) == Total(Count(s[..|s| - 1])) + 1
  {
    var p, c := s[..|s| - 1], s[|s| - 1];
    var t := Count(p);
    var m := t.counts;
    if c in m {
      assert Count(s) == Counter(t.keys, m[c := m[c] + 1]);
      assert c in t.keys;
      SumAlongUpdate(m, t.keys, c, m[c] + 1);
    } else {
      assert Count(s) == Counter(t.keys + [c], m[c := 1]);
      assert c !in t.keys;
      SumAlongUpdate(m, t.keys, c, 1);
      assert (t.keys + [c])[..|t.keys|] == t.keys;
      assert SumAlong(m[c := 1], t.keys + [c]) == SumAlong(m[c := 1], t.keys) + 1;
    }
  }

  /** Index of the first position of `s` holding `c`. */
  function FirstIndex(s: string, c: char): (i: nat)
    requires c in s
    ensures i < |s| && s[i] == c && c !in s[..i]
  {
    if s[0] == c then 0
    else
      assert c in s[1..];
      var i := 1 + FirstIndex(s[1..], c);
      assert s[..i] == [s[0]] + s[1..][..i - 1];
      i
  }

  /** The keys of `Counter(s)` come in order of first appearance in `s`. */
  lemma {:induction false} CountKeysInFirstOccurrenceOrder(s: string)
    ensures forall i, j :: 0 <= i < j < |Count(s).keys| ==>
              FirstIndex(s, Count(s).keys[i]) < FirstIndex(s, Count(s).keys[j])
  {
    if s != [] {
      var p, c := s[..|s| - 1], s[|s| - 1];
      assert s == p + [c];
      var t := Count(p);
      var ks := Count(s).keys;
      CountKeysInFirstOccurrenceOrder(p);
      forall i, j | 0 <= i < j < |ks|
        ensures FirstIndex(s, ks[i]) < FirstIndex(s, ks[j])
      {
        FirstIndexPrefix(p, c, ks[i]);
        if j < |t.keys| {
          FirstIndexPrefix(p, c, ks[j]);
        } else {
          assert ks[j] == c && c !in p;
          FirstIndexLast(p, c);
        }
      }
    }
  }

  /** A residue already present keeps its first index when the sequence grows. */
  lemma {:induction false} FirstIndexPrefix(p: string, c: char, a: char)
    requires a in p
    ensures FirstIndex(p + [c], a) == FirstIndex(p, a) < |p|
  {
    if p[0] != a {
      assert (p + [c])[1..] == p[1..] + [c];
      FirstIndexPrefix(p[1..], c, a);
    }
  }

  /** A residue absent from `p` is first found just after it. */
  lemma {:induction false} FirstIndexLast(p: string, c: char)
    requires c !in p
    ensures FirstIndex(p + [c], c) == |p|
  {
    if p != [] {
      assert (p + [c])[1..] == p[1..] + [c];
      FirstIndexLast(p[1..], c);
    }
  }

  /**
   The aromatic part of a composition table, `{aa: counts.get(aa, 0) for aa in
   ("F", "W", "Y")}`: the keys are exactly F, W and Y whatever the table holds.
   */
  function AromaticTally(t: Counter): (m: map<char, nat>)
    ensures m.Keys == {'F', 'W', 'Y'}
  {
    map aa | aa in {'F', 'W', 'Y'} :: Get(t, aa)
  }
}
