/**
 The sequence helpers of the multi-record page (protein_reader.py): the bare
 highlighted sequence, the linear isoelectric-point heuristic, and the
 per-record analysis (composition table, aromatic counts, pI).
 */
module ProteinReader {
  import opened Residues
  import opened Markup
  import App

  const SpanOpen: string := "<span style=\"color: red; font-weight: bold;\">"

  /** `evidenzia_aromatici`: walks the sequence appending to the accumulated markup; no wrapper. */
  method HighlightAromatics(s: string) returns (html: string)
    ensures html == Highlighted(SpanOpen, s)
  {
    html := "";
    for i := 0 to |s|
      invariant html == Highlighted(SpanOpen, s[..i])
    {
      var aa := s[i];
      assert s[..i + 1][..i] == s[..i];
      if aa in ['F', 'W', 'Y'] {
        html := html + SpanOpen + [aa] + SpanClose;
      } else {
        html := html + [aa];
      }
    }
    assert s[..|s|] == s;
  }

  /** Number of K, R and H residues. */
  function BasicResidues(s: string): nat {
    Occurrences(s, 'K') + Occurrences(s, 'R') + Occurrences(s, 'H')
  }

  /** Number of D and E residues. */
  function AcidicResidues(s: string): nat {
    Occurrences(s, 'D') + Occurrences(s, 'E')
  }

  /**
   `calcola_pI`: 7 plus a tenth for every basic residue minus a tenth for every
   acidic one, in exact arithmetic. It is above, at or below 7 exactly as the
   basic residues outnumber, equal or are outnumbered by the acidic ones.
   */
  function EstimatedPI(s: string): (p: real)
    ensures p == 7.0 <==> BasicResidues(s) == AcidicResidues(s)
    ensures p > 7.0 <==> BasicResidues(s) > AcidicResidues(s)
  {
    7.0 + (BasicResidues(s) - AcidicResidues(s)) as real * 0.1
  }

  /** Charge a residue contributes to the heuristic: +1 for K, R, H; -1 for D, E; 0 otherwise. */
  function Charge(c: char): int {
    if c == 'K' || c == 'R' || c == 'H' then 1
    else if c == 'D' || c == 'E' then -1
    else 0
  }

  /** Sum of the residue charges, read from the front. */
  function NetCharge(s: string): int {
    if s == [] then 0 else Charge(s[0]) + NetCharge(s[1..])
  }

  /** The heuristic's count difference is the summed charge of the residues. */
  lemma {:induction false} NetChargeIsBalance(s: string)
    ensures NetCharge(s) == BasicResidues(s) - AcidicResidues(s)
  {
    if s != [] {
      assert s == [s[0]] + s[1..];
      NetChargeIsBalance(s[1..]);
      forall c | c in "KRHDE"
        ensures Occurrences(s, c) == Occurrences([s[0]], c) + Occurrences(s[1..], c)
      {
        OccurrencesConcat([s[0]], s[1..], c);
      }
      assert [s[0]][..0] == [];
    }
  }

  /** `calcola_pI(s) == 7 + 0.1 * ((#K + #R + #H) - (#D + #E))`, stated through the summed charge. */
  lemma EstimatedPIByCharge(s: string)
    ensures EstimatedPI(s) == 7.0 + NetCharge(s) as real / 10.0
  {
    NetChargeIsBalance(s);
  }

  /** A sequence with no K, R, H, D or E, the empty one included, is estimated at exactly 7. */
  lemma UnchargedIsNeutral(s: string)
    requires 'K' !in s && 'R' !in s && 'H' !in s && 'D' !in s && 'E' !in s
    ensures EstimatedPI(s) == 7.0
  {
  }

  /**
   Appending a residue moves the estimate by its charge over ten: up 0.1 for
   K, R or H, down 0.1 for D or E, unchanged for anything else.
   */
  lemma AppendResidue(s: string, c: char)
    ensures EstimatedPI(s + [c]) == EstimatedPI(s) + Charge(c) as real / 10.0
    ensures c in "KRH" ==> EstimatedPI(s + [c]) == EstimatedPI(s) + 0.1
    ensures c in "DE" ==> EstimatedPI(s + [c]) == EstimatedPI(s) - 0.1
    ensures c !in "KRHDE" ==> EstimatedPI(s + [c]) == EstimatedPI(s)
  {
    assert (s + [c])[..|s|] == s;
  }

  /** The estimate depends only on the residue composition, not on the order. */
  lemma PermutationInvariant(a: string, b: string)
    requires multiset(a) == multiset(b)
    ensures EstimatedPI(a) == EstimatedPI(b)
  {
    forall c | c in "KRHDE" ensures Occurrences(a, c) == Occurrences(b, c) {
      OccurrencesIsMultiplicity(a, c);
      OccurrencesIsMultiplicity(b, c);
    }
  }

  /** `n` lysines give `7 + n / 10`: the estimate is not clamped to any pH range. */
  lemma {:induction false} PolyLysine(n: nat)
    ensures EstimatedPI(seq(n, _ => 'K')) == 7.0 + n as real / 10.0
  {
    if n > 0 {
      PolyLysine(n - 1);
      assert seq(n, _ => 'K') == seq(n - 1, _ => 'K') + ['K'];
      AppendResidue(seq(n - 1, _ => 'K'), 'K');
    }
  }

  /** One hundred lysines give 17, far outside the pH scale. */
  lemma HundredLysines()
    ensures EstimatedPI(seq(100, _ => 'K')) == 17.0
  {
    PolyLysine(100);
  }

  /** What one record's analysis panel computes (protein_reader.py, lines 58 to 63). */
  datatype Analysis = Analysis(counts: Counter, aromatics: map<char, nat>, pI: real)

  /**
   The record analysis: the composition table `Counter(s)` (duplicate-free
   keys, every lookup the occurrence count, summing to the length), the
   aromatic counts read from that same table (the same map as the
   single-sequence page's `conta_aromatici`) and the pI estimate.
   */
  function Analyse(s: string): (r: Analysis)
    ensures r.counts == Count(s)
    ensures Distinct(r.counts.keys)
    ensures forall c :: c in r.counts.keys <==> c in r.counts.counts
    ensures forall c :: Get(r.counts, c) == Occurrences(s, c)
    ensures Total(r.counts) == |s|
    ensures forall c :: c in r.counts.counts <==> c in s
    ensures r.aromatics == AromaticTally(r.counts)
    ensures r.aromatics == App.AromaticCounts(s)
    ensures r.aromatics.Keys == {'F', 'W', 'Y'}
    ensures r.aromatics['F'] + r.aromatics['W'] + r.aromatics['Y'] <= |s|
    ensures r.pI == EstimatedPI(s)
  {
    var counts := Count(s);
    CountTotal(s);
    forall c ensures Get(counts, c) == Occurrences(s, c) { GetCount(s, c); }
    App.AromaticCountsBound(s);
    Analysis(counts, AromaticTally(counts), EstimatedPI(s))
  }
}
