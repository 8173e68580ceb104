/**
 The sequence helpers of the single-sequence page (app.py): the aromatic
 counts, the highlighted sequence wrapped in a monospace `<div>`, and the
 amino-acid frequency table drawn as a bar chart.
 */
module App {
  import opened Residues
  import opened Markup

  const DivOpen: string := "<div style='font-family: monospace'>"
  const DivClose: string := "</div>"
  const SpanOpen: string := "<span style='color:red; font-weight:bold'>"

  /**
   `conta_aromatici`: the counts of F, W and Y taken from `Counter(s)`. The
   keys are always exactly F, W and Y; each value is the number of times that
   letter occurs, so 0 exactly when it is absent.
   */
  function AromaticCounts(s: string): (m: map<char, nat>)
    ensures m.Keys == {'F', 'W', 'Y'}
    ensures forall aa :: aa in m ==> m[aa] == Occurrences(s, aa)
    ensures forall aa :: aa in m ==> (m[aa] == 0 <==> aa !in s)
  {
    AromaticTally(Count(s))
  }

  /** The three aromatic counts add up to the number of aromatic positions, hence at most the length. */
  lemma AromaticCountsBound(s: string)
    ensures AromaticCounts(s)['F'] + AromaticCounts(s)['W'] + AromaticCounts(s)['Y'] == AromaticPositions(s) <= |s|
  {
    AromaticOccurrences(s);
  }

  /**
   `evidenzia_aromatici`: walks the sequence appending to the accumulated
   markup, then wraps it in the monospace `<div>`.
   */
  method HighlightAromatics(s: string) returns (html: string)
    ensures html == DivOpen + Highlighted(SpanOpen, s) + DivClose
  {
    var body := "";
    for i := 0 to |s|
      invariant body == Highlighted(SpanOpen, s[..i])
    {
      var aa := s[i];
      assert s[..i + 1][..i] == s[..i];
      if aa in ['F', 'W', 'Y'] {
        body := body + SpanOpen + [aa] + SpanClose;
      } else {
        body := body + [aa];
      }
    }
    assert s[..|s|] == s;
    html := DivOpen + body + DivClose;
  }

  /**
   Length of the page markup: the wrapper's 42 characters, one per residue, and
   49 more (the opening span tag and `</span>`) for every F, W or Y.
   */
  lemma HighlightedPageLength(s: string)
    ensures |DivOpen + Highlighted(SpanOpen, s) + DivClose| == 42 + |s| + 49 * AromaticPositions(s)
  {
    HighlightedLength(SpanOpen, s);
  }

  /** Without F, W or Y the page shows the sequence verbatim inside the wrapper, and only then. */
  lemma PageWithoutAromatics(s: string)
    ensures DivOpen + Highlighted(SpanOpen, s) + DivClose == DivOpen + s + DivClose
        <==> 'F' !in s && 'W' !in s && 'Y' !in s
  {
    var h := Highlighted(SpanOpen, s);
    HighlightedIsIdentity(SpanOpen, s);
    if DivOpen + h + DivClose == DivOpen + s + DivClose {
      var n := |DivOpen|;
      assert (DivOpen + h + DivClose)[n..n + |h|] == h;
      assert (DivOpen + s + DivClose)[n..n + |s|] == s;
      assert |h| == |s|;
    }
  }

  /**
   `Counter(sequenza)` behind the frequency chart: its keys are exactly the
   residues that occur, each counted, in order of first appearance, and the
   counts add up to the length.
   */
  lemma FrequencyTable(s: string)
    ensures forall c :: c in Count(s).counts <==> c in s
    ensures forall c :: Get(Count(s), c) == Occurrences(s, c)
    ensures Total(Count(s)) == |s|
    ensures forall i, j :: 0 <= i < j < |Count(s).keys| ==>
              FirstIndex(s, Count(s).keys[i]) < FirstIndex(s, Count(s).keys[j])
  {
    CountTotal(s);
    CountKeysInFirstOccurrenceOrder(s);
  }
}
