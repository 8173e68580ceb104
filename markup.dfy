/**
 The aromatic-highlighting projection used by both scripts: the sequence is
 rewritten residue by residue, an aromatic residue `c` becoming
 `open + c + "</span>"` and any other residue staying as it is. The two
 scripts differ only in the opening span tag `open` (and in whether the
 result is wrapped in a `<div>`), so the projection takes the tag as a
 parameter.
 */
module Markup {
  import opened Residues

  const SpanClose: string := "</span>"

  /** What one residue becomes. */
  function Piece(open: string, c: char): (p: string)
    ensures IsAromatic(c) ==> |p| == |open| + 1 + |SpanClose|
    ensures !IsAromatic(c) ==> p == [c]
  {
    if IsAromatic(c) then open + [c] + SpanClose else [c]
  }

  /** The highlighted copy of `s`: the pieces of its residues, in order. */
  function Highlighted(open: string, s: string): string {
    if s == [] then []
    else Highlighted(open, s[..|s| - 1]) + Piece(open, s[|s| - 1])
  }

  /** Highlighting maps the empty sequence to the empty string and distributes over concatenation. */
  lemma {:induction false} HighlightedConcat(open: string, a: string, b: string)
    ensures Highlighted(open, []) == []
    ensures Highlighted(open, a + b) == Highlighted(open, a) + Highlighted(open, b)
  {
    if b == [] {
      assert a + b == a;
    } else {
      var p, c := b[..|b| - 1], b[|b| - 1];
      assert (a + b)[..|a + b| - 1] == a + p;
      assert (a + b)[|a + b| - 1] == c;
      calc {
        Highlighted(open, a + b);
        Highlighted(open, a + p) + Piece(open, c);
        { HighlightedConcat(open, a, p); }
        Highlighted(open, a) + Highlighted(open, p) + Piece(open, c);
        Highlighted(open, a) + Highlighted(open, b);
      }
    }
  }

  /**
   Position by position: residue `s[i]` contributes exactly its piece, between
   the highlighted residues before it and the highlighted residues after it.
   */
  lemma HighlightedAt(open: string, s: string, i: nat)
    requires i < |s|
    ensures Highlighted(open, s) == Highlighted(open, s[..i]) + Piece(open, s[i]) + Highlighted(open, s[i + 1..])
  {
    assert s == s[..i] + [s[i]] + s[i + 1..];
    HighlightedConcat(open, s[..i] + [s[i]], s[i + 1..]);
    HighlightedConcat(open, s[..i], [s[i]]);
    assert Highlighted(open, [s[i]]) == Piece(open, s[i]) by {
      assert [s[i]][..0] == [];
    }
  }

  /** Each aromatic position adds the opening and closing tags; every other position adds one character. */
  lemma {:induction false} HighlightedLength(open: string, s: string)
    ensures |Highlighted(open, s)| == |s| + AromaticPositions(s) * (|open| + |SpanClose|)
  {
    if s != [] {
      var p, c := s[..|s| - 1], s[|s| - 1];
      var k := |open| + |SpanClose|;
      var n, m := AromaticPositions(s), AromaticPositions(p);
      HighlightedLength(open, p);
      assert |Highlighted(open, s)| == |Highlighted(open, p)| + |Piece(open, c)|;
      if IsAromatic(c) {
        assert n == m + 1;
        assert n * k == m * k + k by { MulSucc(m, k); }
      } else {
        assert n == m;
      }
    }
  }

  /** Highlighting leaves `s` unchanged exactly when `s` holds no F, W or Y. */
  lemma HighlightedIsIdentity(open: string, s: string)
    ensures Highlighted(open, s) == s <==> 'F' !in s && 'W' !in s && 'Y' !in s
  {
    HighlightedLength(open, s);
    if 'F' !in s && 'W' !in s && 'Y' !in s {
      NoAromaticsUnchanged(open, s);
    }
  }

  /** A sequence with no aromatic residue is copied verbatim. */
  lemma {:induction false} NoAromaticsUnchanged(open: string, s: string)
    requires 'F' !in s && 'W' !in s && 'Y' !in s
    ensures Highlighted(open, s) == s
  {
    if s != [] {
      var p := s[..|s| - 1];
      assert s == p + [s[|s| - 1]];
      NoAromaticsUnchanged(open, p);
    }
  }

  /** Arithmetic step for HighlightedLength, kept apart so the solver sees it alone. */
  lemma MulSucc(m: nat, k: nat)
    ensures (m + 1) * k == m * k + k
  {
  }
}
