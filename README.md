# Protein Explorer sequence helpers, in Dafny

Protein Explorer is a pair of Streamlit pages that show a protein sequence,
fetched from UniProt or uploaded as FASTA, together with a few statistics.
`app.py` handles one sequence at a time. `protein_reader.py` handles every
record of an uploaded file. The only computation in either page is a handful
of small helpers over the residue string. This project models those helpers
and proves what they promise:

- the residue composition, `collections.Counter(seq)`. It is modelled as a
  `Counter` value: the keys in the order the dictionary yields them (first
  appearance), and a map from key to count.
- the aromatic counts, `conta_aromatici` in `app.py` and the inline
  dictionary in `protein_reader.py`. Both restrict the composition to F, W
  and Y, so both are one function, `Residues.AromaticTally`.
- the aromatic highlighting, `evidenzia_aromatici`, in both variants. Each
  variant is a method with a loop that builds the markup residue by residue.
  It is proved equal to the projection `Markup.Highlighted`, which takes the
  opening `<span>` tag as a parameter because the two pages use different
  tags. `app.py` also wraps the result in a monospace `<div>`.
- the linear isoelectric-point heuristic of `protein_reader.py`,
  `7 + (#K + #R + #H - #D - #E) * 0.1`. It is computed over `real`, so the
  tenths are exact.

Modules: `Residues` (residues.dfy) holds counting and the composition table.
`Markup` (markup.dfy) holds the highlighting projection. `App` (app.dfy) and
`ProteinReader` (protein_reader.dfy) hold the helpers of each page.

In `app.py` the isoelectric point is delegated to Biopython's
`IsoelectricPoint`. In `protein_reader.py` it is the linear heuristic. There is
no titration-curve or bisection estimator anywhere in the code. The model
follows the code: only the linear heuristic is modelled, with its unclamped
results (100 lysines give 17).

## Model

The rows below reason about a few plain definitions that carry no contract of
their own: `Markup.Highlighted` (the highlighting projection both loops are
proved equal to), `Residues.Get` (`counter.get(c, 0)`), and
`ProteinReader.BasicResidues` and `ProteinReader.AcidicResidues` (the counts of
protein_reader.py lines 23 and 24).

| member | source | states |
|---|---|---|
| `Residues.Occurrences` | protein_reader.py:23-24 | `seq.count(c)` for one letter is at most the length, and is 0 exactly when `c` does not occur |
| `Residues.OccurrencesIsMultiplicity` | protein_reader.py:23-24 | `seq.count(c)` equals the multiplicity of `c` in the multiset of residues |
| `Residues.OccurrencesConcat` | protein_reader.py:23-24 | counting a letter distributes over concatenation |
| `Residues.Count` | protein_reader.py:58 | `Counter(seq)` has a key exactly for each residue that occurs; each value is that residue's number of occurrences (so positive); no key repeats |
| `Residues.GetCount` | app.py:28-29 | `counts.get(c, 0)` on `Counter(seq)` is the number of occurrences of `c` for every letter, 0 for an absent one, and equals the multiset multiplicity |
| `Residues.CountTotal` | protein_reader.py:58 | the values of `Counter(seq)` sum to `len(seq)` |
| `Residues.CountKeysInFirstOccurrenceOrder` | app.py:104-106 | the keys of `Counter(sequenza)` (the bars of the chart) come in order of first appearance in the sequence |
| `Residues.AromaticPositions` | app.py:34-35 | the number of positions holding F, W or Y is at most the length, and 0 exactly when none of the three occurs |
| `Residues.AromaticOccurrences` | app.py:27-29 | the counts of F, W and Y add up to the number of aromatic positions |
| `Residues.AromaticTally` | protein_reader.py:59 | the aromatic dictionary built from a composition table has key set exactly {F, W, Y}, whatever the table holds |
| `App.AromaticCounts` | app.py:26-29 | `conta_aromatici` has keys exactly F, W, Y; each value is that letter's number of occurrences, and is 0 exactly when the letter is absent |
| `App.AromaticCountsBound` | app.py:26-29 | the three aromatic counts sum to the number of aromatic positions, which is at most `len(seq)` |
| `App.HighlightAromatics` | app.py:32-39 | the loop's result is the `<div style='font-family: monospace'>` wrapper around the in-order highlighted body, with `<span style='color:red; font-weight:bold'>` as the tag |
| `App.HighlightedPageLength` | app.py:34-39 | the page markup is 42 + `len(seq)` + 49 × (number of F/W/Y positions) characters long |
| `App.PageWithoutAromatics` | app.py:34-39 | the body inside the wrapper is the sequence verbatim exactly when it holds no F, W or Y |
| `App.FrequencyTable` | app.py:104 | `Counter(sequenza)`: its keys are exactly the residues present; every lookup with default 0 is the occurrence count; the counts sum to the length; the keys come in first-appearance order |
| `Markup.Piece` | protein_reader.py:14-17 | an aromatic residue's piece is exactly the opening tag's length plus 8 characters (the residue and `</span>`); any other residue is copied as itself |
| `Markup.HighlightedConcat` | protein_reader.py:12-18 | highlighting maps "" to "" and distributes over concatenation: `h(a + b) == h(a) + h(b)` |
| `Markup.HighlightedAt` | protein_reader.py:13-17 | each position contributes exactly its own piece, between the highlighted prefix and the highlighted suffix |
| `Markup.HighlightedLength` | protein_reader.py:13-17 | the highlighted length is `len(seq)` plus the tag overhead once per aromatic position |
| `Markup.HighlightedIsIdentity` | protein_reader.py:13-17 | highlighting returns the sequence unchanged if and only if it holds no F, W or Y |
| `Markup.NoAromaticsUnchanged` | protein_reader.py:16-17 | a sequence without F, W or Y is copied verbatim |
| `ProteinReader.HighlightAromatics` | protein_reader.py:10-18 | the loop's result is the highlighted sequence with `<span style="color: red; font-weight: bold;">` as the tag and no wrapper |
| `ProteinReader.EstimatedPI` | protein_reader.py:20-26 | the estimate is exactly 7 when basic and acidic residues are equally many, and above 7 exactly when basic residues outnumber acidic ones |
| `ProteinReader.NetChargeIsBalance` | protein_reader.py:23-24 | `(#K + #R + #H) - (#D + #E)` equals the sum of per-residue charges (+1 K/R/H, -1 D/E, 0 otherwise) |
| `ProteinReader.EstimatedPIByCharge` | protein_reader.py:23-26 | the estimate is 7 plus the summed residue charge divided by ten |
| `ProteinReader.UnchargedIsNeutral` | protein_reader.py:23-26 | a sequence with no K, R, H, D or E, the empty one included, gets exactly 7 |
| `ProteinReader.AppendResidue` | protein_reader.py:23-26 | appending K/R/H raises the estimate by exactly 0.1, D/E lowers it by exactly 0.1, any other residue leaves it unchanged |
| `ProteinReader.PermutationInvariant` | protein_reader.py:23-26 | two sequences with the same residue multiset get the same estimate |
| `ProteinReader.PolyLysine` | protein_reader.py:26 | `n` lysines give `7 + n/10`, so the result is not clamped to any pH range |
| `ProteinReader.HundredLysines` | protein_reader.py:26 | 100 lysines give exactly 17 |
| `ProteinReader.Analyse` | protein_reader.py:58-63 | the record analysis: its table is `Counter(seq)` itself, so its keys are duplicate-free, a key exactly for each residue present, every lookup with default 0 is the occurrence count and the counts sum to the length; the aromatic map is read from that same table, equals `conta_aromatici` of `app.py`, has keys F, W, Y and sums to at most the length; the pI is the heuristic |

## Left out

- The Streamlit layout, widgets, messages and expanders (app.py:12-15, 55-131; protein_reader.py:8, 33-85). These are user interface.
- The UniProt lookup with `requests.get` (app.py:63-73). This is network I/O.
- FASTA parsing with `SeqIO.read` and `SeqIO.parse` (app.py:68, 81; protein_reader.py:40). These are calls into Biopython. The model starts from the parsed sequence string. Biopython is not part of this model.
- `calcola_pI` in app.py (app.py:17-23). It calls Biopython's `IsoelectricPoint` on floating point and turns any exception into a message string. Biopython is not part of this model.
- `download_link` and `crea_link_download` (app.py:42-44, protein_reader.py:28-31). They only call `base64` and UTF-8 encoding.
- `mostra_3D` and the py3Dmol/stmol viewer (app.py:47-52), and the matplotlib bar charts (app.py:105-109, protein_reader.py:68-75). These are rendering. The chart's input, the composition table with its key order, is modelled.
- `ProteinReader.EstimatedPI`: computed in exact reals. The source multiplies by the float `0.1`, so its IEEE rounding is not modelled. Neither is the two-decimal display (`:.2f`, `round(..., 2)`).
- `App.AromaticCounts`: a Dafny map has no key order. The Python dictionary lists F, W, Y in that order, and the order matters only for display.
