/** Per-record statistics, `SequenceStats` in `src/sequence_stats.py` and its packaged copy
    `src/packages/Stats/sequence_stats.py`, which hold the same two methods: a row
    `[id, len, #A, #C, #T, #G, #-]` per record and a matrix whose first row names the
    columns. */
module Stats {
  import opened Wrappers
  import opened Sequences

  /** A matrix cell: identifiers and column names are text, lengths and counts numbers. */
  datatype Cell = Text(text: string) | Number(value: nat)

  /** The counted symbols, in column order (`'ACTG-'`). */
  const Symbols: string := "ACTG-"

  /** `['id', 'len', 'A', 'C', 'T', 'G', '-']`. */
  const HeaderRow: seq<Cell> := [Text("id"), Text("len"), Text("A"), Text("C"), Text("T"), Text("G"), Text("-")]

  /** The number of positions of `s` holding exactly `c`; case matters. */
  function Occurrences(s: string, c: char): nat {
    if s == [] then 0 else Occurrences(s[..|s| - 1], c) + (if s[|s| - 1] == c then 1 else 0)
  }

  /** The number of positions of `s` holding none of the counted symbols. */
  function Uncounted(s: string): nat {
    if s == [] then 0 else Uncounted(s[..|s| - 1]) + (if s[|s| - 1] in Symbols then 0 else 1)
  }

  /** The five counts of a row added up. */
  function CountedTotal(s: string): nat {
    Occurrences(s, 'A') + Occurrences(s, 'C') + Occurrences(s, 'T') + Occurrences(s, 'G') + Occurrences(s, '-')
  }

  /** The statistics row of a record with identifier `id` and residues `residues`. */
  function StatsRow(id: string, residues: string): seq<Cell> {
    [Text(id), Number(|residues|)] +
      seq(|Symbols|, j requires 0 <= j < |Symbols| => Number(Occurrences(residues, Symbols[j])))
  }

  /** The statistics matrix of a list of records: the header row, then one row per record. */
  function StatsMatrix(recs: seq<Record>): seq<seq<Cell>> {
    [HeaderRow] + seq(|recs|, i requires 0 <= i < |recs| => StatsRow(recs[i].id, recs[i].residues))
  }

  /** A row has seven cells: the identifier, the length and the counts of A, C, T, G and `-`,
      in the order the header names them. */
  lemma StatsRowLayout(id: string, residues: string)
    ensures var r := StatsRow(id, residues);
      && |r| == |HeaderRow| == 7
      && r[0] == Text(id) && r[1] == Number(|residues|)
      && r[2] == Number(Occurrences(residues, 'A')) && r[3] == Number(Occurrences(residues, 'C'))
      && r[4] == Number(Occurrences(residues, 'T')) && r[5] == Number(Occurrences(residues, 'G'))
      && r[6] == Number(Occurrences(residues, '-'))
    ensures forall j :: 0 <= j < |Symbols| ==> HeaderRow[j + 2] == Text([Symbols[j]])
  {
  }

  /** The matrix has one row more than there are records; the first is the header and row
      `i + 1` is the statistics of record `i`. */
  lemma StatsMatrixLayout(recs: seq<Record>)
    ensures var m := StatsMatrix(recs);
      && |m| == |recs| + 1 && m[0] == HeaderRow
      && forall i :: 0 <= i < |recs| ==> m[i + 1] == StatsRow(recs[i].id, recs[i].residues)
  {
  }

  /** A count is the multiplicity of the symbol in the residues. */
  lemma {:induction false} OccurrencesMultiset(s: string, c: char)
    ensures Occurrences(s, c) == multiset(s)[c]
  {
    if s != [] {
      OccurrencesMultiset(s[..|s| - 1], c);
      assert s == s[..|s| - 1] + [s[|s| - 1]];
      assert multiset(s) == multiset(s[..|s| - 1]) + multiset{s[|s| - 1]};
    }
  }

  /** Every position is counted once, either under one of the five symbols or not at all. */
  lemma {:induction false} CountsPartition(s: string)
    ensures CountedTotal(s) + Uncounted(s) == |s|
  {
    if s != [] {
      CountsPartition(s[..|s| - 1]);
    }
  }

  lemma {:induction false} UncountedZero(s: string)
    ensures Uncounted(s) == 0 <==> forall k :: 0 <= k < |s| ==> s[k] in Symbols
  {
    if s != [] {
      var init := s[..|s| - 1];
      UncountedZero(init);
      if Uncounted(s) == 0 {
        forall k | 0 <= k < |s| ensures s[k] in Symbols {
          if k < |s| - 1 {
            assert s[k] == init[k];
          }
        }
      }
      if forall k :: 0 <= k < |s| ==> s[k] in Symbols {
        forall k | 0 <= k < |init| ensures init[k] in Symbols {
          assert init[k] == s[k];
        }
      }
    }
  }

  /** The five counts add up to at most the length, with equality exactly when every residue
      is one of A, C, T, G and `-`. */
  lemma CountsBound(s: string)
    ensures CountedTotal(s) <= |s|
    ensures CountedTotal(s) == |s| <==> forall k :: 0 <= k < |s| ==> s[k] in Symbols
  {
    CountsPartition(s);
    UncountedZero(s);
  }

  /** Lower-case residues are not counted. */
  lemma LowerCaseUncounted()
    ensures CountedTotal("acgt") == 0 && Uncounted("acgt") == 4
  {
    OccurrencesMultiset("acgt", 'A');
    OccurrencesMultiset("acgt", 'C');
    OccurrencesMultiset("acgt", 'T');
    OccurrencesMultiset("acgt", 'G');
    OccurrencesMultiset("acgt", '-');
    CountsPartition("acgt");
  }

  /** The counts of a short residue string, by its multiset. */
  lemma CountsOf(s: string, a: nat, c: nat, t: nat, g: nat, gap: nat)
    requires multiset(s)['A'] == a && multiset(s)['C'] == c && multiset(s)['T'] == t
    requires multiset(s)['G'] == g && multiset(s)['-'] == gap
    ensures StatsRow("", s)[2..] == [Number(a), Number(c), Number(t), Number(g), Number(gap)]
  {
    OccurrencesMultiset(s, 'A');
    OccurrencesMultiset(s, 'C');
    OccurrencesMultiset(s, 'T');
    OccurrencesMultiset(s, 'G');
    OccurrencesMultiset(s, '-');
    StatsRowLayout("", s);
  }

  lemma MultisetS1()
    ensures var s := "AAAACCCTTG";
      && multiset(s)['A'] == 4 && multiset(s)['C'] == 3 && multiset(s)['T'] == 2
      && multiset(s)['G'] == 1 && multiset(s)['-'] == 0
  {
  }

  lemma ExampleRowS1()
    ensures StatsRow("S1", "AAAACCCTTG") == [Text("S1"), Number(10), Number(4), Number(3), Number(2), Number(1), Number(0)]
  {
    var s := "AAAACCCTTG";
    MultisetS1();
    CountsOf(s, 4, 3, 2, 1, 0);
    assert StatsRow("S1", s) == [Text("S1"), Number(10)] + StatsRow("", s)[2..];
  }

  lemma MultisetS2()
    ensures var s := "TATTGGGC-";
      && multiset(s)['A'] == 1 && multiset(s)['C'] == 1 && multiset(s)['T'] == 3
      && multiset(s)['G'] == 3 && multiset(s)['-'] == 1
  {
  }

  lemma ExampleRowS2()
    ensures StatsRow("S2", "TATTGGGC-") == [Text("S2"), Number(9), Number(1), Number(1), Number(3), Number(3), Number(1)]
  {
    var s := "TATTGGGC-";
    MultisetS2();
    CountsOf(s, 1, 1, 3, 3, 1);
    assert StatsRow("S2", s) == [Text("S2"), Number(9)] + StatsRow("", s)[2..];
  }

  /** The two records of the module's own example. */
  lemma StatsExample()
    ensures StatsMatrix([Record("S1", "AAAACCCTTG", None), Record("S2", "TATTGGGC-", None)]) ==
      [HeaderRow,
       [Text("S1"), Number(10), Number(4), Number(3), Number(2), Number(1), Number(0)],
       [Text("S2"), Number(9), Number(1), Number(1), Number(3), Number(3), Number(1)]]
  {
    ExampleRowS1();
    ExampleRowS2();
  }

  /** `get_seq_stats`: the length, then one pass over the residues that increments the entry
      of the `counts` dictionary for each residue that is a key of it. */
  method GetSeqStats(sequence: Sequence) returns (stats: seq<Cell>)
    ensures stats == StatsRow(sequence.id, sequence.residues)
  {
    var residues := sequence.residues;
    var length := |residues|;
    var counts: map<char, nat> := map['A' := 0, 'C' := 0, 'T' := 0, 'G' := 0, '-' := 0];
    for i := 0 to |residues|
      invariant forall c :: c in counts <==> c in Symbols
      invariant forall c :: c in counts ==> counts[c] == Occurrences(residues[..i], c)
    {
      assert residues[..i + 1][..i] == residues[..i];
      var base := residues[i];
      if base in counts {
        counts := counts[base := counts[base] + 1];
      }
    }
    assert residues[..|residues|] == residues;
    stats := [Text(sequence.id), Number(length)] +
      seq(|Symbols|, j requires 0 <= j < |Symbols| => Number(counts[Symbols[j]]));
  }

  /** `get_seq_stats_matrix`: the header row, then the row of each record appended in list
      order. The records are only read. */
  method GetSeqStatsMatrix(sequences: seq<Sequence>) returns (matrix: seq<seq<Cell>>)
    ensures matrix == StatsMatrix(Views(sequences))
  {
    matrix := [HeaderRow];
    for i := 0 to |sequences|
      invariant matrix == StatsMatrix(Views(sequences[..i]))
    {
      var stats := GetSeqStats(sequences[i]);
      assert Views(sequences[..i + 1]) == Views(sequences[..i]) + [View(sequences[i])];
      matrix := matrix + [stats];
    }
    assert sequences[..|sequences|] == sequences;
  }
}
