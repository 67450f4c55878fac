/** The strand operations every revision shares: reversal (`s[::-1]`), base complement
    through the fixed eight-entry `complements` table (a `KeyError` on any other symbol),
    and reverse-complement (`both`), the complement of the reversed residues. */
module Strand {
  import opened Wrappers
  import opened Text
  import opened Sequences

  /** The `complements` dict: A<->T and C<->G, each case on its own. */
  const Complements: map<char, char> :=
    map['A' := 'T', 'C' := 'G', 'G' := 'C', 'T' := 'A',
        'a' := 't', 'c' := 'g', 'g' := 'c', 't' := 'a']

  /** `s[::-1]`. */
  function Reverse(s: string): (r: string)
    ensures |r| == |s|
    ensures forall k :: 0 <= k < |s| ==> r[k] == s[|s| - 1 - k]
  {
    if s == [] then [] else Reverse(s[1..]) + [s[0]]
  }

  /** `''.join(complements[base] for base in s)`: the first symbol missing from the table
      raises `KeyError` with that symbol, and nothing is produced. */
  function Complement(s: string): (r: Result<string, Error>)
    ensures r.Success? <==> forall k :: 0 <= k < |s| ==> s[k] in Complements
    ensures r.Success? ==> (|r.value| == |s| &&
      forall k :: 0 <= k < |s| ==> s[k] in Complements && r.value[k] == Complements[s[k]])
    ensures r.Failure? ==>
      exists k :: (0 <= k < |s| && s[k] !in Complements && r.error == KeyError(s[k]) &&
                   forall m :: 0 <= m < k ==> s[m] in Complements)
  {
    if s == [] then Success([])
    else if s[0] !in Complements then Failure(KeyError(s[0]))
    else
      match Complement(s[1..])
      case Success(t) => Success([Complements[s[0]]] + t)
      case Failure(e) =>
        var k :| 0 <= k < |s[1..]| && s[1..][k] !in Complements && e == KeyError(s[1..][k]) &&
          forall m :: 0 <= m < k ==> s[1..][m] in Complements;
        assert s[k + 1] !in Complements && forall m :: 0 <= m < k + 1 ==> s[m] in Complements;
        Failure(e)
  }

  /** The `both` style: the complement of the reversed residues. */
  function ReverseComplement(s: string): Result<string, Error> {
    Complement(Reverse(s))
  }

  lemma {:induction false} ReverseInvolution(s: string)
    ensures Reverse(Reverse(s)) == s
  {
    assert forall k :: 0 <= k < |s| ==> Reverse(Reverse(s))[k] == Reverse(s)[|s| - 1 - k] == s[k];
  }

  /** The table pairs its symbols: the partner of a partner is the symbol itself. */
  lemma ComplementPair(c: char)
    requires c in Complements
    ensures Complements[c] in Complements && Complements[Complements[c]] == c
  {
  }

  /** Complementing twice restores the residues. */
  lemma ComplementInvolution(s: string)
    requires Complement(s).Success?
    ensures Complement(Complement(s).value) == Success(s)
  {
    var t := Complement(s).value;
    forall k | 0 <= k < |t|
      ensures t[k] in Complements && Complements[t[k]] == s[k]
    {
      ComplementPair(s[k]);
    }
    assert Complement(t).value == s;
  }

  /** Complement and reversal commute: reverse-complement may equally reverse the
      complemented residues, and it fails exactly when complement fails. */
  lemma ReverseComplementCommutes(s: string)
    ensures ReverseComplement(s).Success? <==> Complement(s).Success?
    ensures Complement(s).Success? ==> ReverseComplement(s) == Success(Reverse(Complement(s).value))
  {
    var r := Reverse(s);
    assert forall k :: 0 <= k < |s| ==> r[|s| - 1 - k] == s[k];
    if Complement(s).Success? {
      assert ReverseComplement(s).value == Reverse(Complement(s).value);
    }
  }

  /** Reverse-complement is an involution on the eight-letter alphabet. */
  lemma ReverseComplementInvolution(s: string)
    requires ReverseComplement(s).Success?
    ensures ReverseComplement(ReverseComplement(s).value) == Success(s)
  {
    ReverseComplementCommutes(s);
    var t := Complement(s).value;
    assert ReverseComplement(s).value == Reverse(t);
    ReverseInvolution(t);
    ComplementInvolution(s);
  }

  /** The style strings the transformers recognise. */
  predicate KnownStyle(style: string) {
    style == "reverse" || style == "complement" || style == "both"
  }

  /** What one style does to one residue string. */
  function Transcribe(style: string, s: string): Result<string, Error>
    requires KnownStyle(style)
  {
    if style == "reverse" then Success(Reverse(s))
    else if style == "complement" then Complement(s)
    else ReverseComplement(s)
  }

  /** A known style applied to a list of records, one output per input in order, each with
      the input's identifier; `keepFile` tells whether the source file name is carried over
      (the packaged revision) or dropped (the earlier ones). The first failing record's
      `KeyError` aborts the whole list. */
  function StrandRecords(style: string, recs: seq<Record>, keepFile: bool): (r: Result<seq<Record>, Error>)
    requires KnownStyle(style)
    ensures r.Success? <==> forall k :: 0 <= k < |recs| ==> Transcribe(style, recs[k].residues).Success?
    ensures r.Success? ==> (|r.value| == |recs| && forall k :: 0 <= k < |recs| ==>
      r.value[k] == Record(recs[k].id, Transcribe(style, recs[k].residues).value,
                           if keepFile then recs[k].fileName else None))
  {
    if recs == [] then Success([])
    else
      var init := recs[..|recs| - 1];
      var last := recs[|recs| - 1];
      assert forall m :: 0 <= m < |init| ==> recs[m] == init[m];
      match StrandRecords(style, init, keepFile)
      case Failure(e) => Failure(e)
      case Success(t) =>
        match Transcribe(style, last.residues)
        case Failure(e) => Failure(e)
        case Success(x) => Success(t + [Record(last.id, x, if keepFile then last.fileName else None)])
  }

  /** When the list fails, its error is that of the first record that fails. */
  lemma {:induction false} StrandRecordsFirstError(style: string, recs: seq<Record>, keepFile: bool, k: nat)
    requires KnownStyle(style)
    requires k < |recs| && Transcribe(style, recs[k].residues).Failure?
    requires forall m :: 0 <= m < k ==> Transcribe(style, recs[m].residues).Success?
    ensures StrandRecords(style, recs, keepFile) == Failure(Transcribe(style, recs[k].residues).error)
  {
    var init := recs[..|recs| - 1];
    assert forall m :: 0 <= m < |init| ==> recs[m] == init[m];
    if k < |recs| - 1 {
      StrandRecordsFirstError(style, init, keepFile, k);
    }
  }

  /** Reverse-complementing a list twice gives the list back, when the file names are either
      carried over or absent to begin with. */
  lemma StrandRecordsBothTwice(recs: seq<Record>, keepFile: bool)
    requires StrandRecords("both", recs, keepFile).Success?
    requires keepFile || forall k :: 0 <= k < |recs| ==> recs[k].fileName == None
    ensures StrandRecords("both", StrandRecords("both", recs, keepFile).value, keepFile) == Success(recs)
  {
    var once := StrandRecords("both", recs, keepFile).value;
    forall k | 0 <= k < |once|
      ensures Transcribe("both", once[k].residues) == Success(recs[k].residues)
    {
      ReverseComplementInvolution(recs[k].residues);
    }
    var twice := StrandRecords("both", once, keepFile);
    assert twice.value == recs;
  }

  /** The per-style loop of every `ReverseComplement.transform` revision: one new record per
      input, in order, with the input's identifier and the transcribed residues. When a
      residue has no complement, the `KeyError` escapes and no list is returned. The input
      records are not touched. */
  method TranscribeAll(style: string, sequence: seq<Sequence>, keepFile: bool)
    returns (r: Result<seq<Sequence>, Error>)
    requires KnownStyle(style)
    ensures r.Success? ==> StrandRecords(style, Views(sequence), keepFile) == Success(Views(r.value))
    ensures r.Failure? ==> StrandRecords(style, Views(sequence), keepFile) == Failure(r.error)
    ensures r.Success? ==> Distinct(r.value) && forall k :: 0 <= k < |r.value| ==> fresh(r.value[k])
  {
    var toret: seq<Sequence> := [];
    for i := 0 to |sequence|
      invariant |toret| == i
      invariant forall m :: 0 <= m < i ==> Transcribe(style, sequence[m].residues).Success?
      invariant forall k :: 0 <= k < i ==> fresh(toret[k])
      invariant forall k :: 0 <= k < i ==>
        View(toret[k]) == Record(sequence[k].id, Transcribe(style, sequence[k].residues).value,
                                 if keepFile then sequence[k].fileName else None)
      invariant Distinct(toret)
    {
      var s := sequence[i];
      var t := Transcribe(style, s.residues);
      if t.Failure? {
        StrandRecordsFirstError(style, Views(sequence), keepFile, i);
        return Failure(t.error);
      }
      var o: Sequence;
      if keepFile {
        o := new Sequence.WithFile(s.id, t.value, s.fileName);
      } else {
        o := new Sequence(s.id, t.value);
      }
      toret := toret + [o];
    }
    ghost var recs := Views(sequence);
    assert StrandRecords(style, recs, keepFile).Success?;
    assert Views(toret) == StrandRecords(style, recs, keepFile).value;
    r := Success(toret);
  }
}
