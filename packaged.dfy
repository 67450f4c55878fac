/** The transformers of the packaged revision (`src/packages/Transformers/`): a duplicate
    transformer whose style picks the policy, and a strand transformer that carries each
    record's file name over to the new record. */
module PackagedTransformers {
  import opened Wrappers
  import opened Sequences
  import opened Duplicates
  import opened Renaming
  import Strand

  /** `DuplicatedTransformer(style).transform(sequence)`: style `rename` renames repeated
      identifiers in place, style `remove` keeps the first record of each identifier, and
      any other style returns the empty list. */
  method DuplicatedTransform(style: string, sequence: seq<Sequence>) returns (out: seq<Sequence>)
    modifies sequence
    ensures style == "rename" && Distinct(sequence) ==>
      var st := Run(old(Ids(sequence)));
      Ids(sequence) == st.names && out == Pick(sequence, Kept(st))
    ensures style != "rename" ==> Ids(sequence) == old(Ids(sequence))
    ensures style == "remove" ==> out == Pick(sequence, FirstIndices(Ids(sequence)))
    ensures style != "rename" && style != "remove" ==> out == []
  {
    if style == "rename" {
      out := RenameDuplicates(sequence);
    } else if style == "remove" {
      out := RemoveDuplicates(sequence);
    } else {
      out := [];
    }
  }

  /** `ReverseComplement(style).transform(sequence)`: a recognised style transcribes every
      record into a new one that keeps the input's identifier and file name; any other style
      returns the empty list. */
  method ReverseComplementTransform(style: string, sequence: seq<Sequence>) returns (r: Result<seq<Sequence>, Error>)
    ensures Strand.KnownStyle(style) && r.Success? ==>
      Strand.StrandRecords(style, Views(sequence), true) == Success(Views(r.value))
    ensures Strand.KnownStyle(style) && r.Failure? ==>
      Strand.StrandRecords(style, Views(sequence), true) == Failure(r.error)
    ensures !Strand.KnownStyle(style) ==> r == Success([])
  {
    if Strand.KnownStyle(style) {
      r := Strand.TranscribeAll(style, sequence, true);
    } else {
      r := Success([]);
    }
  }
}
