/** The function forms of the first revision (`src/transformations.py`): one duplicate
    manager whose mode picks the policy, and one strand function whose style picks the
    transcription. Both report an empty result as `None` on some paths. */
module Transformations {
  import opened Wrappers
  import opened Sequences
  import opened Duplicates
  import opened Renaming
  import Strand

  /** `duplicate_manager(sequence, mode)`. Mode `rename` renames repeated identifiers in
      place, mode `remove` keeps the first record of each identifier, and any other mode
      hands back the input list itself as soon as it meets a repeated identifier. A result
      that is empty becomes `None`. The mode never changes during the pass, so each mode
      is its own loop here. */
  method DuplicateManager(sequence: seq<Sequence>, mode: string) returns (r: Option<seq<Sequence>>)
    modifies sequence
    ensures mode == "rename" && Distinct(sequence) ==>
      var st := Run(old(Ids(sequence)));
      && Ids(sequence) == st.names
      && r == (if sequence == [] then None else Some(Pick(sequence, Kept(st))))
    ensures mode != "rename" ==> Ids(sequence) == old(Ids(sequence))
    ensures mode == "remove" ==>
      r == (if sequence == [] then None else Some(Pick(sequence, FirstIndices(Ids(sequence)))))
    ensures mode != "rename" && mode != "remove" ==>
      r == (if sequence == [] then None else Some(sequence))
  {
    if mode == "rename" {
      ghost var ids := Ids(sequence);
      var out := RenameDuplicates(sequence);
      RunKeepsSome(ids);
      r := if out == [] then None else Some(out);
    } else if mode == "remove" {
      var out := RemoveDuplicates(sequence);
      FirstIndicesEmpty(Ids(sequence));
      r := if out == [] then None else Some(out);
    } else {
      ghost var ids := Ids(sequence);
      var idDict: map<string, Sequence> := map[];
      var order: seq<string> := [];
      for i := 0 to |sequence|
        invariant order == ids[..i]
        invariant forall x :: x in idDict <==> x in order
        invariant forall p :: 0 <= p < i ==> ids[p] in idDict && idDict[ids[p]] == sequence[p]
      {
        var s := sequence[i];
        if s.id in idDict {
          return Some(sequence);
        }
        idDict := idDict[s.id := s];
        order := order + [s.id];
      }
      var out := ValuesInOrder(order, idDict);
      assert out == sequence;
      r := if out == [] then None else Some(out);
    }
  }

  /** `reverse_complement(sequence, style)`. A recognised style transcribes every record into
      a new one (an empty input gives an empty list); any other style returns a copy of the
      input list, or `None` when it is empty. */
  method ReverseComplement(sequence: seq<Sequence>, style: string) returns (r: Result<Option<seq<Sequence>>, Error>)
    ensures Strand.KnownStyle(style) && r.Success? ==>
      r.value.Some? && Strand.StrandRecords(style, Views(sequence), false) == Success(Views(r.value.value))
    ensures Strand.KnownStyle(style) && r.Failure? ==>
      Strand.StrandRecords(style, Views(sequence), false) == Failure(r.error)
    ensures !Strand.KnownStyle(style) ==> r == Success(if sequence == [] then None else Some(sequence))
  {
    if Strand.KnownStyle(style) {
      var t := Strand.TranscribeAll(style, sequence, false);
      match t
      case Success(toret) => r := Success(Some(toret));
      case Failure(e) => r := Failure(e);
    } else {
      var toret := sequence;
      r := Success(if toret == [] then None else Some(toret));
    }
  }
}
