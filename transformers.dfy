/** The transformer classes of the first revision (`src/transformers.py`): the duplicate
    remover and renamer, the strand transformer, and `SequenceListTransformer`, which feeds a
    list of records through a list of transformers from left to right. */
module Transformers {
  import opened Wrappers
  import opened Sequences
  import opened Duplicates
  import opened Renaming
  import Strand

  /** The transformer objects a pipeline may hold. Each class only stores its constructor
      arguments, so a transformer is a value. */
  datatype Transformer =
    | Remover                        // DuplicatedIdentifiersRemover()
    | Renamer                        // DuplicatedIdentifiersRenamer()
    | ReverseComplement(style: string)  // ReverseComplement(style)

  /** The transformer classes of this revision, before they are called. */
  datatype TransformerClass =
    | RemoverClass
    | RenamerClass
    | ReverseComplementClass(style: string)

  function ClassName(c: TransformerClass): string {
    match c
    case RemoverClass => "DuplicatedIdentifiersRemover"
    case RenamerClass => "DuplicatedIdentifiersRenamer"
    case ReverseComplementClass(_) => "ReverseComplement"
  }

  /** The methods each class defines, its constructor aside. */
  function Defines(c: TransformerClass): set<string> {
    match c
    case RemoverClass => {"transform"}
    case RenamerClass => {"transform", "reverse"}
    case ReverseComplementClass(_) => {"transform", "reverse", "complement"}
  }

  /** The abstract methods of `AbstractTransformer` in this revision. */
  const AbstractMethods: set<string> := {"transform", "reverse"}

  /** The abstract methods of the later base class, which declares only `transform`. */
  const PackagedAbstractMethods: set<string> := {"transform"}

  /** The object a successful call of the class builds. */
  function Built(c: TransformerClass): Transformer {
    match c
    case RemoverClass => Remover
    case RenamerClass => Renamer
    case ReverseComplementClass(style) => ReverseComplement(style)
  }

  /** Calling a subclass of an abstract base class: Python refuses, with `TypeError`, a class
      that leaves one of the base's abstract methods undefined, and otherwise builds the
      object. */
  function Instantiate(c: TransformerClass, abstractMethods: set<string>): (r: Result<Transformer, Error>)
    ensures r.Success? <==> forall m :: m in abstractMethods ==> m in Defines(c)
    ensures r.Failure? ==> r.error == TypeError(ClassName(c))
    ensures r.Success? ==> r.value == Built(c) && r.value.Remover? == c.RemoverClass?
  {
    if abstractMethods <= Defines(c) then Success(Built(c)) else Failure(TypeError(ClassName(c)))
  }

  /** As written, `DuplicatedIdentifiersRemover()` raises `TypeError`: the remover defines
      no `reverse`. The renamer and the strand transformer are built. */
  lemma RemoverNotInstantiable(style: string)
    ensures Instantiate(RemoverClass, AbstractMethods) == Failure(TypeError("DuplicatedIdentifiersRemover"))
    ensures Instantiate(RenamerClass, AbstractMethods) == Success(Renamer)
    ensures Instantiate(ReverseComplementClass(style), AbstractMethods) == Success(ReverseComplement(style))
  {
    assert "reverse" in AbstractMethods && "reverse" !in Defines(RemoverClass);
  }

  /** With only `transform` abstract, as the later base class declares it, every class of
      this revision is built, the remover included. The rest of the module works with the
      objects built this way. */
  lemma InstantiateIntended(c: TransformerClass)
    ensures Instantiate(c, PackagedAbstractMethods) == Success(Built(c))
    ensures Instantiate(RemoverClass, PackagedAbstractMethods) == Success(Remover)
  {
    assert "transform" in Defines(c);
    assert "transform" in Defines(RemoverClass);
  }

  /** What `transform` does to a list of records, as values. An unrecognised strand style
      produces the empty list. */
  function ApplyRecords(t: Transformer, recs: seq<Record>): Result<seq<Record>, Error> {
    match t
    case Remover => Success(RemoveRecords(recs))
    case Renamer => Success(RenameRecords(recs))
    case ReverseComplement(style) =>
      if Strand.KnownStyle(style) then Strand.StrandRecords(style, recs, false) else Success([])
  }

  /** `apply_transformations` as values: the transformers applied from left to right, the
      first `KeyError` ending the pipeline. */
  function Pipeline(ts: seq<Transformer>, recs: seq<Record>): Result<seq<Record>, Error> {
    if ts == [] then Success(recs)
    else
      match Pipeline(ts[..|ts| - 1], recs)
      case Failure(e) => Failure(e)
      case Success(mid) => ApplyRecords(ts[|ts| - 1], mid)
  }

  /** Running two pipelines one after the other is running their concatenation. */
  lemma {:induction false} PipelineConcat(ts: seq<Transformer>, us: seq<Transformer>, recs: seq<Record>)
    ensures Pipeline(ts + us, recs) ==
      match Pipeline(ts, recs)
      case Failure(e) => Failure(e)
      case Success(mid) => Pipeline(us, mid)
    decreases |us|
  {
    if us == [] {
      assert ts + us == ts;
    } else {
      var init := us[..|us| - 1];
      assert (ts + us)[..|ts + us| - 1] == ts + init;
      assert (ts + us)[|ts + us| - 1] == us[|us| - 1];
      PipelineConcat(ts, init, recs);
    }
  }

  /** A failure in a prefix of the pipeline is the failure of the whole pipeline. */
  lemma PipelinePrefixFailure(ts: seq<Transformer>, i: nat, recs: seq<Record>)
    requires i <= |ts| && Pipeline(ts[..i], recs).Failure?
    ensures Pipeline(ts, recs) == Pipeline(ts[..i], recs)
  {
    assert ts == ts[..i] + ts[i..];
    PipelineConcat(ts[..i], ts[i..], recs);
  }

  /** Removing duplicates twice in a row is removing them once. */
  lemma RemoverTwice(recs: seq<Record>)
    ensures Pipeline([Remover, Remover], recs) == Pipeline([Remover], recs)
  {
    assert [Remover, Remover][..1] == [Remover];
    RemoveRecordsIdempotent(recs);
  }

  /** Two `both` strand transformers in a row give back records without a file name. */
  lemma BothTwice(recs: seq<Record>, style: string)
    requires style == "both"
    requires Pipeline([ReverseComplement(style)], recs).Success?
    requires forall k :: 0 <= k < |recs| ==> recs[k].fileName == None
    ensures Pipeline([ReverseComplement(style), ReverseComplement(style)], recs) == Success(recs)
  {
    var t := ReverseComplement(style);
    var ts := [t, t];
    assert ts[..1] == [t];
    assert Pipeline([t], recs) == Strand.StrandRecords(style, recs, false);
    Strand.StrandRecordsBothTwice(recs, false);
  }

  /** `DuplicatedIdentifiersRenamer.reverse`: new records whose identifiers are reversed,
      with the same residues. */
  method RenamerReverse(sequence: seq<Sequence>) returns (r: seq<Sequence>)
    ensures |r| == |sequence|
    ensures forall k :: 0 <= k < |r| ==> fresh(r[k])
    ensures forall k :: 0 <= k < |r| ==>
      r[k].id == Strand.Reverse(sequence[k].id) && r[k].residues == sequence[k].residues &&
      r[k].fileName == None
  {
    r := [];
    for i := 0 to |sequence|
      invariant |r| == i
      invariant forall k :: 0 <= k < i ==> fresh(r[k])
      invariant forall k :: 0 <= k < i ==>
        r[k].id == Strand.Reverse(sequence[k].id) && r[k].residues == sequence[k].residues &&
        r[k].fileName == None
    {
      var s := sequence[i];
      var o := new Sequence(Strand.Reverse(s.id), s.residues);
      r := r + [o];
    }
  }

  /** Reversing the identifiers twice restores them. */
  lemma RenamerReverseTwice(ids: seq<string>, once: seq<string>, twice: seq<string>)
    requires |once| == |ids| && forall k :: 0 <= k < |ids| ==> once[k] == Strand.Reverse(ids[k])
    requires |twice| == |once| && forall k :: 0 <= k < |once| ==> twice[k] == Strand.Reverse(once[k])
    ensures twice == ids
  {
    forall k | 0 <= k < |ids| ensures twice[k] == ids[k] {
      Strand.ReverseInvolution(ids[k]);
    }
  }

  /** `ReverseComplement.transform`: a recognised style transcribes every record; any other
      style returns the empty list. */
  method StrandTransform(style: string, sequence: seq<Sequence>) returns (r: Result<seq<Sequence>, Error>)
    ensures r.Success? ==> ApplyRecords(ReverseComplement(style), Views(sequence)) == Success(Views(r.value))
    ensures r.Failure? ==> ApplyRecords(ReverseComplement(style), Views(sequence)) == Failure(r.error)
    ensures r.Success? ==> Distinct(r.value) && forall k :: 0 <= k < |r.value| ==> fresh(r.value[k])
  {
    if Strand.KnownStyle(style) {
      r := Strand.TranscribeAll(style, sequence, false);
    } else {
      r := Success([]);
    }
  }

  /** `ReverseComplement.reverse`: new records with reversed residues; it cannot fail. */
  method StrandReverse(sequence: seq<Sequence>) returns (r: seq<Sequence>)
    ensures Strand.StrandRecords("reverse", Views(sequence), false) == Success(Views(r))
    ensures forall k :: 0 <= k < |r| ==> fresh(r[k])
  {
    var t := Strand.TranscribeAll("reverse", sequence, false);
    if t.Failure? {
      assert false;
    }
    r := t.value;
  }

  /** `ReverseComplement.complement`: new records with complemented residues, or the
      `KeyError` of the first residue outside the table. */
  method StrandComplement(sequence: seq<Sequence>) returns (r: Result<seq<Sequence>, Error>)
    ensures r.Success? ==> Strand.StrandRecords("complement", Views(sequence), false) == Success(Views(r.value))
    ensures r.Failure? ==> Strand.StrandRecords("complement", Views(sequence), false) == Failure(r.error)
    ensures r.Success? ==> forall k :: 0 <= k < |r.value| ==> fresh(r.value[k])
  {
    r := Strand.TranscribeAll("complement", sequence, false);
  }

  /** `transformation.transform(transformed_list)` for one transformer. The renamer changes
      identifiers of the records it is given; the result holds only records of the input or
      new ones. When the input holds no object twice, the result is the value-level
      transformation of the input's records, and again holds no object twice, and the
      renamer leaves each input object carrying the name Run gives it. Every other
      transformer leaves the input objects untouched, and with them any other objects
      (`others`), such as a list the caller keeps. */
  method Apply(t: Transformer, sequence: seq<Sequence>, ghost others: seq<Sequence>)
    returns (r: Result<seq<Sequence>, Error>)
    modifies set s | s in sequence
    ensures r.Success? ==> forall s :: s in r.value ==> s in sequence || fresh(s)
    ensures Distinct(sequence) && r.Success? ==>
      ApplyRecords(t, old(Views(sequence))) == Success(Views(r.value)) && Distinct(r.value)
    ensures Distinct(sequence) && r.Failure? ==> ApplyRecords(t, old(Views(sequence))) == Failure(r.error)
    ensures Distinct(sequence) && t.Renamer? ==> Ids(sequence) == Run(old(Ids(sequence))).names
    ensures !t.Renamer? ==> forall s :: s in sequence ==> unchanged(s)
    ensures !t.Renamer? ==> forall k :: 0 <= k < |others| ==> others[k].id == old(others[k].id)
  {
    ghost var recs := Views(sequence);
    match t
    case Remover =>
      var out := RemoveDuplicates(sequence);
      RemoveDuplicatesIds(sequence, out);
      if Distinct(sequence) {
        RemoveDuplicatesDistinct(sequence);
      }
      r := Success(out);
    case Renamer =>
      assert RecordIds(recs) == Ids(sequence);
      var out := RenameDuplicates(sequence);
      if Distinct(sequence) {
        RenamedViews(sequence, recs, out);
      }
      r := Success(out);
    case ReverseComplement(style) =>
      r := StrandTransform(style, sequence);
  }

  /** A pipeline whose first transformer is the renamer and which holds no other renamer:
      only the first step acts on the stored objects themselves. */
  predicate LeadingRenamer(ts: seq<Transformer>) {
    ts != [] && ts[0] == Renamer && Renamer !in ts[1..]
  }

  /** `SequenceListTransformer`: a list of records and the transformers to run on it. */
  class SequenceListTransformer {
    var sequence: seq<Sequence>
    const transformation: seq<Transformer>
    const originalSequence: seq<Sequence>

    constructor (sequence: seq<Sequence>, transformation: seq<Transformer>)
      ensures this.sequence == sequence && this.transformation == transformation
      ensures originalSequence == sequence
    {
      this.sequence := sequence;
      this.transformation := transformation;
      this.originalSequence := sequence;
    }

    /** `apply_transformations`: the stored list is fed through the transformers from left
        to right. With no transformers, the stored list itself is returned. When the stored
        list holds no object twice, the outcome is Pipeline on its records. Without a renamer
        the stored objects are left untouched. When the renamer comes first and no other
        renamer follows, the later steps work on copies, so the stored objects end up carrying
        the names Run gives them, and `reset_transformations` restores the list but not the
        names. */
    method ApplyTransformations() returns (r: Result<seq<Sequence>, Error>)
      modifies sequence
      ensures transformation == [] ==> r == Success(sequence)
      ensures Distinct(sequence) && r.Success? ==>
        Pipeline(transformation, old(Views(sequence))) == Success(Views(r.value))
      ensures Distinct(sequence) && r.Failure? ==>
        Pipeline(transformation, old(Views(sequence))) == Failure(r.error)
      ensures Renamer !in transformation ==> forall s :: s in sequence ==> unchanged(s)
      ensures Distinct(sequence) && LeadingRenamer(transformation) ==>
        Ids(sequence) == Run(old(Ids(sequence))).names
    {
      ghost var recs := Views(sequence);
      ghost var ids0 := Ids(sequence);
      var transformed := sequence;
      for i := 0 to |transformation|
        invariant i == 0 ==> transformed == sequence
        invariant forall s :: s in transformed ==> s in old(sequence) || fresh(s)
        invariant Renamer !in transformation ==> forall s :: s in sequence ==> unchanged(s)
        invariant i == 0 ==> Ids(sequence) == ids0
        invariant Distinct(sequence) && LeadingRenamer(transformation) && i >= 1 ==>
          |Run(ids0).names| == |sequence| &&
          forall k :: 0 <= k < |sequence| ==> sequence[k].id == Run(ids0).names[k]
        invariant Distinct(sequence) ==>
          Distinct(transformed) && Pipeline(transformation[..i], recs) == Success(Views(transformed))
      {
        assert transformation[..i + 1][..i] == transformation[..i];
        var step := Apply(transformation[i], transformed, sequence);
        if i == 0 && Distinct(sequence) && LeadingRenamer(transformation) {
          assert transformed == sequence;
        }
        if step.Failure? {
          if Distinct(sequence) {
            PipelinePrefixFailure(transformation, i + 1, recs);
          }
          return step;
        }
        transformed := step.value;
      }
      assert transformation[..|transformation|] == transformation;
      r := Success(transformed);
    }

    /** `reset_transformations`: the stored list is the constructor's list again. */
    method ResetTransformations()
      modifies this
      ensures sequence == originalSequence
    {
      sequence := originalSequence;
    }
  }
}
