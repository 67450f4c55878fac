/** The sequence record shared by every revision of the toolkit: an identifier, a residue
    string and, in the packaged revision, the name of the file it was read from. The
    identifier is mutable because the duplicate renamers reassign `id` on objects the caller
    holds; nothing ever reassigns the residues or the file name, so those are constants. */
module Sequences {
  import opened Wrappers
  import opened Text

  /** The Python attribute `seq` is the field `residues` here (`seq` is a Dafny keyword). */
  class Sequence {
    var id: string
    const residues: string
    const fileName: Option<string>

    /** `Sequence(id, seq)`: stores both fields verbatim, with no check on either. */
    constructor (id: string, residues: string)
      ensures this.id == id && this.residues == residues && this.fileName == None
    {
      this.id := id;
      this.residues := residues;
      this.fileName := None;
    }

    /** `Sequence(sequence_id, sequence, file_name)` of the packaged revision. */
    constructor WithFile(id: string, residues: string, fileName: Option<string>)
      ensures this.id == id && this.residues == residues && this.fileName == fileName
    {
      this.id := id;
      this.residues := residues;
      this.fileName := fileName;
    }

    /** `__repr__`: the identifier, a colon and a space, then the residues. */
    function Repr(): string
      reads this
    {
      id + ": " + residues
    }

    /** `__str__`: the representation followed by one line break. */
    function Str(): string
      reads this
    {
      Repr() + "\n"
    }

    /** `lower()`: a new record with lower-cased residues; the receiver is left alone. */
    method Lower() returns (r: Sequence)
      ensures fresh(r)
      ensures r.id == id && r.residues == ToLower(residues) && r.fileName == fileName
    {
      r := new Sequence.WithFile(id, ToLower(residues), fileName);
    }

    /** `upper()`: a new record with upper-cased residues; the receiver is left alone. */
    method Upper() returns (r: Sequence)
      ensures fresh(r)
      ensures r.id == id && r.residues == ToUpper(residues) && r.fileName == fileName
    {
      r := new Sequence.WithFile(id, ToUpper(residues), fileName);
    }
  }

  /** The layout of the representation: identifier first, then `": "`, then the residues,
      and `str` differs from it only by the final line break. Splitting it back needs the
      identifier's length, since an identifier may itself contain `": "`. */
  lemma ReprLayout(s: Sequence)
    ensures |s.Repr()| == |s.id| + 2 + |s.residues|
    ensures s.Repr()[..|s.id|] == s.id && s.Repr()[|s.id|..|s.id| + 2] == ": "
    ensures s.Repr()[|s.id| + 2..] == s.residues
    ensures s.Str()[..|s.Str()| - 1] == s.Repr() && s.Str()[|s.Str()| - 1] == '\n'
  {
  }

  /** A record as a value, as seen through its three fields at one moment. */
  datatype Record = Record(id: string, residues: string, fileName: Option<string>)

  function View(s: Sequence): Record
    reads s
  {
    Record(s.id, s.residues, s.fileName)
  }

  function Views(ss: seq<Sequence>): (r: seq<Record>)
    reads ss
    ensures |r| == |ss| && forall k :: 0 <= k < |ss| ==> r[k] == View(ss[k])
  {
    seq(|ss|, k requires 0 <= k < |ss| reads ss => View(ss[k]))
  }

  function Ids(ss: seq<Sequence>): (r: seq<string>)
    reads ss
    ensures |r| == |ss| && forall k :: 0 <= k < |ss| ==> r[k] == ss[k].id
  {
    seq(|ss|, k requires 0 <= k < |ss| reads ss => ss[k].id)
  }

  function RecordIds(rs: seq<Record>): (r: seq<string>)
    ensures |r| == |rs| && forall k :: 0 <= k < |rs| ==> r[k] == rs[k].id
  {
    seq(|rs|, k requires 0 <= k < |rs| => rs[k].id)
  }

  /** No object occurs twice in the list. */
  predicate Distinct(ss: seq<Sequence>) {
    forall i, j :: 0 <= i < j < |ss| ==> ss[i] != ss[j]
  }

  /** The elements of `s` at the given positions, in that order. */
  function Pick<T>(s: seq<T>, idx: seq<nat>): (r: seq<T>)
    requires forall p :: 0 <= p < |idx| ==> idx[p] < |s|
    ensures |r| == |idx| && forall p :: 0 <= p < |idx| ==> r[p] == s[idx[p]]
  {
    seq(|idx|, p requires 0 <= p < |idx| => s[idx[p]])
  }

  /** The positions 0, 1, ..., n - 1. */
  function Range(n: nat): (r: seq<nat>)
    ensures |r| == n && forall p :: 0 <= p < n ==> r[p] == p
  {
    seq(n, p requires 0 <= p < n => p)
  }

  lemma PickRange<T>(s: seq<T>)
    ensures Pick(s, Range(|s|)) == s
  {
  }

  /** Picking distinct positions of a list without repeated objects repeats no object. */
  lemma PickDistinct(ss: seq<Sequence>, idx: seq<nat>)
    requires Distinct(ss)
    requires forall p :: 0 <= p < |idx| ==> idx[p] < |ss|
    requires forall p, q :: 0 <= p < q < |idx| ==> idx[p] != idx[q]
    ensures Distinct(Pick(ss, idx))
  {
    var r := Pick(ss, idx);
    forall p, q | 0 <= p < q < |r| ensures r[p] != r[q] {
      if idx[p] < idx[q] {
        assert ss[idx[p]] != ss[idx[q]];
      } else {
        assert ss[idx[q]] != ss[idx[p]];
      }
    }
  }
}
