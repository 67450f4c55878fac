/** Duplicate-identifier resolution, shared by every revision. Both policies walk the list
    once, keeping an insertion-ordered dict from identifier to record; the result is the
    dict's values in key order.
    - remove: the first record of each identifier is kept, later ones are dropped;
    - rename: the i-th occurrence of a repeated identifier X is renamed `X.i`, retroactively
      `X.1` for the first, by reassigning `id` on the caller's objects. */
module Duplicates {
  import opened Text
  import opened Sequences

  /** `list(id_dict.values())` for a dict whose keys were inserted in `order`. The ensures
      only expose the definition to callers; the loop invariants of the remover and the
      renamer make `order` the insertion order. */
  function ValuesInOrder(order: seq<string>, dict: map<string, Sequence>): (r: seq<Sequence>)
    requires forall k :: k in order ==> k in dict
    ensures |r| == |order| && forall p :: 0 <= p < |order| ==> r[p] == dict[order[p]]
  {
    seq(|order|, p requires 0 <= p < |order| => dict[order[p]])
  }

  // ---------------------------------------------------------------------------------------
  // Remove policy

  /** The positions of the first occurrence of each identifier, in input order. */
  function FirstIndices(ids: seq<string>): (r: seq<nat>)
    ensures forall p :: 0 <= p < |r| ==> r[p] < |ids|
  {
    if ids == [] then []
    else
      var init := ids[..|ids| - 1];
      var x := ids[|ids| - 1];
      FirstIndices(init) + (if x in init then [] else [|ids| - 1])
  }

  /** The kept positions are increasing ... */
  lemma {:induction false} FirstIndicesIncreasing(ids: seq<string>)
    ensures forall p, q :: 0 <= p < q < |FirstIndices(ids)| ==> FirstIndices(ids)[p] < FirstIndices(ids)[q]
  {
    if ids != [] {
      FirstIndicesIncreasing(ids[..|ids| - 1]);
    }
  }

  /** ... and a position is kept exactly when its identifier does not occur before it. */
  lemma {:induction false} FirstIndicesMembership(ids: seq<string>)
    ensures forall j :: 0 <= j < |ids| ==> (j in FirstIndices(ids) <==> ids[j] !in ids[..j])
  {
    if ids != [] {
      var init := ids[..|ids| - 1];
      FirstIndicesMembership(init);
      var r := FirstIndices(ids);
      forall j | 0 <= j < |ids| ensures j in r <==> ids[j] !in ids[..j] {
        if j < |init| {
          assert init[..j] == ids[..j];
          assert j in FirstIndices(init) <==> ids[j] !in ids[..j];
          assert j in r <==> j in FirstIndices(init);
        } else {
          assert ids[..j] == init;
        }
      }
    }
  }

  lemma FirstIndicesSpec(ids: seq<string>)
    ensures forall p, q :: 0 <= p < q < |FirstIndices(ids)| ==> FirstIndices(ids)[p] < FirstIndices(ids)[q]
    ensures forall j :: 0 <= j < |ids| ==> (j in FirstIndices(ids) <==> ids[j] !in ids[..j])
  {
    FirstIndicesIncreasing(ids);
    FirstIndicesMembership(ids);
  }

  /** The identifiers that survive the remove policy. */
  function Dedup(ids: seq<string>): seq<string> {
    Pick(ids, FirstIndices(ids))
  }

  predicate DistinctIds(ids: seq<string>) {
    forall p, q :: 0 <= p < q < |ids| ==> ids[p] != ids[q]
  }

  /** The remove policy keeps no identifier twice ... */
  lemma DedupDistinct(ids: seq<string>)
    ensures DistinctIds(Dedup(ids))
  {
    var r := FirstIndices(ids);
    FirstIndicesSpec(ids);
    forall p, q | 0 <= p < q < |r| ensures ids[r[p]] != ids[r[q]] {
      assert ids[r[p]] == ids[..r[q]][r[p]];
    }
  }

  /** The position of the first occurrence of `x`. */
  function IndexOf(ids: seq<string>, x: string): (j: nat)
    requires x in ids
    ensures j < |ids| && ids[j] == x && x !in ids[..j]
  {
    if ids[0] == x then 0
    else
      assert ids[1..][..IndexOf(ids[1..], x)] == ids[1..1 + IndexOf(ids[1..], x)];
      1 + IndexOf(ids[1..], x)
  }

  /** ... and loses none: every input identifier is still present. */
  lemma DedupCovers(ids: seq<string>)
    ensures forall x :: x in ids <==> x in Dedup(ids)
  {
    var r := FirstIndices(ids);
    FirstIndicesSpec(ids);
    forall x | x in ids ensures x in Dedup(ids) {
      var j := IndexOf(ids, x);
      var p :| 0 <= p < |r| && r[p] == j;
      assert Dedup(ids)[p] == x;
    }
  }

  /** A list without repeated identifiers is kept whole. */
  lemma {:induction false} FirstIndicesOfDistinct(ids: seq<string>)
    requires DistinctIds(ids)
    ensures FirstIndices(ids) == Range(|ids|)
  {
    if ids != [] {
      var init := ids[..|ids| - 1];
      FirstIndicesOfDistinct(init);
      assert ids[|ids| - 1] !in init;
    }
  }

  /** The remove policy is idempotent. */
  lemma DedupIdempotent(ids: seq<string>)
    ensures Dedup(Dedup(ids)) == Dedup(ids)
  {
    DedupDistinct(ids);
    FirstIndicesOfDistinct(Dedup(ids));
    PickRange(Dedup(ids));
  }

  /** The remove policy on record values, the partner of RemoveDuplicates. */
  function RemoveRecords(recs: seq<Record>): seq<Record> {
    Pick(recs, FirstIndices(RecordIds(recs)))
  }

  lemma FirstIndicesSnoc(ids: seq<string>, i: nat)
    requires i < |ids|
    ensures FirstIndices(ids[..i + 1]) == FirstIndices(ids[..i]) + (if ids[i] in ids[..i] then [] else [i])
    ensures forall x :: x in ids[..i + 1] <==> x in ids[..i] || x == ids[i]
  {
    assert ids[..i + 1][..i] == ids[..i];
    assert ids[..i + 1] == ids[..i] + [ids[i]];
  }

  /** `DuplicatedIdentifiersRemover.transform`: a single pass that stores a record under its
      identifier only when the identifier is new. Nothing is modified. */
  method RemoveDuplicates(sequences: seq<Sequence>) returns (out: seq<Sequence>)
    ensures out == Pick(sequences, FirstIndices(Ids(sequences)))
  {
    ghost var ids := Ids(sequences);
    var order: seq<string> := [];
    var idDict: map<string, Sequence> := map[];
    ghost var kept: seq<nat> := [];
    for i := 0 to |sequences|
      invariant kept == FirstIndices(ids[..i])
      invariant |order| == |kept|
      invariant forall p :: 0 <= p < |kept| ==> order[p] in idDict && idDict[order[p]] == sequences[kept[p]]
      invariant forall x :: x in idDict <==> x in ids[..i]
    {
      var s := sequences[i];
      var seqId := s.id;
      FirstIndicesSnoc(ids, i);
      if seqId !in idDict {
        idDict := idDict[seqId := s];
        order := order + [seqId];
        kept := kept + [i];
      }
    }
    assert ids[..|sequences|] == ids;
    out := ValuesInOrder(order, idDict);
  }

  /** What the caller sees of the remove policy: the identifiers of its output. */
  lemma RemoveDuplicatesIds(sequences: seq<Sequence>, out: seq<Sequence>)
    requires out == Pick(sequences, FirstIndices(Ids(sequences)))
    ensures Ids(out) == Dedup(Ids(sequences))
    ensures Views(out) == RemoveRecords(Views(sequences))
  {
    assert RecordIds(Views(sequences)) == Ids(sequences);
  }

  /** The remove policy on record values is idempotent too. */
  lemma RemoveRecordsIdempotent(recs: seq<Record>)
    ensures RemoveRecords(RemoveRecords(recs)) == RemoveRecords(recs)
  {
    var r := RemoveRecords(recs);
    assert RecordIds(r) == Dedup(RecordIds(recs));
    DedupDistinct(RecordIds(recs));
    FirstIndicesOfDistinct(RecordIds(r));
    PickRange(r);
  }

  /** Something is kept exactly when there is something to keep. */
  lemma FirstIndicesEmpty(ids: seq<string>)
    ensures FirstIndices(ids) == [] <==> ids == []
  {
    if ids != [] {
      FirstIndicesMembership(ids);
      assert 0 in FirstIndices(ids);
    }
  }

  /** Without repeated identifiers the remove policy keeps the whole list, in order. */
  lemma RemoveNoDuplicates<T>(s: seq<T>, ids: seq<string>)
    requires |ids| == |s| && DistinctIds(ids)
    ensures Pick(s, FirstIndices(ids)) == s
  {
    FirstIndicesOfDistinct(ids);
    PickRange(s);
  }

  /** The remove policy returns no object twice. */
  lemma RemoveDuplicatesDistinct(sequences: seq<Sequence>)
    requires Distinct(sequences)
    ensures Distinct(Pick(sequences, FirstIndices(Ids(sequences))))
  {
    FirstIndicesIncreasing(Ids(sequences));
    PickDistinct(sequences, FirstIndices(Ids(sequences)));
  }
}

module Renaming {
  import opened Text
  import opened Sequences
  import opened Duplicates

  /** The state of the rename pass as a value: the keys of `id_dict` in insertion order, the
      input position stored under each key, `duplicate_count`, and the current identifier of
      every input record processed so far. */
  datatype RenameState = RenameState(order: seq<string>, slot: map<string, nat>,
                                     count: map<string, nat>, names: seq<string>)

  /** Keys are listed once each, every stored position is a processed record, and no record
      is stored under two keys. */
  ghost predicate WellFormed(st: RenameState) {
    && (forall k :: k in st.slot ==> st.slot[k] < |st.names|)
    && (forall k :: k in st.slot <==> k in st.order)
    && (forall p, q :: 0 <= p < q < |st.order| ==> st.order[p] != st.order[q])
    && (forall a, b :: a in st.slot && b in st.slot && a != b ==> st.slot[a] != st.slot[b])
  }

  /** The synthesized name `f'{x}.{k}'`. */
  function Suffixed(x: string, k: nat): string {
    x + "." + NatToString(k)
  }

  /** One iteration of the rename loop on the identifier `x` of the next record. */
  function Step(st: RenameState, x: string): (r: RenameState)
    requires WellFormed(st)
    ensures WellFormed(r) && |r.names| == |st.names| + 1
  {
    var i := |st.names|;
    if x in st.slot then
      if x !in st.count then
        // first duplicate: the stored record becomes x.1, this one x.2
        var newName := Suffixed(x, 2);
        var names := st.names[st.slot[x] := Suffixed(x, 1)] + [newName];
        RenameState(if newName in st.slot then st.order else st.order + [newName],
                    st.slot[newName := i], st.count[x := 2], names)
      else
        // later duplicate: this one becomes x.c
        var c := st.count[x] + 1;
        var newName := Suffixed(x, c);
        RenameState(if newName in st.slot then st.order else st.order + [newName],
                    st.slot[newName := i], st.count[x := c], st.names + [newName])
    else
      RenameState(st.order + [x], st.slot[x := i], st.count, st.names + [x])
  }

  /** The whole rename pass over a list of identifiers, as written, collisions included. */
  function Run(ids: seq<string>): (st: RenameState)
    ensures WellFormed(st) && |st.names| == |ids|
  {
    if ids == [] then RenameState([], map[], map[], [])
    else Step(Run(ids[..|ids| - 1]), ids[|ids| - 1])
  }

  /** The input positions of `list(id_dict.values())`, in key order. */
  function Kept(st: RenameState): (r: seq<nat>)
    requires WellFormed(st)
    ensures |r| == |st.order|
    ensures forall p :: 0 <= p < |r| ==> r[p] < |st.names|
  {
    seq(|st.order|, p requires 0 <= p < |st.order| => st.slot[st.order[p]])
  }

  /** No record is returned twice: distinct keys are stored at distinct positions. */
  lemma KeptDistinct(st: RenameState)
    requires WellFormed(st)
    ensures forall p, q :: 0 <= p < q < |Kept(st)| ==> Kept(st)[p] != Kept(st)[q]
  {
  }

  /** The rename policy on record values, the partner of RenameDuplicates. */
  function RenameRecords(recs: seq<Record>): (r: seq<Record>)
  {
    var st := Run(RecordIds(recs));
    var kept := Kept(st);
    seq(|kept|, p requires 0 <= p < |kept| => recs[kept[p]].(id := st.names[kept[p]]))
  }

  // ---------------------------------------------------------------------------------------
  // The intended outcome, and the condition under which the pass achieves it

  function Count(ids: seq<string>, x: string): nat {
    multiset(ids)[x]
  }

  /** Which occurrence of its identifier position `j` is: 1 for the first, 2 for the second... */
  function Occ(ids: seq<string>, j: nat): nat
    requires j < |ids|
  {
    multiset(ids[..j + 1])[ids[j]]
  }

  /** The intended final name of position `j`: unchanged when its identifier is unique,
      otherwise `X.i` for the i-th occurrence. */
  function NameAt(ids: seq<string>, j: nat): string
    requires j < |ids|
  {
    if Count(ids, ids[j]) == 1 then ids[j] else Suffixed(ids[j], Occ(ids, j))
  }

  /** The dict key under which position `j` is stored. */
  function KeyAt(ids: seq<string>, j: nat): string
    requires j < |ids|
  {
    if Occ(ids, j) == 1 then ids[j] else Suffixed(ids[j], Occ(ids, j))
  }

  /** No input identifier equals a name the pass synthesizes: `X.k` for a repeated identifier
      `X` and `k` from 1 up to the number of occurrences of `X`. */
  ghost predicate NoCollision(ids: seq<string>) {
    forall i, j, k ::
      0 <= i < |ids| && 0 <= j < |ids| && Count(ids, ids[i]) > 1 && 1 <= k <= Count(ids, ids[i])
      ==> ids[j] != Suffixed(ids[i], k)
  }

  /** The keys are the KeyAt of every position, in order, each storing its own position. */
  ghost predicate CanonicalOrder(ids: seq<string>, order: seq<string>, slot: map<string, nat>) {
    && |order| == |ids|
    && (forall j :: 0 <= j < |ids| ==>
          order[j] == KeyAt(ids, j) && KeyAt(ids, j) in slot && slot[KeyAt(ids, j)] == j)
  }

  /** `duplicate_count` holds exactly the repeated identifiers, with their counts. */
  ghost predicate CanonicalCount(ids: seq<string>, count: map<string, nat>) {
    && (forall x :: x in count <==> Count(ids, x) >= 2)
    && (forall x :: x in count ==> count[x] == Count(ids, x))
  }

  /** Every record carries its intended name. */
  ghost predicate CanonicalNames(ids: seq<string>, names: seq<string>) {
    |names| == |ids| && forall j :: 0 <= j < |ids| ==> names[j] == NameAt(ids, j)
  }

  /** The pass state after `ids`, when nothing collided. */
  ghost predicate Canonical(ids: seq<string>, st: RenameState) {
    CanonicalOrder(ids, st.order, st.slot) && CanonicalCount(ids, st.count) && CanonicalNames(ids, st.names)
  }

  lemma SuffixShape(a: string, m: nat)
    ensures |Suffixed(a, m)| == |a| + 1 + |NatToString(m)|
    ensures Suffixed(a, m)[|a|] == '.'
    ensures forall k :: |a| < k < |Suffixed(a, m)| ==> Suffixed(a, m)[k] == NatToString(m)[k - |a| - 1]
  {
  }

  /** The digits after the last dot determine both parts of a synthesized name. */
  lemma SuffixedInjective(a: string, m: nat, b: string, n: nat)
    requires Suffixed(a, m) == Suffixed(b, n)
    ensures a == b && m == n
  {
    var dm, dn := NatToString(m), NatToString(n);
    var s := Suffixed(a, m);
    SuffixShape(a, m);
    SuffixShape(b, n);
    if |dm| != |dn| {
      assert false;
    }
    assert dm == s[|s| - |dm|..] == dn;
    assert a == s[..|a|] == b;
    NatToStringInjective(m, n);
  }

  lemma CountSnoc(p: seq<string>, x: string)
    ensures forall y :: Count(p + [x], y) == Count(p, y) + (if y == x then 1 else 0)
    ensures Occ(p + [x], |p|) == Count(p, x) + 1
  {
    assert multiset(p + [x]) == multiset(p) + multiset{x};
    assert (p + [x])[..|p| + 1] == p + [x];
  }

  /** Occurrence numbers are computed on a prefix, so they survive extending the list. */
  lemma OccPrefix(ids: seq<string>, n: nat, j: nat)
    requires j < n <= |ids|
    ensures Occ(ids[..n], j) == Occ(ids, j)
    ensures KeyAt(ids[..n], j) == KeyAt(ids, j)
  {
    assert ids[..n][..j + 1] == ids[..j + 1];
  }

  lemma OccBounds(ids: seq<string>, j: nat)
    requires j < |ids|
    ensures 1 <= Occ(ids, j) <= Count(ids, ids[j])
  {
    assert ids == ids[..j + 1] + ids[j + 1..];
    assert multiset(ids) == multiset(ids[..j + 1]) + multiset(ids[j + 1..]);
    assert ids[..j + 1] == ids[..j] + [ids[j]];
  }

  /** A later occurrence has a strictly larger occurrence number. */
  lemma OccIncreasing(ids: seq<string>, a: nat, b: nat)
    requires a < b < |ids| && ids[a] == ids[b]
    ensures Occ(ids, a) < Occ(ids, b)
  {
    var x := ids[a];
    assert ids[..b + 1] == ids[..a + 1] + ids[a + 1..b] + [x];
    assert multiset(ids[..b + 1]) == multiset(ids[..a + 1]) + multiset(ids[a + 1..b]) + multiset{x};
  }

  /** An identifier occurring in `p` has a first occurrence, whose key is the identifier. */
  lemma FirstOccurrence(p: seq<string>, x: string) returns (j: nat)
    requires Count(p, x) >= 1
    ensures j < |p| && p[j] == x && Occ(p, j) == 1 && KeyAt(p, j) == x
  {
    assert x in multiset(p);
    j := IndexOf(p, x);
    assert p[..j + 1] == p[..j] + [x];
    assert multiset(p[..j])[x] == 0;
  }

  lemma NoCollisionPrefix(ids: seq<string>, n: nat)
    requires NoCollision(ids) && n <= |ids|
    ensures NoCollision(ids[..n])
  {
    var p := ids[..n];
    forall i, j, k | 0 <= i < |p| && 0 <= j < |p| && 1 <= k <= Count(p, p[i]) && Count(p, p[i]) > 1
      ensures p[j] != Suffixed(p[i], k)
    {
      assert ids == p + ids[n..];
      assert multiset(ids) == multiset(p) + multiset(ids[n..]);
      assert Count(ids, ids[i]) > 1;
    }
  }

  /** Under NoCollision, the identifier of the next record is a key exactly when it
      occurred before. */
  lemma KeyPresence(p: seq<string>, x: string, st: RenameState)
    requires NoCollision(p + [x]) && WellFormed(st) && Canonical(p, st)
    ensures x in st.slot <==> Count(p, x) >= 1
  {
    var ids := p + [x];
    CountSnoc(p, x);
    if x in st.slot {
      assert x in st.order;
      var j :| 0 <= j < |st.order| && st.order[j] == x;
      assert x == KeyAt(p, j);
      OccBounds(p, j);
      if Occ(p, j) != 1 {
        assert false;
      }
    }
    if Count(p, x) >= 1 {
      var j := FirstOccurrence(p, x);
    }
  }

  /** Under NoCollision, the name synthesized for the c-th occurrence of `x` is not yet a key. */
  lemma NewNameFresh(p: seq<string>, x: string, st: RenameState, c: nat)
    requires NoCollision(p + [x]) && WellFormed(st) && Canonical(p, st)
    requires c == Count(p, x) + 1 && c >= 2
    ensures Suffixed(x, c) !in st.slot
  {
    var ids := p + [x];
    CountSnoc(p, x);
    if Suffixed(x, c) in st.slot {
      assert Suffixed(x, c) in st.order;
      var j :| 0 <= j < |st.order| && st.order[j] == Suffixed(x, c);
      assert ids[j] == p[j];
      if Occ(p, j) == 1 {
        assert false;
      } else {
        SuffixedInjective(p[j], Occ(p, j), x, c);
        OccBounds(p, j);
        assert false;
      }
    }
  }

  /** Appending a record whose key is new extends the key order. */
  lemma OrderSnoc(p: seq<string>, x: string, order: seq<string>, slot: map<string, nat>, key: string)
    requires CanonicalOrder(p, order, slot)
    requires key !in slot && key == KeyAt(p + [x], |p|)
    ensures CanonicalOrder(p + [x], order + [key], slot[key := |p|])
  {
    var ids := p + [x];
    forall j | 0 <= j < |p| ensures KeyAt(ids, j) == KeyAt(p, j) {
      assert ids[..|p|] == p;
      OccPrefix(ids, |p|, j);
    }
  }

  lemma CountSnocRepeated(p: seq<string>, x: string, count: map<string, nat>, c: nat)
    requires CanonicalCount(p, count) && c == Count(p, x) + 1 && c >= 2
    ensures CanonicalCount(p + [x], count[x := c])
  {
    CountSnoc(p, x);
  }

  lemma CountSnocFresh(p: seq<string>, x: string, count: map<string, nat>)
    requires CanonicalCount(p, count) && Count(p, x) == 0
    ensures CanonicalCount(p + [x], count)
  {
    CountSnoc(p, x);
  }

  /** Names after a record whose identifier is new: it keeps its identifier. */
  lemma NamesSnocFresh(p: seq<string>, x: string, names: seq<string>)
    requires CanonicalNames(p, names) && Count(p, x) == 0
    ensures CanonicalNames(p + [x], names + [x])
  {
    var ids := p + [x];
    CountSnoc(p, x);
    forall j | 0 <= j < |p| ensures NameAt(ids, j) == NameAt(p, j) {
      assert ids[..|p|] == p;
      OccPrefix(ids, |p|, j);
      assert p[j] in multiset(p);
    }
  }

  /** Names after the second occurrence of `x`: the first becomes `x.1`, this one `x.2`. */
  lemma NamesSnocSecond(p: seq<string>, x: string, names: seq<string>, j0: nat)
    requires CanonicalNames(p, names) && Count(p, x) == 1
    requires j0 < |p| && p[j0] == x && Occ(p, j0) == 1
    ensures CanonicalNames(p + [x], names[j0 := Suffixed(x, 1)] + [Suffixed(x, 2)])
  {
    var ids := p + [x];
    var r := names[j0 := Suffixed(x, 1)] + [Suffixed(x, 2)];
    CountSnoc(p, x);
    assert ids[..|p|] == p;
    forall j | 0 <= j < |ids| ensures r[j] == NameAt(ids, j) {
      if j < |p| {
        OccPrefix(ids, |p|, j);
        assert ids[j] == p[j];
        if j != j0 {
          NotSecondCopy(p, x, j0, j);
          assert Count(ids, p[j]) == Count(p, p[j]);
        }
      }
    }
  }

  /** When `x` occurs once in `p`, at `j0`, no other position holds it. */
  lemma NotSecondCopy(p: seq<string>, x: string, j0: nat, j: nat)
    requires Count(p, x) == 1 && j0 < |p| && p[j0] == x && Occ(p, j0) == 1
    requires j < |p| && j != j0
    ensures p[j] != x
  {
    if p[j] == x {
      OccBounds(p, j);
      if j < j0 { OccIncreasing(p, j, j0); } else { OccIncreasing(p, j0, j); }
    }
  }

  /** Names after a third or later occurrence of `x`: only the new record is named. */
  lemma NamesSnocLater(p: seq<string>, x: string, names: seq<string>)
    requires CanonicalNames(p, names) && Count(p, x) >= 2
    ensures CanonicalNames(p + [x], names + [Suffixed(x, Count(p, x) + 1)])
  {
    var ids := p + [x];
    var r := names + [Suffixed(x, Count(p, x) + 1)];
    CountSnoc(p, x);
    forall j | 0 <= j < |ids| ensures r[j] == NameAt(ids, j) {
      if j < |p| {
        assert ids[..|p|] == p;
        OccPrefix(ids, |p|, j);
        assert ids[j] == p[j];
        assert Count(ids, p[j]) == 1 <==> Count(p, p[j]) == 1;
      }
    }
  }

  /** The state after a repeated identifier; a synthesized name that is already a key keeps
      its place in the key order and only changes the stored record. */
  lemma StepRepeatedFields(st: RenameState, x: string, c: nat)
    requires WellFormed(st) && x in st.slot
    requires c == (if x in st.count then st.count[x] + 1 else 2)
    ensures Step(st, x) == RenameState(if Suffixed(x, c) in st.slot then st.order else st.order + [Suffixed(x, c)],
                                       st.slot[Suffixed(x, c) := |st.names|],
                                       st.count[x := c],
                                       if x in st.count then st.names + [Suffixed(x, c)]
                                       else st.names[st.slot[x] := Suffixed(x, 1)] + [Suffixed(x, c)])
  {
  }

  /** The state after an identifier seen for the first time. */
  lemma StepFreshFields(st: RenameState, x: string)
    requires WellFormed(st) && x !in st.slot
    ensures Step(st, x) == RenameState(st.order + [x], st.slot[x := |st.names|], st.count, st.names + [x])
  {
  }

  /** One step of the pass keeps it canonical when nothing collides. */
  lemma StepCanonical(p: seq<string>, x: string, st: RenameState)
    requires NoCollision(p + [x]) && WellFormed(st) && Canonical(p, st)
    ensures Canonical(p + [x], Step(st, x))
  {
    KeyPresence(p, x, st);
    var c := Count(p, x) + 1;
    CountSnoc(p, x);
    if x in st.slot {
      var j0 := FirstOccurrence(p, x);
      assert st.slot[x] == j0;
      NewNameFresh(p, x, st, c);
      StepRepeatedFields(st, x, c);
      OrderSnoc(p, x, st.order, st.slot, Suffixed(x, c));
      CountSnocRepeated(p, x, st.count, c);
      if x !in st.count {
        NamesSnocSecond(p, x, st.names, j0);
      } else {
        NamesSnocLater(p, x, st.names);
      }
    } else {
      StepFreshFields(st, x);
      OrderSnoc(p, x, st.order, st.slot, x);
      CountSnocFresh(p, x, st.count);
      NamesSnocFresh(p, x, st.names);
    }
  }

  /** Without collisions the pass ends in the canonical state. */
  lemma {:induction false} RunCanonical(ids: seq<string>)
    requires NoCollision(ids)
    ensures Canonical(ids, Run(ids))
  {
    if ids != [] {
      var p := ids[..|ids| - 1];
      NoCollisionPrefix(ids, |ids| - 1);
      RunCanonical(p);
      assert ids == p + [ids[|ids| - 1]];
      StepCanonical(p, ids[|ids| - 1], Run(p));
    }
  }

  /** Without collisions, every record is kept, in input order, under its intended name. */
  lemma RenameIntended(ids: seq<string>)
    requires NoCollision(ids)
    ensures Kept(Run(ids)) == Range(|ids|)
    ensures forall j :: 0 <= j < |ids| ==> Run(ids).names[j] == NameAt(ids, j)
  {
    RunCanonical(ids);
  }

  /** A record keeps its identifier exactly when that identifier occurs once. */
  lemma NameAtUnchanged(ids: seq<string>, j: nat)
    requires j < |ids|
    ensures NameAt(ids, j) == ids[j] <==> Count(ids, ids[j]) == 1
  {
    if Count(ids, ids[j]) != 1 {
      SuffixShape(ids[j], Occ(ids, j));
    }
  }

  lemma CountTwo(ids: seq<string>, i: nat, j: nat)
    requires i < j < |ids| && ids[i] == ids[j]
    ensures Count(ids, ids[i]) >= 2
  {
    assert ids == ids[..i] + [ids[i]] + ids[i + 1..j] + [ids[j]] + ids[j + 1..];
  }

  /** Without collisions, no two records end up with the same name. */
  lemma NameAtInjective(ids: seq<string>, i: nat, j: nat)
    requires NoCollision(ids) && i < j < |ids|
    ensures NameAt(ids, i) != NameAt(ids, j)
  {
    var ui, uj := Count(ids, ids[i]) == 1, Count(ids, ids[j]) == 1;
    if NameAt(ids, i) == NameAt(ids, j) {
      if ui && uj {
        CountTwo(ids, i, j);
        assert false;
      } else if ui {
        OccBounds(ids, j);
        assert false;
      } else if uj {
        OccBounds(ids, i);
        assert false;
      } else {
        SuffixedInjective(ids[i], Occ(ids, i), ids[j], Occ(ids, j));
        OccIncreasing(ids, i, j);
      }
    }
  }

  /** The rename policy on values, without collisions: same length, order and residues,
      each identifier replaced by its intended name, and all names distinct. */
  lemma RenameRecordsIntended(recs: seq<Record>)
    requires NoCollision(RecordIds(recs))
    ensures |RenameRecords(recs)| == |recs|
    ensures forall j :: 0 <= j < |recs| ==>
      RenameRecords(recs)[j] == recs[j].(id := NameAt(RecordIds(recs), j))
    ensures DistinctIds(RecordIds(RenameRecords(recs)))
  {
    var ids := RecordIds(recs);
    RenameIntended(ids);
    var r := RenameRecords(recs);
    forall p, q | 0 <= p < q < |r| ensures r[p].id != r[q].id {
      NameAtInjective(ids, p, q);
    }
  }

  lemma RunPrefix(ids: seq<string>, i: nat)
    requires i < |ids|
    ensures Run(ids[..i + 1]) == Step(Run(ids[..i]), ids[i])
  {
    assert ids[..i + 1][..i] == ids[..i];
  }

  /** A synthesized name that is already a key overwrites that key's record, which is then
      missing from the output, and the output does not grow. */
  lemma CollisionLosesRecord(st: RenameState, x: string, c: nat)
    requires WellFormed(st) && x in st.slot
    requires c == (if x in st.count then st.count[x] + 1 else 2)
    requires Suffixed(x, c) in st.slot
    ensures |Kept(Step(st, x))| == |Kept(st)|
    ensures st.slot[Suffixed(x, c)] !in Kept(Step(st, x))
  {
    var n := Suffixed(x, c);
    var r := Step(st, x);
    StepRepeatedFields(st, x, c);
    forall p | 0 <= p < |r.order| ensures Kept(r)[p] != st.slot[n] {
      var k := r.order[p];
      if k != n {
        assert r.slot[k] == st.slot[k];
      }
    }
  }

  /** Three copies of one identifier satisfy the intended rule. */
  lemma ThreeCopiesIntended(a: string)
    ensures Kept(Run([a, a, a])) == Range(3)
    ensures forall j :: 0 <= j < 3 ==> Run([a, a, a]).names[j] == NameAt([a, a, a], j)
    ensures Count([a, a, a], a) == 3
  {
    var ids := [a, a, a];
    assert Count(ids, a) == 3 by {
      assert multiset(ids) == multiset{a, a, a};
    }
    assert NoCollision(ids) by {
      forall k | true ensures a != Suffixed(a, k) {
        SuffixShape(a, k);
      }
    }
    RenameIntended(ids);
  }

  lemma ThreeCopiesOcc(a: string)
    ensures Occ([a, a, a], 0) == 1 && Occ([a, a, a], 1) == 2 && Occ([a, a, a], 2) == 3
  {
    var ids := [a, a, a];
    assert ids[..1] == [a];
    assert ids[..2] == [a, a];
    assert multiset([a, a]) == multiset{a, a};
    assert ids[..3] == ids;
    assert multiset(ids) == multiset{a, a, a};
  }

  /** A sequence of length three is the display of its three elements. */
  lemma ThreeElements<T>(s: seq<T>, x: T, y: T, z: T)
    requires |s| == 3 && s[0] == x && s[1] == y && s[2] == z
    ensures s == [x, y, z]
  { }

  /** Three copies of `A` become `A.1`, `A.2`, `A.3`, and all three are kept. */
  lemma RenameThreeCopies(a: string)
    ensures Kept(Run([a, a, a])) == [0, 1, 2]
    ensures Run([a, a, a]).names == [Suffixed(a, 1), Suffixed(a, 2), Suffixed(a, 3)]
  {
    var r := Run([a, a, a]);
    ThreeCopiesIntended(a);
    ThreeCopiesOcc(a);
    ThreeElements(Kept(r), 0, 1, 2);
    ThreeElements(r.names, Suffixed(a, 1), Suffixed(a, 2), Suffixed(a, 3));
  }

  /** In a list without repeated identifiers, every identifier occurs once. */
  lemma {:induction false} CountDistinct(ids: seq<string>, j: nat)
    requires DistinctIds(ids) && j < |ids|
    ensures Count(ids, ids[j]) == 1
  {
    var init := ids[..|ids| - 1];
    var last := ids[|ids| - 1];
    assert ids == init + [last];
    if j < |init| {
      CountDistinct(init, j);
      assert ids[j] != last;
    } else {
      assert last !in init;
    }
  }

  /** Without repeated identifiers the rename pass changes nothing and keeps every record. */
  lemma RenameNoDuplicates(ids: seq<string>)
    requires DistinctIds(ids)
    ensures Kept(Run(ids)) == Range(|ids|)
    ensures Run(ids).names == ids
  {
    forall j | 0 <= j < |ids| ensures Count(ids, ids[j]) == 1 {
      CountDistinct(ids, j);
    }
    RenameIntended(ids);
  }

  /** The pass keeps at least one record of a non-empty list. */
  lemma {:induction false} RunKeepsSome(ids: seq<string>)
    ensures Kept(Run(ids)) == [] <==> ids == []
  {
    if ids != [] {
      var init := ids[..|ids| - 1];
      RunKeepsSome(init);
    }
  }

  /** Seen through its records, a finished pass is the rename policy on values: the
      records stored under the keys, in key order, each carrying the name the pass gave it. */
  lemma RenamedViews(sequences: seq<Sequence>, recs: seq<Record>, out: seq<Sequence>)
    requires |recs| == |sequences|
    requires forall k :: 0 <= k < |recs| ==>
      recs[k].residues == sequences[k].residues && recs[k].fileName == sequences[k].fileName
    requires Ids(sequences) == Run(RecordIds(recs)).names
    requires out == Pick(sequences, Kept(Run(RecordIds(recs))))
    ensures Views(out) == RenameRecords(recs)
    ensures Distinct(sequences) ==> Distinct(out)
  {
    var st := Run(RecordIds(recs));
    if Distinct(sequences) {
      KeptDistinct(st);
      PickDistinct(sequences, Kept(st));
    }
  }

  // ---------------------------------------------------------------------------------------
  // The pass itself, on the caller's objects

  /** The loop's dict state mirrors the value-level state: the same key order and counts,
      and every key stores the object at the position Run stores under it. */
  ghost predicate Mirrors(st: RenameState, order: seq<string>, idDict: map<string, Sequence>,
                          count: map<string, nat>, ss: seq<Sequence>) {
    && order == st.order
    && (forall k :: k in count <==> k in st.count)
    && (forall k :: k in count ==> count[k] == st.count[k])
    && (forall k :: k in idDict <==> k in st.slot)
    && (forall k :: k in st.slot ==> st.slot[k] < |ss| && idDict[k] == ss[st.slot[k]])
  }

  /** Registering the record at position `pos` under the key `n`, with the counts changed
      alike on both sides, keeps the dictionaries mirroring the state. */
  lemma MirrorsUpdate(st: RenameState, order: seq<string>, idDict: map<string, Sequence>,
                      count: map<string, nat>, ss: seq<Sequence>, n: string, pos: nat,
                      count': map<string, nat>, stCount': map<string, nat>, names': seq<string>)
    requires Mirrors(st, order, idDict, count, ss) && pos < |ss|
    requires forall k :: k in count' <==> k in stCount'
    requires forall k :: k in count' ==> count'[k] == stCount'[k]
    ensures Mirrors(RenameState(if n in st.slot then st.order else st.order + [n], st.slot[n := pos],
                                stCount', names'),
                    if n in idDict then order else order + [n], idDict[n := ss[pos]], count', ss)
  {
  }

  lemma MirrorsFresh(st: RenameState, x: string, order: seq<string>, idDict: map<string, Sequence>,
                     count: map<string, nat>, ss: seq<Sequence>)
    requires WellFormed(st) && Mirrors(st, order, idDict, count, ss)
    requires x !in idDict && |st.names| < |ss|
    ensures Mirrors(Step(st, x), order + [x], idDict[x := ss[|st.names|]], count, ss)
  {
    StepFreshFields(st, x);
    MirrorsUpdate(st, order, idDict, count, ss, x, |st.names|, count, st.count, st.names + [x]);
  }

  lemma MirrorsRepeated(st: RenameState, x: string, c: nat, order: seq<string>,
                        idDict: map<string, Sequence>, count: map<string, nat>, ss: seq<Sequence>)
    requires WellFormed(st) && Mirrors(st, order, idDict, count, ss)
    requires x in idDict && x in count && c == count[x] + 1 && |st.names| < |ss|
    ensures Mirrors(Step(st, x), if Suffixed(x, c) in idDict then order else order + [Suffixed(x, c)],
                    idDict[Suffixed(x, c) := ss[|st.names|]], count[x := c], ss)
  {
    StepRepeatedFields(st, x, c);
    MirrorsUpdate(st, order, idDict, count, ss, Suffixed(x, c), |st.names|, count[x := c],
                  st.count[x := c], st.names + [Suffixed(x, c)]);
  }

  /** The first duplicate sets the count to 1 and then increments it, as the source does. */
  lemma MirrorsFirstDuplicate(st: RenameState, x: string, order: seq<string>,
                              idDict: map<string, Sequence>, count: map<string, nat>, ss: seq<Sequence>)
    requires WellFormed(st) && Mirrors(st, order, idDict, count, ss)
    requires x in idDict && x !in count && |st.names| < |ss|
    ensures Mirrors(Step(st, x), if Suffixed(x, 2) in idDict then order else order + [Suffixed(x, 2)],
                    idDict[Suffixed(x, 2) := ss[|st.names|]], count[x := 1][x := 2], ss)
  {
    StepRepeatedFields(st, x, 2);
    MirrorsUpdate(st, order, idDict, count, ss, Suffixed(x, 2), |st.names|, count[x := 1][x := 2],
                  st.count[x := 2], st.names[st.slot[x] := Suffixed(x, 1)] + [Suffixed(x, 2)]);
  }

  /** Current identifiers while the pass is at position `|st.names|`: the names given so far,
      then the untouched identifiers. */
  ghost function Current(st: RenameState, ids: seq<string>): seq<string>
    requires |st.names| <= |ids|
  {
    st.names + ids[|st.names|..]
  }

  /** Naming the next position: the names so far, one more name, then the rest. */
  lemma CurrentAppend(names: seq<string>, ids: seq<string>, n: string)
    requires |names| < |ids|
    ensures (names + [n]) + ids[|names| + 1..] == (names + ids[|names|..])[|names| := n]
  {
    var i := |names|;
    assert ids[i..] == [ids[i]] + ids[i + 1..];
  }

  lemma UpdateConcat(a: seq<string>, b: seq<string>, j: nat, m: string)
    requires j < |a|
    ensures a[j := m] + b == (a + b)[j := m]
  {
  }

  lemma CurrentLater(st: RenameState, ids: seq<string>, x: string, c: nat)
    requires WellFormed(st) && |st.names| < |ids| && x == ids[|st.names|]
    requires x in st.slot && x in st.count && c == st.count[x] + 1
    ensures |Step(st, x).names| <= |ids|
    ensures Current(Step(st, x), ids) == Current(st, ids)[|st.names| := Suffixed(x, c)]
  {
    StepRepeatedFields(st, x, c);
    CurrentAppend(st.names, ids, Suffixed(x, c));
  }

  lemma CurrentFirst(st: RenameState, ids: seq<string>, x: string)
    requires WellFormed(st) && |st.names| < |ids| && x == ids[|st.names|]
    requires x in st.slot && x !in st.count
    ensures |Step(st, x).names| <= |ids|
    ensures Current(Step(st, x), ids) ==
      Current(st, ids)[st.slot[x] := Suffixed(x, 1)][|st.names| := Suffixed(x, 2)]
  {
    StepRepeatedFields(st, x, 2);
    var names := st.names[st.slot[x] := Suffixed(x, 1)];
    CurrentAppend(names, ids, Suffixed(x, 2));
    UpdateConcat(st.names, ids[|st.names|..], st.slot[x], Suffixed(x, 1));
  }

  lemma CurrentFresh(st: RenameState, ids: seq<string>, x: string)
    requires WellFormed(st) && |st.names| < |ids| && x == ids[|st.names|] && x !in st.slot
    ensures |Step(st, x).names| <= |ids|
    ensures Current(Step(st, x), ids) == Current(st, ids)
  {
    StepFreshFields(st, x);
    var i := |st.names|;
    assert ids[i..] == [ids[i]] + ids[i + 1..];
  }

  /** Reassigns the identifier of one record. When the list holds no object twice and its
      identifiers were `before`, they become `before` with position `k` replaced. */
  method SetId(ss: seq<Sequence>, ghost k: nat, o: Sequence, v: string, ghost before: seq<string>)
    requires o in ss
    modifies o
    ensures o.id == v
    ensures (&& k < |ss| == |before| && o == ss[k] && Distinct(ss) && old(Ids(ss)) == before) ==>
      Ids(ss) == before[k := v]
  {
    o.id := v;
    if k < |ss| == |before| && o == ss[k] && Distinct(ss) && old(Ids(ss)) == before {
      assert forall j :: 0 <= j < |ss| ==> Ids(ss)[j] == before[k := v][j] by {
        forall j | 0 <= j < |ss|
          ensures Ids(ss)[j] == before[k := v][j]
        {
          if j != k {
            assert ss[j] != o;
          }
        }
      }
    }
  }

  /** Reassigns the identifiers of two distinct records, as the first repeat of an identifier
      does. */
  method SetIdPair(ss: seq<Sequence>, ghost k1: nat, o1: Sequence, v1: string, ghost k2: nat, o2: Sequence,
                   v2: string, ghost before: seq<string>)
    requires o1 in ss && o2 in ss
    modifies o1, o2
    ensures o2.id == v2
    ensures (&& k1 < |ss| == |before| && k2 < |ss| && o1 == ss[k1] && o2 == ss[k2] && Distinct(ss)
             && old(Ids(ss)) == before) ==>
      Ids(ss) == before[k1 := v1][k2 := v2]
  {
    SetId(ss, k1, o1, v1, before);
    ghost var mid := if k1 < |before| then before[k1 := v1] else before;
    SetId(ss, k2, o2, v2, mid);
  }

  /** Once every record is processed, the current identifiers are the names Run gives. */
  lemma CurrentDone(st: RenameState, ids: seq<string>)
    requires |st.names| == |ids|
    ensures Current(st, ids) == st.names
  {
  }

  /** `list(id_dict.values())` read in key order is the records Kept picks. */
  lemma MirrorsKept(st: RenameState, order: seq<string>, idDict: map<string, Sequence>,
                    count: map<string, nat>, ss: seq<Sequence>)
    requires WellFormed(st) && Mirrors(st, order, idDict, count, ss) && |st.names| == |ss|
    ensures forall k :: k in order ==> k in idDict
    ensures ValuesInOrder(order, idDict) == Pick(ss, Kept(st))
  {
  }

  /** The state of `DuplicatedIdentifiersRenamer.transform` after `i` records: every key in
      the order is in `id_dict`, every stored record is in the list, and, when the list holds
      no object twice, the dictionaries mirror `st` and the records carry the identifiers
      `Current(st, ids)`. */
  ghost predicate Progress(ss: seq<Sequence>, i: nat, order: seq<string>, idDict: map<string, Sequence>,
                           count: map<string, nat>, ids: seq<string>, st: RenameState)
    reads ss
  {
    && i <= |ss| == |ids| && WellFormed(st) && |st.names| == i
    && (forall k :: k in order ==> k in idDict) && (forall k :: k in idDict ==> idDict[k] in ss)
    && (Distinct(ss) ==> Mirrors(st, order, idDict, count, ss) && Ids(ss) == Current(st, ids))
  }

  /** At the end of the pass the records carry the names of `st`, and the values of
      `id_dict` in key order are the records `Kept(st)` picks. */
  lemma ProgressDone(ss: seq<Sequence>, order: seq<string>, idDict: map<string, Sequence>,
                     count: map<string, nat>, ids: seq<string>, st: RenameState)
    requires Progress(ss, |ss|, order, idDict, count, ids, st) && Distinct(ss)
    ensures Ids(ss) == st.names
    ensures ValuesInOrder(order, idDict) == Pick(ss, Kept(st))
  {
    CurrentDone(st, ids);
    MirrorsKept(st, order, idDict, count, ss);
  }

  /** The record about to be visited still carries its original identifier. */
  lemma ProgressNext(ss: seq<Sequence>, i: nat, order: seq<string>, idDict: map<string, Sequence>,
                     count: map<string, nat>, ids: seq<string>, st: RenameState)
    requires Progress(ss, i, order, idDict, count, ids, st) && i < |ss| && Distinct(ss)
    ensures ss[i].id == ids[i]
  {
    assert Ids(ss)[i] == Current(st, ids)[i] == ids[i];
  }

  /** The pre-state facts every branch starts from, none of which reads the heap. */
  ghost predicate Tracking(ss: seq<Sequence>, i: nat, order: seq<string>, idDict: map<string, Sequence>,
                           count: map<string, nat>, ids: seq<string>, st: RenameState)
  {
    && i < |ss| == |ids| && WellFormed(st) && |st.names| == i && Distinct(ss)
    && (forall k :: k in order ==> k in idDict) && (forall k :: k in idDict ==> idDict[k] in ss)
    && Mirrors(st, order, idDict, count, ss)
  }

  lemma ProgressFresh(ss: seq<Sequence>, i: nat, order: seq<string>, idDict: map<string, Sequence>,
                      count: map<string, nat>, ids: seq<string>, st: RenameState)
    requires Tracking(ss, i, order, idDict, count, ids, st) && ids[i] !in idDict
    requires Ids(ss) == Current(st, ids)
    ensures Progress(ss, i + 1, order + [ids[i]], idDict[ids[i] := ss[i]], count, ids, Step(st, ids[i]))
  {
    CurrentFresh(st, ids, ids[i]);
    MirrorsFresh(st, ids[i], order, idDict, count, ss);
  }

  lemma ProgressFirstDuplicate(ss: seq<Sequence>, i: nat, order: seq<string>, idDict: map<string, Sequence>,
                               count: map<string, nat>, ids: seq<string>, st: RenameState)
    requires Tracking(ss, i, order, idDict, count, ids, st) && ids[i] in idDict && ids[i] !in count
    requires Ids(ss) == Current(st, ids)[st.slot[ids[i]] := Suffixed(ids[i], 1)][i := Suffixed(ids[i], 2)]
    ensures Progress(ss, i + 1,
                     if Suffixed(ids[i], 2) in idDict then order else order + [Suffixed(ids[i], 2)],
                     idDict[Suffixed(ids[i], 2) := ss[i]], count[ids[i] := 1][ids[i] := 2], ids,
                     Step(st, ids[i]))
  {
    CurrentFirst(st, ids, ids[i]);
    MirrorsFirstDuplicate(st, ids[i], order, idDict, count, ss);
  }

  lemma ProgressLaterDuplicate(ss: seq<Sequence>, i: nat, order: seq<string>, idDict: map<string, Sequence>,
                               count: map<string, nat>, ids: seq<string>, st: RenameState, c: nat)
    requires Tracking(ss, i, order, idDict, count, ids, st) && ids[i] in idDict && ids[i] in count
    requires c == count[ids[i]] + 1
    requires Ids(ss) == Current(st, ids)[i := Suffixed(ids[i], c)]
    ensures Progress(ss, i + 1,
                     if Suffixed(ids[i], c) in idDict then order else order + [Suffixed(ids[i], c)],
                     idDict[Suffixed(ids[i], c) := ss[i]], count[ids[i] := c], ids, Step(st, ids[i]))
  {
    CurrentLater(st, ids, ids[i], c);
    MirrorsRepeated(st, ids[i], c, order, idDict, count, ss);
  }

  /** The branch for an identifier not yet in `id_dict`: store the record under it. */
  method VisitFresh(ss: seq<Sequence>, i: nat, order: seq<string>, idDict: map<string, Sequence>,
                    count: map<string, nat>, ghost ids: seq<string>, ghost st: RenameState)
    returns (order': seq<string>, idDict': map<string, Sequence>, count': map<string, nat>)
    requires Progress(ss, i, order, idDict, count, ids, st) && i < |ss| && ss[i].id !in idDict
    ensures Progress(ss, i + 1, order', idDict', count', ids, Step(st, ids[i]))
  {
    var s := ss[i];
    if Distinct(ss) {
      ProgressNext(ss, i, order, idDict, count, ids, st);
      ProgressFresh(ss, i, order, idDict, count, ids, st);
    }
    idDict' := idDict[s.id := s];
    order' := order + [s.id];
    count' := count;
  }

  /** The branch for the first repeat of an identifier: the stored record is renamed `x.1`,
      this one `x.2`, and the count goes to 1 and then to 2. */
  method VisitFirstDuplicate(ss: seq<Sequence>, i: nat, order: seq<string>, idDict: map<string, Sequence>,
                             count: map<string, nat>, ghost ids: seq<string>, ghost st: RenameState)
    returns (order': seq<string>, idDict': map<string, Sequence>, count': map<string, nat>)
    requires Progress(ss, i, order, idDict, count, ids, st) && i < |ss|
    requires ss[i].id in idDict && ss[i].id !in count
    modifies ss
    ensures Progress(ss, i + 1, order', idDict', count', ids, Step(st, ids[i]))
  {
    ghost var distinct := Distinct(ss);
    ghost var cur := Current(st, ids);
    var s := ss[i];
    var seqId := s.id;
    ghost var j0 := if distinct then st.slot[seqId] else 0;
    if distinct {
      ProgressNext(ss, i, order, idDict, count, ids, st);
    }
    count' := count[seqId := 1];
    SetIdPair(ss, j0, idDict[seqId], Suffixed(seqId, count'[seqId]), i, s, Suffixed(seqId, count'[seqId] + 1), cur);
    order' := order;
    if s.id !in idDict {
      order' := order + [s.id];
    }
    idDict' := idDict[s.id := s];
    count' := count'[seqId := count'[seqId] + 1];
    if distinct {
      assert count' == count[ids[i] := 1][ids[i] := 2] && idDict' == idDict[Suffixed(ids[i], 2) := ss[i]];
      ProgressFirstDuplicate(ss, i, order, idDict, count, ids, st);
    }
  }

  /** The branch for a later repeat: the count goes up by one and this record is renamed
      `x.<count>`. */
  method VisitLaterDuplicate(ss: seq<Sequence>, i: nat, order: seq<string>, idDict: map<string, Sequence>,
                             count: map<string, nat>, ghost ids: seq<string>, ghost st: RenameState)
    returns (order': seq<string>, idDict': map<string, Sequence>, count': map<string, nat>)
    requires Progress(ss, i, order, idDict, count, ids, st) && i < |ss|
    requires ss[i].id in idDict && ss[i].id in count
    modifies ss
    ensures Progress(ss, i + 1, order', idDict', count', ids, Step(st, ids[i]))
  {
    ghost var cur := Current(st, ids);
    var s := ss[i];
    var seqId := s.id;
    if Distinct(ss) {
      ProgressNext(ss, i, order, idDict, count, ids, st);
    }
    count' := count[seqId := count[seqId] + 1];
    SetId(ss, i, s, Suffixed(seqId, count'[seqId]), cur);
    order' := order;
    if s.id !in idDict {
      order' := order + [s.id];
    }
    idDict' := idDict[s.id := s];
    if Distinct(ss) {
      ProgressLaterDuplicate(ss, i, order, idDict, count, ids, st, count'[seqId]);
    }
  }

  /** One iteration of `DuplicatedIdentifiersRenamer.transform`: the three branches on the
      identifier of the record at position `i`. */
  method Visit(ss: seq<Sequence>, i: nat, order: seq<string>, idDict: map<string, Sequence>,
               count: map<string, nat>, ghost ids: seq<string>, ghost st: RenameState)
    returns (order': seq<string>, idDict': map<string, Sequence>, count': map<string, nat>)
    requires Progress(ss, i, order, idDict, count, ids, st) && i < |ss|
    modifies ss
    ensures Progress(ss, i + 1, order', idDict', count', ids, Step(st, ids[i]))
  {
    var seqId := ss[i].id;
    if seqId in idDict {
      if seqId !in count {
        order', idDict', count' := VisitFirstDuplicate(ss, i, order, idDict, count, ids, st);
      } else {
        order', idDict', count' := VisitLaterDuplicate(ss, i, order, idDict, count, ids, st);
      }
    } else {
      order', idDict', count' := VisitFresh(ss, i, order, idDict, count, ids, st);
    }
  }

  /** `DuplicatedIdentifiersRenamer.transform`: a single pass keeping `id_dict` and
      `duplicate_count`, reassigning `id` on the records it renames. When the list holds no
      object twice, the pass follows Run step by step: afterwards every record carries the
      name Run gives it, and the result is the records stored under the keys, in key order. */
  method RenameDuplicates(sequences: seq<Sequence>) returns (out: seq<Sequence>)
    modifies sequences
    ensures forall s :: s in out ==> s in sequences
    ensures Distinct(sequences) ==>
      var st := Run(old(Ids(sequences)));
      && Ids(sequences) == st.names
      && out == Pick(sequences, Kept(st))
  {
    ghost var ids := Ids(sequences);
    ghost var st := Run([]);
    var order: seq<string> := [];
    var idDict: map<string, Sequence> := map[];
    var duplicateCount: map<string, nat> := map[];
    for i := 0 to |sequences|
      invariant st == Run(ids[..i])
      invariant Progress(sequences, i, order, idDict, duplicateCount, ids, st)
    {
      RunPrefix(ids, i);
      order, idDict, duplicateCount := Visit(sequences, i, order, idDict, duplicateCount, ids, st);
      st := Step(st, ids[i]);
    }
    assert ids[..|sequences|] == ids;
    out := ValuesInOrder(order, idDict);
    assert forall p :: 0 <= p < |out| ==> out[p] in sequences;
    if Distinct(sequences) {
      ProgressDone(sequences, order, idDict, duplicateCount, ids, st);
      assert st == Run(old(Ids(sequences)));
    }
  }
}
