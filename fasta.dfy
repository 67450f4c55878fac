/** The FASTA codec of `src/fasta.py` (`SeqFileManager`) and the loader of the packaged
    revision (`src/packages/Utils/seq_file_manager.py`). A file is read as its sequence of
    lines, each keeping its line break, and written as one string. */
module Fasta {
  import opened Wrappers
  import opened Text
  import opened Sequences

  // ---------------------------------------------------------------------------------------
  // Formatting

  /** The `Case` enumeration. */
  datatype Case = Original | Upper | Lower

  /** `SeqFileManager(case, max_length)`: the defaults that `format_sequence` falls back on.
      The constructor's default `case=0` matches none of the enumeration members, so it
      behaves exactly as `Original`. */
  datatype Manager = Manager(letterCase: Case, maxLength: nat)

  /** The residues after case handling. */
  function Fold(c: Case, s: string): (r: string)
    ensures |r| == |s|
  {
    match c
    case Original => s
    case Upper => ToUpper(s)
    case Lower => ToLower(s)
  }

  /** `[seq[i:i + w] for i in range(0, len(seq), w)]`: every piece is `w` long except the
      last, which holds the remaining 1 to `w` residues; together they are `s`. */
  function Chunks(s: string, w: nat): (r: seq<string>)
    requires w > 0
    ensures r == [] <==> s == []
    ensures forall p :: 0 <= p < |r| - 1 ==> |r[p]| == w
    ensures r != [] ==> 1 <= |r[|r| - 1]| <= w
    ensures Concat(r) == s
    decreases |s|
  {
    if s == [] then []
    else if |s| <= w then
      assert Concat([s]) == s + Concat([]);
      [s]
    else
      var rest := Chunks(s[w..], w);
      var r := [s[..w]] + rest;
      assert r[0] == s[..w] && r[1..] == rest;
      assert s[..w] + s[w..] == s;
      assert forall p :: 1 <= p < |r| ==> r[p] == rest[p - 1];
      r
  }

  /** The body lines of a formatted record: the whole residue string when the width is 0,
      otherwise its pieces, with a single empty line for empty residues. */
  function BodyLines(body: string, w: nat): (r: seq<string>)
    ensures r != [] && Concat(r) == body
  {
    if w == 0 || body == [] then
      assert Concat([body]) == body + Concat([]);
      [body]
    else Chunks(body, w)
  }

  /** `format_sequence(sequence, case, max_length)` with the identifier read from `id`:
      `Original` defers to the manager's case and a missing width to the manager's width;
      then `>`, the identifier, a line break, the body lines joined by line breaks, and a
      final line break. */
  function FormatSequence(m: Manager, rec: Record, letterCase: Case, maxLength: Option<nat>): (r: string)
    ensures |r| >= |rec.id| + 3 && r[..|rec.id| + 2] == ">" + rec.id + "\n" && r[|r| - 1] == '\n'
  {
    var c := if letterCase == Original then m.letterCase else letterCase;
    var body := Fold(c, rec.residues);
    var w := if maxLength.None? then m.maxLength else maxLength.value;
    if w == 0 then ">" + rec.id + "\n" + body + "\n"
    else ">" + rec.id + "\n" + Join(Chunks(body, w), "\n") + "\n"
  }

  /** Attribute lookup on a record of `src/sequences.py`, which defines `id` and `seq`. */
  function Attribute(rec: Record, name: string): (r: Result<string, Error>)
    ensures r.Success? <==> name == "id" || name == "seq"
  {
    if name == "id" then Success(rec.id)
    else if name == "seq" then Success(rec.residues)
    else Failure(AttributeError(name))
  }

  /** `format_sequence` as written: the identifier is read from the attribute `seq_id`. */
  function FormatSequenceAsWritten(m: Manager, rec: Record, letterCase: Case, maxLength: Option<nat>)
    : Result<string, Error>
  {
    var c := if letterCase == Original then m.letterCase else letterCase;
    var body := Fold(c, rec.residues);
    var w := if maxLength.None? then m.maxLength else maxLength.value;
    match Attribute(rec, "seq_id")
    case Failure(e) => Failure(e)
    case Success(id) =>
      if w == 0 then Success(">" + id + "\n" + body + "\n")
      else Success(">" + id + "\n" + Join(Chunks(body, w), "\n") + "\n")
  }

  /** As written, formatting fails on every record with `AttributeError: seq_id`, where the
      corrected formatter produces the record's header. */
  lemma FormatSequenceAsWrittenFails(m: Manager, rec: Record, letterCase: Case, maxLength: Option<nat>)
    ensures FormatSequenceAsWritten(m, rec, letterCase, maxLength) == Failure(AttributeError("seq_id"))
    ensures FormatSequence(m, rec, letterCase, maxLength)[..|rec.id| + 2] == ">" + rec.id + "\n"
  {
  }

  /** The case and width the call resolves to. */
  function ResolvedCase(m: Manager, letterCase: Case): Case {
    if letterCase == Original then m.letterCase else letterCase
  }

  function ResolvedWidth(m: Manager, maxLength: Option<nat>): nat {
    if maxLength.None? then m.maxLength else maxLength.value
  }

  /** Both branches of the formatter are the header line followed by the body lines joined
      by line breaks, and a final line break. */
  lemma FormatJoined(m: Manager, rec: Record, letterCase: Case, maxLength: Option<nat>)
    ensures FormatSequence(m, rec, letterCase, maxLength) == ">" + rec.id + "\n" +
      Join(BodyLines(Fold(ResolvedCase(m, letterCase), rec.residues), ResolvedWidth(m, maxLength)), "\n") + "\n"
  {
  }

  /** Case folding creates no line break. */
  lemma FoldNoLineBreak(c: Case, s: string)
    requires NoLineBreak(s)
    ensures NoLineBreak(Fold(c, s))
  {
    FoldKeepsSymbols(s);
  }

  lemma BodyLinesNoLineBreak(body: string, w: nat)
    requires NoLineBreak(body)
    ensures forall k :: 0 <= k < |BodyLines(body, w)| ==> NoLineBreak(BodyLines(body, w)[k])
  {
    if w != 0 && body != [] {
      forall k | 0 <= k < |Chunks(body, w)| ensures NoLineBreak(Chunks(body, w)[k]) {
        ChunkNoLineBreak(body, w, k);
      }
    }
  }

  /** The formatted record, read back as lines: a header line holding the identifier whatever
      the case, then the body lines, each terminated. The body lines join to the case-adjusted
      residues, and with a positive width every one but the last is exactly that wide
      (BodyLines, Chunks). */
  lemma FormatLines(m: Manager, rec: Record, letterCase: Case, maxLength: Option<nat>)
    requires NoLineBreak(rec.id) && NoLineBreak(rec.residues)
    ensures ReadLines(FormatSequence(m, rec, letterCase, maxLength)) ==
      [">" + rec.id + "\n"] + Terminated(BodyLines(Fold(ResolvedCase(m, letterCase), rec.residues), ResolvedWidth(m, maxLength)))
  {
    var body := Fold(ResolvedCase(m, letterCase), rec.residues);
    FoldNoLineBreak(ResolvedCase(m, letterCase), rec.residues);
    BodyLinesNoLineBreak(body, ResolvedWidth(m, maxLength));
    FormatJoined(m, rec, letterCase, maxLength);
    HeaderThenBody(">" + rec.id, BodyLines(body, ResolvedWidth(m, maxLength)));
  }

  /** A header line followed by joined body lines splits into the header and the lines. */
  lemma HeaderThenBody(h: string, lines: seq<string>)
    requires NoLineBreak(h)
    requires lines != [] && forall k :: 0 <= k < |lines| ==> NoLineBreak(lines[k])
    ensures ReadLines(h + "\n" + Join(lines, "\n") + "\n") == [h + "\n"] + Terminated(lines)
  {
    HeaderThenBodyLines(h, lines);
    forall k | 0 <= k < |lines| ensures '\r' !in lines[k] {
      NoLineBreakChars(lines[k]);
    }
    JoinNoCarriageReturn(lines, "\n");
    NoLineBreakChars(h);
    NewlinesUnchanged(h + "\n" + Join(lines, "\n") + "\n");
  }

  lemma HeaderThenBodyLines(h: string, lines: seq<string>)
    requires NoLineBreak(h)
    requires lines != [] && forall k :: 0 <= k < |lines| ==> NoLineBreak(lines[k])
    ensures SplitLines(h + "\n" + Join(lines, "\n") + "\n") == [h + "\n"] + Terminated(lines)
  {
    var rest := Join(lines, "\n") + "\n";
    SplitJoinLines(lines);
    assert h + "\n" + Join(lines, "\n") + "\n" == h + "\n" + rest;
    NoLineBreakChars(h);
    SplitLinesCons(h, rest);
  }

  /** A formatted record holds no carriage return when its identifier and residues hold
      no line break. */
  lemma FormatNoCarriageReturn(m: Manager, rec: Record, letterCase: Case, maxLength: Option<nat>)
    requires NoLineBreak(rec.id) && NoLineBreak(rec.residues)
    ensures '\r' !in FormatSequence(m, rec, letterCase, maxLength)
  {
    var lines := BodyLines(Fold(ResolvedCase(m, letterCase), rec.residues), ResolvedWidth(m, maxLength));
    FoldNoLineBreak(ResolvedCase(m, letterCase), rec.residues);
    BodyLinesNoLineBreak(Fold(ResolvedCase(m, letterCase), rec.residues), ResolvedWidth(m, maxLength));
    forall k | 0 <= k < |lines| ensures '\r' !in lines[k] {
      NoLineBreakChars(lines[k]);
    }
    JoinNoCarriageReturn(lines, "\n");
    NoLineBreakChars(rec.id);
    FormatJoined(m, rec, letterCase, maxLength);
  }

  /** A piece of a text without line breaks has none. */
  lemma ChunkNoLineBreak(s: string, w: nat, k: nat)
    requires w > 0 && NoLineBreak(s) && k < |Chunks(s, w)|
    ensures NoLineBreak(Chunks(s, w)[k])
    decreases |s|
  {
    if |s| > w && k > 0 {
      ChunkNoLineBreak(s[w..], w, k - 1);
    }
  }

  /** With width 0 the record is one header line and one body line. */
  lemma FormatUnwrapped(m: Manager, rec: Record, letterCase: Case, maxLength: Option<nat>)
    requires ResolvedWidth(m, maxLength) == 0
    ensures FormatSequence(m, rec, letterCase, maxLength) ==
      ">" + rec.id + "\n" + Fold(ResolvedCase(m, letterCase), rec.residues) + "\n"
  {
  }

  /** `Original` and a missing width mean the manager's own settings. */
  lemma FormatDefaults(m: Manager, rec: Record)
    ensures FormatSequence(m, rec, Original, None) == FormatSequence(m, rec, m.letterCase, Some(m.maxLength))
  {
  }

  /** What `parse_case` is given: a name, or already a member of the enumeration. */
  datatype CaseArg = CaseName(name: string) | CaseValue(value: Case)

  /** `parse_case`: a name is upper-cased and looked up among the members, raising
      `AttributeError` when there is no such member; a member is returned as it is. */
  function ParseCase(arg: CaseArg): (r: Result<Case, Error>)
    ensures arg.CaseValue? ==> r == Success(arg.value)
    ensures arg.CaseName? ==> (r.Success? <==> ToUpper(arg.name) in {"ORIGINAL", "UPPER", "LOWER"})
    ensures arg.CaseName? && r.Failure? ==> r.error == AttributeError(ToUpper(arg.name))
  {
    match arg
    case CaseValue(c) => Success(c)
    case CaseName(name) =>
      var key := ToUpper(name);
      if key == "ORIGINAL" then Success(Original)
      else if key == "UPPER" then Success(Upper)
      else if key == "LOWER" then Success(Lower)
      else Failure(AttributeError(key))
  }

  /** Member names are found whatever their case in the argument. */
  lemma ParseCaseNames()
    ensures ParseCase(CaseName("upper")) == Success(Upper)
    ensures ParseCase(CaseName("Lower")) == Success(Lower)
    ensures ParseCase(CaseName("original")) == Success(Original)
    ensures ParseCase(CaseName("title")) == Failure(AttributeError("TITLE"))
  {
    assert ToUpper("upper") == "UPPER";
    assert ToUpper("Lower") == "LOWER";
    assert ToUpper("original") == "ORIGINAL";
    assert ToUpper("title") == "TITLE";
  }

  // ---------------------------------------------------------------------------------------
  // Loading

  /** Whether a line opens a record. `src/fasta.py` tests the line as read, so an indented
      header is a body line there; the packaged loader tests the stripped line. */
  predicate IsHeader(line: string, stripFirst: bool) {
    if stripFirst then StartsWith(Strip(line), '>') else StartsWith(line, '>')
  }

  /** `line.strip()[1:]`: the header without its marker (slicing never fails in Python). */
  function HeaderId(line: string): string {
    var t := Strip(line);
    if t == [] then [] else t[1..]
  }

  /** The positions of the header lines among `lines[..n]`, in file order. */
  function Headers(lines: seq<string>, n: nat, stripFirst: bool): (r: seq<nat>)
    requires n <= |lines|
    ensures forall p :: 0 <= p < |r| ==> r[p] < n && IsHeader(lines[r[p]], stripFirst)
  {
    if n == 0 then []
    else Headers(lines, n - 1, stripFirst) + (if IsHeader(lines[n - 1], stripFirst) then [n - 1] else [])
  }

  /** The stripped body lines among `lines[lo..hi]`, joined; header lines contribute nothing,
      and neither does a blank line. */
  function BodyText(lines: seq<string>, lo: nat, hi: nat, stripFirst: bool): string
    requires hi <= |lines|
    decreases hi
  {
    if hi <= lo then ""
    else BodyText(lines, lo, hi - 1, stripFirst) + (if IsHeader(lines[hi - 1], stripFirst) then "" else Strip(lines[hi - 1]))
  }

  /** Where the body of the record whose header is at `at` starts: right after its header,
      except that in `src/fasta.py` the first record also takes every line before its header. */
  function BodyStart(at: nat, first: bool, stripFirst: bool): nat {
    if first && !stripFirst then 0 else at + 1
  }

  /** The record whose header is at `at` and whose body ends at `end`. */
  function Entry(lines: seq<string>, at: nat, first: bool, end: nat, stripFirst: bool, fileName: Option<string>): Record
    requires at < |lines| && end <= |lines|
  {
    Record(HeaderId(lines[at]), BodyText(lines, BodyStart(at, first, stripFirst), end, stripFirst), fileName)
  }

  /** The records between consecutive bounds: record `k` has its header at `bounds[k]` and
      its body up to `bounds[k + 1]`. */
  function Entries(lines: seq<string>, bounds: seq<nat>, stripFirst: bool, fileName: Option<string>): (r: seq<Record>)
    requires bounds != []
    requires forall p :: 0 <= p < |bounds| - 1 ==> bounds[p] < |lines|
    requires bounds[|bounds| - 1] <= |lines|
    ensures |r| == |bounds| - 1
  {
    seq(|bounds| - 1, k requires 0 <= k < |bounds| - 1 =>
      Entry(lines, bounds[k], k == 0, bounds[k + 1], stripFirst, fileName))
  }

  /** What a loader returns for a file, as values: one record per header line, in file order,
      each holding the body lines up to the next header or the end of the file. */
  function Parse(lines: seq<string>, stripFirst: bool, fileName: Option<string>): (r: seq<Record>)
    ensures |r| == |Headers(lines, |lines|, stripFirst)|
  {
    Entries(lines, Headers(lines, |lines|, stripFirst) + [|lines|], stripFirst, fileName)
  }

  /** Closing the last record at `end` adds one record. */
  lemma EntriesSnoc(lines: seq<string>, h: seq<nat>, end: nat, stripFirst: bool, fileName: Option<string>)
    requires h != [] && forall p :: 0 <= p < |h| ==> h[p] < |lines|
    requires end <= |lines|
    ensures Entries(lines, h + [end], stripFirst, fileName) ==
      Entries(lines, h, stripFirst, fileName) + [Entry(lines, h[|h| - 1], |h| == 1, end, stripFirst, fileName)]
  {
    var a := Entries(lines, h + [end], stripFirst, fileName);
    var b := Entries(lines, h, stripFirst, fileName) + [Entry(lines, h[|h| - 1], |h| == 1, end, stripFirst, fileName)];
    forall k | 0 <= k < |a| ensures a[k] == b[k] {
      if k + 1 < |h| {
        assert (h + [end])[k] == h[k];
        assert (h + [end])[k + 1] == h[k + 1];
      } else {
        assert (h + [end])[k] == h[|h| - 1];
      }
    }
  }

  /** The values a loader carries from line to line: the records stored so far, whether a
      header has been seen, the current identifier and the current body. */
  datatype Scanner = Scanner(stored: seq<Record>, open: bool, id: string, body: string)

  /** One line of a loader. A header stores the open record, if any, and opens a new one;
      only a stored record empties the body in `src/fasta.py`, while the packaged loader
      empties it always. Any other line adds its stripped text to the body. */
  function Step(sc: Scanner, line: string, stripFirst: bool, fileName: Option<string>): Scanner {
    if IsHeader(line, stripFirst) then
      if sc.open then Scanner(sc.stored + [Record(sc.id, sc.body, fileName)], true, HeaderId(line), "")
      else Scanner(sc.stored, true, HeaderId(line), if stripFirst then "" else sc.body)
    else Scanner(sc.stored, sc.open, sc.id, sc.body + Strip(line))
  }

  /** The loader's state after `lines[..n]`. */
  function Scan(lines: seq<string>, n: nat, stripFirst: bool, fileName: Option<string>): Scanner
    requires n <= |lines|
  {
    if n == 0 then Scanner([], false, "", "")
    else Step(Scan(lines, n - 1, stripFirst, fileName), lines[n - 1], stripFirst, fileName)
  }

  /** The records a loader returns once the lines run out: the open record is stored too. */
  function Finish(sc: Scanner, fileName: Option<string>): seq<Record> {
    if sc.open then sc.stored + [Record(sc.id, sc.body, fileName)] else sc.stored
  }

  /** Where the body of the open record starts (the first line, before any header). */
  function OpenStart(h: seq<nat>, stripFirst: bool): nat {
    if h == [] then 0 else BodyStart(h[|h| - 1], |h| == 1, stripFirst)
  }

  /** What the state after `lines[..i]` means: a record is open exactly when a header has
      been seen; the stored records are those of every header but the last, up to the next
      header; the open record has the last header's identifier and the body read since it. */
  ghost predicate Loading(lines: seq<string>, i: nat, sc: Scanner, stripFirst: bool, fileName: Option<string>) {
    && i <= |lines|
    && var h := Headers(lines, i, stripFirst);
    && (sc.open <==> h != [])
    && sc.stored == (if h == [] then [] else Entries(lines, h, stripFirst, fileName))
    && (sc.open ==> sc.id == HeaderId(lines[h[|h| - 1]]))
    && (sc.open || !stripFirst ==> sc.body == BodyText(lines, OpenStart(h, stripFirst), i, stripFirst))
  }

  lemma LoadingStart(lines: seq<string>, stripFirst: bool, fileName: Option<string>)
    ensures Loading(lines, 0, Scanner([], false, "", ""), stripFirst, fileName)
  {
  }

  /** A body line extends the current body by its stripped text. */
  lemma LoadingBodyLine(lines: seq<string>, n: nat, sc: Scanner, stripFirst: bool, fileName: Option<string>)
    requires 0 < n <= |lines| && Loading(lines, n - 1, sc, stripFirst, fileName)
    requires !IsHeader(lines[n - 1], stripFirst)
    ensures Headers(lines, n, stripFirst) == Headers(lines, n - 1, stripFirst)
    ensures var start := OpenStart(Headers(lines, n - 1, stripFirst), stripFirst);
      start <= n - 1 && BodyText(lines, start, n, stripFirst) == BodyText(lines, start, n - 1, stripFirst) + Strip(lines[n - 1])
    ensures Loading(lines, n, Scanner(sc.stored, sc.open, sc.id, sc.body + Strip(lines[n - 1])), stripFirst, fileName)
  {
    var h := Headers(lines, n - 1, stripFirst);
    assert h + [] == h;
    var start := OpenStart(h, stripFirst);
    assert start <= n - 1;
    assert BodyText(lines, start, n, stripFirst) == BodyText(lines, start, n - 1, stripFirst) + Strip(lines[n - 1]);
  }

  /** The first header line opens the first record. Lines before it stay in the body in
      `src/fasta.py`; the packaged loader starts from an empty body. */
  lemma LoadingFirstHeader(lines: seq<string>, n: nat, sc: Scanner, stripFirst: bool, fileName: Option<string>)
    requires 0 < n <= |lines| && Loading(lines, n - 1, sc, stripFirst, fileName) && !sc.open
    requires IsHeader(lines[n - 1], stripFirst)
    ensures Loading(lines, n, Scanner(sc.stored, true, HeaderId(lines[n - 1]), if stripFirst then "" else sc.body),
                    stripFirst, fileName)
  {
    assert Headers(lines, n - 1, stripFirst) == [] && sc.stored == [];
    assert !stripFirst ==> sc.body == BodyText(lines, 0, n - 1, stripFirst);
    FirstHeaderOpens(lines, n, sc.body, HeaderId(lines[n - 1]), stripFirst, fileName);
  }

  lemma FirstHeaderOpens(lines: seq<string>, n: nat, body: string, id: string, stripFirst: bool,
                         fileName: Option<string>)
    requires 0 < n <= |lines| && Headers(lines, n - 1, stripFirst) == []
    requires !stripFirst ==> body == BodyText(lines, 0, n - 1, stripFirst)
    requires IsHeader(lines[n - 1], stripFirst) && id == HeaderId(lines[n - 1])
    ensures Loading(lines, n, Scanner([], true, id, if stripFirst then "" else body), stripFirst, fileName)
  {
    var h := [n - 1];
    assert h == Headers(lines, n, stripFirst) by {
      HeadersAtHeader(lines, n, stripFirst);
    }
    var next := Scanner([], true, id, if stripFirst then "" else body);
    assert next.body == BodyText(lines, OpenStart(h, stripFirst), n, stripFirst) by {
      if !stripFirst {
        BodyTextAtHeader(lines, 0, n, stripFirst);
      }
    }
    assert |Entries(lines, h, stripFirst, fileName)| == 0;
    assert next.stored == Entries(lines, h, stripFirst, fileName);
    LoadingOpen(lines, n, next, stripFirst, fileName, h, n - 1);
  }

  /** The loader invariant for an open record, from its parts. */
  lemma LoadingOpen(lines: seq<string>, n: nat, sc: Scanner, stripFirst: bool, fileName: Option<string>,
                    h: seq<nat>, last: nat)
    requires n <= |lines| && h == Headers(lines, n, stripFirst) && h != [] && sc.open
    requires sc.stored == Entries(lines, h, stripFirst, fileName)
    requires last == h[|h| - 1] && sc.id == HeaderId(lines[last])
    requires sc.body == BodyText(lines, OpenStart(h, stripFirst), n, stripFirst)
    ensures Loading(lines, n, sc, stripFirst, fileName)
  {
  }

  lemma HeadersAtHeader(lines: seq<string>, n: nat, stripFirst: bool)
    requires 0 < n <= |lines| && IsHeader(lines[n - 1], stripFirst)
    ensures Headers(lines, n, stripFirst) == Headers(lines, n - 1, stripFirst) + [n - 1]
  {
  }

  lemma BodyTextAtHeader(lines: seq<string>, lo: nat, n: nat, stripFirst: bool)
    requires lo < n <= |lines| && IsHeader(lines[n - 1], stripFirst)
    ensures BodyText(lines, lo, n, stripFirst) == BodyText(lines, lo, n - 1, stripFirst)
  {
  }

  /** A later header line stores the open record and opens a new one with an empty body. */
  lemma LoadingNextHeader(lines: seq<string>, n: nat, sc: Scanner, stripFirst: bool, fileName: Option<string>)
    requires 0 < n <= |lines| && Loading(lines, n - 1, sc, stripFirst, fileName) && sc.open
    requires IsHeader(lines[n - 1], stripFirst)
    ensures Headers(lines, n, stripFirst) == Headers(lines, n - 1, stripFirst) + [n - 1]
    ensures sc.stored + [Record(sc.id, sc.body, fileName)] == Entries(lines, Headers(lines, n, stripFirst), stripFirst, fileName)
    ensures Loading(lines, n, Scanner(sc.stored + [Record(sc.id, sc.body, fileName)], true, HeaderId(lines[n - 1]), ""),
                    stripFirst, fileName)
  {
    EntriesSnoc(lines, Headers(lines, n - 1, stripFirst), n - 1, stripFirst, fileName);
  }

  /** At the end of the file, storing the open record gives Parse. */
  lemma LoadingDone(lines: seq<string>, sc: Scanner, stripFirst: bool, fileName: Option<string>)
    requires Loading(lines, |lines|, sc, stripFirst, fileName)
    ensures Parse(lines, stripFirst, fileName) == Finish(sc, fileName)
  {
    if sc.open {
      EntriesSnoc(lines, Headers(lines, |lines|, stripFirst), |lines|, stripFirst, fileName);
    }
  }

  /** One step of the scan keeps Loading. */
  lemma StepLoading(lines: seq<string>, n: nat, sc: Scanner, stripFirst: bool, fileName: Option<string>)
    requires 0 < n <= |lines| && Loading(lines, n - 1, sc, stripFirst, fileName)
    ensures Loading(lines, n, Step(sc, lines[n - 1], stripFirst, fileName), stripFirst, fileName)
  {
    if !IsHeader(lines[n - 1], stripFirst) {
      LoadingBodyLine(lines, n, sc, stripFirst, fileName);
    } else if sc.open {
      LoadingNextHeader(lines, n, sc, stripFirst, fileName);
    } else {
      LoadingFirstHeader(lines, n, sc, stripFirst, fileName);
    }
  }

  /** Every state of the scan is described by Loading. */
  lemma {:induction false} ScanLoading(lines: seq<string>, n: nat, stripFirst: bool, fileName: Option<string>)
    requires n <= |lines|
    ensures Loading(lines, n, Scan(lines, n, stripFirst, fileName), stripFirst, fileName)
  {
    if n == 0 {
      LoadingStart(lines, stripFirst, fileName);
    } else {
      ScanLoading(lines, n - 1, stripFirst, fileName);
      StepLoading(lines, n, Scan(lines, n - 1, stripFirst, fileName), stripFirst, fileName);
    }
  }

  /** Scanning every line and storing the open record yields Parse. */
  lemma ScanParse(lines: seq<string>, stripFirst: bool, fileName: Option<string>)
    ensures Finish(Scan(lines, |lines|, stripFirst, fileName), fileName) == Parse(lines, stripFirst, fileName)
  {
    ScanLoading(lines, |lines|, stripFirst, fileName);
    LoadingDone(lines, Scan(lines, |lines|, stripFirst, fileName), stripFirst, fileName);
  }

  /** `SeqFileManager.load_fasta` of `src/fasta.py` over the lines of a file. Lines before
      the first header are not dropped: the line list is only emptied when a record is
      stored, so they become part of the first record. */
  method LoadFasta(lines: seq<string>) returns (sequences: seq<Sequence>)
    ensures Views(sequences) == Parse(lines, false, None)
    ensures forall k :: 0 <= k < |sequences| ==> fresh(sequences[k])
  {
    sequences := [];
    var inSequence := false;
    var seqLines: seq<string> := [];
    var seqId: string := "";  // `None` until the first header, and not read before it
    ghost var stored: seq<Record> := [];
    for i := 0 to |lines|
      invariant Scan(lines, i, false, None) == Scanner(stored, inSequence, seqId, Concat(seqLines))
      invariant Views(sequences) == stored
      invariant forall k :: 0 <= k < |sequences| ==> fresh(sequences[k])
    {
      var line := lines[i];
      if StartsWith(line, '>') {
        if inSequence {
          var o := new Sequence(seqId, Concat(seqLines));
          sequences := sequences + [o];
          stored := stored + [Record(seqId, Concat(seqLines), None)];
          seqLines := [];
        }
        seqId := HeaderId(line);
        inSequence := true;
      } else {
        ConcatAppend(seqLines, [Strip(line)]);
        seqLines := seqLines + [Strip(line)];
      }
    }
    ScanParse(lines, false, None);
    if inSequence {
      var o := new Sequence(seqId, Concat(seqLines));
      sequences := sequences + [o];
    }
  }

  /** `SeqFileManager.load_fasta` of the packaged revision: every line is stripped before the
      header test, lines before the first header are dropped, and every record carries the
      name of the file it was read from. */
  method LoadFastaStripped(lines: seq<string>, fileName: string) returns (sequences: seq<Sequence>)
    ensures Views(sequences) == Parse(lines, true, Some(fileName))
    ensures forall k :: 0 <= k < |sequences| ==> fresh(sequences[k])
  {
    sequences := [];
    var currentId: Option<string> := None;
    var currentSeq: string := "";
    ghost var stored: seq<Record> := [];
    ghost var id: string := "";
    for i := 0 to |lines|
      invariant Scan(lines, i, true, Some(fileName)) == Scanner(stored, currentId.Some?, id, currentSeq)
      invariant currentId.Some? ==> id == currentId.value
      invariant Views(sequences) == stored
      invariant forall k :: 0 <= k < |sequences| ==> fresh(sequences[k])
    {
      var line := Strip(lines[i]);
      if StartsWith(line, '>') {
        if currentId.Some? {
          var o := new Sequence.WithFile(currentId.value, currentSeq, Some(fileName));
          sequences := sequences + [o];
          stored := stored + [Record(id, currentSeq, Some(fileName))];
        }
        currentId := Some(line[1..]);
        id := line[1..];
        currentSeq := "";
      } else {
        currentSeq := currentSeq + line;
      }
    }
    ScanParse(lines, true, Some(fileName));
    if currentId.Some? {
      var o := new Sequence.WithFile(currentId.value, currentSeq, Some(fileName));
      sequences := sequences + [o];
    }
  }

  // ---------------------------------------------------------------------------------------
  // Writing

  /** `write_fasta` as the text it writes: every record formatted with the manager's own
      settings, each followed by an empty line. */
  function WriteText(m: Manager, recs: seq<Record>): (r: string)
    ensures r == [] || r[|r| - 1] == '\n'
  {
    if recs == [] then ""
    else WriteText(m, recs[..|recs| - 1]) + FormatSequence(m, recs[|recs| - 1], Original, None) + "\n"
  }

  /** `SeqFileManager.write_fasta` of `src/fasta.py`, with the file replaced by the text
      written to it. */
  method WriteFasta(m: Manager, sequences: seq<Sequence>) returns (text: string)
    ensures text == WriteText(m, Views(sequences))
  {
    ghost var recs := Views(sequences);
    text := "";
    for i := 0 to |sequences|
      invariant text == WriteText(m, recs[..i])
    {
      assert recs[..i + 1][..i] == recs[..i];
      text := text + FormatSequence(m, View(sequences[i]), Original, None);
      text := text + "\n";
    }
    assert recs[..|sequences|] == recs;
  }

  // ---------------------------------------------------------------------------------------
  // Reading back

  /** A loader's state after the lines `lines`, starting from `sc`. */
  function RunAll(sc: Scanner, lines: seq<string>, stripFirst: bool, fileName: Option<string>): Scanner {
    if lines == [] then sc
    else Step(RunAll(sc, lines[..|lines| - 1], stripFirst, fileName), lines[|lines| - 1], stripFirst, fileName)
  }

  lemma {:induction false} ScanRunAll(lines: seq<string>, n: nat, stripFirst: bool, fileName: Option<string>)
    requires n <= |lines|
    ensures Scan(lines, n, stripFirst, fileName) == RunAll(Scanner([], false, "", ""), lines[..n], stripFirst, fileName)
  {
    if n > 0 {
      assert lines[..n][..n - 1] == lines[..n - 1];
      ScanRunAll(lines, n - 1, stripFirst, fileName);
    }
  }

  /** A loader reads a file as a left fold of Step, so two pieces are read one after the other. */
  lemma {:induction false} RunAllAppend(sc: Scanner, a: seq<string>, b: seq<string>, stripFirst: bool, fileName: Option<string>)
    ensures RunAll(sc, a + b, stripFirst, fileName) == RunAll(RunAll(sc, a, stripFirst, fileName), b, stripFirst, fileName)
    decreases |b|
  {
    if b == [] {
      assert a + b == a;
    } else {
      var init := b[..|b| - 1];
      assert (a + b)[..|a + b| - 1] == a + init;
      assert (a + b)[|a + b| - 1] == b[|b| - 1];
      RunAllAppend(sc, a, init, stripFirst, fileName);
    }
  }

  /** Parse is the fold over the whole file, with the open record stored at the end. */
  lemma ParseRunAll(lines: seq<string>, stripFirst: bool, fileName: Option<string>)
    ensures Parse(lines, stripFirst, fileName) == Finish(RunAll(Scanner([], false, "", ""), lines, stripFirst, fileName), fileName)
  {
    ScanParse(lines, stripFirst, fileName);
    ScanRunAll(lines, |lines|, stripFirst, fileName);
    assert lines[..|lines|] == lines;
  }

  // ---------------------------------------------------------------------------------------
  // Round trip

  /** Residues that a file keeps as they are: no whitespace, hence no line break, and no `>`. */
  predicate CleanResidues(s: string) {
    forall k :: 0 <= k < |s| ==> !IsSpace(s[k]) && s[k] != '>'
  }

  /** Identifiers that a file keeps as they are: no line break and no trailing whitespace. */
  predicate CleanId(s: string) {
    NoLineBreak(s) && (s == [] || !IsSpace(s[|s| - 1]))
  }

  predicate Clean(recs: seq<Record>) {
    forall k :: 0 <= k < |recs| ==> CleanId(recs[k].id) && CleanResidues(recs[k].residues)
  }

  lemma FoldClean(c: Case, s: string)
    requires CleanResidues(s)
    ensures CleanResidues(Fold(c, s))
  {
    FoldKeepsSymbols(s);
  }

  lemma ChunkClean(s: string, w: nat, k: nat)
    requires w > 0 && CleanResidues(s) && k < |Chunks(s, w)|
    ensures CleanResidues(Chunks(s, w)[k])
    decreases |s|
  {
    if |s| > w && k > 0 {
      ChunkClean(s[w..], w, k - 1);
    }
  }

  lemma BodyLinesClean(body: string, w: nat)
    requires CleanResidues(body)
    ensures forall k :: 0 <= k < |BodyLines(body, w)| ==> CleanResidues(BodyLines(body, w)[k])
  {
    if w != 0 && body != [] {
      forall k | 0 <= k < |Chunks(body, w)| ensures CleanResidues(Chunks(body, w)[k]) {
        ChunkClean(body, w, k);
      }
    }
  }

  /** The lines of one written record: its header line, its body lines and the empty line
      that follows it. */
  function Block(m: Manager, rec: Record): seq<string> {
    [">" + rec.id + "\n"] + Terminated(BodyLines(Fold(m.letterCase, rec.residues), m.maxLength)) + ["\n"]
  }

  function Blocks(m: Manager, recs: seq<Record>): seq<string> {
    if recs == [] then [] else Blocks(m, recs[..|recs| - 1]) + Block(m, recs[|recs| - 1])
  }

  /** One written record, read as lines, is its block. */
  lemma WrittenBlock(m: Manager, rec: Record)
    requires NoLineBreak(rec.id) && NoLineBreak(rec.residues)
    ensures ReadLines(FormatSequence(m, rec, Original, None) + "\n") == Block(m, rec)
  {
    var f := FormatSequence(m, rec, Original, None);
    FormatNoCarriageReturn(m, rec, Original, None);
    NewlinesUnchanged(f);
    NewlinesUnchanged(f + "\n");
    assert f[|f| - 1] == '\n';
    SplitLinesAppend(f, "\n");
    FormatLines(m, rec, Original, None);
    SplitLineBreak();
  }

  /** The written text, read as lines, is the records' blocks one after the other. */
  lemma {:induction false} WriteLines(m: Manager, recs: seq<Record>)
    requires forall k :: 0 <= k < |recs| ==> NoLineBreak(recs[k].id) && NoLineBreak(recs[k].residues)
    ensures ReadLines(WriteText(m, recs)) == Blocks(m, recs)
  {
    WriteTextNoCarriageReturn(m, recs);
    NewlinesUnchanged(WriteText(m, recs));
    if recs != [] {
      var init := recs[..|recs| - 1];
      var last := recs[|recs| - 1];
      WriteLines(m, init);
      var f := FormatSequence(m, last, Original, None);
      WriteTextNoCarriageReturn(m, init);
      NewlinesUnchanged(WriteText(m, init));
      FormatNoCarriageReturn(m, last, Original, None);
      NewlinesUnchanged(f + "\n");
      AppendAssoc(WriteText(m, init), f, "\n");
      SplitLinesAppend(WriteText(m, init), f + "\n");
      WrittenBlock(m, last);
    }
  }

  /** The written text holds no carriage return when no identifier or residues hold a line
      break. */
  lemma {:induction false} WriteTextNoCarriageReturn(m: Manager, recs: seq<Record>)
    requires forall k :: 0 <= k < |recs| ==> NoLineBreak(recs[k].id) && NoLineBreak(recs[k].residues)
    ensures '\r' !in WriteText(m, recs)
  {
    if recs != [] {
      WriteTextNoCarriageReturn(m, recs[..|recs| - 1]);
      FormatNoCarriageReturn(m, recs[|recs| - 1], Original, None);
    }
  }

  /** A written header line opens a record with the identifier it was written for. */
  lemma HeaderLineRead(id: string)
    requires CleanId(id)
    ensures IsHeader(">" + id + "\n", false) && IsHeader(">" + id + "\n", true)
    ensures HeaderId(">" + id + "\n") == id
  {
    StripLine(">" + id);
    assert (">" + id)[1..] == id;
  }

  /** A written body line is read back as its own text. */
  lemma BodyLineRead(c: string)
    requires CleanResidues(c)
    ensures !IsHeader(c + "\n", false) && !IsHeader(c + "\n", true)
    ensures Strip(c + "\n") == c
  {
    StripLine(c);
  }

  lemma {:induction false} RunBodyLines(sc: Scanner, lines: seq<string>, stripFirst: bool, fileName: Option<string>)
    requires forall k :: 0 <= k < |lines| ==> CleanResidues(lines[k])
    ensures RunAll(sc, Terminated(lines), stripFirst, fileName) == Scanner(sc.stored, sc.open, sc.id, sc.body + Concat(lines))
  {
    if lines == [] {
      assert Terminated(lines) == [];
      assert sc.body + Concat(lines) == sc.body;
    } else {
      var init := lines[..|lines| - 1];
      var last := lines[|lines| - 1];
      RunBodyLines(sc, init, stripFirst, fileName);
      assert Terminated(lines)[..|lines| - 1] == Terminated(init);
      BodyLineRead(last);
      ConcatAppend(init, [last]);
      assert init + [last] == lines;
      assert Concat([last]) == last;
      AppendAssoc(sc.body, Concat(init), last);
    }
  }

  /** Reading one written block stores the record that was open and opens the block's
      record with its case-adjusted residues. */
  lemma RunBlock(m: Manager, sc: Scanner, rec: Record, stripFirst: bool, fileName: Option<string>)
    requires CleanId(rec.id) && CleanResidues(rec.residues)
    requires sc.open || sc.body == ""
    ensures RunAll(sc, Block(m, rec), stripFirst, fileName) ==
      Scanner(Finish(sc, fileName), true, rec.id, Fold(m.letterCase, rec.residues))
  {
    var header := ">" + rec.id + "\n";
    var body := Fold(m.letterCase, rec.residues);
    var lines := BodyLines(body, m.maxLength);
    HeaderLineRead(rec.id);
    var sc1 := Scanner(Finish(sc, fileName), true, rec.id, "");
    assert [header][..0] == [];
    assert RunAll(sc, [header], stripFirst, fileName) == sc1;
    FoldClean(m.letterCase, rec.residues);
    BodyLinesClean(body, m.maxLength);
    RunBodyLines(sc1, lines, stripFirst, fileName);
    assert "" + Concat(lines) == body;
    RunAllAppend(sc, [header], Terminated(lines), stripFirst, fileName);
    var sc2 := Scanner(Finish(sc, fileName), true, rec.id, body);
    assert RunAll(sc, [header] + Terminated(lines), stripFirst, fileName) == sc2;
    assert Block(m, rec) == [header] + Terminated(lines) + ["\n"];
    RunAllAppend(sc, [header] + Terminated(lines), ["\n"], stripFirst, fileName);
    BodyLineRead("");
    assert "" + "\n" == "\n";
    assert ["\n"][..0] == [];
    assert RunAll(sc2, ["\n"], stripFirst, fileName) == Step(sc2, "\n", stripFirst, fileName);
    assert body + "" == body;
  }

  /** What a loader reads back from a written file: the identifiers and the case-adjusted
      residues, in order. */
  function ReadBack(m: Manager, recs: seq<Record>, fileName: Option<string>): (r: seq<Record>)
    ensures |r| == |recs|
  {
    seq(|recs|, k requires 0 <= k < |recs| => Record(recs[k].id, Fold(m.letterCase, recs[k].residues), fileName))
  }

  lemma ReadBackSnoc(m: Manager, recs: seq<Record>, fileName: Option<string>)
    requires recs != []
    ensures ReadBack(m, recs, fileName) == ReadBack(m, recs[..|recs| - 1], fileName) +
      [Record(recs[|recs| - 1].id, Fold(m.letterCase, recs[|recs| - 1].residues), fileName)]
  {
  }

  lemma {:induction false} RunBlocks(m: Manager, recs: seq<Record>, stripFirst: bool, fileName: Option<string>)
    requires Clean(recs)
    ensures var sc := RunAll(Scanner([], false, "", ""), Blocks(m, recs), stripFirst, fileName);
      Finish(sc, fileName) == ReadBack(m, recs, fileName) && (sc.open || sc.body == "")
  {
    if recs == [] {
    } else {
      var init := recs[..|recs| - 1];
      var last := recs[|recs| - 1];
      RunBlocks(m, init, stripFirst, fileName);
      var start := Scanner([], false, "", "");
      var sc := RunAll(start, Blocks(m, init), stripFirst, fileName);
      RunAllAppend(start, Blocks(m, init), Block(m, last), stripFirst, fileName);
      RunBlock(m, sc, last, stripFirst, fileName);
      ReadBackSnoc(m, recs, fileName);
    }
  }

  /** Writing records and loading the file back gives their identifiers and case-adjusted
      residues, in order, provided no identifier holds a line break or ends with whitespace
      and no residues hold whitespace or `>`. Both loaders agree on such a file. */
  lemma WriteLoadRoundTrip(m: Manager, recs: seq<Record>, stripFirst: bool, fileName: Option<string>)
    requires Clean(recs)
    ensures Parse(ReadLines(WriteText(m, recs)), stripFirst, fileName) == ReadBack(m, recs, fileName)
  {
    forall k | 0 <= k < |recs| ensures NoLineBreak(recs[k].id) && NoLineBreak(recs[k].residues) {
      assert IsSpace('\n') && IsSpace('\r');
    }
    WriteLines(m, recs);
    ParseRunAll(Blocks(m, recs), stripFirst, fileName);
    RunBlocks(m, recs, stripFirst, fileName);
  }

  // ---------------------------------------------------------------------------------------
  // What a loader returns

  /** Positions listed in strictly increasing order. */
  predicate Increasing(h: seq<nat>) {
    forall p, q :: 0 <= p < q < |h| ==> h[p] < h[q]
  }

  /** The header positions are listed in file order ... */
  lemma {:induction false} HeadersIncreasing(lines: seq<string>, n: nat, stripFirst: bool)
    requires n <= |lines|
    ensures Increasing(Headers(lines, n, stripFirst))
  {
    if n > 0 {
      HeadersIncreasing(lines, n - 1, stripFirst);
      var g := Headers(lines, n - 1, stripFirst);
      var h := Headers(lines, n, stripFirst);
      if IsHeader(lines[n - 1], stripFirst) {
        assert h == g + [n - 1];
        forall p, q | 0 <= p < q < |h| ensures h[p] < h[q] {
          assert h[p] == g[p];
          if q < |g| {
            assert h[q] == g[q];
          } else {
            assert h[q] == n - 1;
          }
        }
      } else {
        assert h == g;
      }
    }
  }

  /** ... and every header line among `lines[..n]` is one of them. */
  lemma {:induction false} HeadersComplete(lines: seq<string>, n: nat, stripFirst: bool)
    requires n <= |lines|
    ensures forall j :: 0 <= j < n && IsHeader(lines[j], stripFirst) ==> j in Headers(lines, n, stripFirst)
  {
    if n > 0 {
      HeadersComplete(lines, n - 1, stripFirst);
      var g := Headers(lines, n - 1, stripFirst);
      var h := Headers(lines, n, stripFirst);
      if IsHeader(lines[n - 1], stripFirst) {
        assert h == g + [n - 1];
      } else {
        assert h == g;
      }
    }
  }

  /** One record per header line, in file order: record `k` has the identifier of the `k`-th
      header, the body text from where its body starts up to the next header (or the end of
      the file), and the loaded file name. */
  lemma ParseAt(lines: seq<string>, stripFirst: bool, fileName: Option<string>, k: nat)
    requires k < |Headers(lines, |lines|, stripFirst)|
    ensures var h := Headers(lines, |lines|, stripFirst);
      var end := if k + 1 < |h| then h[k + 1] else |lines|;
      var r := Parse(lines, stripFirst, fileName)[k];
      && r.id == HeaderId(lines[h[k]])
      && r.residues == BodyText(lines, BodyStart(h[k], k == 0, stripFirst), end, stripFirst)
      && r.fileName == fileName
  {
    var h := Headers(lines, |lines|, stripFirst);
    var b := h + [|lines|];
    var end := if k + 1 < |h| then h[k + 1] else |lines|;
    assert b[k] == h[k] && b[k + 1] == end;
    EntriesAt(lines, b, stripFirst, fileName, k);
  }

  /** Record `k` of `Entries` runs from bound `k` to bound `k + 1`. */
  lemma EntriesAt(lines: seq<string>, bounds: seq<nat>, stripFirst: bool, fileName: Option<string>, k: nat)
    requires k + 1 < |bounds|
    requires forall p :: 0 <= p < |bounds| - 1 ==> bounds[p] < |lines|
    requires bounds[|bounds| - 1] <= |lines|
    ensures Entries(lines, bounds, stripFirst, fileName)[k] == Entry(lines, bounds[k], k == 0, bounds[k + 1], stripFirst, fileName)
  {
  }

  /** A file yields no record exactly when it has no header line. */
  lemma NoHeaderNoRecords(lines: seq<string>, stripFirst: bool, fileName: Option<string>)
    ensures Parse(lines, stripFirst, fileName) == [] <==> forall j :: 0 <= j < |lines| ==> !IsHeader(lines[j], stripFirst)
  {
    var h := Headers(lines, |lines|, stripFirst);
    HeadersComplete(lines, |lines|, stripFirst);
    if h != [] {
      assert IsHeader(lines[h[0]], stripFirst);
    }
  }

  /** Body text over adjacent ranges is joined. */
  lemma {:induction false} BodyTextSplit(lines: seq<string>, lo: nat, mid: nat, hi: nat, stripFirst: bool)
    requires lo <= mid <= hi <= |lines|
    ensures BodyText(lines, lo, hi, stripFirst) == BodyText(lines, lo, mid, stripFirst) + BodyText(lines, mid, hi, stripFirst)
    decreases hi
  {
    if hi == mid {
      assert BodyText(lines, mid, hi, stripFirst) == "";
      assert BodyText(lines, lo, mid, stripFirst) + "" == BodyText(lines, lo, mid, stripFirst);
    } else {
      BodyTextSplit(lines, lo, mid, hi - 1, stripFirst);
      AppendAssoc(BodyText(lines, lo, mid, stripFirst), BodyText(lines, mid, hi - 1, stripFirst),
        if IsHeader(lines[hi - 1], stripFirst) then "" else Strip(lines[hi - 1]));
    }
  }

  /** The lines before the first header are no headers. */
  lemma BeforeFirstHeader(lines: seq<string>, stripFirst: bool)
    requires Headers(lines, |lines|, stripFirst) != []
    ensures forall j :: 0 <= j < Headers(lines, |lines|, stripFirst)[0] ==> !IsHeader(lines[j], stripFirst)
  {
    var h := Headers(lines, |lines|, stripFirst);
    HeadersIncreasing(lines, |lines|, stripFirst);
    HeadersComplete(lines, |lines|, stripFirst);
  }

  /** A header line inside a range adds nothing to its body text. */
  lemma SkipHeaderLine(lines: seq<string>, at: nat, end: nat, stripFirst: bool)
    requires at < end <= |lines| && IsHeader(lines[at], stripFirst)
    ensures BodyText(lines, 0, end, stripFirst) == BodyText(lines, 0, at, stripFirst) + BodyText(lines, at + 1, end, stripFirst)
  {
    var c := BodyText(lines, at + 1, end, stripFirst);
    assert BodyText(lines, at, at, stripFirst) == "";
    assert BodyText(lines, at, at + 1, stripFirst) == "" + "" == "";
    BodyTextSplit(lines, at, at + 1, end, stripFirst);
    assert BodyText(lines, at, end, stripFirst) == "" + c == c;
    BodyTextSplit(lines, 0, at, end, stripFirst);
  }

  /** The first record's body ends after its header. */
  lemma FirstRecordEnd(lines: seq<string>, stripFirst: bool)
    requires Headers(lines, |lines|, stripFirst) != []
    ensures var h := Headers(lines, |lines|, stripFirst);
      h[0] < if 1 < |h| then h[1] else |lines|
  {
    var h := Headers(lines, |lines|, stripFirst);
    if 1 < |h| {
      HeadersIncreasing(lines, |lines|, stripFirst);
      assert h[0] < h[1];
    }
  }

  /** The first record between bounds whose first is a header line: the stripped text of
      the lines before that header, then that of the lines after it. */
  lemma FirstEntryBody(lines: seq<string>, bounds: seq<nat>, fileName: Option<string>)
    requires 2 <= |bounds| && bounds[0] < bounds[1]
    requires forall p :: 0 <= p < |bounds| - 1 ==> bounds[p] < |lines|
    requires bounds[|bounds| - 1] <= |lines|
    requires IsHeader(lines[bounds[0]], false)
    ensures Entries(lines, bounds, false, fileName)[0].residues ==
      BodyText(lines, 0, bounds[0], false) + BodyText(lines, bounds[0] + 1, bounds[1], false)
  {
    var e := Entry(lines, bounds[0], true, bounds[1], false, fileName);
    EntriesAt(lines, bounds, false, fileName, 0);
    assert e.residues == BodyText(lines, 0, bounds[1], false);
    SkipHeaderLine(lines, bounds[0], bounds[1], false);
  }

  /** `src/fasta.py` puts the stripped text of the lines before the first header in front
      of the first record's body. (The packaged loader starts it after the header: `ParseAt`
      with `BodyStart`.) */
  lemma FirstRecordBody(lines: seq<string>, fileName: Option<string>)
    requires Headers(lines, |lines|, false) != []
    ensures var h := Headers(lines, |lines|, false);
      var end := if 1 < |h| then h[1] else |lines|;
      Parse(lines, false, fileName)[0].residues == BodyText(lines, 0, h[0], false) + BodyText(lines, h[0] + 1, end, false)
  {
    var h := Headers(lines, |lines|, false);
    var b := h + [|lines|];
    FirstRecordEnd(lines, false);
    assert b[0] == h[0] && b[1] == if 1 < |h| then h[1] else |lines|;
    FirstEntryBody(lines, b, fileName);
  }

  /** The packaged loader strips a line before testing for `>`, so an indented header opens
      a record there, while `src/fasta.py` reads it as a body line. */
  lemma IndentedHeader()
    ensures IsHeader(" >x", true) && !IsHeader(" >x", false)
    ensures HeaderId(" >x") == "x"
  {
    assert IsSpace(' ') && !IsSpace('>') && !IsSpace('x');
    assert StripLeft(" >x") == StripLeft(" >x"[1..]) == ">x";
    assert StripRight(">x") == ">x";
    assert Strip(" >x") == ">x";
  }
}
