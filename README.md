# FASTA-manager in Dafny

A model of the core of FASTA-manager, a small Python toolkit for FASTA sequence files. The
repository keeps several revisions side by side, and each is modelled with its own edge
cases. Two defects are modelled as written and then corrected (see "## Findings"): the
formatter of `src/fasta.py` and the duplicate remover of `src/transformers.py`. The parts
of the model built on them use the corrected forms. The model covers:

- the sequence record (`Sequence`), with an identifier, a residue string and, in the packaged
  revision, the name of the file it came from;
- the FASTA codec (`SeqFileManager`):
  - formatting one record with optional case folding and line wrapping;
  - writing a list of records;
  - loading a file in two variants. `src/fasta.py` tests for `>` before stripping and keeps
    the lines before the first header. `src/packages/Utils/seq_file_manager.py` strips first,
    drops those lines and records the file name;
  - parsing the case argument;
- duplicate-identifier resolution:
  - *remove* keeps the first record of each identifier;
  - *rename* turns the i-th occurrence of a repeated identifier `X` into `X.i`, reassigning
    `id` on the caller's objects;
- the strand transformers: reverse, complement through the eight-entry table (a `KeyError` on
  any other symbol), and reverse-complement (`both`);
- the left-to-right transformer pipeline (`SequenceListTransformer`);
- per-record statistics: `[id, len, #A, #C, #T, #G, #-]` rows under a header row;
- the `--key=value` argument tokenizer (`parseArgs`).

## Representation

- **Values and objects.** Python objects whose fields the code reassigns are Dafny objects:
  - `Sequence` is a class whose `id` is mutable;
  - `SequenceListTransformer` is a class.
  Everything else is values. Each method that works on objects is tied, through its
  `ensures`, to a function on `Record` values. The value-level properties are then proved
  about those functions.
- **Files.** A file being read is its sequence of lines, each keeping its line break, as
  Python's file iteration yields them. `Text.ReadLines` reads a text that way: it first
  translates `\r\n` and a lone `\r` into `\n`, as a file opened in text mode does, and
  `Text.SplitLines` then cuts the result after each `\n`. A file being written is the
  string written to it.
- **Exceptions and `None`.**
  - Exceptions that escape an operation become `Failure(KeyError(c))`,
    `Failure(AttributeError(name))` or `Failure(TypeError(name))` of `Wrappers.Result`.
  - A `None` result becomes `Wrappers.Option`.
- **Whitespace and case.** `str.strip` removes the ASCII characters for which `str.isspace`
  holds. `upper`/`lower` map ASCII letters only.

Modules, one per concern:

| module | file |
|---|---|
| `Wrappers` | `wrappers.dfy` |
| `Text` | `text.dfy` |
| `Sequences` | `sequences.dfy` |
| `Strand` | `strand.dfy` |
| `Duplicates` and `Renaming` | `duplicates.dfy` |
| `Transformers` | `transformers.dfy` |
| `Transformations` | `transformations.dfy` |
| `PackagedTransformers` | `packaged.dfy` |
| `Fasta` | `fasta.dfy` |
| `Stats` | `stats.dfy` |
| `Args` | `args.dfy` |

## Model

| member | source | states |
|---|---|---|
| Sequences.Sequence.constructor | src/sequences.py:4-6 | The identifier and residues are stored exactly as given, with no check on either, and there is no file name. |
| Sequences.Sequence.WithFile | src/packages/Sequences/sequences.py:6-9 | The identifier, residues and file name are stored exactly as given. |
| Sequences.Sequence.Lower | src/packages/Sequences/sequences.py:17-19 | The result is a new object with the same identifier and file name and lower-cased residues. The receiver is not modified. |
| Sequences.Sequence.Upper | src/packages/Sequences/sequences.py:21-23 | The result is a new object with the same identifier and file name and upper-cased residues. The receiver is not modified. |
| Sequences.ReprLayout | src/sequences.py:8-12 | `repr` is the identifier, then `": "`, then the residues, position by position. Given the identifier's length, both can be read back. `str` is `repr` plus one final line break. The same holds for `src/packages/Sequences/sequences.py:11-15`. |
| Text.StripLeftSpec | src/fasta.py:58 | Stripping on the left removes a prefix made only of whitespace and leaves text that is empty or starts with a non-space. |
| Text.StripRightSpec | src/fasta.py:61 | Stripping on the right removes a suffix made only of whitespace and leaves text that is empty or ends with a non-space. |
| Text.StripLine | src/fasta.py:61 | A line without surrounding whitespace, with its line break, strips back to itself. |
| Text.ToLower | src/packages/Sequences/sequences.py:19 | `lower()` keeps the length and maps each character on its own. |
| Text.ToUpper | src/packages/Sequences/sequences.py:23 | `upper()` keeps the length and maps each character on its own. |
| Text.FoldKeepsSymbols | src/fasta.py:29-32 | Case folding changes only letters, and a letter stays a letter. |
| Text.FoldIdempotent | src/fasta.py:29-32 | Folding twice is folding once, and the last fold wins. |
| Text.ConcatAppend | src/fasta.py:55 | `''.join` distributes over concatenated lists. |
| Text.NatToString | src/transformers.py:43 | Decimal digits of a count: non-empty and made only of digits. |
| Text.DigitsRoundTrip | src/transformers.py:43 | The decimal text of a number reads back as that number. |
| Text.NatToStringInjective | src/transformers.py:50 | Different counts give different texts. |
| Text.SplitLinesAppend | src/fasta.py:52 | A text ending in a line break is read as its lines, followed by the lines of what comes next. |
| Text.Newlines | src/fasta.py:48 | Reading in text mode turns `\r\n` and a lone `\r` into `\n`: the translated text holds no `\r` and is no longer than the file. |
| Text.CarriageReturnEndsLine | src/fasta.py:48-52 | A lone `\r` ends a line: `>a\rb\n` is read as the lines `>a\n` and `b\n`. |
| Text.SplitJoin | src/fasta.py:40-42 | Joining lines that hold neither `\n` nor `\r` with line breaks, and adding a final one, gives text that reads back as exactly those lines, each terminated. |
| Strand.Reverse | src/transformers.py:72 | `s[::-1]` has the same length, and its position k holds position `len - 1 - k` of the input. |
| Strand.Complement | src/transformers.py:75-80 | The complement succeeds exactly when every residue is in the table, and then maps each position through the table. On failure it raises `KeyError` with the first residue missing from the table. |
| Strand.ReverseInvolution | src/transformers.py:93-96 | Reversing twice restores the residues. |
| Strand.ComplementPair | src/transformers.py:75-78 | The table pairs A with T and C with G in each case, so the partner of a partner is the symbol itself. |
| Strand.ComplementInvolution | src/packages/Transformers/reverse_complement.py:17-24 | Complementing twice restores the residues. |
| Strand.ReverseComplementCommutes | src/transformers.py:82-89 | `both` equals reversing the complement. It fails exactly when complement fails. |
| Strand.ReverseComplementInvolution | src/packages/Transformers/reverse_complement.py:26-33 | Applying `both` twice restores the residues on the eight-letter alphabet. |
| Strand.StrandRecords | src/transformers.py:68-91 | A list transcribes exactly when every record does. The output has one record per input, in order, with the input's identifier and transcribed residues; the file name is kept or dropped as the revision does. |
| Strand.StrandRecordsFirstError | src/transformers.py:79-80 | When a list fails, its error is that of the first record that fails. |
| Strand.StrandRecordsBothTwice | src/packages/Transformers/reverse_complement.py:26-33 | `both` applied twice to a list gives the list back. |
| Strand.TranscribeAll | src/transformers.py:68-91 | The per-style loop equals StrandRecords on the records, or raises its `KeyError`. It creates pairwise distinct new objects and leaves the input alone. |
| Duplicates.ValuesInOrder | src/transformers.py:27 | `list(id_dict.values())` holds one value per key, in insertion order. |
| Duplicates.FirstIndicesSpec | src/transformers.py:20-28 | The remover keeps positions in input order, and keeps a position exactly when its identifier does not occur earlier. |
| Duplicates.DedupDistinct | src/transformers.py:20-28 | The remover's output identifiers are pairwise distinct. |
| Duplicates.DedupCovers | src/transformers.py:20-28 | An identifier is in the output exactly when it is in the input. |
| Duplicates.DedupIdempotent | src/transformers.py:20-28 | Removing duplicates from the output changes nothing. |
| Duplicates.RemoveDuplicates | src/transformers.py:20-28 | The loop returns the first record of each identifier, in first-occurrence order, and modifies nothing. The same holds for `src/packages/Transformers/duplicated_transformer.py:33-39`. |
| Duplicates.RemoveDuplicatesIds | src/transformers.py:20-28 | Seen as records, the remover's output is RemoveRecords of the input. |
| Duplicates.RemoveRecordsIdempotent | src/packages/Transformers/duplicated_transformer.py:33-39 | A second `remove` changes nothing. |
| Duplicates.FirstIndicesEmpty | src/transformations.py:35-36 | Something is kept exactly when the input is not empty. |
| Duplicates.RemoveNoDuplicates | src/transformations.py:33-35 | Without repeated identifiers, the whole list is kept in order. |
| Duplicates.RemoveDuplicatesDistinct | src/transformers.py:20-28 | No object is returned twice. |
| Renaming.Step | src/transformers.py:38-53 | One iteration of the rename loop keeps the dictionary state well formed. It gives the current record exactly one name. |
| Renaming.Run | src/transformers.py:37-53 | The pass names every record once and keeps its state well formed. |
| Renaming.Kept | src/transformers.py:54 | The returned values are records the pass has processed, one per key. |
| Renaming.KeptDistinct | src/transformers.py:54 | No record is returned twice. |
| Renaming.SuffixedInjective | src/transformers.py:43-50 | `f'{x}.{k}'` determines both `x` and `k`. |
| Renaming.StepCanonical | src/transformers.py:39-53 | Without collisions (no input identifier equals `X.k` for a repeated `X` and `k` from 1 to the number of occurrences of `X`), each branch of the loop keeps the keys, counts and names equal to their intended values. |
| Renaming.RunCanonical | src/transformers.py:37-53 | Without collisions, the pass ends in the intended state. |
| Renaming.RenameIntended | src/transformers.py:39-53 | Without collisions, every record is kept in input order. The i-th occurrence of a repeated `X` is named `X.i`, including `X.1` for the first. |
| Renaming.NameAtUnchanged | src/transformers.py:52-53 | A record keeps its identifier exactly when that identifier occurs once. |
| Renaming.NameAtInjective | src/transformers.py:39-53 | Without collisions, no two records end up with the same name. |
| Renaming.RenameRecordsIntended | src/transformers.py:37-55 | Without collisions, the output has the input's length, order, residues and file names, with each identifier replaced by its intended name. All names are distinct. |
| Renaming.CollisionLosesRecord | src/transformers.py:45-54 | A synthesized name that is already a key overwrites that key's record, which is then missing from the output. |
| Renaming.RenameThreeCopies | src/transformers.py:39-51 | Three copies of `A` become `A.1`, `A.2` and `A.3`, and all three are kept. |
| Renaming.RenameNoDuplicates | src/transformers.py:52-53 | Without repeated identifiers, the pass changes no name and keeps every record. |
| Renaming.RunKeepsSome | src/transformations.py:35-36 | The pass returns nothing exactly when its input is empty. |
| Renaming.RenamedViews | src/transformers.py:54-55 | The objects returned by a finished pass, read as records, are RenameRecords of the input. |
| Renaming.SetId | src/transformers.py:44 | One identifier is reassigned in place. Every other record keeps its identifier. |
| Renaming.SetIdPair | src/transformers.py:43-44 | The stored record and the current one are renamed in place. Every other record keeps its identifier. |
| Renaming.VisitFresh | src/transformers.py:52-53 | A new identifier is stored under itself, as Step does. |
| Renaming.VisitFirstDuplicate | src/transformers.py:40-46 | The first repeat renames the stored record `X.1` and the current one `X.2`, as Step does. |
| Renaming.VisitLaterDuplicate | src/transformers.py:47-51 | A later repeat increments the count and renames the current record `X.c`, as Step does. |
| Renaming.Visit | src/transformers.py:38-53 | One iteration of the loop on the caller's objects follows Step. |
| Renaming.RenameDuplicates | src/transformers.py:33-55 | The returned objects are input objects. When the input holds no object twice, every record is renamed as Run says, and the result is the records Run keeps. The same holds for `src/packages/Transformers/duplicated_transformer.py:12-30`. |
| Transformers.PipelineConcat | src/transformers.py:117-122 | Running two transformer lists one after the other is running their concatenation. |
| Transformers.PipelinePrefixFailure | src/transformers.py:117-122 | The first `KeyError` ends the pipeline. |
| Transformers.Instantiate | src/transformers.py:7-15 | Calling a transformer class fails with `TypeError` naming the class exactly when the class leaves one of the base's abstract methods undefined. Otherwise it builds the transformer of that class. |
| Transformers.RemoverNotInstantiable | src/transformers.py:7-28 | As written, the base declares `transform` and `reverse` abstract and the remover defines only `transform`, so `DuplicatedIdentifiersRemover()` raises `TypeError`. The renamer and the strand transformer are built. |
| Transformers.InstantiateIntended | src/packages/Transformers/abstract_transformer.py:4-8 | With only `transform` abstract, as the later base declares it, every class is built, the remover included. |
| Transformers.RemoverTwice | src/transformers.py:20-28 | Two removers in a row act as one. This is about the corrected remover, which can be built. |
| Transformers.BothTwice | src/transformers.py:82-89 | Two `both` transformers in a row give back the records. |
| Transformers.RenamerReverse | src/transformers.py:57-60 | The result holds new records with reversed identifiers and the same residues. |
| Transformers.RenamerReverseTwice | src/transformers.py:57-60 | Reversing identifiers twice restores them. |
| Transformers.StrandTransform | src/transformers.py:68-91 | A known style gives StrandRecords of the input. Any other style gives the empty list. |
| Transformers.StrandReverse | src/transformers.py:93-96 | `reverse` cannot fail and gives the `reverse` style of StrandRecords. |
| Transformers.StrandComplement | src/transformers.py:98-107 | `complement` gives the `complement` style of StrandRecords, including its `KeyError`. |
| Transformers.Apply | src/transformers.py:120-121 | One transformer call returns input or new objects. Without repeated objects, it is the value-level transformation of the records, and a renamer leaves each input object carrying the name Run gives it. Every other transformer leaves the input objects untouched, and any other given objects keep their ids. |
| Transformers.SequenceListTransformer.constructor | src/transformers.py:112-115 | The list and the transformers are stored, and the list is also kept as the original. |
| Transformers.SequenceListTransformer.ApplyTransformations | src/transformers.py:117-122 | With no transformers the stored list itself is returned. Otherwise the outcome is Pipeline on the records, the first `KeyError` included. Without a renamer the stored objects are untouched. When the renamer is the first transformer and no other renamer follows, the stored objects end up carrying the names Run gives them, because the later steps work on what the renamer returned. A later reset then restores the list but not the old names. |
| Transformers.SequenceListTransformer.ResetTransformations | src/transformers.py:124-126 | The stored list is the constructor's list again. |
| Transformations.DuplicateManager | src/transformations.py:7-36 | In place, `rename` renames as Run says. `remove` keeps first occurrences. Any other mode returns the input list. An empty result is `None`, and only `rename` changes identifiers. |
| Transformations.ReverseComplement | src/transformations.py:38-69 | A known style gives StrandRecords as a list, even an empty one. Any other style gives the input's records, or `None` when there are none. |
| PackagedTransformers.DuplicatedTransform | src/packages/Transformers/duplicated_transformer.py:9-41 | `rename` and `remove` behave as in the first revision. Any other style gives the empty list and changes nothing. |
| PackagedTransformers.ReverseComplementTransform | src/packages/Transformers/reverse_complement.py:10-35 | A known style gives StrandRecords with file names kept. Any other style gives the empty list. |
| Fasta.Fold | src/fasta.py:27-32 | Case handling keeps the length of the residues. |
| Fasta.Chunks | src/fasta.py:39 | The chunk list is empty exactly when the residues are. Every chunk but the last has the full width, the last has 1 to width residues, and together they are the residues. |
| Fasta.BodyLines | src/fasta.py:36-40 | There is at least one body line, and the body lines join to the residues. |
| Fasta.FormatSequence | src/fasta.py:23-42 | The corrected formatter (header from `id`). The formatted text starts with `>`, the identifier and a line break, and ends with a line break. |
| Fasta.Attribute | src/sequences.py:4-6 | Attribute lookup succeeds exactly for `id` and `seq`. |
| Fasta.FormatSequenceAsWrittenFails | src/fasta.py:37-42 | As written, formatting raises `AttributeError: seq_id` on every record. The corrected formatter writes the record's header. |
| Fasta.FormatJoined | src/fasta.py:36-42 | For the corrected formatter, both branches write the header line, then the body lines joined by line breaks, then a final line break. |
| Fasta.FoldNoLineBreak | src/fasta.py:29-32 | Case folding creates no line break. |
| Fasta.BodyLinesNoLineBreak | src/fasta.py:39-40 | Body lines of line-free residues hold no line break. |
| Fasta.ChunkNoLineBreak | src/fasta.py:39 | A chunk of line-free residues holds no line break. |
| Fasta.HeaderThenBody | src/fasta.py:40-42 | A header line followed by joined body lines, none holding `\n` or `\r`, reads back as the header, then the terminated body lines. |
| Fasta.FormatLines | src/fasta.py:29-42 | Read as lines, a record formatted by the corrected formatter, whose identifier and residues hold neither `\n` nor `\r`, is its header line, whatever the case setting, followed by its terminated body lines. |
| Fasta.FormatUnwrapped | src/fasta.py:36-37 | For the corrected formatter, with width 0 the record is exactly `>` + id + line break + case-adjusted residues + line break. |
| Fasta.FormatDefaults | src/fasta.py:27-35 | `ORIGINAL` defers to the manager's case, and a missing width defers to the manager's width. |
| Fasta.ParseCase | src/fasta.py:79-83 | A member is returned unchanged. A name succeeds exactly when its upper-cased form is a member name, and otherwise raises `AttributeError` with that form. |
| Fasta.ParseCaseNames | src/fasta.py:82 | Names are found whatever their case, and `title` raises `AttributeError: TITLE`. |
| Fasta.Headers | src/fasta.py:53 | Every position listed is a header line. |
| Fasta.HeadersIncreasing | src/fasta.py:52-53 | Header positions are listed in file order. |
| Fasta.HeadersComplete | src/fasta.py:52-53 | Every header line is listed. |
| Fasta.Parse | src/fasta.py:45-66 | A loader returns one record per header line. |
| Fasta.LoadingStart | src/fasta.py:49-51 | Before any line, nothing is stored and no record is open. |
| Fasta.LoadingBodyLine | src/fasta.py:60-61 | A body line appends its stripped text to the current body. |
| Fasta.LoadingFirstHeader | src/fasta.py:53-59 | The first header opens a record. `src/fasta.py` keeps the lines before it in the body, and the packaged loader starts from an empty one. |
| Fasta.LoadingNextHeader | src/fasta.py:54-59 | A later header stores the open record and opens a new one. |
| Fasta.LoadingDone | src/fasta.py:62-64 | At the end of the file, the open record is stored too. |
| Fasta.StepLoading | src/fasta.py:52-61 | One line of the loop keeps the loader's meaning. |
| Fasta.ScanLoading | src/fasta.py:52-61 | After every prefix of the file, the loader's state has that meaning. |
| Fasta.ScanParse | src/fasta.py:45-66 | The loop followed by the final flush yields Parse. |
| Fasta.LoadFasta | src/fasta.py:45-66 | The loader of `src/fasta.py` returns Parse of the lines, without file names, as new objects. |
| Fasta.LoadFastaStripped | src/packages/Utils/seq_file_manager.py:12-31 | The packaged loader returns the stripped-first Parse of the lines, each record carrying the file name, as new objects. |
| Fasta.ParseAt | src/fasta.py:53-64 | Record k has the identifier of the k-th header line (the stripped line minus its first character) and the stripped text of the non-header lines from where its body starts up to the next header or the end of the file. A body starts right after its header, except the first one in `src/fasta.py`, which starts at the top of the file. In `src/packages/Utils/seq_file_manager.py:18-30` every record also carries the file name. |
| Fasta.NoHeaderNoRecords | src/fasta.py:62-66 | A file gives no record exactly when it has no header line. The same holds for `src/packages/Utils/seq_file_manager.py:28-31`. |
| Fasta.BeforeFirstHeader | src/fasta.py:49-61 | No line before the first listed header is a header. |
| Fasta.FirstRecordBody | src/fasta.py:49-61 | In `src/fasta.py` the first record's residues are the text of the lines before its header, followed by the text of its own body lines. |
| Fasta.IndentedHeader | src/packages/Utils/seq_file_manager.py:19-20 | An indented header opens a record in the packaged loader. `src/fasta.py` reads it as a body line. |
| Fasta.WriteText | src/fasta.py:69-75 | With the corrected formatter, the written text is empty or ends with a line break. |
| Fasta.WriteFasta | src/fasta.py:69-75 | With the corrected formatter, the loop writes each record with the manager's settings, followed by an empty line, i.e. WriteText. |
| Fasta.WrittenBlock | src/fasta.py:73-75 | One written record whose identifier and residues hold neither `\n` nor `\r` reads back, in text mode, as its header line, its body lines and one empty line. |
| Fasta.WriteLines | src/fasta.py:72-75 | A written file of such records reads back, in text mode, as the records' blocks, one after the other. |
| Fasta.HeaderLineRead | src/fasta.py:53-58 | A written header line is a header for both loaders and gives back its identifier. |
| Fasta.BodyLineRead | src/fasta.py:60-61 | A written body line is not a header and strips back to itself. |
| Fasta.RunBodyLines | src/fasta.py:60-61 | Reading written body lines appends exactly their text to the body. |
| Fasta.RunBlock | src/fasta.py:52-61 | Reading a written block stores the open record and opens the block's record with its case-adjusted residues. |
| Fasta.RunBlocks | src/fasta.py:52-64 | Reading the written blocks yields each record's identifier and case-adjusted residues, in order. |
| Fasta.WriteLoadRoundTrip | src/fasta.py:45-75 | Loading a written file gives back the identifiers and case-adjusted residues, in order, for both loaders. This holds for the corrected formatter when identifiers have no `\n`, no `\r` and no trailing whitespace, and residues have no whitespace (`\r` included) or `>`. |
| Stats.StatsRowLayout | src/sequence_stats.py:8-20 | A row has seven cells: identifier, length, then the counts of A, C, T, G and `-`, in the order the header names them. The same holds for `src/packages/Stats/sequence_stats.py:7-19`. |
| Stats.StatsMatrixLayout | src/sequence_stats.py:22-32 | The matrix has one row more than there are records. The header comes first, and row i+1 is the statistics of record i. The same holds for `src/packages/Stats/sequence_stats.py:21-31`. |
| Stats.OccurrencesMultiset | src/sequence_stats.py:14-16 | A count is the exact, case-sensitive multiplicity of its symbol. |
| Stats.CountsPartition | src/sequence_stats.py:14-16 | Each residue is counted once, either under one of the five symbols or not at all. |
| Stats.UncountedZero | src/sequence_stats.py:14-16 | Nothing goes uncounted exactly when every residue is one of the five symbols. |
| Stats.CountsBound | src/sequence_stats.py:12-16 | The five counts add up to at most the length, with equality exactly when every residue is one of A, C, T, G and `-`. The same holds for `src/packages/Stats/sequence_stats.py:11-16`. |
| Stats.LowerCaseUncounted | src/sequence_stats.py:15 | Lower-case residues are not counted. |
| Stats.CountsOf | src/sequence_stats.py:19 | The counts of a row are the multiplicities of the five symbols. |
| Stats.ExampleRowS1 | src/sequence_stats.py:43 | `AAAACCCTTG` gives `['S1', 10, 4, 3, 2, 1, 0]`. |
| Stats.ExampleRowS2 | src/sequence_stats.py:44 | `TATTGGGC-` gives `['S2', 9, 1, 1, 3, 3, 1]`. |
| Stats.StatsExample | src/sequence_stats.py:42-48 | The module's example gives the header row and these two rows. |
| Stats.GetSeqStats | src/sequence_stats.py:8-20 | The counting loop over the `counts` dict returns StatsRow of the record. The same holds for `src/packages/Stats/sequence_stats.py:7-19`. |
| Stats.GetSeqStatsMatrix | src/sequence_stats.py:22-32 | The appending loop returns StatsMatrix of the records and modifies none of them. The same holds for `src/packages/Stats/sequence_stats.py:21-31`. |
| Args.Split | src/argsparser.py:6 | `split('=')` gives at least one piece. |
| Args.SplitCount | src/argsparser.py:6 | There is one piece more than there are `=`. |
| Args.SplitPieces | src/argsparser.py:6 | No piece holds `=`. |
| Args.SplitJoin | src/argsparser.py:6 | Joining the pieces with `=` gives back the token. |
| Args.SplitNone | src/argsparser.py:6 | A token without `=` is one piece. |
| Args.SplitAt | src/argsparser.py:6 | Text, `=`, rest splits into the text, then the pieces of the rest. |
| Args.RemoveDashes | src/argsparser.py:7 | `replace('--', '')` never lengthens the text. |
| Args.RemoveDashesSpec | src/argsparser.py:7 | The result holds no `--`, and a text without `--` is left unchanged. |
| Args.RemoveDashesTwice | src/argsparser.py:7 | Removing `--` twice is removing it once. |
| Args.ArgWithValue | src/argsparser.py:6-15 | With exactly one `=`, the key is the left side without `--`. The value is the right side, or `'error'` when it is empty. |
| Args.ArgWithoutValue | src/argsparser.py:6-15 | A token without `=` maps its name to `'error'`. |
| Args.ArgManyValues | src/argsparser.py:9-15 | A token with two or more `=` maps to `'error'`. |
| Args.ArgsMapKeys | src/argsparser.py:5-15 | The keys are exactly the tokens' names, and every value is a non-empty text. |
| Args.ArgsMapLastWins | src/argsparser.py:5-15 | A key holds the value of its last token. |
| Args.ParseArgs | src/argsparser.py:3-18 | The loop returns ArgsMap of the tokens. |
| Args.DashedName | src/argsparser.py:7 | Removing `--` from `--name` gives the name. |
| Args.TokenWithValue | src/argsparser.py:6-15 | `--name=value` maps `name` to `value`, or to `'error'` when the value is empty. |
| Args.TokenFlag | src/argsparser.py:6-15 | `--name` maps `name` to `'error'`. |
| Args.ParseArgsSingle | src/argsparser.py:22 | `['--test=a']` gives `{'test': 'a'}`. |
| Args.ParseArgsEmptyValue | src/argsparser.py:25-27 | `--test1=` gives `{'test1': 'error'}`. |
| Args.ParseArgsFlag | src/argsparser.py:24 | `--testFlag` gives `{'testFlag': 'error'}`. |

## Left out

- File handles are not modelled. A loaded file is its list of lines, and a written file is the text written to it. `open` and encodings are not modelled. The text-mode translation of `\r\n` and `\r` is modelled by `Text.ReadLines`, which the round trip uses; the loaders themselves take lines already read.
- `stats_to_csv` and `generate_stats` are not modelled: they only hand the matrix to the `csv` module and the file system.
- The packaged `write_fasta` (`src/packages/Utils/seq_file_manager.py:34-49`) is not modelled. It derives one output file per input file name through `os.path`, which is library behaviour.
- `error_length`, `error_generic`, `error_mode` and `error_path` (`src/fasta.py:88-129`) are not modelled. They only print and call `sys.exit`. The width is a `nat`, which stands in for the non-negative width `error_length` guards.
- The abstract transformer bases define no behaviour of their own. Their one effect, that a class leaving an abstract method undefined cannot be built, is modelled by `Transformers.Instantiate`. The built transformer objects are the `Transformers.Transformer` datatype.
- Transformers.RemoverTwice: with `src/transformers.py`'s base as written the remover cannot be built (`Transformers.RemoverNotInstantiable`), so the lemma, like `Transformers.Pipeline`, is about the corrected remover.
- Plotting and the command-line scripts are not part of this model.
- `str.strip`, `upper` and `lower` are modelled for ASCII only. Non-ASCII whitespace and Unicode case mappings are not modelled.
- `SeqFileManager(case=0)`: the default `0` is not a `Case` member, so `format_sequence` folds nothing. The model writes this default as `Original`, which behaves identically.
- Renaming.RenameDuplicates: the contract states the outcome only for lists that hold no object twice. The same object appearing twice in a list (aliasing) is not modelled.
- Transformers.Apply: the same restriction to lists without repeated objects applies.
- Transformers.SequenceListTransformer.ApplyTransformations: the same restriction applies. The stored objects' ids are also not stated for a pipeline that holds a renamer in a later position or holds two renamers. Such a renamer renames whatever objects reach it: copies after a strand step, but the stored objects themselves when only removers come before it.
- Transformations.DuplicateManager: the same restriction applies to the `rename` mode.
- PackagedTransformers.DuplicatedTransform: the same restriction applies to the `rename` style.
- Transformations.DuplicateManager: for a mode other than `rename` or `remove`, the model returns the input's objects in order. It does not capture that Python returns the very list object the caller passed.
- Transformations.ReverseComplement: for an unknown style, Python's `list(sequence)` copy is modelled as the input's objects in order. The copy's identity is not modelled.
- The strand transformers stop with `Failure` at the first `KeyError`. The partly built `toret` list is never returned in Python either, so nothing of it is modelled.
- Args.ParseArgs: Python first stores `True` for a token without exactly one `=` and replaces it in the same iteration. The model keeps a `Flag` value for that moment, and it never reaches the result.
- Args: the module's multi-token examples are stated token by token (TokenWithValue, TokenFlag) and through ArgsMapLastWins, not as whole dictionaries.
- Fasta.FirstRecordBody: the split of the first record's body around its header is stated for `src/fasta.py` only. For the packaged loader, Fasta.ParseAt states instead that the first body starts right after its header.

## Findings

| source | as written | input that shows it | evidently intended | confidence | as-written member | corrected member |
|---|---|---|---|---|---|---|
| src/transformers.py:18 | `DuplicatedIdentifiersRemover` defines only `transform`, while its base `AbstractTransformer` declares `transform` and `reverse` abstract. Calling the class raises `TypeError`, so the remove mode of `src/disambiguate.py:11` fails before reading any record. | `DuplicatedIdentifiersRemover()` | the remover is constructible, as it is under the later base that declares only `transform` | not executed | Transformers.RemoverNotInstantiable | Transformers.InstantiateIntended |
| src/fasta.py:37 | `format_sequence` writes `sequence.seq_id`, an attribute `Sequence` (`src/sequences.py:4-6`) does not define. Every call raises `AttributeError`, so `write_fasta` fails on any non-empty list. | any record, e.g. `Sequence('S1', 'ACGT')` | the header reads `sequence.id` | not executed | Fasta.FormatSequenceAsWrittenFails | Fasta.FormatSequence |
