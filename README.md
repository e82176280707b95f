# GenomicsToolbox core in Dafny

This project models three scripts of GenomicsToolbox and proves properties of them.

- **getMolecules.py, `get_gemcode_regions`.** It makes one pass over coordinate-sorted 10X linked reads. Per RX barcode it keeps the list of (chromosome, position) entries of that barcode's open molecule. A read either opens the list, extends it, or closes it. A closed list becomes a molecule `(chr, start, end, barcode, readcount)`: start and end are the smallest and largest positions, and readcount is the number of entries. The list then restarts with the current read. The `gemcodes` table is a class, `Molecules.BarcodeTable`, updated in place by `Step`. The whole pass is the method `Molecules.GetGemcodeRegions`.
- **formatAuthorlist.py.**
  - `load_authors` renames affiliation keys. A digit key gets the next number 1, 2, 3, … the first time it appears, and keeps that number after. Any other key stays as it is. `revised_affils` maps each new key to the old key's affiliation. Each author's keys are written as the sorted numbers first, then the other keys.
  - `print_authors` and `print_affils` render the author line and the numbered affiliations, in HTML or plain text. Printing is modelled as the text that would be printed.
- **formatContributions.py.** `make_contribs_dict` maps each contribution category of a TSV header to the initials of the authors whose cell in that column is non-empty. The output loop in `main` then writes `categ: A.B., C.D.; ` per category.

Python dicts keep insertion order. They are modelled by `OrderedDict.ODict`: a key sequence and a map, where assigning an existing key keeps its place. The module `Text` holds the Python primitives the scripts use, with Python's semantics:
- `isdigit`, `rstrip`, `split`, `join` and `str(n)`;
- slices `s[n:]` and `s[:n]`;
- indexing `s[i]`, where a negative index counts from the end.

Gap rule on line 50 of getMolecules.py:
- The comment on lines 47-49 says a molecule closes when the next read is "beyond dist".
- The code closes it when `pos - last.pos < dist`.
- The model follows the code. The comparison is a parameter `GapRule`: `AsWritten` is the code's rule and `AsDocumented` is the comment's. Every invariant is proved for both; see Findings.

## Model

| member | source | states |
|---|---|---|
| Text.RStrip | formatContributions.py:31 | the result is a prefix of the line, does not end in whitespace, and only whitespace was removed |
| Text.Split | formatContributions.py:37 | `split('\t')` returns at least one field and no field contains the separator |
| Text.JoinSplit | formatAuthorlist.py:44 | joining the fields of a split with the separator gives back the string |
| Text.SplitJoin | formatAuthorlist.py:62 | splitting a join of separator-free parts gives back the parts |
| Text.ParseNatToString | formatAuthorlist.py:60 | `int(str(n)) == n` for every natural number |
| Text.NatToStringParseNat | formatAuthorlist.py:60 | `str(int(s)) == s` for a digit string without a leading zero: the other half of the round trip |
| Text.NatToString | formatAuthorlist.py:60 | `str(n)` of a natural number is a non-empty string of digits, so a new numeric key always passes `isdigit` |
| Text.PyDrop | formatContributions.py:31 | `s[n:]`: for 0 <= n <= len(s) the elements from n on; for -len(s) <= n < 0 the last -n elements; below -len(s) the whole sequence; past the end nothing |
| Text.PyTake | formatContributions.py:41 | `s[0:3]` is a prefix of length min(3, len(s)) |
| Text.PyIndexWraps | formatContributions.py:43 | for 0 <= i < len(s), `s[i]` and `s[i - len(s)]` are the same element, while `s[i + len(s)]` and `s[i - 2 * len(s)]` are out of range |
| Text.NonEmpty | formatAuthorlist.py:44-46 | skipping empty keys keeps every non-empty key exactly as often as it occurs, and nothing else |
| Text.NonEmptyIn | formatAuthorlist.py:45-46 | every item kept by the skip was in the input |
| Text.NonEmptyKeepsOrder | formatAuthorlist.py:44-46 | the kept keys are the items at strictly increasing positions, in order, and every non-empty item is among them |
| Text.JoinAvoids | formatContributions.py:79 | `', '.join` introduces no character that is in neither the parts nor the separator |
| Text.JoinSnoc | formatContributions.py:79 | joining one more part appends the separator and then that part |
| OrderedDict.ODict.Put | formatAuthorlist.py:52 | assignment keeps the dict valid and sets the value; a new key goes to the end and an existing key keeps its place |
| OrderedDict.ItemsPutNew | formatAuthorlist.py:52 | assigning a new key makes `items()` the old items followed by the new pair |
| OrderedDict.ItemsPutExisting | formatAuthorlist.py:56 | assigning a key that is already present changes only its own item, in its own place |
| OrderedDict.SizeIsCardinality | formatAuthorlist.py:51 | `len(d)` is the number of distinct keys |
| Molecules.MinPos | getMolecules.py:51 | the start is a lower bound of the list's positions and is one of them |
| Molecules.MaxPos | getMolecules.py:51 | the end is an upper bound of the list's positions and is one of them |
| Molecules.Close | getMolecules.py:51 | the molecule yielded for a list is valid (start <= end, readcount >= 1), covers every entry, shares the entries' chromosome, and has the list's length as its readcount |
| Molecules.Transition | getMolecules.py:46-55 | one read keeps the table well formed, adds only its own barcode, leaves every other barcode's list unchanged, and yields at most one valid molecule, of its own barcode |
| Molecules.Process | getMolecules.py:44-55 | the pass keeps the table well formed and yields at most one molecule per read |
| Molecules.FirstReadOpens | getMolecules.py:50-55 | a barcode's first read yields nothing and opens the one-entry list of that read |
| Molecules.ChromosomeChangeCloses | getMolecules.py:50-52 | a read on another chromosome than its barcode's last entry yields the whole old list as a molecule and restarts the list with the read |
| Molecules.SameChromosomeDecidedByGap | getMolecules.py:50-55 | on one chromosome, a molecule is yielded exactly when the gap test holds: then the list restarts, and otherwise the read is appended |
| Molecules.DocumentedRuleMergesWithinDist | getMolecules.py:47-49 | under the rule the comment describes, a same-chromosome read at most dist after the last entry is appended and yields nothing |
| Molecules.DocumentedRuleSplitsBeyondDist | getMolecules.py:47-49 | under the rule the comment describes, a gap beyond dist closes the molecule |
| Molecules.ProcessSnoc | getMolecules.py:44 | reads are handled strictly in order: one more read only appends to the molecules already yielded |
| Molecules.ProcessYieldsValidMolecules | getMolecules.py:51 | every molecule the pass yields has start <= end and at least one read |
| Molecules.EmptyInputYieldsNothing | getMolecules.py:41-44 | no reads yield no molecules and leave the table empty |
| Molecules.ConservationPerBarcode | getMolecules.py:44-55 | per barcode, reads consumed plus reads open at the start equal readcounts yielded plus reads open at the end |
| Molecules.Conservation | getMolecules.py:44-55 | the same balance over all barcodes together |
| Molecules.PassFromNothing | getMolecules.py:41-55 | from an empty table every molecule is valid, and the readcounts yielded plus the entries still open add up to the number of reads |
| Molecules.FlushKeys | getMolecules.py:44-55 | not in the source: closing a set of open barcodes yields one molecule per barcode, with distinct barcodes, each the molecule of that barcode's whole list |
| Molecules.FlushKeysCovers | getMolecules.py:44-55 | not in the source: every barcode of the set is flushed |
| Molecules.FlushYieldsEachOpenListOnce | getMolecules.py:44-55 | not in the source: the flush yields each open barcode exactly once, as a valid molecule of its whole list |
| Molecules.FlushValid | getMolecules.py:51 | every flushed molecule is valid |
| Molecules.FlushConservation | getMolecules.py:44-55 | the flushed readcounts sum to the reads still open |
| Molecules.RunWithFlushAccountsForEveryRead | getMolecules.py:44-55 | not in the source: with a flush after the pass, every molecule is valid and the readcounts of all molecules add up to the number of reads |
| Molecules.BarcodeTable.constructor | getMolecules.py:41 | the table starts empty with the given dist and rule |
| Molecules.BarcodeTable.Step | getMolecules.py:46-55 | one read updates the table in place exactly as Transition says, and no other barcode's list changes |
| Molecules.GetGemcodeRegions | getMolecules.py:14-55 | the molecules yielded, in order, and the lists left open are those of Process; every molecule is valid; readcounts yielded plus entries left open equal the number of reads |
| MoleculesAsWritten.AsWrittenAgreesUpToCrash | getMolecules.py:50-55 | on a table of lists, the literal step raises exactly when it closes a one-entry list, and then it raises IndexError; otherwise it yields what the model yields, and its table, with the bare tuple read as a one-entry list, is the model's |
| MoleculesAsWritten.StepAsWritten | getMolecules.py:46-55 | the literal step never raises on a barcode's first read and always raises AttributeError on a barcode holding the bare tuple; otherwise only the read's barcode changes, and a yielded molecule is valid, has at least two reads and leaves the bare tuple behind |
| MoleculesAsWritten.ProcessAsWritten | getMolecules.py:44-55 | while the literal loop runs without raising, it yields at most one molecule per read, each valid and with at least two reads |
| MoleculesAsWritten.LiteralExtends | getMolecules.py:55 | where the model opens or extends a list, the literal step appends the same entry |
| MoleculesAsWritten.LiteralCloses | getMolecules.py:51-52 | closing a list of two or more entries yields the model's molecule and stores the bare tuple |
| MoleculesAsWritten.LiteralClosesOneEntry | getMolecules.py:51 | closing a one-entry list raises IndexError at `gemcodes[gem][1]` |
| MoleculesAsWritten.ChrIndexRaisesOnOneEntryList | getMolecules.py:51 | a concrete one-entry list and a read that closes it raise IndexError |
| MoleculesAsWritten.ResetTupleBreaksNextRead | getMolecules.py:50-52 | after any close, the next read of that barcode raises AttributeError, because `[-1]` of the stored tuple is a position, not a coordinate |
| MoleculesAsWritten.ResetKeepsOneEntryList | getMolecules.py:52 | in the model, the reset leaves the one-entry list of the closing read, on one chromosome |
| MoleculesAsWritten.OneEntryListCloses | getMolecules.py:50-52 | a read that closes a one-entry list yields that entry alone as a molecule and opens its own one-entry list |
| MoleculesAsWritten.OpenListGrows | getMolecules.py:55 | a read that does not close a list is appended to it and yields nothing |
| MoleculesAsWritten.LiteralGapSplitsNearbyReads | getMolecules.py:50 | with lines 51-52 corrected but the test of line 50 as written, three reads 400 bp apart under dist 1000 give two single-read molecules and leave the third read open (the literal program raises IndexError on the second read) |
| MoleculesAsWritten.DocumentedGapMergesNearbyReads | getMolecules.py:47-50 | with the comment's test, the same three reads form one open list and nothing is yielded |
| MoleculesAsWritten.LiteralGapMergesDistantReads | getMolecules.py:50-52 | the literal program, on reads AAA at chr1:100, chr1:5000 and chr2:0 with dist 1000, raises nothing and yields one molecule chr1:100-5000 of two reads, joining reads 4900 bp apart |
| MoleculesAsWritten.DocumentedGapSplitsDistantReads | getMolecules.py:47-52 | with the comment's test and lines 51-52 corrected, the same reads give two single-read molecules on chr1 and leave chr2:0 open |
| MoleculesAsWritten.NoFlushDropsOpenLists | getMolecules.py:44-55 | a single read yields no molecule at all: its list is still open when the reads run out |
| AuthorList.NoTablesInv | formatAuthorlist.py:35-36 | the empty dicts satisfy the renumbering invariant for any affiliations, so it holds before the first row |
| AuthorList.NumberingIsBijection | formatAuthorlist.py:50-52 | the renumbering is injective and its numbers are exactly 1 .. len(affil_map) |
| AuthorList.MapKey | formatAuthorlist.py:47-57 | a key already in affil_map never raises, since affils is not consulted for it; a KeyError names the key and happens only when it has no affiliation; affil_map is unchanged or gains exactly this digit key at its end |
| AuthorList.RepeatedKeyReusesNumber | formatAuthorlist.py:47-48 | a key seen before gets its existing number back, and neither table changes |
| AuthorList.NewDigitKeyGetsNextNumber | formatAuthorlist.py:50-52 | a new digit key gets len(affil_map) + 1, is appended to affil_map, and the invariant holds after |
| AuthorList.NonDigitKeyPassesThrough | formatAuthorlist.py:53-57 | a non-digit key is kept as it is, affil_map does not change, and revised_affils maps the key itself to its affiliation |
| AuthorList.MapKeyFailsIffUnknown | formatAuthorlist.py:56 | renaming a key raises KeyError, naming the key, exactly when the key has no affiliation |
| AuthorList.MapKeyPreservesInv | formatAuthorlist.py:47-57 | renaming a key keeps the numbering 1..n in insertion order, and revised_affils agrees with affils |
| AuthorList.InvHasDigitKeys | formatAuthorlist.py:50-52 | only digit keys are in affil_map |
| AuthorList.MapKeyRenames | formatAuthorlist.py:47-57 | numbers once given never change, a digit key ends up numbered, and the key returned is its renamed form |
| AuthorList.KeysFromKeepsInv | formatAuthorlist.py:43-57 | one author's keys keep the invariant |
| AuthorList.KeysFrom | formatAuthorlist.py:43-57 | on success one new key per non-empty item is appended after the keys already collected; a KeyError names a non-empty item of the row that has no affiliation |
| AuthorList.KeysFromNumbersDigits | formatAuthorlist.py:44-57 | after one author's keys, every digit key among them is numbered and earlier numbers are unchanged |
| AuthorList.KeysFromRenames | formatAuthorlist.py:43-57 | an author's new keys are its non-empty keys in order, each renamed with the final numbering |
| AuthorList.KeysFromSucceedsIff | formatAuthorlist.py:44-56 | an author's keys raise KeyError exactly when some non-empty key has no affiliation |
| AuthorList.KeysFromOrder | formatAuthorlist.py:50-52 | affil_map's keys, in insertion order, are the digit keys in order of first appearance |
| AuthorList.KeysFromNames | formatAuthorlist.py:44-56 | after one author's keys, the kept (non-digit) keys of revised_affils are those before plus exactly the author's non-empty non-digit keys |
| AuthorList.Insert | formatAuthorlist.py:60 | inserting into a sorted list keeps it sorted and adds exactly that number |
| AuthorList.SortAsc | formatAuthorlist.py:60 | `sorted(nums)` is ascending and a permutation of nums |
| AuthorList.SplitRenamedKeys | formatAuthorlist.py:60-61 | for renamed keys, the numeric part is the numbers of the digit keys, sorted as a permutation of them, and the rest is the non-digit keys unchanged and in order |
| AuthorList.AffilString | formatAuthorlist.py:60-62 | the stored string starts with the encoded sorted numbers, and is exactly that when the author has no non-digit key |
| AuthorList.AuthorAffilString | formatAuthorlist.py:59-62 | an author's stored string is the encoded sorted numbers of its digit keys, then its other non-empty keys in order, joined by ',' |
| AuthorList.NumberTextIsDigits | formatAuthorlist.py:60 | `str(k)` of a new number passes `isdigit` |
| AuthorList.LoadFromFacts | formatAuthorlist.py:39-64 | the row loop raises exactly when some non-empty key has no affiliation; on success the invariant holds and affil_map's keys are the digit keys in order of first appearance |
| AuthorList.LoadFrom | formatAuthorlist.py:39-62 | on success the keys of `authors` are exactly the earlier authors plus the authors of the rows, and the dict stays valid; a KeyError names a key with no affiliation |
| AuthorList.LoadAuthorsSpec | formatAuthorlist.py:34-64 | on success `authors` is a valid dict whose keys are exactly the authors named by some row; a KeyError names a key with no affiliation |
| AuthorList.LoadAuthorsRenumbering | formatAuthorlist.py:29-64 | load_authors succeeds exactly when every key is known; then the i-th digit key to first appear is numbered i + 1; revised_affils holds exactly the numbers 1..len(affil_map) and the non-empty non-digit keys of the rows, and gives each new key the old key's affiliation |
| AuthorList.RevisedNumbers | formatAuthorlist.py:50-56 | under the invariant the numbers in revised_affils are exactly 1..len(affil_map) |
| AuthorList.RevisedNames | formatAuthorlist.py:39-56 | after load_authors, a kept key is in revised_affils exactly when it is a non-empty non-digit key of some row |
| AuthorList.LoadFromNames | formatAuthorlist.py:39-56 | over the remaining rows, the kept keys of revised_affils grow by exactly the rows' non-empty non-digit keys |
| AuthorList.LoadFromExtends | formatAuthorlist.py:47-52 | over the remaining rows, a number once given never changes and only digit keys are numbered |
| AuthorList.LoadFromNumbersAll | formatAuthorlist.py:44-52 | after the rows, every digit key of every row is numbered |
| AuthorList.LoadFromKeepsOthers | formatAuthorlist.py:62 | an author named by no remaining row keeps its value |
| AuthorList.RenameAllExtends | formatAuthorlist.py:47-52 | renaming with a larger numbering gives the same keys once every digit key is numbered |
| AuthorList.LoadFromLastRow | formatAuthorlist.py:40-62 | line 62 overwrites: an author's value is made from the keys of the last row naming it, renamed with the final numbering |
| AuthorList.LoadAuthorsLastRowWins | formatAuthorlist.py:34-64 | each author's value is built from its last row: the range-encoded sorted numbers of its digit keys, then its other non-empty keys in order, joined by ',' |
| AuthorList.RowKeysMember | formatAuthorlist.py:40-44 | a key is among all rows' keys exactly when some row's comma-separated keys contain it |
| AuthorList.RenameKeys | formatAuthorlist.py:43-57 | the inner loop over one author's keys, including `continue` on '' and KeyError, computes KeysFrom |
| AuthorList.LoadAuthors | formatAuthorlist.py:34-64 | the loop over the rows, updating the three dicts in place, returns what LoadAuthorsSpec states |
| AuthorList.PrintedIsJoin | formatAuthorlist.py:74-82 | the first k printed entries are the entries joined by ', ', then ', ' or a newline depending on whether the k-th is the last |
| AuthorList.PrintedAll | formatAuthorlist.py:72-82 | all authors printed are the entries joined by ', ' with one newline after, or nothing for no authors |
| AuthorList.PrintAuthors | formatAuthorlist.py:67-86 | print_authors writes the entries joined by ', ', a newline, then the trailer ('' or two `<br />`) |
| AuthorList.ItemsWhere | formatAuthorlist.py:95-97 | one pass lists only items whose key is numeric (or only items whose key is not) |
| AuthorList.ItemsWhereKeepsOrder | formatAuthorlist.py:95-97 | one pass lists its group's items at strictly increasing positions of the dict order, and misses none of them |
| AuthorList.PartitionIsPermutation | formatAuthorlist.py:95-97 | the two passes together list every item exactly as often as it occurs |
| AuthorList.AffilOrderNumericFirst | formatAuthorlist.py:94-98 | with numeric_first, the order is a permutation of the items and every numeric key comes before every other key |
| AuthorList.ItemsWhereAllOneGroupIf | formatAuthorlist.py:94-101 | when every key is numeric, or none is, the numeric_first order is the dict order |
| AuthorList.AffilLinesAppend | formatAuthorlist.py:95-98 | the lines of two passes are the first pass's lines followed by the second's |
| AuthorList.PrintPass | formatAuthorlist.py:96-98 | one pass prints, in dict order, a line `i. aff` ending in a newline and `<br />` for each item of its group |
| AuthorList.PrintAffils | formatAuthorlist.py:89-106 | print_affils writes one line per item, numeric keys first when asked or in dict order otherwise, then the trailer |
| AuthorList.AffilsTextOneGroup | formatAuthorlist.py:94-106 | when every key is numeric, or none is, print_affils writes the same text with or without numeric_first |
| Contributions.Fields | formatContributions.py:37 | the fields of a line hold no tab |
| Contributions.Categories | formatContributions.py:31 | no category holds a tab, and for 0 <= ignore <= the number of header fields there are exactly `ignore` fewer categories than fields |
| Contributions.InitialDict | formatContributions.py:32 | the initial dict holds exactly the header's categories, each with no contributors |
| Contributions.InitialDictKeys | formatContributions.py:32 | with distinct categories, the dict lists them in header order |
| Contributions.InitialsShape | formatContributions.py:41 | `''.join(['{}.'.format(x[0]) for x in xs if x != ''])` (InitialsOf) is the first letter of each non-empty field, each followed by '.' |
| Contributions.AutoInitials | formatContributions.py:41 | automatic initials are letter-dot pairs from at most three fields: even length, at most six characters |
| Contributions.FullNameInitials | formatContributions.py:41 | first name, middle initial and last name give "R.L.C." |
| Contributions.MissingMiddleNameInitials | formatContributions.py:41 | an empty middle name is skipped: "R.C." |
| Contributions.RowInitials | formatContributions.py:39-43 | no column gives the automatic initials; with a column the result exists exactly when `initials_col - 1` is a valid Python index, a 1-based column gives that field, and a column c <= 0 gives the field |vals| + c - 1 counted from the front (0 gives the last field) |
| Contributions.IndicatorsCount | formatContributions.py:45 | a row is marked in exactly as many cells as it has non-empty cells after `ignore` |
| Contributions.AddRow | formatContributions.py:45-47 | recording a row changes no key and keeps the dict valid |
| Contributions.AddRowDistinct | formatContributions.py:45-47 | with distinct categories, a row adds its initials to category j exactly when j is paired by zip and marked |
| Contributions.LineStep | formatContributions.py:37-47 | one line raises exactly when its initials cannot be read; otherwise it changes no key and keeps the dict valid |
| Contributions.ContribsFrom | formatContributions.py:35-47 | after any lines the dict is valid with the header's keys in header order |
| Contributions.BadInitialsColumnFails | formatContributions.py:43 | one line whose initials column is out of range makes the whole call raise IndexError |
| Contributions.ContribsSucceedsIff | formatContributions.py:35-43 | the dict is built exactly when no line's initials column is out of range |
| Contributions.Marked | formatContributions.py:45-47 | the independent reference: the initials of the rows marked in column j, at most one per row |
| Contributions.LineStepMarks | formatContributions.py:37-47 | one line appends to category j exactly its own mark for that column |
| Contributions.ContribsPerCategory | formatContributions.py:35-49 | with distinct categories, each category's list is the initials of exactly the rows whose cell is non-empty, in row order, so no longer than the number of rows |
| Contributions.ContribsPerAnyCategory | formatContributions.py:31-49 | for any header, repeated names included, category c's list holds each row's initials once for every column named c whose cell is non-empty, row after row |
| Contributions.LineStepCategory | formatContributions.py:37-47 | one line appends to category c exactly its marks under the columns named c |
| Contributions.AddRowCategory | formatContributions.py:45-47 | the first k pairs of zip append the row's initials to c once per marked column named c |
| Contributions.CategoryMarksBeyond | formatContributions.py:45 | columns past the end of a row's cells are not paired by zip and record nothing |
| Contributions.RowMarksOfLine | formatContributions.py:37-45 | a line with initials marks with them exactly its non-empty cells after `ignore` |
| Contributions.HeaderOnly | formatContributions.py:31-32 | with no data lines every category has no contributors |
| Contributions.TwoMarksOneCategory | formatContributions.py:45-47 | two marked columns of the same category append the initials twice |
| Contributions.DuplicateHeaderCategories | formatContributions.py:31 | a header naming a category twice gives it twice in `categs` |
| Contributions.MarkedTwiceRow | formatContributions.py:37-45 | a concrete row marked in both columns, with initials in column 1 |
| Contributions.DuplicateCategoryCollectsTwice | formatContributions.py:31-49 | a category named twice in the header gets a row's initials once per marked column |
| Contributions.RecordRow | formatContributions.py:45-47 | the zip loop appends the initials to each marked category, as AddRow says |
| Contributions.MakeContribsDict | formatContributions.py:22-49 | make_contribs_dict, as a loop over the lines, returns what MakeContribsSpec states, including IndexError |
| Contributions.WriteContribs | formatContributions.py:78-80 | the output is one `categ: initials; ` segment per category in dict order, then a newline |
| Contributions.SegmentsAvoidNewline | formatContributions.py:78-80 | when no category or initials holds a newline, the statement is a single line |
| Contributions.SegmentHasOneTerminator | formatContributions.py:79 | a segment whose category and initials hold no ';' has exactly one ';', second to last |
| Contributions.SegmentsCountTerminators | formatContributions.py:78-79 | then the statement has exactly one ';' per category, so the segments can be told apart |
| Contributions.TwoContributorsSegment | formatContributions.py:79 | two contributors are joined by ', ' inside a segment |
| Contributions.StatementExample | formatContributions.py:78-80 | two categories, one with two contributors and one with none, give "Design: R.L.C., A.B.; Writing: ; " and a newline |

Plain definitions of Python primitives and of the scripts' expressions carry no row of their own; the rows above state their properties: Text.Join, Text.IsDigits, Text.ParseNat (`int(s)`), Text.PyIndex (`s[i]`), OrderedDict.ODict.Items (`d.items()`), AuthorList.NoTables (the empty dicts), AuthorList.AuthorEntry and AuthorList.AuthorEntries (line 78), AuthorList.AffilOrder, AuthorList.AuthorsOf and AuthorList.RowKeys (the authors and the keys of all rows), Contributions.InitialsOf, Contributions.Indicators, Contributions.MakeContribsSpec (`make_contribs_dict` on a header and its data lines), Contributions.CategoryMarks and Contributions.MarkedCategory (the per-category reference used by ContribsPerAnyCategory), Contributions.Segment and Contributions.Segments.

## Left out

- Reading the BAM file (pysam) and `read.get_tag('RX')`: the reads are a sequence of (reference name, start, RX tag) values.
- `get_gemcode_regions` is a generator. The model returns the whole sequence of molecules it would yield, in order, and does not model laziness.
- Molecules.GetGemcodeRegions: models the corrected line 51 (chromosome of the first entry) and line 52 (reset to a one-entry list). The literal crashes are modelled in MoleculesAsWritten.
- Molecules.FlushKeys, Molecules.Flush and Molecules.RunWithFlush are not part of the source and are ghost. They state what a flush of the open lists at the end would yield.
- `load_affils` and the csv reading of both files are not modelled.
  - `affils` is a map parameter.
  - The author rows are (author, keys) pairs.
  - csv quoting and rows that are not exactly two fields (a ValueError in the source) are outside the model.
- `pynumparser.NumberSequence().encode` is a third-party library. It is a function parameter `encode`, so the range compression of the numbers is not modelled.
- `nonnumeric_affils` is filled on line 55 but never used. It is not modelled.
- File and terminal I/O: `print` and `outfile.write` are modelled as the text they would write. Opening and closing files, the choice of stdout, and argparse in both `main` functions are left out. Only the rendering loop of formatContributions.py (lines 78-80) is modelled.
- Text.IsDigits: `str.isdigit` is modelled for ASCII digits only. Python also accepts other Unicode digits, such as superscripts.
- Text.IsSpace: `str.rstrip()` is modelled with space, `\t`, `\n`, `\r`, `\x0b` and `\x0c` only. Python also strips the separators `\x1c` to `\x1f` and other Unicode whitespace.
- Read positions (`reference_start`) are unbounded integers. The model has no 32-bit limit, and unmapped reads are not modelled.

## Findings

| source | as written | input that shows it | evidently intended | confidence | as-written member | corrected member |
|---|---|---|---|---|---|---|
| getMolecules.py:50 | closes a molecule when `read.reference_start - last.pos < dist`, and merges reads farther apart | reads AAA at chr1:100, chr1:5000, chr2:0 with dist 1000: one molecule chr1:100-5000 of two reads, joining a 4900 bp gap | close only when the gap is beyond dist, as the comment on lines 47-49 says | not executed | MoleculesAsWritten.LiteralGapMergesDistantReads | MoleculesAsWritten.DocumentedGapSplitsDistantReads |
| getMolecules.py:51 | takes the chromosome from `gemcodes[gem][1]` | a one-entry list for barcode AAA at chr1:100, then read chr1:500 AAA with dist 1000: IndexError | the chromosome shared by all entries (entry 0) | not executed | MoleculesAsWritten.ChrIndexRaisesOnOneEntryList | Molecules.Close |
| getMolecules.py:52 | stores the bare `coords` tuple as the barcode's new value | any close followed by another read of the same barcode: AttributeError on `[-1].chr` | store the one-entry list `[coords(...)]` | not executed | MoleculesAsWritten.ResetTupleBreaksNextRead | MoleculesAsWritten.ResetKeepsOneEntryList |
| getMolecules.py:44-55 | yields nothing for the lists still open when the reads run out | a single read: no molecule at all | flush every open list once at the end | not executed | MoleculesAsWritten.NoFlushDropsOpenLists | Molecules.RunWithFlushAccountsForEveryRead |

Other behaviours the model makes explicit, which are not claimed as bugs:
- In formatContributions.py, `--initials-column 0` reads `line_vals[-1]`, the last field, and a negative column counts further from the end (Contributions.RowInitials).
- In formatContributions.py, a category named twice in the header collects each marked author once per marked column of that name (Contributions.ContribsPerAnyCategory, with the concrete case Contributions.DuplicateCategoryCollectsTwice).
