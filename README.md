# Deep eutectic solvent screening: pairing, ranking and export

This project models the logic of the screening web application for
hydrogen-bond donors (HBD) and acceptors (HBA). A pair of one donor and one
acceptor forms a complex, scored by its EFI score. Two pages are covered:

- The **molecular selector** (`src/components/MolecularSelector.tsx`):
  - It turns the three keyed data files into donor, acceptor and complex lists.
  - It holds the user's donor and acceptor picks, where the empty string means "nothing picked".
  - From the picks it derives the compatible partners of the picked molecule, ranked best EFI score first.
  - It also derives the complex of a fully picked pair.
  - Badges let the user fill the missing half of the pair.
- The **database viewer** (`src/pages/DatabaseViewer.tsx`):
  - It builds the CSV text of its export buttons.
  - It adds display names of the donor and acceptor to the exported complexes.
  - Rendering its complexes table sorts the `complexes` array in place by EFI score.

Modules:

- `SeqUtil` (`seq_util.dfy`): the JavaScript array operations the pages use.
  - `filter`, `find` and `join`.
  - The `split` that reads a joined string back.
- `Chem` (`chem.dfy`): molecules, complexes, lookup by id, and the stable descending EFI sort.
  - The sort is specified by a functional insertion sort, `SortByEfi`.
  - Lemmas prove that it orders, that it permutes and that it is stable.
- `Selector` (`selector.dfy`): the selector page.
  - The record transforms.
  - The resolver `Resolve`, which computes what the effect derives from the picks.
  - The class `MolecularSelector`, whose fields are the component's state. Its methods update the picks and then recompute the derived fields.
- `Database` (`database.dfy`): the viewer page.
  - The CSV export, and a reader used to state what the export means by reading it back. The reader accepts only the all-quoted subset of section 2 of RFC 4180 that the export's data records use: every field in double quotes, a doubled quote standing for one, and one record per `\n`-separated line. It rejects an unquoted field such as `a`. The export itself leaves the header line unquoted, which `ExportRoundTrip` reads back by splitting on `,`, and it does not double the quotes inside a primitive (see `Database.Field` under "## Left out").
  - The name fallback.
  - The in-place insertion sort on an `array`, proved equal to `SortByEfi`.
  - The class `DatabaseViewer`.

Modelling choices:

- An EFI score is a `real`. Only its order matters.
- The data files are given as sequences of `(key, record)` pairs, in `Object.entries` order.
- A CSV field value is one of three cases:
  - a primitive, carried as the text JavaScript would interpolate;
  - an object, carried as its `JSON.stringify` text;
  - a missing key, which prints as `undefined`.
- Number-to-text conversion and `JSON.stringify` are function parameters of the export members.

## Model

| member | source | states |
|---|---|---|
| SeqUtil.First | src/components/MolecularSelector.tsx:138 | `find` gives nothing exactly when no element matches; otherwise it gives an element that matches, at an index before which none matches |
| SeqUtil.FirstAt | src/components/MolecularSelector.tsx:138 | when index k is the first match, `find` gives the element at k |
| SeqUtil.Filter | src/components/MolecularSelector.tsx:116 | `filter` keeps every element that satisfies the test and only those, and is never longer than its input |
| SeqUtil.FilterPermutation | src/components/MolecularSelector.tsx:115-119 | filtering two permutations of one another keeps the same elements the same number of times |
| SeqUtil.FilterCommute | src/components/MolecularSelector.tsx:115-119 | two filters give the same list in either order |
| SeqUtil.JoinWith | src/pages/DatabaseViewer.tsx:63-73 | `join` of no parts is the empty text, and of one part is that part; the separator goes only between parts, which `SplitJoin` reads back |
| SeqUtil.JoinWithEnds | src/pages/DatabaseViewer.tsx:71 | a join of at least one part starts with the first part and ends with the last |
| SeqUtil.SplitJoin | src/pages/DatabaseViewer.tsx:63 | splitting a `join` on its separator gives back the parts, when no part holds the separator |
| SeqUtil.SplitJoinFirst | src/pages/DatabaseViewer.tsx:62-73 | the first piece of a joined text is the first part when that part holds no separator, whatever the later parts hold |
| SeqUtil.JoinWithAvoids | src/pages/DatabaseViewer.tsx:71-73 | a joined text holds a character other than the separator only if some part does |
| Chem.Find | src/components/MolecularSelector.tsx:118 | looking a molecule up by id finds nothing exactly when no molecule has the id; otherwise it finds the first molecule with that id |
| Chem.Insert | src/pages/DatabaseViewer.tsx:254 | one insertion step of the sort makes the list one longer; what it adds and where it puts it are `InsertMultiset`, `InsertKeepsSorted` and `InsertAt` |
| Chem.InsertMultiset | src/components/MolecularSelector.tsx:117 | one insertion step of the sort adds the new complex and loses none |
| Chem.InsertKeepsSorted | src/components/MolecularSelector.tsx:117 | one insertion step keeps a list in non-increasing EFI order |
| Chem.InsertAt | src/pages/DatabaseViewer.tsx:254 | an insertion step puts the complex after the last element that scores at least as high, in front of the trailing run of lower scores |
| Chem.SortByEfi | src/components/MolecularSelector.tsx:117-126 | the stable descending EFI sort keeps the length; the lemmas below prove it permutes, orders and keeps ties in input order |
| Chem.SortByEfiPermutes | src/components/MolecularSelector.tsx:117 | `sort((a, b) => b.efi_score - a.efi_score)` is a permutation of its input |
| Chem.SortByEfiSorts | src/components/MolecularSelector.tsx:117 | the sorted list is in non-increasing EFI order |
| Chem.SortByEfiStable | src/components/MolecularSelector.tsx:117 | for every score, the complexes with that score keep their input order |
| Chem.SortByEfiOfSorted | src/components/MolecularSelector.tsx:117 | a list already in EFI order is left as it is |
| Chem.SortByEfiIdempotent | src/components/MolecularSelector.tsx:117 | sorting twice gives the same list as sorting once |
| Chem.FilterKeepsSorted | src/components/MolecularSelector.tsx:117-119 | dropping complexes from a ranked list leaves it ranked |
| Selector.ReplaceUnderscores | src/components/MolecularSelector.tsx:56 | the name has the key's length and no underscore; each underscore becomes a space and every other character is kept |
| Selector.ReplaceUnderscoresFixed | src/components/MolecularSelector.tsx:56 | a key is shown unchanged exactly when it holds no underscore |
| Selector.ReplaceUnderscoresIdempotent | src/components/MolecularSelector.tsx:56 | replacing underscores a second time changes nothing |
| Selector.ToMolecules | src/components/MolecularSelector.tsx:54-83 | one molecule per entry, in entry order; the id and the formula are the key; the name is the key with spaces for underscores; mw and volume are 0; the descriptors are the record's |
| Selector.ToComplexes | src/components/MolecularSelector.tsx:86-99 | one complex per entry, in entry order; the donor and acceptor ids come from `HBD` and `HBA`; the ratio is "1:1"; the scores are copied; the complex descriptors are homo, lumo, gap, energy and dipole, taken from the record |
| Selector.FindTransformed | src/components/MolecularSelector.tsx:54-83 | with distinct keys, looking up an entry's key in the transformed list finds the molecule made from that entry |
| Selector.Join | src/components/MolecularSelector.tsx:118-119 | `map(find).filter(Boolean)`: the survivors are exactly the complexes whose partner id is known, in order, and each carries the molecule `find` returns for it |
| Selector.Ranked | src/components/MolecularSelector.tsx:115-128 | the complexes behind the ranked list are those with the anchor, sorted by descending EFI score, that have a known partner; each carries the first partner `find` returns for it |
| Selector.CompatiblePartners | src/components/MolecularSelector.tsx:115-128 | the compatible list has one molecule per ranked complex, in rank order, and each is a member of the partner list whose id is that complex's partner id |
| Selector.RankedOrigins | src/components/MolecularSelector.tsx:115-119 | every compatible molecule comes from a complex of the collection with the picked anchor; its id is that complex's partner id, and it is the first molecule of the partner list with that id |
| Selector.RankedByEfi | src/components/MolecularSelector.tsx:113-120 | the complexes behind the compatible list are in non-increasing EFI order |
| Selector.RankedStable | src/components/MolecularSelector.tsx:115-119 | among equal scores the compatible list keeps the collection's order |
| Selector.CompatibleCount | src/components/MolecularSelector.tsx:115-119 | there is one compatible molecule per anchor complex with a known partner, so the list is no longer than the anchor's complexes; dangling ids are dropped |
| Selector.ListedOnlyIfPaired | src/components/MolecularSelector.tsx:115-119 | a listed id is known and is paired with the anchor by some complex |
| Selector.PairedIsListed | src/components/MolecularSelector.tsx:115-119 | a known id paired with the anchor by some complex is listed |
| Selector.CompatibleIff | src/components/MolecularSelector.tsx:115-119 | an id is listed exactly when it is known and some complex pairs it with the anchor |
| Selector.CompatibilitySymmetric | src/components/MolecularSelector.tsx:113-130 | for a known donor and a known acceptor, the acceptor is listed for the donor exactly when the donor is listed for the acceptor |
| Selector.Resolve | src/components/MolecularSelector.tsx:112-143 | the compatible acceptors are non-empty only with a donor alone picked, and the compatible donors only with an acceptor alone; each list is the resolver's list in its case; the current complex exists exactly when both halves are picked and some complex pairs them, and it is then the first such complex |
| Selector.FirstPair | src/components/MolecularSelector.tsx:138 | the first complex with the given donor and acceptor ids, absent exactly when no complex has them |
| Selector.ListedIsPaired | src/components/MolecularSelector.tsx:289-294 | every molecule in the shown compatible list is paired with the picked anchor by some complex |
| Selector.ClickedPairResolves | src/components/MolecularSelector.tsx:289-300 | filling the missing half with a shown badge's non-empty id gives a pair for which the effect finds a current complex with exactly that pair |
| Selector.UreaComplexesRanked | src/components/MolecularSelector.tsx:115-117 | the donor's complexes scored 8.5 and 6.0 are ranked 8.5 first |
| Selector.UreaComplexesJoined | src/components/MolecularSelector.tsx:118-119 | both ranked complexes are joined to their acceptors |
| Selector.UreaRanking | src/components/MolecularSelector.tsx:113-120 | picking the donor lists its two acceptors, best score first |
| Selector.UreaPairFound | src/components/MolecularSelector.tsx:137-139 | picking both halves of a known pair gives its complex |
| Selector.UreaUnknownAcceptor | src/components/MolecularSelector.tsx:137-141 | an acceptor no complex mentions gives no current complex |
| Selector.MolecularSelector.constructor | src/components/MolecularSelector.tsx:29-36 | the initial state has empty lists, no picks and no derived values, and is consistent |
| Selector.MolecularSelector.Recompute | src/components/MolecularSelector.tsx:112-143 | the effect makes the derived fields equal to the resolver's result and changes nothing else |
| Selector.MolecularSelector.Load | src/components/MolecularSelector.tsx:101-103 | a successful load stores the three transformed lists, keeps the picks and recomputes |
| Selector.MolecularSelector.SelectHbd | src/components/MolecularSelector.tsx:200 | picking the current donor clears it and picking another replaces it; the acceptor and the lists are untouched; the derived fields are recomputed |
| Selector.MolecularSelector.SelectHba | src/components/MolecularSelector.tsx:254 | the same toggle for the acceptor; the donor is untouched |
| Selector.MolecularSelector.SelectedHbdData | src/components/MolecularSelector.tsx:145 | the picked donor's record is the first list member with the picked id, and is absent exactly when no member has that id |
| Selector.MolecularSelector.SelectedHbaData | src/components/MolecularSelector.tsx:146 | the same for the picked acceptor |
| Selector.MolecularSelector.ShownIsCompatible | src/components/MolecularSelector.tsx:289 | the badges shown are the compatible acceptors of the picked donor when there are any, and otherwise, when non-empty, the compatible donors of the picked acceptor |
| Selector.MolecularSelector.BadgeComplex | src/components/MolecularSelector.tsx:290-294 | every shown badge finds a complex of the collection; it is the first complex pairing the picked anchor with the badge's molecule |
| Selector.MolecularSelector.ClickBadge | src/components/MolecularSelector.tsx:300 | a click fills the missing half with the badge's id and keeps the other half; for a non-empty id there is then a current complex with exactly the picked pair |
| Database.Keys | src/pages/DatabaseViewer.tsx:61 | one header per field of the first row, in field order |
| Database.Lookup | src/pages/DatabaseViewer.tsx:66 | `row[header]` is the value of the first field of the row with that name, or missing when the row has no such field |
| Database.LookupOwnKey | src/pages/DatabaseViewer.tsx:66 | in a row with distinct names, each name looks up its own value |
| Database.DoubleQuotes | src/pages/DatabaseViewer.tsx:68 | a text without quotes is left unchanged |
| Database.DoubleQuotesAvoids | src/pages/DatabaseViewer.tsx:68 | doubling quotes adds no character other than the quote |
| Database.Field | src/pages/DatabaseViewer.tsx:66-70 | every field starts and ends with a quote; a primitive's text is put between quotes as it is; a field whose value reads back is its text quoted as section 2 of RFC 4180 asks |
| Database.FieldAvoids | src/pages/DatabaseViewer.tsx:66-70 | a field holds a character other than the quote only if the value's text does |
| Database.Record | src/pages/DatabaseViewer.tsx:65-71 | a record of no headers is empty; otherwise it starts and ends with a quote, being its quoted fields joined by commas |
| Database.Records | src/pages/DatabaseViewer.tsx:62-72 | one header line plus one record per row, in order; every record looks its values up by the first row's keys |
| Database.ExportCsv | src/pages/DatabaseViewer.tsx:58-73 | an empty table exports nothing; otherwise the export is the records joined by line breaks |
| Database.ReadQuotedEscaped | src/pages/DatabaseViewer.tsx:68 | a text with its quotes doubled and a closing quote is read back as that text |
| Database.ReadFieldsQuoted | src/pages/DatabaseViewer.tsx:64-71 | a record of quoted, escaped fields is read back as exactly those texts |
| Database.RecordRoundTrip | src/pages/DatabaseViewer.tsx:64-71 | a record whose values read back parses to one text per header, each the row's value under that header |
| Database.UnescapedQuoteUnreadable | src/pages/DatabaseViewer.tsx:70 | a primitive holding a quote is exported unescaped: for the text `a"b` the record `"a"b"` fails to parse |
| Database.UnescapedQuotesMisread | src/pages/DatabaseViewer.tsx:70 | for the text `a""b` the unescaped record `"a""b"` parses without error, but as the different text `a"b` |
| Database.ExportRoundTrip | src/pages/DatabaseViewer.tsx:58-73 | for an unambiguous table, the export splits into the records, the header splits into the first row's keys, and record i + 1 reads back as row i's values under those keys |
| Database.ExportHeader | src/pages/DatabaseViewer.tsx:61-63 | the first line of a non-empty export is the header, when no key holds a line break |
| Database.DisplayName | src/pages/DatabaseViewer.tsx:227-228 | the name of the first molecule with the id, or the id itself when there is none or the name is empty; the result is the id or a name of such a molecule, and it is empty only for an empty id |
| Database.DisplayNameOfTransformed | src/pages/DatabaseViewer.tsx:227-228 | for lists made by the selector's transform, a known key is shown as the key with spaces for underscores, even when keys repeat |
| Database.ComplexRow | src/pages/DatabaseViewer.tsx:225-229 | an exported complex has the six complex fields in declaration order followed by `hbd_name` and `hba_name`, all distinct |
| Database.ComplexRowFields | src/pages/DatabaseViewer.tsx:225-229 | each exported field holds the complex's own value, and the two names are the display names of its donor and acceptor |
| Database.ComplexExportShape | src/pages/DatabaseViewer.tsx:224-231 | the complexes export has the fixed header line and one record per complex, in array order |
| Database.ComplexHeaderSplits | src/pages/DatabaseViewer.tsx:224-229 | the complexes header line splits back into the eight field names |
| Database.MoleculeRow | src/pages/DatabaseViewer.tsx:128 | an exported molecule has the fields id, name, formula, mw and descriptors, all distinct |
| Database.MoleculeRowFields | src/pages/DatabaseViewer.tsx:128 | each exported molecule field holds the molecule's own value; the descriptors are an object, exported as its JSON |
| Database.SortByEfiInPlace | src/pages/DatabaseViewer.tsx:253-254 | the array ends up holding the stable descending sort of its old contents |
| Database.InsertInPlace | src/pages/DatabaseViewer.tsx:254 | one pass moves an element into the sorted prefix in place, as one insertion step, and leaves the rest of the array alone |
| Database.DatabaseViewer.constructor | src/pages/DatabaseViewer.tsx:45-47 | the page state once loaded holds the given lists, the complexes in a fresh array |
| Database.DatabaseViewer.ComplexTableRows | src/pages/DatabaseViewer.tsx:253-261 | rendering sorts the complexes array in place, and each row shows the display names of its donor and acceptor in sorted order |
| Database.DatabaseViewer.ExportHbds | src/pages/DatabaseViewer.tsx:128 | the donors' export is empty exactly for an empty list, and otherwise has one record per donor |
| Database.DatabaseViewer.ExportHbas | src/pages/DatabaseViewer.tsx:176 | the acceptors' export, the same way |
| Database.DatabaseViewer.ExportComplexes | src/pages/DatabaseViewer.tsx:224-231 | the complexes export uses the array as it stands, so after the table has been rendered it follows the sorted order |

## Left out

- Loading the data files is not modelled: `fetch`, `Promise.all`, `.json()` and the error paths that only log are network I/O. A successful load is `MolecularSelector.Load`, fed the entries of the three files.
- The database viewer stores the raw keyed JSON objects, not arrays, even though the page declares `Molecule[]` and `Complex[]`. The model uses the declared types, as the rest of the page does.
- Rendering is not modelled: JSX, the popovers, command lists and tabs, the open/close flags, and `toFixed` number formatting.
- The file download is not modelled (Blob, object URL and the anchor click). The CSV text is what the model produces.
- `JSON.stringify` and JavaScript's number-to-text conversion are opaque function parameters.
- Descriptor values are carried as opaque `real` fields, because they are only displayed.
- The sort comparator `b.efi_score - a.efi_score` is modelled as a comparison of reals. NaN scores, where the subtraction is not a consistent order, are not modelled.
- The effect runs after a render. The intermediate render, which still shows the old derived values, is not modelled. Each state change is followed by its recompute.
- The command list's own handling of the item value it passes to `onSelect` is not modelled: the handlers receive the molecule's id as given.
- `Object.keys` puts integer-like keys first. The model keeps insertion order, which is what it gives for the field names used here.
- `Database.Lookup`: a row without its own field of a given name gives `undefined` here. In JavaScript `row[header]` can instead give a member inherited from `Object.prototype` (for a header such as `constructor` or `toString`). The headers of the page's exports are ordinary field names of its data, so the page does not reach that case.
- `MolecularSelector.ClickBadge`: when the badge's molecule has the empty id, clicking it leaves that half unpicked, because the empty string means "nothing picked". The contract therefore promises a current complex only for a non-empty id.
- `Database.Field`: a primitive holding a double quote is exported without escaping, as the page does. Such a record either fails to parse (`UnescapedQuoteUnreadable`, for the text `a"b`) or is read back as a different text (`UnescapedQuotesMisread`, for `a""b`), so the round trips assume no such value.
- The line separator of the export is `\n`, not the CRLF that RFC 4180 names. The reader used to state the round trip splits on `\n`.
- src/pages/About.tsx, src/pages/Index.tsx and src/components/Layout.tsx are not part of this model. They are static content and page composition.
