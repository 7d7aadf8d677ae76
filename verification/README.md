# Verified models of five parts of libxml2 2.7.8

The project models, in Dafny, five parts of the XML and HTML library bundled in this repository
and proves what they are for. Each part has pure functions that describe one step of the program
exactly, branch by branch; lemmas about whole runs of those functions; and classes and methods that
work as the source works (fields updated in place, arrays, loops) and are proved to compute those functions.

- **String dictionary** (`Dict*.dfy`): hashing, string pools, chained table, growth, sub-dictionary.
  Interning is a one-to-one map from texts to pointers over every run.
- **Canonicalizer** (`C14n*.dfy`, `SortedList.dfy`): Canonical XML 1.0 with its stack of rendered
  namespaces, sorted axes and escaping. What is printed keeps every binding, declares nothing
  superfluous and does not depend on the order of attributes and declarations; a reader of
  the whole text finds the elements, text, comments and instructions of the document, exactly when nothing in it would
  have needed an escape that the source does not write.
- **Catalog resolver** (`Catalog*.dfy`): section 7.1 of the OASIS XML Catalogs draft of 6 August 2001
  over a graph of catalogs with recursion counters, section 6.2 normalization and RFC 3151 unwrapping; what the
  counters do on graphs with and without cycles.
- **SAX2 tree builder** (`Sax*.dfy`): the text accelerator `nodelen`/`nodemem`. The tree of every
  run of callbacks is the one a builder without accelerator would make.
- **HTML parser** (`Html*.dfy`): the stack of open elements and the UTF-8-to-entities transcoder with its readers.

`Optional.dfy`, `Bytes.dfy` and `Seqs.dfy` hold what several parts share.

## How to read the model

- Allocation succeeds. Where a new string pool or buffer lies, and what fresh memory contains, are parameters
  (`at`, `junk`), as are the bytes the program reads outside its arguments (`next`, `stray`).
- Integers are unbounded except where the width matters: the 32-bit hashes are bit-vectors, and the SAX
  capacity is shown to fit its field.
- Pointers to namespaces and attributes are identities (`id`); a prefix that is NULL in the source is "".
  `xmlSearchNs` is the nearest declaration on the ancestor-or-self chain.
- Visibility, relative-URI detection, the HTML element tables and the entity table are parameters. Of the tables the
  proofs use: 253 entities in strictly ascending order of value with distinct alphanumeric names
  (`TableOK`), and that no start tag closes an open html or body (`TablesOK`).
- A dictionary size grows while it is at most 2730: the macro that bounds it expands to `8 * 2048 / 2 / 3`.

## What the code does differently from what one may expect

- Looking up the empty string in a table of 128 buckets hashes the byte after it: `DictLaws.EmptyStrings`
  gives the exact condition under which two such lookups agree, on every dictionary without an empty string so far.
- `xmlStrQEqual` never matches an empty prefix, so such lookups always make another copy, whatever the size of the
  table: `DictLaws.EmptyPrefixCopies`. In a table of 128 buckets prefixed and plain lookups part when their hashes
  do: `DictLaws.SmallTableAgreesIff`, with the name a:b as an example in `DictHash.FastKeysDiffer`. A text may therefore be
  stored twice, and a growth in between can make the same prefixed lookup return the other copy: `DictMixed.AgainIff` is the
  exact condition, `DictMixed.GrowthForgets` a dictionary on which it happens. What is returned is right in any case
  (`DictMixed.MixedRunStores`).
- A next-catalog loop that runs into the recursion limit does not give its counter back. `CatalogWalk.CountersReturnIff`
  says exactly on which graphs that happens to identifiers without delegates, `CatalogCycle.RingDisablesCatalogs` what it leads to; a ring of delegates
  only is harmless (`CatalogCycle.DelegatesRestore`).
- Delegates are tried in list order, while section 7.1 asks for the longest start string first; the comment in the code
  assumes that the list is sorted, which nothing ensures. `CatalogSpec.DelegateOrderMatters` is a catalog answered wrongly,
  `CatalogOrder.OrderedIff` the exact condition on a list, and `CatalogSpec.ListAgrees` the agreement with section 7.1 under it.
- Namespace URIs are written without escaping, although an ampersand is legal in a URI: `C14nScopes.TextScopesIff` and
  `C14nText.StartTagReadsIff` give the exact condition under which the text can be read back,
  `C14nScopes.AmpersandUnreadable` and `C14nScopes.QuotesCollide` two ways in which it cannot.
- Carriage returns in comments and instructions are written as references, which no reader decodes there:
  `C14nReader.CanonicalReadsIff` says when the whole text can be read back.
- An own attribute keeps an inherited xml: attribute out only if it is visible, unlike section 2.4 of Canonical XML 1.0:
  `C14nOrder.InheritanceAgrees` says exactly when the two agree, `C14nOrder.HiddenLangInherited` is an example.
- The attribute comparator is not antisymmetric on two attributes in two different default namespaces
  (`C14nCanonical.AttrCompareSymmetry`); a namespaced attribute always has a prefix, so such attributes do not arise
  from parsing.
- The search for an empty default namespace covers the whole stack and not only the nearest visible ancestor, unlike section 2.3
  of Canonical XML 1.0: `C14nDefault.EmptyDefaultAgrees` says exactly when the two agree, `C14nDefault.SuperfluousDefault`
  shows an xmlns="" too many.
- A start tag whose '>' is missing pops the name without an end event: events are balanced exactly in the runs without
  such a tag (`HtmlStack.BalancedIff`).
- The length limit on text applies to the accelerated append only: not to a new node, and not to the first text after an entity.

## Model

| member | source | states |
|---|---|---|
| DictLookup.RunInterns | lib/libxml2-2.7.8/dict.c:723-844 | over every run of plain lookups, through any number of growths and with any sub-dictionary, two lookups return the same pointer if and only if they were given the same text; the only condition on names is that all empty strings are followed by the same byte |
| DictLookup.RunStores | lib/libxml2-2.7.8/dict.c:157-201 | after every run, each pointer returned on the way points to its text, terminated, in memory owned by the dictionary or its sub-dictionary |
| DictLookup.RunKeeps | lib/libxml2-2.7.8/dict.c:723-844 | what was interned before a run is interned at the same pointer after it, and every request of the run is found where the run said |
| DictLookup.LookupStep | lib/libxml2-2.7.8/dict.c:723-844 | one lookup keeps the invariant, leaves the sub-dictionary alone, interns the text at the returned pointer, changes no byte already written and moves nothing |
| DictLookup.InternedInjective | lib/libxml2-2.7.8/dict.c:836-840 | one pointer is never the place of two texts, not even across the two dictionaries |
| DictLookup.CreateOK | lib/libxml2-2.7.8/dict.c:441-500 | a new dictionary over a sound sub-dictionary satisfies the invariant |
| DictLookup.SubKeyIsOwn | lib/libxml2-2.7.8/dict.c:770-812 | for every pair of table sizes the key used for the sub-dictionary is the sub-dictionary's own hash of the name |
| DictLookup.ExistsSound | lib/libxml2-2.7.8/dict.c:857-946 | what an existence query answers is where the text is interned |
| DictLookup.ExistsComplete | lib/libxml2-2.7.8/dict.c:857-946 | a text that is interned anywhere is found, at that pointer |
| DictLookup.GrowOK | lib/libxml2-2.7.8/dict.c:836-840 | growth keeps the whole table invariant, with sizes 128, 768 and 4608 only and the element counter equal to the entries in the chains |
| DictTable.GrowConserves | lib/libxml2-2.7.8/dict.c:525-649 | growth keeps the multiset of (pointer, length) entries and their number, for every table and new size |
| DictTable.GrowPlaced | lib/libxml2-2.7.8/dict.c:568-643 | after growth every entry is in bucket okey mod size under the large-table hash of its text, and no text occurs twice |
| DictTable.FindByText | lib/libxml2-2.7.8/dict.c:737-768 | scanning the one chain selected by the key finds an entry if and only if the table has one with that text |
| DictPool.StoreSound | lib/libxml2-2.7.8/dict.c:157-201 | storing a string keeps all pools disjoint, full below and untouched above their free pointers, and the string with its terminator fits |
| DictPool.StoreWrites | lib/libxml2-2.7.8/dict.c:190-200 | storing writes only bytes never written before; afterwards exactly the text and its terminator are new |
| DictPool.StoreKeeps | lib/libxml2-2.7.8/dict.c:157-201 | strings held before are held after, with the same bytes |
| DictPool.StoreQuadruples | lib/libxml2-2.7.8/dict.c:166-189 | every new pool is at least four times as large as every older one |
| DictPool.NewSizeIs | lib/libxml2-2.7.8/dict.c:166-176 | the first pool has a thousand bytes, later ones four times the largest, and a long string gets four times its length |
| DictHash.BigQKeyIsBigKey | lib/libxml2-2.7.8/dict.c:279-339 | the 32-bit hash of prefix and name is that of the text prefix:name, for all byte strings |
| DictLaws.SmallTableAgreesIff | lib/libxml2-2.7.8/dict.c:348-433 | on any dictionary without sub-dictionary whose table still has 128 buckets after a plain lookup, a prefixed lookup of the same text returns the same pointer if and only if the two small-table hashes of that name agree |
| DictHash.ComputeBigKey | lib/libxml2-2.7.8/dict.c:279-304 | the loop computes the fold over the bytes, wrapping at 32 bits |
| DictHash.ComputeBigQKey | lib/libxml2-2.7.8/dict.c:311-339 | the two loops compute the fold over prefix, colon and name |
| DictHash.ComputeFastKey | lib/libxml2-2.7.8/dict.c:348-375 | the fall-through switch computes first, last and the sum of the next bytes, reading the byte after an empty name |
| DictHash.ComputeFastQKey | lib/libxml2-2.7.8/dict.c:382-433 | the prefixed small-table hash, with the byte in front of the name that it may read |
| DictHash.BigVectors | lib/libxml2-2.7.8/dict.c:279-304 | known values of the large-table hash |
| DictHash.FastVectors | lib/libxml2-2.7.8/dict.c:348-375 | known values of the small-table hash |
| DictHash.FastQVectors | lib/libxml2-2.7.8/dict.c:382-433 | known values of the prefixed small-table hash, for short and long prefixes and names |
| DictQName.QEqualMeans | lib/libxml2-2.7.8/xmlstring.c:178-192 | on strings of matching length the comparison succeeds if and only if the prefix is not empty and the string is prefix:name |
| DictQName.StrQEqual | lib/libxml2-2.7.8/xmlstring.c:178-192 | the two do-while loops decide exactly that comparison |
| DictLaws.PrefixedIsPlain | lib/libxml2-2.7.8/dict.c:958-1051 | once neither table has 128 buckets, a lookup with non-empty prefix is the plain lookup of prefix:name in result and effect |
| DictLaws.PrefixedFindsIffPrefix | lib/libxml2-2.7.8/dict.c:958-1051 | for a text already interned, the prefixed lookup after growth finds it if and only if the prefix is not empty |
| DictMixed.SubAnswers | lib/libxml2-2.7.8/dict.c:958-1022 | for every pair of table sizes and both kinds of lookup: what the sub-dictionary asked by itself returns without storing anything is what the dictionary returns from it, if the text is not local |
| DictMixed.MixedRunStores | lib/libxml2-2.7.8/dict.c:723-1051 | over every run of plain and prefixed lookups, on tables of every size: each returned pointer points to its text (prefix:name for a prefixed lookup), terminated, in owned memory, and equal pointers mean equal texts |
| DictMixed.AskStep | lib/libxml2-2.7.8/dict.c:723-1051 | any lookup on tables of any size keeps the invariant for mixed use, stores the text at the returned pointer and leaves everything stored where it was |
| DictMixed.AgainIff | lib/libxml2-2.7.8/dict.c:525-649 | the exact condition for the same lookup to return the same pointer at once: always, unless it made the table grow and the growth favours another copy of the text |
| DictMixed.GrowsIff | lib/libxml2-2.7.8/dict.c:836-840 | a table grows sixfold exactly when a lookup that stores followed more than three links and the table is not of the largest size |
| DictMixed.FoundAfterGrowth | lib/libxml2-2.7.8/dict.c:568-643 | of several copies of a text, a search after growth finds the first one moved if it is the first in its bucket, else the last one moved |
| DictMixed.FirstCopyAgain | lib/libxml2-2.7.8/dict.c:958-1051 | a text that was not stored locally before is found again where it was put, by both kinds of lookup, through growth as well |
| DictMixed.GrowthForgets | lib/libxml2-2.7.8/dict.c:958-1051 | a concrete dictionary on which a prefixed lookup of a:b stores a second copy and the same lookup at once returns the first |
| DictLaws.EmptyPrefixCopies | lib/libxml2-2.7.8/dict.c:958-1051 | in a table of any size a lookup with an empty prefix stores another copy, in memory not used before |
| DictLaws.ExistsAgrees | lib/libxml2-2.7.8/dict.c:856-946 | the existence query is positive exactly when a lookup would change nothing, returns the lookup's pointer then, and finds whatever a lookup has stored |
| DictLaws.SubNeverCopied | lib/libxml2-2.7.8/dict.c:770-812 | a text stored in the sub-dictionary and not locally is returned from there and never copied |
| DictLaws.LookupQuadruples | lib/libxml2-2.7.8/dict.c:166-189 | lookups keep the block-size law |
| DictLaws.EmptyStrings | lib/libxml2-2.7.8/dict.c:349-354 | on every dictionary that holds no empty string yet, with or without a sub-dictionary, two lookups of the empty string return the same pointer if and only if the bytes that follow the two strings agree or the table has grown by then |
| DictLaws.FirstEmptyStrings | lib/libxml2-2.7.8/dict.c:349-354 | the same for the first two lookups on a new dictionary, wherever memory is allocated |
| DictObject.Dict.constructor | lib/libxml2-2.7.8/dict.c:440-500 | an empty table of 128 unused buckets over the given sub-dictionary |
| DictObject.Dict.AddString | lib/libxml2-2.7.8/dict.c:157-201 | pool search, block allocation and copy, as the storing function describes them |
| DictObject.Dict.Lookup | lib/libxml2-2.7.8/dict.c:723-844 | the method's whole new state and result are those of the lookup function the theorems are about |
| DictObject.Dict.Exists | lib/libxml2-2.7.8/dict.c:856-946 | answers what the existence function says, changing nothing |
| DictObject.Dict.QLookup | lib/libxml2-2.7.8/dict.c:958-1051 | the prefixed lookup, with the source's own comparison, does what its function says |
| DictObject.Dict.GrowTo | lib/libxml2-2.7.8/dict.c:525-649 | the two rehashing passes over the bucket array produce the grown table |
| DictObject.Dict.FreeEntries | lib/libxml2-2.7.8/dict.c:686-705 | with a correct element counter the loop that stops early releases every chained entry exactly once and ends at zero |
| DictObject.Dict.OwnsPointer | lib/libxml2-2.7.8/dict.c:1063-1078 | answers whether some pool of the dictionary or its sub-dictionary contains the pointer |
| C14nMeaning.RenderFaithful | lib/libxml2-2.7.8/c14n.c:1412-1509 | for every fully visible tree in 1.0 mode and every element at any depth: the printed declarations, read with ordinary scoping, bind every prefix as in the source; none is superfluous; attributes are the same multiset; text decodes to the text of the source without raw delimiters |
| C14nMeaning.ScopesPreserved | lib/libxml2-2.7.8/c14n.c:598-670 | the chain of printed declarations and the chain of source declarations bind every prefix alike, an empty default counting as none |
| C14nMeaning.PrintedAre | lib/libxml2-2.7.8/c14n.c:622-663 | a declaration is printed if and only if it is in force at the element and differs from what is bound at the parent |
| C14nMeaning.FoundMeansInherited | lib/libxml2-2.7.8/c14n.c:410-442 | with everything visible, the stack search succeeds if and only if the declaration repeats the parent's binding |
| C14nMeaning.NoSyntheticDefault | lib/libxml2-2.7.8/c14n.c:650-658 | with everything visible, xmlns="" is printed only where the source declares it |
| C14nMeaning.WindowIsNearest | lib/libxml2-2.7.8/c14n.c:357-388 | for every visibility predicate the searched window holds exactly what the nearest visible ancestor pushed |
| C14nMeaning.RenderedMeansNearest | lib/libxml2-2.7.8/c14n.c:410-442 | for every visibility predicate a non-empty binding is found if and only if the nearest visible ancestor rendered the same prefix with the same value |
| C14nDefault.EmptyDefaultAgrees | lib/libxml2-2.7.8/c14n.c:410-442 | for every visibility predicate: the test for xmlns="" is the one of section 2.3 of Canonical XML 1.0 (the nearest visible ancestor rendered a default that is not empty) if and only if no visible ancestor rendered a default, the last one rendered is empty, or the nearest visible ancestor rendered one |
| C14nDefault.ExtraDefault | lib/libxml2-2.7.8/c14n.c:650-658 | where they part, an element without a default of its own is printed with an xmlns="" that section 2.3 does not ask for |
| C14nDefault.SuperfluousDefault | lib/libxml2-2.7.8/c14n.c:650-658 | three nested elements with one hidden namespace node where that happens, for any URI |
| C14nText.StartTagReadsIff | lib/libxml2-2.7.8/c14n.c:536-569 | a printed start tag, whatever follows it, reads back as its name, declarations and attributes if and only if no URI it declares contains a quotation mark, an ampersand, a less-than sign, a tab, a line feed or a carriage return |
| C14nText.DeclsReadIff | lib/libxml2-2.7.8/c14n.c:536-569 | the same for a sequence of declarations in front of anything that reads back |
| C14nText.AttrsRead | lib/libxml2-2.7.8/c14n.c:925-969 | attributes always read back, because their values are escaped |
| C14nText.ValueReadsIff | lib/libxml2-2.7.8/c14n.c:563-565 | text between quotation marks reads as itself if and only if it is free of those characters |
| C14nReader.CanonicalReadsIff | lib/libxml2-2.7.8/c14n.c:1520-1665 | the canonical text of a fully visible document reads back, as a whole, as its elements with their printed declarations and attributes, its text, its comments if asked for and its instructions, in order and with line breaks exactly around comments and instructions outside the document element, if and only if all bound URIs are clean, comments and instructions do not contain their end mark or a carriage return, and instructions do not begin with a space |
| C14nReader.NodeReads | lib/libxml2-2.7.8/c14n.c:1520-1640 | the same for every node in its place, whatever follows it |
| C14nMeaning.TextPrints | lib/libxml2-2.7.8/c14n.c:1535-1558 | for every visibility predicate: a visible text node or CDATA section prints text without angle brackets or carriage returns that decodes to its content, a hidden one nothing |
| C14nMeaning.SilentNodes | lib/libxml2-2.7.8/c14n.c:1559-1664 | hidden comments and instructions, comments not asked for and declarations print nothing |
| C14nMeaning.HiddenElement | lib/libxml2-2.7.8/c14n.c:1436-1509 | a hidden element with nothing visible of its own leaves only its content |
| C14nMeaning.CanonicalFailsIff | lib/libxml2-2.7.8/c14n.c:1350-1390 | there is no canonical text exactly when some element, visible or not, has a relative namespace URI or some node is an entity reference |
| C14nOrder.PrintedAttrsHold | lib/libxml2-2.7.8/c14n.c:1142-1195 | for every visibility predicate: printed are the visible attributes and, for a visible element with a hidden parent, the nearest xml: attributes above of which it has no visible one of its own |
| C14nOrder.InheritanceAgrees | lib/libxml2-2.7.8/c14n.c:1160-1180 | that is what section 2.4 of Canonical XML 1.0 prescribes if and only if the element does not inherit or has no hidden attribute of the name of an xml: attribute above |
| C14nOrder.HiddenLangInherited | lib/libxml2-2.7.8/c14n.c:1160-1180 | a visible element whose hidden xml:lang is replaced by that of its hidden parent |
| C14nOrder.DeclsInOrder | lib/libxml2-2.7.8/c14n.c:622-663 | declarations are printed in ascending lexicographic order of their prefixes, the default first, for every visibility predicate |
| C14nOrder.AttrsInOrder | lib/libxml2-2.7.8/c14n.c:878-915 | attributes are printed in ascending order: without a namespace first, then by URI, then by local name |
| C14nOrder.StrCmpIsLexicographic | lib/libxml2-2.7.8/c14n.c:513-524 | the string comparison is the lexicographic order |
| C14nScopes.TextScopesIff | lib/libxml2-2.7.8/c14n.c:536-670 | with everything visible: a reader of the output text finds every prefix bound as in the source, at an element and all its ancestors, if and only if no URI bound at any of them contains such a character |
| C14nScopes.AmpersandUnreadable | lib/libxml2-2.7.8/c14n.c:563-565 | a URI with an ampersand and no semicolon after it makes the tag unreadable |
| C14nScopes.QuotesCollide | lib/libxml2-2.7.8/c14n.c:563-565 | with a quotation mark in a URI one declaration is printed as two others are |
| C14nMeaning.PushesAre | lib/libxml2-2.7.8/c14n.c:622-640 | an element pushes exactly the visible declarations in force for their prefixes |
| C14nCanonical.CanonicalText | lib/libxml2-2.7.8/c14n.c:598-670 | permuting the attributes or the namespace declarations of any elements of a fully visible document leaves its whole canonical text unchanged |
| C14nCanonical.RenderCanonical | lib/libxml2-2.7.8/c14n.c:1412-1509 | the same for every subtree, below ancestor chains that differ in such order only |
| C14nCanonical.NsCompareTotal | lib/libxml2-2.7.8/c14n.c:513-524 | the namespace comparator is a total order on declarations with distinct prefixes |
| C14nCanonical.AttrCompareTotal | lib/libxml2-2.7.8/c14n.c:878-915 | the attribute comparator is a total order on attributes with distinct URI and local-name pairs |
| C14nCanonical.AttrCompareIsKeyOrder | lib/libxml2-2.7.8/c14n.c:878-915 | on qualified attributes the comparator is the order by namespace URI, then local name, unqualified first |
| C14nCanonical.AttrCompareSymmetry | lib/libxml2-2.7.8/c14n.c:895-906 | the comparator is antisymmetric except exactly on two attributes in two different default namespaces |
| SortedList.InsertAllCanonical | lib/libxml2-2.7.8/list.c:272-293 | for a total order, inserting the same elements in any order gives the same list |
| C14nProcess.Context.StackAdd | lib/libxml2-2.7.8/c14n.c:311-355 | pushes one declaration, reusing slots left by a restore |
| C14nProcess.Context.StackFind | lib/libxml2-2.7.8/c14n.c:410-442 | the downward scan decides the search predicate |
| C14nProcess.Context.ProcessNamespacesAxis | lib/libxml2-2.7.8/c14n.c:598-670 | the loop that interleaves searching, pushing and sorted insertion prints the declarations of the declarative account and pushes exactly those in force, only when visible |
| C14nProcess.Context.ProcessAttrsAxis | lib/libxml2-2.7.8/c14n.c:1142-1195 | prints the visible attributes in order, with inherited xml: attributes where the parent is hidden |
| C14nProcess.Context.ProcessElement | lib/libxml2-2.7.8/c14n.c:1412-1509 | for every visibility predicate: on success the stack, its marks and every entry below are as found, and the output is that of the rendering function |
| C14nProcess.Context.ProcessNode | lib/libxml2-2.7.8/c14n.c:1520-1700 | every node kind: result, position, stack and output are those of the rendering function |
| C14nProcess.Context.Document | lib/libxml2-2.7.8/c14n.c:1711-1725 | from a fresh context the output is the canonical text, and failure is exactly its absence |
| C14nEscape.UnescapeEscape | lib/libxml2-2.7.8/c14n.c:2143-2231 | in attribute and text modes decoding the output returns the input, for every string |
| C14nEscape.EscapeInjective | lib/libxml2-2.7.8/c14n.c:2143-2231 | in those modes different strings never escape alike |
| C14nEscape.EscapeNotInjective | lib/libxml2-2.7.8/c14n.c:2182-2186 | in comment and instruction modes two different strings escape alike |
| C14nEscape.NoRawDelimiter | lib/libxml2-2.7.8/c14n.c:2174-2222 | no raw delimiter of the mode survives |
| C14nEscape.NormalizeString | lib/libxml2-2.7.8/c14n.c:2143-2231 | the buffer loop returns the escaped string; the margin of ten places covers every escape and the terminator |
| CatalogSpec.ListAgrees | lib/libxml2-2.7.8/catalog.c:1998-2075 | on every acyclic catalog graph with counters below the limit: the limit never fires, every counter is given back and the answer is that of the counter-free specification, with delegates as listed; and that of section 7.1, longest delegate first, where the lists are ordered |
| CatalogSpec.CatalogAgrees | lib/libxml2-2.7.8/catalog.c:1622-1839 | the same for one catalog |
| CatalogIds.SystemUrnIsPublic | lib/libxml2-2.7.8/catalog.c:2039-2042 | a system identifier urn:publicid: without a public identifier resolves as the public identifier it stands for |
| CatalogIds.SystemUrnBesidePublic | lib/libxml2-2.7.8/catalog.c:2043-2047 | beside a public identifier it is dropped if it repeats it, else what it stands for becomes the system identifier |
| CatalogIds.PublicUrnUnwraps | lib/libxml2-2.7.8/catalog.c:2013-2028 | a public identifier urn:publicid: resolves as what it stands for, with the system identifier unchanged |
| CatalogIds.BlankIsNone | lib/libxml2-2.7.8/catalog.c:2009-2011 | a blank public identifier counts as none |
| CatalogSpec.DelegatesAgree | lib/libxml2-2.7.8/catalog.c:1691-1735 | skipping delegate URLs already tried, in an array of at most fifty, never changes the answer; exhausted delegates are a cut |
| CatalogOrder.OrderedIff | lib/libxml2-2.7.8/catalog.c:1691-1735 | a list has its delegates tried by decreasing length for every identifier if and only if, of two start strings one of which extends the other, it puts the longer first |
| CatalogOrder.InOrderIff | lib/libxml2-2.7.8/catalog.c:1691-1735 | for one identifier: if and only if the start strings that apply never get longer along the list |
| CatalogSpec.DelegateOrderMatters | lib/libxml2-2.7.8/catalog.c:1691-1735 | for any two start strings of which the second extends the first, a list in that order that is answered from the wrong delegate |
| CatalogSpec.NextsAgree | lib/libxml2-2.7.8/catalog.c:1816-1838 | next catalogs are tried in order and the counter is given back |
| CatalogResolve.ListResolve | lib/libxml2-2.7.8/catalog.c:1998-2075 | terminates on every finite graph, cycles included, and never lowers a counter |
| CatalogResolve.XmlResolve | lib/libxml2-2.7.8/catalog.c:1622-1839 | terminates likewise and never lowers a counter |
| CatalogLocal.LocalFollowsOrder | lib/libxml2-2.7.8/catalog.c:1644-1838 | one list decides the system identifier first, only then the public one, only then leaves it to the next catalogs |
| CatalogLocal.SystemOrder | lib/libxml2-2.7.8/catalog.c:1644-1735 | an exact system entry wins, else a rewriting rule no shorter than any that applies, else the system delegates; something is decided if and only if one of these exists |
| CatalogLocal.PublicOrder | lib/libxml2-2.7.8/catalog.c:1740-1815 | an exact public entry wins, else the delegates of entries that prefer public |
| CatalogLocal.BestRewriteIsLongest | lib/libxml2-2.7.8/catalog.c:1661-1667 | the rule chosen applies and no applicable rule is longer |
| CatalogWalk.CountersReturnIff | lib/libxml2-2.7.8/catalog.c:1816-1838 | for every catalog graph, cycles included, and identifiers no list delegates: from unused counters a lookup gives all of them back if and only if the depth-first search without counters comes to an end, and then it answers what that search answers |
| CatalogWalk.EndsAtAnyDepth | lib/libxml2-2.7.8/catalog.c:1816-1838 | for that condition it is enough to search as deep as there are catalogs: no greater depth finds more |
| CatalogCycle.RingSticks | lib/libxml2-2.7.8/catalog.c:1816-1838 | on any ring of lists that do not decide the identifiers and have each other as first next catalog, one lookup ends without answer and leaves the counters of the whole ring at 51 and all others alone |
| CatalogCycle.RingDisablesCatalogs | lib/libxml2-2.7.8/catalog.c:1816-1838 | after it no list of the ring answers any identifiers again |
| CatalogCycle.DelegatesRestore | lib/libxml2-2.7.8/catalog.c:1691-1735 | where no list comes to its next catalogs every counter is given back, on every graph, rings of delegates included |
| CatalogCycle.CycleDisablesCatalog | lib/libxml2-2.7.8/catalog.c:1816-1838 | a catalog that names itself loses the identifier it lists, found before, through one lookup of another |
| CatalogResolver.Resolver.ResolveCatalog | lib/libxml2-2.7.8/catalog.c:1622-1839 | the method's answer and counters are those of the resolution function |
| CatalogResolver.Resolver.ScanSystem | lib/libxml2-2.7.8/catalog.c:1644-1680 | one scan yields exact match, best rewriting rule and the numbers of delegates and next catalogs |
| CatalogResolver.Resolver.ScanPublic | lib/libxml2-2.7.8/catalog.c:1740-1767 | the same for public identifiers |
| CatalogResolver.Resolver.TryDelegates | lib/libxml2-2.7.8/catalog.c:1691-1735 | the delegate loop with its bounded array is the delegate function |
| CatalogResolver.Resolver.TryNexts | lib/libxml2-2.7.8/catalog.c:1816-1838 | the loop over next catalogs is the corresponding function, including the counter kept when the limit is hit |
| CatalogResolver.Resolver.ResolveList | lib/libxml2-2.7.8/catalog.c:1998-2075 | normalization, URN unwrapping and the list loop compute the resolution function |
| CatalogUrn.UnwrapLosesWeight | lib/libxml2-2.7.8/catalog.c:817-871 | unwrapping loses weight at least the length of the prefix, although ':' and ';' double: the measure for repeated unwrapping |
| CatalogUrn.NormalizeWeight | lib/libxml2-2.7.8/catalog.c:1026-1064 | normalization never gains weight |
| CatalogUrn.UnwrapWrap | lib/libxml2-2.7.8/catalog.c:817-871 | unwrapping undoes the RFC 3151 transcription for every identifier the 2000-byte buffer can hold |
| CatalogUrn.UnwrapInvertsWrap | lib/libxml2-2.7.8/catalog.c:830-868 | for longer identifiers the result is a prefix, cut only when fewer than four places are left |
| CatalogUrn.EscapesAre | lib/libxml2-2.7.8/catalog.c:842-866 | the escapes that are understood are exactly the eight of RFC 3151 |
| CatalogUrn.UnwrapURN | lib/libxml2-2.7.8/catalog.c:817-871 | fills a 2000-byte buffer in place, within bounds, with the unwrapped text; nothing without the prefix |
| CatalogUrn.NormalizeJoinsWords | lib/libxml2-2.7.8/catalog.c:1026-1064 | the normal form is the identifier's words joined by single spaces |
| CatalogUrn.NormalizeSameWords | lib/libxml2-2.7.8/catalog.c:1026-1064 | two identifiers have the same normal form if and only if they have the same words |
| CatalogUrn.BlanksSeparate | lib/libxml2-2.7.8/catalog.c:1026-1064 | space, tab, line feed and carriage return separate words alike, every other character is kept |
| CatalogLocal.EntryNamesWords | lib/libxml2-2.7.8/catalog.c:269-312 | an entry made for one public identifier matches another after normalization if and only if the two have the same words; blank identifiers count as none |
| CatalogLocal.EntryNamesExactly | lib/libxml2-2.7.8/catalog.c:269-312 | names of other kinds are compared as written; start strings for public identifiers are normalized |
| CatalogUrn.NormalizeIdempotent | lib/libxml2-2.7.8/catalog.c:1026-1064 | a normal form is normal |
| CatalogUrn.NormalizePublic | lib/libxml2-2.7.8/catalog.c:1026-1064 | returns the normal form, or nothing if and only if the identifier already is normal |
| SaxLaws.BuiltRefines | lib/libxml2-2.7.8/SAX2.c:2423-2536 | for every sequence of start, end, text, comment, CDATA and entity callbacks the built tree is that of a naive builder that joins adjacent text, with the same length limit |
| SaxLaws.WithinLimit | lib/libxml2-2.7.8/SAX2.c:2423-2536 | for runs whose text stays within the limit, the tree is that of the naive builder without one |
| SaxLaws.RefusedIff | lib/libxml2-2.7.8/SAX2.c:2489-2493 | a call parts from the builder without limit if and only if it extends a counted text past the limit |
| SaxLaws.AppendPathSound | lib/libxml2-2.7.8/SAX2.c:2470-2515 | in every reachable state with the append path open, nodelen is the length of the last text, nodemem exceeds it and fits its memory and field, the content is the node's own once copied: -1 is never seen and no shared string is written |
| SaxLaws.StepRefines | lib/libxml2-2.7.8/SAX2.c:2423-2536 | each callback keeps the invariant and does to the tree what the naive builder does |
| SaxLaws.StartView | lib/libxml2-2.7.8/SAX2.c:2151-2290 | a start tag opens a frame and leaves all finished trees alone |
| SaxLaws.EndView | lib/libxml2-2.7.8/SAX2.c:2351-2383 | an end tag makes the innermost element a finished child of the next; nothing can be appended to then |
| SaxLaws.NewStorageText | lib/libxml2-2.7.8/SAX2.c:1808-1875 | a new text node reads as the text given wherever it is stored |
| SaxLaws.StorageChosen | lib/libxml2-2.7.8/SAX2.c:1825-1862 | which text nodes are kept inside the node, in the dictionary and in a buffer, by length, what follows and white space |
| SaxLaws.AppendCases | lib/libxml2-2.7.8/SAX2.c:2489-2498 | the two overflow tests never decide: only the length limit refuses text |
| SaxText.WritableSafe | lib/libxml2-2.7.8/SAX2.c:2482-2488 | where the append path is taken, the content made writable is a buffer with room for the text the counters claim |
| SaxText.AppendedText | lib/libxml2-2.7.8/SAX2.c:2499-2515 | reallocation, copy and terminator leave exactly the old text followed by the new, whatever the new memory held |
| SaxBuilder.NewCell | lib/libxml2-2.7.8/SAX2.c:1830-1862 | the choice between in-node, dictionary and own storage, blank scan included |
| SaxBuilder.CopyInto | lib/libxml2-2.7.8/SAX2.c:2513-2515 | copies text and terminator in place and changes no other byte |
| SaxBuilder.Builder.Accelerate | lib/libxml2-2.7.8/SAX2.c:2470-2515 | the append path over a buffer that no other node shares gives the state of the append function |
| SaxBuilder.Builder.Characters | lib/libxml2-2.7.8/SAX2.c:2423-2536 | the method's new state is that of the callback function, buffers stay unshared |
| SaxBuilder.Builder.StartElement | lib/libxml2-2.7.8/SAX2.c:2260-2277 | adds, opens and resets nodemem to -1 |
| SaxBuilder.Builder.EndElement | lib/libxml2-2.7.8/SAX2.c:2370-2382 | closes and resets nodemem to -1 |
| SaxBuilder.Builder.CDataBlock | lib/libxml2-2.7.8/SAX2.c:2691-2713 | joins adjacent CDATA sections, leaves the counters alone |
| SaxBuilder.Builder.EntityText | lib/libxml2-2.7.8/parser.c:7125-7210 | a copied entity text is joined to the last text node and both counters are zeroed |
| SaxBuilder.Builder.EntityFirst | lib/libxml2-2.7.8/parser.c:7190-7210 | an entity's own text node comes under another name, and both counters are zeroed |
| HtmlStack.ReachableShape | lib/libxml2-2.7.8/HTMLparser.c:1444-1503 | in every reachable state with implied tags enabled: html is at the bottom and only there, head only at level 1, at most one body is open, and at most one head and one body were ever implied |
| HtmlStack.StartTagInv | lib/libxml2-2.7.8/HTMLparser.c:3628-3668 | a start tag keeps that shape; a discarded tag raises depth by exactly one, any other is on top |
| HtmlStack.TagOpens | lib/libxml2-2.7.8/HTMLparser.c:4185-4228 | a start tag that is not discarded, by its ending: with "/>", or when the table calls the element empty, it is opened and closed at once; else it stays on top; without its '>' it is opened and its name dropped |
| HtmlStack.TagDiscarded | lib/libxml2-2.7.8/HTMLparser.c:4185-4228 | with a discarded tag the ending closes or drops the element that was current |
| HtmlStack.EmptyNeverOpen | lib/libxml2-2.7.8/HTMLparser.c:4220-4228 | over every run no element that is empty by definition is on the stack between operations |
| HtmlStack.TextHasHome | lib/libxml2-2.7.8/HTMLparser.c:1512-1541 | text is never put right below html or head or at the top: a paragraph is opened there, and nowhere else |
| HtmlStack.ImpliedTable | lib/libxml2-2.7.8/HTMLparser.c:1444-1503 | what each tag implies on an empty stack, name by name |
| HtmlStack.PriorityTable | lib/libxml2-2.7.8/HTMLparser.c:1158-1240 | the end-tag priorities, name by name |
| HtmlStack.EndTagCuts | lib/libxml2-2.7.8/HTMLparser.c:3839-3894 | for every stack and end tag: the stack is cut exactly below the topmost such element, with end events in reverse opening order and result 1, if and only if the tag is honoured; otherwise stack and events are untouched |
| HtmlStack.ReachMeans | lib/libxml2-2.7.8/HTMLparser.c:1291-1313 | the search finds the topmost element of the name unless an element above it has higher priority |
| HtmlStack.AutoCloseCuts | lib/libxml2-2.7.8/HTMLparser.c:1360-1378 | a start tag closes the maximal run of elements from the top that it closes, innermost first |
| HtmlStack.ImpliedOpens | lib/libxml2-2.7.8/HTMLparser.c:1444-1503 | what is implied goes on top with its events: html exactly on an empty stack, then at most one more |
| HtmlStack.BalancedIff | lib/libxml2-2.7.8/HTMLparser.c:4199-4206 | for every run: start and end events nest and what they leave open is the stack, if and only if no start tag lacked its '>' |
| HtmlStack.RunLost | lib/libxml2-2.7.8/HTMLparser.c:4199-4206 | over every run the start events exceed the end events and the open elements by exactly the number of start tags that lacked their '>' |
| HtmlStack.RunBalanced | lib/libxml2-2.7.8/HTMLparser.c:163-210 | from every state with balanced events, runs without such a start tag end in one |
| HtmlStack.MissingUnbalances | lib/libxml2-2.7.8/HTMLparser.c:4199-4206 | the shortest run that is not balanced |
| HtmlStack.CloseAllEmpties | lib/libxml2-2.7.8/HTMLparser.c:1334-1349 | at the end everything is closed, innermost first |
| HtmlParser.Context.NamePush | lib/libxml2-2.7.8/HTMLparser.c:163-183 | table, current name and html flag after a push |
| HtmlParser.Context.NamePop | lib/libxml2-2.7.8/HTMLparser.c:193-210 | table and current name after a pop |
| HtmlParser.Context.AutoCloseFor | lib/libxml2-2.7.8/HTMLparser.c:1360-1378 | the closing loop does what the stack function says |
| HtmlParser.Context.CheckImpliedFor | lib/libxml2-2.7.8/HTMLparser.c:1444-1503 | the implied-tags logic with its scan of the stack does what its function says |
| HtmlParser.Context.ParseStartTag | lib/libxml2-2.7.8/HTMLparser.c:3628-3765 | stack effect and discard flag of a start tag |
| HtmlParser.Context.ParseEndTag | lib/libxml2-2.7.8/HTMLparser.c:3839-3894 | stack effect and result of an end tag |
| HtmlParser.Context.ParseElement | lib/libxml2-2.7.8/HTMLparser.c:4166-4222 | what follows the start tag: empty elements, "/>" and a missing '>' |
| HtmlParser.Context.CheckParagraphNow | lib/libxml2-2.7.8/HTMLparser.c:1512-1541 | a paragraph is opened directly below html or head, or on an empty stack |
| HtmlEncode.EncodePreservesText | lib/libxml2-2.7.8/HTMLparser.c:2049-2130 | for every text of legal characters and output size: success, no overrun, only ASCII, and the bytes written decode to the text of exactly the bytes consumed |
| HtmlEncode.EncodesExactly | lib/libxml2-2.7.8/HTMLparser.c:2090-2120 | a character is written as itself exactly when it is ASCII and not the ampersand, an angle bracket or the quote in force; otherwise by its name in the table if it has one, else by its decimal number |
| HtmlEncode.NoRawDelimiter | lib/libxml2-2.7.8/HTMLparser.c:2090-2120 | for any legal text and buffer the output has no angle bracket and no quote of the kind in force |
| HtmlEncode.PlainCopied | lib/libxml2-2.7.8/HTMLparser.c:2090-2100 | ASCII text without those characters is copied as far as there is room |
| HtmlEncode.HexReferenceReads | lib/libxml2-2.7.8/HTMLparser.c:3258-3290 | every legal character is read from a hexadecimal reference, with digits and 'x' in either case |
| HtmlEncode.EncodesWhatFits | lib/libxml2-2.7.8/HTMLparser.c:2049-2130 | what is consumed is a whole number of characters and the output is their encoding |
| HtmlEncode.FitIsMaximal | lib/libxml2-2.7.8/HTMLparser.c:2094-2124 | one character more would not fit |
| HtmlEncode.StopsAt | lib/libxml2-2.7.8/HTMLparser.c:2062-2092 | text followed by bytes that cannot be a character is encoded and consumed and the call fails with -2; where they are only cut off it succeeds and leaves them |
| HtmlEncode.Resumable | lib/libxml2-2.7.8/HTMLparser.c:2126-2129 | calls repeated on the remainder, with any buffer sizes, continue exactly where the previous one stopped |
| HtmlEncode.ResumedOutput | lib/libxml2-2.7.8/HTMLparser.c:2126-2129 | once nothing is left the pieces are the one-shot output |
| HtmlEncode.ReadEncodeAll | lib/libxml2-2.7.8/HTMLparser.c:2632-2668 | reading the encoded text with the parser's reference readers gives back the characters |
| HtmlEncode.ByValueFinds | lib/libxml2-2.7.8/HTMLparser.c:1915-1928 | the scan that stops at the first larger value finds an entity if and only if there is one |
| HtmlEncode.EntityLookup | lib/libxml2-2.7.8/HTMLparser.c:1892-1905 | the scan by name |
| HtmlEncode.EntityValueLookup | lib/libxml2-2.7.8/HTMLparser.c:1915-1928 | the scan by value |
| HtmlEncode.ParseCharRef | lib/libxml2-2.7.8/HTMLparser.c:3258-3318 | the two digit loops read what the reading function reads; 0 for what is not a legal character |
| HtmlEncode.EncodeEntities | lib/libxml2-2.7.8/HTMLparser.c:2049-2130 | the pointer loop writes inside the output bound only and returns code, output and consumed length of the encoding function |
| HtmlUtf8.Utf8ReadsInFront | lib/libxml2-2.7.8/HTMLparser.c:432-483 | the reader reads back what the writer wrote, whatever follows |
| HtmlUtf8.Utf8Injective | lib/libxml2-2.7.8/HTMLparser.c:3921-3928 | texts with the same bytes are the same text |
| HtmlUtf8.WriteUtf8 | lib/libxml2-2.7.8/HTMLparser.c:3921-3928 | the shifting loop writes that UTF-8 |

## Left out

- c14n.c exclusive mode (its namespace axis and inclusive prefix list) and 1.1 mode (xml:base fix-up): the model is 1.0 mode, with and without comments, and so is the proof that the stack is restored.
- C14nProcess.Context.ProcessAttrsAxis: below a hidden document node the source also looks for xml: attributes among the fields of the document node; the model finds none there.
- C14nText.StartTagReadsIff: the reader knows tags, text, comments, instructions, references and the normalization of attribute values, not the rest of XML; names are assumed free of the characters that end them.
- C14nReader.CanonicalReadsIff: is about fully visible documents; with hidden nodes `C14nMeaning.TextPrints`, `SilentNodes` and `HiddenElement` say what each prints.
- c14n.c attribute namespaces that are not declared on the chain, declarations without URI, and the shortcut of `xmlSearchNs` through an ancestor's own namespace, which names a declaration of the chain in any consistent tree.
- c14n.c node sets, output buffers and encodings: visibility is a predicate and the output a string; `QName` and text are code units.
- catalog.c URI resolution (`xmlCatalogXMLResolveURI` never counts its depth), file loading, mutexes, SGML catalogs. Fetching is a finite map from URL to list; a failed fetch, which rewrites the entry, is not modelled.
- CatalogWalk.CountersReturnIff: is about identifiers that no list delegates, since a delegation inside a ring turns the limit into a cut; graphs without next catalogs are the subject of `CatalogCycle.DelegatesRestore`, acyclic graphs of any kind of `CatalogSpec.ListAgrees`.
- CatalogCycle.RingSticks: starts from equal counters along the ring, as a fresh catalog has them.
- CatalogSpec.ListAgrees: needs counters below the limit at the start, as they are after any earlier lookups on an acyclic graph.
- dict.c reference counts, mutexes and `xmlDictSize`; one level of sub-dictionary is modelled.
- DictObject.Dict.OwnsPointer: asks the dictionary and its sub-dictionary, where the source goes on along a chain of sub-dictionaries.
- DictObject.Dict.QLookup: prefix and name are given without terminators and `xmlDictAddQString` is the storing of the joined text.
- DictObject.Dict.FreeEntries: says which entries are released; memory release itself is not modelled.
- DictHash.ComputeFastKey: sums are unbounded; they stay far below 2^32 for the at most eleven bytes added.
- SAX2.c SAX1 start and end callbacks, processing instructions, DTD validation, entities other than plain text, attributes and namespaces of elements, and XML_PARSE_HUGE, under which the capacity could leave its field.
- SaxBuilder.Builder.StartElement: the parser's limit on nesting depth is not modelled.
- SaxBuilder.Builder.Accelerate: reallocation always moves the buffer.
- HTMLparser.c push mode, attributes, scripts, encoding detection and names with characters beyond ASCII; only the stack effects of start and end tags are modelled.
- HTMLparser.c with HTML_PARSE_NOIMPLIED: the stack properties are those of the default mode.
- HtmlEncode.ParseCharRef: the value is unbounded; the source's int overflows, which C leaves undefined, on references longer than any legal character needs.
- HtmlEncode.EncodePreservesText: is about valid UTF-8; on other input the method is proved to return what the encoding function says.
