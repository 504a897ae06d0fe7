# Footnotes — a Dafny model

`Footnotes` (MooTools-Footnotes) scans an element for citations: descendants
carrying an `href` or `cite` attribute. It builds a list of footnotes from them,
one entry per distinct URL. Each citation gets a reference marker showing the
identifier of its entry. This project models the logic under the DOM work, in
five modules:

- `Charsets` (`charsets.dfy`): the predefined charsets. Also how the
  constructor resolves the `charset` option: an array is used as given, a
  preset name picks that preset, any other string is split into characters,
  and any other type is an error.
- `Numbering` (`numbering.dfy`): the `identifier` routine. It writes a
  footnote index as a numeral whose digits are the charset's symbols, falling
  back to the alphabet when the charset has fewer than two symbols. The code
  writes ordinary positional numerals: index 26 with the alphabet is `"ba"`,
  and with `["a","b"]` the labels run a, b, ba, bb, baa. It is not
  bijective, spreadsheet-style numbering (26 → `"aa"`). The division step
  `round(index/base - 0.5)` is modelled on exact reals with JavaScript's
  round-half-up, and proved equal to integer division.
- `DocumentOrder` (`document_order.dfy`): the sort comparator of `apply`,
  which does arithmetic on the `compareDocumentPosition` bitmask (section 4.4
  of the WHATWG DOM Standard). Nodes of a tree are named by their paths. The
  model proves that the comparator orders them exactly in document order.
- `Placement` (`placement.dfy`): where `cite` puts a marker. Inside a
  block quotation, the marker goes at the bottom of the first `p`/`li`/`dd` on
  the last-element-child chain, or of the quotation itself if the chain has
  none. That is the first such node, not the deepest. For any other element,
  the marker becomes its next sibling.
- `Footnotes` (`footnotes.dfy`): the annotator's state and its transitions.
  These are construction, `attempt`, `cite` with `appendFootnote`, `clear`,
  and the per-element loop of `apply`. The document is abstract: the container
  is the list of its children (entries this annotator appended, or other
  children with the `.footnoteUrl` texts inside them), the URL cache is
  `footnoteUrls`, and the `noted` class is a set of element identities.

Three behaviours of the code are stated as lemmas because a reader might
expect otherwise:
- `clear` does not reset the URL cache. Applying again after `clear`
  re-creates no entry as long as every URL cited was cached before
  (`ClearKeepsStaleCache`). The first new URL re-reads the cache from the
  emptied container, after which old URLs are re-created
  (`NewUrlAfterClearResetsCache`, `ClearThenNewUrlRecreatesOld`).
- Entry identifiers count every child of the container. Marker identifiers
  count the `.footnoteUrl` texts inside it. In a caller-supplied container
  whose other children hold a different number of such texts than there are
  children, a new entry and its marker get different identifiers; a foreign
  child holding exactly one URL text causes no skew
  (`ForeignChildSkewsIdentifiers`).
- Labels are positional numerals, as described above (`LabelOfBase`).

## Model

| member | source | states |
|---|---|---|
| Charsets.Resolve | Source/Footnotes.js:46-57 | the option is rejected exactly when it is neither absent/null, an array nor a string; unset keeps the alphabet; an array is used verbatim; a preset name gives that preset; any other string becomes single-character symbols that join back to the string |
| Charsets.JoinSplit | Source/Footnotes.js:52 | splitting a string into characters and joining them again gives the string back |
| Charsets.PresetShapes | Source/Footnotes.js:14-26 | numeric has 10 symbols, alpha 26, alphanumeric 36, qwerty 26, greek 24, special 16; the four plain presets are single characters |
| Charsets.AlphaDistinct | Source/Footnotes.js:16 | the 26 symbols of the alphabet are pairwise distinct |
| Numbering.Digits | Source/Footnotes.js:148-154 | the digits of an index form a canonical numeral: at least one digit, all below the base, no leading zero digit when there are several |
| Numbering.ValueOfDigits | Source/Footnotes.js:150-153 | reading the written digits back yields the index |
| Numbering.DigitsOfValue | Source/Footnotes.js:150-153 | writing out the value of a canonical numeral yields that numeral, so digit sequences and indices correspond one to one |
| Numbering.DigitsInjective | Source/Footnotes.js:148-154 | distinct indices have distinct digit sequences |
| Numbering.Effective | Source/Footnotes.js:142-147 | the charset used always has at least 2 symbols; a charset with 2 or more is kept, one with 0 or 1 is replaced by the 26-letter alphabet |
| Numbering.RoundingIsDivision | Source/Footnotes.js:152 | round-half-up of index/base - 0.5 on exact reals equals the integer quotient |
| Numbering.NextIndex | Source/Footnotes.js:152 | the loop's update of the index is the integer quotient by the base |
| Numbering.Identifier | Source/Footnotes.js:141-155 | the routine, with its fallback, single-symbol shortcut and digit loop, returns the rendering of the index's base-N digits in the effective charset |
| Numbering.WriteDigits | Source/Footnotes.js:149-154 | the prepend-and-divide loop writes exactly the index's digits, most significant first |
| Numbering.LabelOfSmallIndex | Source/Footnotes.js:148 | an index below the base is labelled by the symbol at that position |
| Numbering.LabelOfBase | Source/Footnotes.js:148-154 | the label of the base itself is the second symbol followed by the first, not the first symbol twice |
| Numbering.MultiDigitLeadingSymbol | Source/Footnotes.js:149-154 | an index at or above the base has at least two digits, its leading digit is not zero, and the label starts with that digit's symbol |
| Numbering.LabelInjective | Source/Footnotes.js:141-155 | with distinct single-character symbols, distinct indices get distinct labels |
| Numbering.Examples | Source/Footnotes.js:141-155 | alphabet: 0 gives "a", 25 "z", 26 "ba"; charset a,b: 2 gives "ba", 3 "bb", 4 "baa" |
| DocumentOrder.Comparator | Source/Footnotes.js:64-67 | the comparator is positive exactly when b precedes or contains a, negative exactly when b follows or is contained by a, zero exactly for the same node |
| DocumentOrder.ComparatorAntisymmetric | Source/Footnotes.js:66 | exchanging the relation for its converse flips the comparator's sign |
| DocumentOrder.Split | Source/Footnotes.js:65 | the split level of two paths bounds both, the paths agree before it, and differ at it unless one ends |
| DocumentOrder.SplitUnique | Source/Footnotes.js:65 | any level with those three properties is the split level |
| DocumentOrder.PositionOf | Source/Footnotes.js:65 | the derived position is Same exactly for equal paths; an ancestor is a proper prefix of the node's path, a descendant a proper extension |
| DocumentOrder.BeforeAtSplit | Source/Footnotes.js:64-67 | two nodes in document order split where the first ends or turns to an earlier sibling, whichever node is taken first |
| DocumentOrder.ComparatorFollowsDocumentOrder | Source/Footnotes.js:63-67 | on nodes of one tree the comparator is negative iff a comes first in document order, positive iff b does, zero iff they are the same node |
| DocumentOrder.BeforeTransitive | Source/Footnotes.js:63-67 | document order is transitive |
| DocumentOrder.BeforeStrictTotal | Source/Footnotes.js:63-67 | document order is irreflexive and relates every pair of distinct nodes |
| DocumentOrder.PositionOfConverse | Source/Footnotes.js:65 | the position of a seen from b is the converse of that of b seen from a |
| DocumentOrder.ComparatorSwap | Source/Footnotes.js:64-67 | comparing b with a has the opposite sign of comparing a with b |
| Placement.FindHost | Source/Footnotes.js:98-103 | the walk stops at the first p/li/dd on the last-element-child chain, none before it qualifying; it falls back to the block quotation exactly when no node on the chain qualifies |
| Placement.AppendAt | Source/Footnotes.js:104 | appending along the chain keeps the root's tag and the chain at least as long |
| Placement.AppendAtEffect | Source/Footnotes.js:104 | the host gains the marker as its new last child, the tree grows by exactly the marker's size, and removing that child restores the original |
| Placement.InsertAfter | Source/Footnotes.js:106 | exactly one node, the marker, is inserted right after the element; the siblings before and after it are unchanged |
| Placement.Place | Source/Footnotes.js:98-107 | a non-blockquote gets the marker as next sibling; a blockquote keeps its place among its siblings and its host, found as above, gets the marker as last child |
| Footnotes.New | Source/Footnotes.js:38-59 | a missing target fails first; then a charset option of another type fails; otherwise the cache starts empty, elements already noted stay noted and no other is, the charset is the resolved option (alphabet by default), and the container is the existing one or a new empty one |
| Footnotes.FootnoteUrls | Source/Footnotes.js:91 | re-reading a container whose children are all footnote entries gives exactly one URL per child |
| Footnotes.FootnoteUrlsMembers | Source/Footnotes.js:91 | a URL is re-read from the container exactly when some child of it holds that URL |
| Footnotes.FootnoteUrlsAppend | Source/Footnotes.js:91 | after appending an entry, re-reading yields the previous URLs followed by its URL |
| Footnotes.IndexOf | Source/Footnotes.js:88 | the lookup returns -1 exactly for an unknown URL, otherwise the first position holding it |
| Footnotes.AppendFootnote | Source/Footnotes.js:122-138 | the container gains one entry at the end, labelled with the identifier of the previous child count and holding the URL |
| Footnotes.Cite | Source/Footnotes.js:87-110 | the element becomes noted; a known URL leaves container and cache alone and uses its first cached index; an unknown URL appends exactly one entry, refreshes the cache from the container, and labels the marker by the last cached position |
| Footnotes.Attempt | Source/Footnotes.js:79-85 | a noted element or one without either attribute changes nothing; otherwise the result is exactly that of citing the value of `get('cite')` whenever it is non-null, even the empty string, and that of `get('href')` only when `get('cite')` is null; a marker is returned only with the element newly noted |
| Footnotes.Apply | Source/Footnotes.js:68 | processing never un-notes an element, and every processed citation that carries a URL ends noted |
| Footnotes.NewIsConsistent | Source/Footnotes.js:41-44 | a new annotator with a new container has container and cache in agreement |
| Footnotes.ConsistentCacheIsFresh | Source/Footnotes.js:91 | when container and cache agree, re-reading the container gives exactly the cache |
| Footnotes.CiteKeepsConsistent | Source/Footnotes.js:87-138 | from an agreeing state, cite keeps the agreement, registers the URL once, and the marker's identifier is the identifier of the entry holding the URL |
| Footnotes.FirstCitationKeepsConsistent | Source/Footnotes.js:88-93 | from an agreeing state, citing a new URL keeps the agreement, appends the URL to the cache and puts the marker's entry last |
| Footnotes.AppendKeepsConsistent | Source/Footnotes.js:88-92 | appending an entry labelled by the next index for an uncached URL, and caching that URL, keeps container and cache in agreement |
| Footnotes.FirstCitation | Source/Footnotes.js:88-93 | from an agreeing state, a new URL's entry and marker share the identifier of the old container size, and the cache ends with the URL |
| Footnotes.RegisterAll | Source/Footnotes.js:88-92 | registering URLs in turn keeps the known ones as a prefix, adds nothing else than the given URLs, and never duplicates one |
| Footnotes.ApplyRegistersInOrder | Source/Footnotes.js:61-110 | processing distinct citations from an agreeing state keeps the agreement and leaves each newly cited URL in the container once, in first-occurrence order |
| Footnotes.ApplyIdempotent | Source/Footnotes.js:68-108 | a second pass over the same citations changes nothing and places no marker |
| Footnotes.SameUrlSharesEntry | Source/Footnotes.js:88-96 | two elements citing one new URL yield one entry and two markers with that entry's identifier |
| Footnotes.Clear | Source/Footnotes.js:72-77 | empties the container, keeps the URL cache and the charset, and un-notes only the elements inside the target |
| Footnotes.NewUrlAfterClearResetsCache | Source/Footnotes.js:88-92 | after clear, citing a URL not cached before gives one entry with the first identifier, a cache holding that URL alone, and every previously cached URL unknown again |
| Footnotes.ClearThenNewUrlRecreatesOld | Source/Footnotes.js:88-92 | with "old" cached and an empty container, citing "new" and then "old" gives two entries, the second holding "old" |
| Footnotes.ClearKeepsStaleCache | Source/Footnotes.js:72-93 | after clear, citing only previously cached URLs re-creates no entry: the container stays empty and the cache keeps its old URLs |
| Footnotes.KnownUrlsAddNothing | Source/Footnotes.js:88-89 | citations whose URLs are all cached leave container and cache unchanged |
| Footnotes.ClearThenApplyLosesEntry | Source/Footnotes.js:72-77 | citing one URL, clearing (which un-notes the element inside the target) and applying again leaves an empty container where the first pass had one entry |
| Footnotes.ForeignChildSkewsIdentifiers | Source/Footnotes.js:87-138 | with distinct single-character symbols, a new entry and its marker get the same identifier exactly when the container holds as many `.footnoteUrl` texts as children, so always when every child is a footnote entry |
| Footnotes.ForeignChildExample | Source/Footnotes.js:87-138 | with the charset a, b, a supplied container whose one child holds no footnote URL gives the first new entry "b" and its marker "a" |

## Left out

- The element query `*[href^=""],*[cite^=""]`, `Element` creation, `adopt`, `grab`, `dispose`, `empty`, class names other than `noted`, and MooTools' `setOptions` merging. These are library code. Citations, containers and trees are abstract datatypes instead.
- `compareDocumentPosition` itself and the `Array.sort` algorithm. The position is derived from tree paths, and only the comparator's arithmetic and its agreement with document order are proved.
- Footnotes.Apply: processes the citations in the order given. That order is the sorted query result; the sort is not modelled.
- The `format` template and `String.substitute`. Markers carry the identifier itself, which is what the default `'{id}'` renders, and the URL.
- Numbering.RoundingIsDivision: exact real arithmetic, not IEEE doubles. The two agree for indices within the exact integer range of doubles.
- The document itself. The set of elements already carrying `noted` is an argument of `New`, and the set of elements inside the target is an argument of `Clear`, which un-notes only those.
- The document-wide removal of `.footnoteReference` markers in `clear`. Markers are returned by `cite`, `attempt` and `apply` and not kept in the annotator's state.
- Footnotes.New: does not model the empty container that is created and attached to the target before an invalid charset option throws.
- The `Element.implement` `footnotes` wrapper. It is glue. It passes three arguments to a two-argument constructor, so its container argument is read as the options.
- The `backreferences` option, which has no effect.
- The content of the greek and special HTML entities. They are opaque symbol strings.
- Charsets.Resolve: a charset string is split into Unicode scalar values, while JavaScript's `split('')` yields UTF-16 code units. The two agree for strings within the Basic Multilingual Plane; a character outside it is one symbol here and two there.
- Placement.Place: tags are compared as lower-case names, as MooTools reports them. Text nodes are not represented, so every child is an element child.
