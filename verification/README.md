# libxml2: a model of six components and proofs about it

This project models parts of libxml2 in Dafny and proves properties of the model. Code that works by changing state
in place is modelled by classes and methods, each specified by a function on values; the properties are lemmas about
those functions.

| component | modules |
|---|---|
| canonicaliser (`c14n.c`) | `XmlTree`, `SortedList`, `NsStack`, `C14n`, `C14nSpec`, `C14nMeaning`, `C14nSorted`, `C14nSelected`, `C14nOrder`, `C14nEscape`, `C14nText`, `C14nDocument` |
| namespace URIs (`uri.c`) | `Uri` |
| string dictionary (`dict.c`) | `DictPool`, `DictTable`, `Dict` |
| catalog resolver (`catalog.c`) | `CatalogIds`, `CatalogSpec`, `CatalogUrns`, `CatalogRules`, `Catalog`, `CatalogGroups`, `CatalogPrefer` |
| HTML parser (`HTMLparser.c`) | `HtmlClose`, `HtmlStack`, `HtmlImplied`, `HtmlParser`, `Utf8`, `HtmlEntities`, `HtmlAttribute`, `HtmlRoundTrip`, `HtmlVerbatim` |
| tree builder (`SAX2.c`) | `SaxTree`, `SaxText` |
| tree listing (`debugXML.c`) | `TreeWalk`, `TreeListing` |

`XmlString` and `Memory` hold what the components share.

**Canonicaliser.** The walk of `c14n.c` keeps the namespaces it has printed on a stack with three cursors. `C14n` is
that walk, over the stack of `NsStack`. `C14nSpec.Canon` says what it must write, in terms of the bindings in force at
the nearest output ancestor, for the inclusive and the exclusive form and for subsets of the document. `C14nMeaning` has
a namespace-aware reader of the pieces of the output, which treats the value of a declaration like any attribute value;
`C14nText` has one of its characters. Namespace URIs are written without escaping. A document is refused when one of its
elements declares a relative URI, so in an accepted one the only character that matters is the ampersand: reading the
output gives back exactly the selected part of the input, with each element's bindings, if and only if no printed URI
has one. Then every declaration, where the reader meets it, changes the bindings in force. `C14nSorted` says in which
order declarations and attributes come, comparing them character by character, `C14nSelected` what the selected part is.
`C14nDocument` states these results of the characters that are written for a whole document, `C14nOrder` that the order
of declarations and attributes in the source does not matter.

**Dictionary.** Strings live in pools as bytes with addresses; buckets hold a head and a chain of overflow entries.
For any history of lookups the addresses of two results are equal exactly when the names are, growth included. The
first loop of the growth step never overwrites a slot because the new size is a multiple of the old one. A dictionary
with a sub-dictionary keeps its answers while the sub-dictionary goes on interning.

**Catalogs.** `Catalog.Resolver` is the mutual recursion over lists of entries with one depth counter a list. It
terminates on every finite graph: what decreases is the set of counter increments still possible, then the number of
`%` characters and of URNs in the identifiers. On acyclic graphs it agrees with the recursive `CatalogSpec.Answer`,
which is the one solution of the rules in `CatalogRules`: they say what the result for a list has to do with its entries
and with the results for the lists that they lead to. `CatalogGroups` flattens nested groups into one list and rebuilds them.

**HTML.** `HtmlStack` describes each change of the open-element stack as a function; every run of such changes keeps
html at the bottom, head right above it and body single, and its SAX events replay to the stack. `HtmlImplied` says which
elements are supplied: in every run other elements stand inside a head or a body. The entity encoder and the attribute
parser are inverse to each other on well-formed text, and a value with ampersands that name no entity means itself.

**Tree builder.** Consecutive character callbacks grow one buffer, of which interned and in-node content is never
changed in place, and build what one callback with the whole text builds. The callbacks of a tree build that tree.

**Tree listing.** The stackless walk visits each node of a subtree once, in recursive pre-order, and prints one
line for each document and element, in document order and indented by its depth.

Strings are sequences of characters or bytes; `Option` stands for pointers that may be NULL. Integers are unbounded.

## Model

| member | source | states |
|---|---|---|
| XmlTree.SearchIsNearest | libxml2/tree.c:5583-5656 | on namespace-consistent trees the search, which also consults ancestors' own namespaces, finds the nearest declaration of the prefix |
| XmlTree.DeclaredIsNearest | libxml2/tree.c:5583-5656 | the nearest declaration of the prefix, and in one element the first, hides all others |
| XmlString.StrCmpAntisymmetric | libxml2/xmlstring.c:132-143 | swapping the operands flips the sign of the comparison |
| XmlString.StrCmpTransitive | libxml2/xmlstring.c:132-143 | the byte-wise comparison is transitive |
| XmlString.StrCmpIsOrder | libxml2/xmlstring.c:132-143 | negative exactly if the first string is a proper beginning of the second, or has the smaller character at the first place where they differ |
| SortedList.ListInsert | libxml2/list.c:273-294 | the new link goes in front of the first link that is not below it |
| SortedList.ListSearch | libxml2/list.c:138-151 | the search succeeds exactly if the first link that is not below the data compares equal |
| SortedList.SearchFinds | libxml2/list.c:231-240 | in a sorted list the search finds exactly the equal keys |
| SortedList.InsertedSorted | libxml2/list.c:273-294 | insertion of a new key keeps the list strictly sorted and adds exactly that element |
| SortedList.UniqueSorted | libxml2/list.c:273-294 | a strictly sorted list is determined by its elements, so insertion order does not matter |
| SortedList.KeyCmpIsOrder | libxml2/c14n.c:857-893 | the order of keys: no URI first, then by URI and by name, character by character |
| NsStack.VisibleNsStack.Grow | libxml2/c14n.c:307-350 | the two arrays grow together to 16 or twice as many places and keep all entries |
| NsStack.VisibleNsStack.Add | libxml2/c14n.c:307-350 | pushes one entry and leaves the window cursors alone |
| NsStack.VisibleNsStack.Restore | libxml2/c14n.c:365-373 | cuts the stack back to the saved length and puts the saved cursors back |
| NsStack.VisibleNsStack.Shift | libxml2/c14n.c:376-383 | the window becomes what the current element has pushed |
| NsStack.VisibleNsStack.Find | libxml2/c14n.c:406-437 | true exactly if the nearest entry for the prefix inside the window has the URI, or for an empty default if no default was printed anywhere |
| NsStack.VisibleNsStack.ExcFind | libxml2/c14n.c:440-474 | true exactly if the nearest entry for the prefix on the whole stack has the URI and is visible, or for an empty default if there is no such entry |
| NsStack.ExcFoundSeen | libxml2/c14n.c:440-474 | where all entries are visible, that search tells whether the binding is in force |
| C14n.WindowSuffices | libxml2/c14n.c:406-437 | if the window holds all bindings in force, the windowed search tells whether a binding is in force |
| C14n.C14NCtx.RenderWindowed | libxml2/c14n.c:623-632 | a declaration is listed exactly if the windowed search did not find it, and pushed exactly if the element is visible |
| C14n.C14NCtx.CollectDeclarations | libxml2/c14n.c:618-636 | the loops over the path leave the list and the pushes of the specification function |
| C14n.InclusiveAxis | libxml2/c14n.c:596-667 | those loops push exactly the element's scope and list exactly the bindings not in force at the nearest output ancestor |
| C14n.C14NCtx.ProcessNamespacesAxis | libxml2/c14n.c:596-667 | prints exactly the missing bindings in order and leaves the scope on the stack |
| C14n.C14NCtx.CollectPrefixes | libxml2/c14n.c:736-765 | the loop over the inclusive prefix list computes the specification function |
| C14n.C14NCtx.CollectElementNs | libxml2/c14n.c:767-786 | the element's own namespace, or the default that its unprefixed name would pick up, is listed and pushed as the specification function says, on any stack and for any selection |
| C14n.C14NCtx.CollectAttrNs | libxml2/c14n.c:789-808 | the loop over the attributes computes the specification function, on any stack and for any selection |
| C14n.ExclusiveAxis | libxml2/c14n.c:701-844 | for every selection that splits no element from its namespace nodes, the three parts push exactly the needed bindings and list exactly what is missing of them; at an omitted element nothing |
| C14n.C14NCtx.ExcProcessNamespacesAxis | libxml2/c14n.c:701-844 | prints exactly the needed bindings that are not in force, at omitted elements none, and keeps the stack in step |
| C14n.C14NCtx.PrintNamespaces | libxml2/c14n.c:534-554 | writes the listed declarations in order |
| C14n.C14NCtx.PrintAttrs | libxml2/c14n.c:909-943 | writes the listed attributes in order, values escaped |
| C14n.C14NCtx.InheritXmlAttrs | libxml2/c14n.c:1013-1033 | adds the ancestors' xml attributes whose names are still free, nearest first |
| C14n.C14NCtx.ProcessAttrsAxis | libxml2/c14n.c:978-1045 | writes the attribute axis of the specification |
| C14n.AfterAxis | libxml2/c14n.c:1117-1213 | after a visible element's axis its pushes are a window that holds all bindings in force inside it |
| C14n.C14NCtx.CheckForRelativeNamespaces | libxml2/c14n.c:1057-1093 | true exactly if every URI that the element declares is empty or absolute, urn and dav needing no server |
| C14n.C14NCtx.WriteStartTag | libxml2/c14n.c:1145-1184 | writes the start tag of the specification and leaves the stack in step for the children |
| C14n.C14NCtx.ProcessElementNode | libxml2/c14n.c:1117-1213 | an error exactly if the element or one below it declares a relative URI; otherwise any subtree leaves all three cursors as they were and, on admissible input, writes its canonical form |
| C14n.C14NCtx.ProcessNode | libxml2/c14n.c:1225-1264 | text is escaped and written if visible; elements as above |
| C14n.C14NCtx.ProcessNodeList | libxml2/c14n.c:1416-1429 | stops at the first error; without one, siblings write their canonical forms in order and leave the cursors alone |
| C14n.C14NCtx.ProcessDocument | libxml2/c14n.c:1569-1633 | an error exactly if some element declares a relative URI; otherwise the buffer is the canonical form: in each start tag declarations ascend by prefix and then attributes by namespace and name; it reads back as exactly the selected part of the document if and only if no URI in it has an ampersand, and then no declaration is redundant |
| C14nMeaning.MissingRestores | libxml2/c14n.c:596-667 | declaring the missing bindings turns the bindings in force into those the element needs |
| C14nMeaning.StartTagReads | libxml2/c14n.c:1117-1213 | a start tag reads back as the element's name, attributes and bindings if its printed declarations are plain, and as something else or not at all otherwise |
| C14nMeaning.CanonReads | libxml2/c14n.c:1117-1213 | the canonical form of a subtree that needs only plain URIs reads back as its selected part, whatever follows |
| C14nMeaning.ReadsOnlyPlain | libxml2/c14n.c:534-554 | conversely, a subtree whose canonical form reads back as its selected part needs only plain URIs |
| C14nMeaning.NeededIsPrinted | libxml2/c14n.c:534-554 | the needed URIs are plain exactly if the printed ones are |
| C14nMeaning.CanonicalFormKeepsMeaning | libxml2/c14n.c:1569-1633 | of either form: the output reads back as exactly the selected part of the document if and only if every needed URI, that is every printed one, is free of `&`, `<`, quotes, tabs and line ends |
| C14nMeaning.PlainIsNoAmpersand | libxml2/c14n.c:1057-1093 | in an accepted document the printed URIs are plain exactly if none has an ampersand |
| C14nMeaning.AcceptedKeepsMeaning | libxml2/c14n.c:1569-1633 | of an accepted document the output reads back as exactly the selected part if and only if no printed URI has an ampersand, and then nothing is redundant |
| C14nMeaning.AmpersandFails | libxml2/c14n.c:534-554 | a URI with an ampersand that begins no reference gives output that is not well formed |
| C14nMeaning.ReferenceFails | libxml2/c14n.c:534-554 | a URI with `&amp;` in it is read back as another URI |
| C14nMeaning.AmpersandUri | libxml2/c14n.c:534-554 | for example `urn:x&y=2`, which the test for relative URIs accepts because urn needs no server |
| C14nMeaning.ReferenceUri | libxml2/c14n.c:534-554 | for example `urn:x&amp;b`, accepted likewise and read as `urn:x&b` |
| C14nMeaning.CanonNotRedundant | libxml2/c14n.c:596-667 | as read, every declaration in a subtree's output changes the bindings in force where it stands |
| C14nMeaning.CanonicalFormIsMinimal | libxml2/c14n.c:596-844 | the same for the canonical form of a whole document |
| C14nSpec.AttrCompareIsKeyOrder | libxml2/c14n.c:857-893 | on attributes whose namespaces have prefixes the comparator is the order by URI and then local name |
| C14nSorted.AddVisibleIs | libxml2/c14n.c:997-1007 | the sorted list holds exactly the visible attributes |
| C14nSorted.AddXmlIs | libxml2/c14n.c:1013-1033 | exactly the xml attributes with free names are added |
| C14nSorted.AxisIs | libxml2/c14n.c:978-1045 | the axis is sorted and holds exactly the visible attributes and, in inclusive form below an omitted parent, of each xml name that is still free the attribute of the nearest ancestor |
| C14nSorted.ListingAscends | libxml2/c14n.c:511-521 | the listing of some bindings is the one whose prefixes ascend, character by character |
| C14nSorted.TagDeclaresExactly | libxml2/c14n.c:596-844 | a start tag declares exactly the declarations in scope that are not in force, in exclusive form only for prefixes of the element, of visible attributes and of the inclusive list, where #default is the default namespace |
| C14nSorted.TagAscends | libxml2/c14n.c:1145-1184 | in a start tag declarations come first and ascend by prefix; then come attributes without a namespace, then the others by URI and local name |
| C14nSorted.CanonicalFormAscends | libxml2/c14n.c:1569-1633 | so in every start tag of a document |
| C14nSelected.InfosetSelects | libxml2/c14n.c:1225-1264 | the selected part has exactly the visible text and the tags of the visible elements, in document order and nesting |
| C14nOrder.NeededSame | libxml2/c14n.c:596-844 | reordering declarations and attributes keeps the needed bindings |
| C14nOrder.AttrAxisSame | libxml2/c14n.c:978-1045 | reordering attributes keeps the attribute axis |
| C14nOrder.CanonSame | libxml2/c14n.c:511-1045 | trees that differ only in the order of declarations and attributes have the same canonical form |
| C14nOrder.AdmissibleSame | libxml2/c14n.c:1117-1213 | reordering keeps a tree namespace-consistent and its selection admissible |
| C14nOrder.ProcessBoth | libxml2/c14n.c:1569-1633 | two runs of the canonicaliser on such documents end alike, and without an error leave equal buffers |
| C14nEscape.NormalizeString | libxml2/c14n.c:1837-1924 | the growing buffer ends up with every character's replacement; no write passes the buffer's end |
| C14nEscape.UnescapeEscape | libxml2/c14n.c:1814-1822 | in attribute and text mode an XML reader gets the input back, so nothing is left that it would refuse |
| C14nEscape.RawValueReads | libxml2/c14n.c:534-554 | a value written without escaping reads as itself exactly if it is plain |
| C14nEscape.NoRawDelimiter | libxml2/c14n.c:1837-1924 | no raw delimiter of the mode is left in the output, and every ampersand begins a reference |
| C14nEscape.EscapeKeeps | libxml2/c14n.c:1837-1924 | a text stays as it is exactly if it has none of the characters that its mode replaces |
| C14nEscape.AttributeForms | libxml2/c14n.c:1837-1924 | what is written for the characters replaced in attribute values |
| C14nEscape.TextForms | libxml2/c14n.c:1837-1924 | and for those replaced in text |
| C14nText.NamedQName | libxml2/c14n.c:1152-1158 | a qualified name is taken apart into its prefix and local part |
| C14nText.LexQuoted | libxml2/c14n.c:909-943 | a written declaration or attribute is read as such, with its value |
| C14nText.LexSpells | libxml2/c14n.c:1145-1205 | the characters of any legible sequence of pieces are read as exactly those pieces |
| C14nDocument.TagHeads | libxml2/c14n.c:596-1045 | a start tag does not depend on what is below the elements of the path |
| C14nDocument.SplitSpelled | libxml2/c14n.c:1240-1264 | cutting text nodes into single characters changes no character of the output |
| C14nDocument.SplitMeant | libxml2/c14n.c:1240-1264 | and cuts the data that the document means, nothing else |
| C14nDocument.SplitLegible | libxml2/c14n.c:1117-1213 | the pieces written for an accepted document with proper names are legible |
| C14nDocument.TextKeepsMeaning | libxml2/c14n.c:1569-1633 | the text written for an accepted document, read character by character, is exactly the selected part of the document if and only if no namespace URI in it has an ampersand |
| C14nDocument.TextAscending | libxml2/c14n.c:1569-1633 | read from the text, declarations ascend by prefix in every start tag, and attributes by namespace and name |
| C14nDocument.Execute | libxml2/c14n.c:1569-1633 | the same of a run: an error for a relative URI, or else the text, which reads back as said and whose tags are in order |
| Uri.ParseServer | libxml2/uri.c:1279-1435 | the server and the end of what was read, which has only characters of a URI |
| Uri.ParseAbsolute | libxml2/uri.c:1782-1814 | scheme and server of a URI that is read to its end; whatever is accepted is printable and free of quotes and angle brackets |
| Uri.AbsoluteChars | libxml2/c14n.c:1057-1093 | so is every URI that is not relative |
| Uri.AbsoluteHasServer | libxml2/c14n.c:1057-1093 | and has a scheme, and behind it two slashes and a server unless the scheme is urn or dav |
| Uri.ServerAbsolute | libxml2/uri.c:1279-1435 | letters for scheme and server and any simple path are accepted |
| Uri.UrnAbsolute | libxml2/uri.c:1224-1253 | behind urn: any URI characters but a slash in front are accepted |
| DictPool.FindPool | libxml2/dict.c:131-157 | the first pool with room, or if all are full a new one in front: of 1000 bytes or four times the largest, and at least four times the name |
| DictPool.AddString | libxml2/dict.c:128-164 | the string gets a new address in the used part of a pool; no earlier string moves or overlaps |
| DictTable.KeyOfPrefix | libxml2/dict.c:231-254 | for a non-empty name only its own bytes enter the key |
| DictTable.EmptyNameKeyDependsOnMemory | libxml2/dict.c:231-254 | two empty names fall into one bucket exactly if the bytes behind their pointers agree, modulo 4, 32 or 256 for the three table sizes |
| DictTable.HomesStayApart | libxml2/dict.c:404-486 | if the new size is a multiple of the old one, names of different old buckets have different new ones |
| DictTable.HeadSlotFree | libxml2/dict.c:433-448 | the first loop of the growth step finds every head's new slot free |
| Dict.MoveHeads | libxml2/dict.c:439-448 | the first loop puts each head in its home bucket and overwrites nothing |
| Dict.MoveTails | libxml2/dict.c:450-476 | the second loop puts every overflow entry back, each that becomes a head being freed once |
| DictTable.RehashKeeps | libxml2/dict.c:404-486 | after growth every stored string has exactly one entry again, in its new home bucket |
| Dict.Rehash | libxml2/dict.c:404-486 | the new table is the specified one, in order, with the same number of entries |
| Dict.Dict.Grow | libxml2/dict.c:404-486 | refuses sizes above 16384, else rebuilds the table with the same entries |
| DictTable.FoundAtHome | libxml2/dict.c:575-607 | a stored string is found in its home bucket |
| DictTable.AbsentFromBucket | libxml2/dict.c:575-607 | a name missing from its home bucket is nowhere in the table |
| DictTable.InsertOk | libxml2/dict.c:642-661 | an insertion keeps every string at exactly one entry and the count right |
| DictTable.EntriesAreStrings | libxml2/dict.c:404-486 | a table that holds every string once has as many entries as there are strings |
| Dict.Dict.CountIsStrings | libxml2/dict.c:642-661 | the entry count is the number of the dictionary's own strings |
| Dict.SearchChain | libxml2/dict.c:580-607 | the walk stops at the first entry with the same length and bytes |
| Dict.Dict.Find | libxml2/dict.c:575-640 | finds the interned address exactly if the name is interned here or in the sub-dictionary |
| Dict.Dict.Exists | libxml2/dict.c:682-761 | the interned address if there is one; nothing changes |
| Dict.Dict.Lookup | libxml2/dict.c:563-669 | returns the one address of the name, adding at most this name; all others keep theirs, growth included |
| Dict.Dict.AddressIdentifies | libxml2/dict.c:563-669 | two interned addresses are equal exactly if the strings are |
| Dict.Dict.InternedDenotes | libxml2/dict.c:563-669 | every interned address still denotes its NUL-terminated string |
| Dict.LookupAll | libxml2/dict.c:563-669 | after any history of lookups every result is the address of its name and no earlier string has moved |
| Dict.SameAnswerSameName | libxml2/dict.c:563-669 | two results of a history are the same address exactly if the names are equal |
| Dict.Dict.Sub | libxml2/dict.c:363-371 | the new dictionary inherits the strings of the other at their addresses |
| Dict.Dict.Refresh | libxml2/dict.c:611-640 | seeing the sub-dictionary as it is now moves no string that was known, neither an inherited one nor one of the dictionary's own |
| Dict.LookupOver | libxml2/dict.c:575-669 | a lookup over a sub-dictionary that has gone on: own strings first, then those that it has by now; all known addresses stay |
| Dict.LookupBoth | libxml2/dict.c:563-669 | for any interleaving of lookups in a dictionary and in its sub-dictionary, every result is the one address of its name there |
| Dict.Dict.Owns | libxml2/dict.c:865-879 | true exactly for addresses in the used part of a pool, of the dictionary or of one beneath it; so for every interned address |
| Dict.Dict.FreeEntries | libxml2/dict.c:524-541 | the loop stops by the entry count and by then has freed every overflow entry exactly once |
| DictTable.FreeOne | libxml2/dict.c:530-537 | the next overflow entry is allocated, and freeing it leaves exactly the others |
| CatalogIds.NormalizePublic | libxml2/catalog.c:1030-1070 | NULL exactly for NULL or non-empty normal input, else the normal form |
| CatalogIds.AlreadyNormal | libxml2/catalog.c:1041-1051 | the early exit recognises exactly the non-empty normal strings |
| CatalogIds.NormalStep | libxml2/catalog.c:1053-1068 | how one more character changes the normal form defined by words |
| CatalogIds.NormalIdempotent | libxml2/catalog.c:1030-1070 | normalising twice changes nothing, and exactly the normal strings are unchanged |
| CatalogIds.UnWrapURN | libxml2/catalog.c:818-871 | NULL for other strings, else the unwrapped identifier; the 2000-character buffer is never overrun |
| CatalogIds.UnwrapPercents | libxml2/catalog.c:818-871 | unwrapping never adds a percent sign, and where it removes none it leaves no single colon |
| CatalogIds.UnwrapShrinks | libxml2/catalog.c:2013-2056 | if the unwrapped identifier is a publicid URN again, normalised or not, it has fewer percent signs |
| CatalogUrns.UnwrapWrap | libxml2/catalog.c:818-871 | unwrapping gives back an identifier wrapped by RFC 3151, as far as the buffer reaches |
| CatalogUrns.PublicUrn | libxml2/catalog.c:2013-2043 | a URN as public identifier asks for what it stands for |
| CatalogUrns.SystemUrn | libxml2/catalog.c:2044-2056 | a URN as system identifier serves as public identifier if there is none, adds nothing if it stands for the public one, and else asks for what it stands for |
| CatalogSpec.Effective | libxml2/catalog.c:2013-2056 | nested unwrapping ends, with a normalised public identifier and no URN left |
| CatalogSpec.FirstMatch | libxml2/catalog.c:1654-1663 | the earliest entry of the kind with exactly this name |
| CatalogSpec.BestRewrite | libxml2/catalog.c:1664-1671 | the longest matching prefix, the earliest on ties |
| CatalogSpec.FirstOfNone | libxml2/catalog.c:1701-1738 | nothing is found exactly if no followed entry has an answer |
| CatalogSpec.FirstOfStays | libxml2/catalog.c:1701-1738 | the first answer found is the answer |
| CatalogSpec.AnswerIgnoresRank | libxml2/catalog.c:1626-1842 | the specified answer depends on the catalogs only |
| CatalogRules.FirstOfIsFirst | libxml2/catalog.c:1701-1738 | following entries in order gives the first result among the lists that they lead to |
| CatalogRules.RulesDecide | libxml2/catalog.c:1626-1842 | where the linked lists have their answers, the rules for a list hold of a result exactly if it is the answer: an exact match gives its URL, a rewrite its URL and the rest of the identifier, delegates are asked with one identifier and cut the search, public rules only without system rules, next catalogs last |
| CatalogRules.AnswerSolves | libxml2/catalog.c:1626-1842 | the answers obey these rules at every list |
| CatalogRules.SolutionIsAnswer | libxml2/catalog.c:1626-1842 | on acyclic catalogs nothing else does |
| Catalog.SlotsShrink | libxml2/catalog.c:1636-1642 | counters that do not drop keep the remaining budget, and a raised one lowers it strictly |
| Catalog.ScanSystem | libxml2/catalog.c:1648-1683 | the first pass finds the exact match, the best rewrite, and whether delegates match or next catalogs exist |
| Catalog.ScanPublic | libxml2/catalog.c:1743-1770 | the same for the public identifier and its preference |
| Catalog.Resolver.TryOne | libxml2/catalog.c:1704-1733 | skipping a URL tried before does not change the answer, whether or not there was room to note it |
| Catalog.Resolver.TryDelegates | libxml2/catalog.c:1694-1738 | the first answer of the matching delegates, else the cut |
| Catalog.Resolver.TryNext | libxml2/catalog.c:1819-1838 | the first answer of the next catalogs, in order |
| Catalog.Resolver.NextOne | libxml2/catalog.c:1821-1837 | one next catalog: its answer, or the end of the search when the list's own counter is above the limit |
| Catalog.Resolver.XMLResolve | libxml2/catalog.c:1626-1842 | terminates on any graph; no counter passes 51 or drops, and all are as before unless in between some counter was above the limit; on acyclic graphs the result is the one that the rules determine |
| Catalog.Resolver.ListResolve | libxml2/catalog.c:2002-2078 | the same for a list of catalogs, with URNs unwrapped first |
| Catalog.Resolver.ResolveIds | libxml2/catalog.c:2029-2056 | a URN among the identifiers is unwrapped and the list asked again, with a smaller measure |
| Catalog.Resolver.Resolve | libxml2/catalog.c:2850-2883 | the first result among the catalogs of the list, by the rules and for the identifiers without URNs; a cut search has no result |
| Catalog.FirstInByRules | libxml2/catalog.c:2057-2077 | asking the catalogs of a list in order gives the first result that the rules determine for them |
| CatalogGroups.Loader.ParseOneNode | libxml2/catalog.c:1140-1198 | an entry, unless an attribute is missing or the URI cannot be built |
| CatalogGroups.Loader.ParseNode | libxml2/catalog.c:1212-1301 | appends exactly the node's entries, a group's members pointing back to it |
| CatalogGroups.Loader.ParseNodeList | libxml2/catalog.c:1315-1325 | appends the entries of the siblings in order |
| CatalogPrefer.NestedPrefer | libxml2/catalog.c:1216-1265 | an entry prefers what the innermost group around it with a valid attribute says, or else what the file does |
| CatalogPrefer.PreferWritten | libxml2/catalog.c:560-590 | a valid attribute is written back as it was, and none where there was none |
| CatalogGroups.DumpNode | libxml2/catalog.c:535-650 | writes the members of one group, nested groups recursively |
| CatalogGroups.NodeRestored | libxml2/catalog.c:535-650 | dumping a node's entries gives the node back in canonical form, and nothing of its neighbours |
| CatalogGroups.DumpRestores | libxml2/catalog.c:535-650 | loading a file and dumping the list restores its nesting, order, types, names and values, for any depth |
| CatalogGroups.NodeNotLonger | libxml2/catalog.c:1140-1301 | a reload never finds more entries than there were |
| CatalogGroups.ReloadKeepsList | libxml2/catalog.c:1212-1325 | saving and loading again gives the same list, URLs, preferences and groups included, if and only if every loaded entry's URI is built the same without its own xml:base |
| CatalogGroups.OwnBaseIsLost | libxml2/catalog.c:535-650 | an entry whose own xml:base matters comes back with another URL |
| HtmlParser.Context.NamePush | libxml2/HTMLparser.c:164-180 | pushes one name; the array doubles when full and keeps its contents |
| HtmlParser.Context.NamePop | libxml2/HTMLparser.c:190-206 | pops the name on top, if any |
| HtmlParser.Context.GetEndPriority | libxml2/HTMLparser.c:1092-1100 | the priority of the table, 100 for other names |
| HtmlParser.Context.AutoCloseOnClose | libxml2/HTMLparser.c:1152-1186 | closes what stands above the topmost element of the name unless a higher priority does |
| HtmlParser.Context.AutoCloseOnEnd | libxml2/HTMLparser.c:1195-1206 | closes everything, innermost first |
| HtmlClose.GroupAt | libxml2/HTMLparser.c:909-962 | where each start tag's group stands in the flattened table |
| HtmlClose.InitAutoClose | libxml2/HTMLparser.c:1050-1063 | the index holds the beginning of every group, as far as it has room |
| HtmlClose.CheckAutoClose | libxml2/HTMLparser.c:1115-1141 | true exactly if the first indexed group for the new tag lists the open element |
| HtmlParser.Context.AutoClose | libxml2/HTMLparser.c:1221-1241 | closes elements on top as long as the table says so |
| HtmlParser.Context.CheckImplied | libxml2/HTMLparser.c:1305-1348 | supplies html, head or body as specified |
| HtmlParser.Context.CheckParagraph | libxml2/HTMLparser.c:1362-1390 | opens a paragraph exactly where text may not stand |
| HtmlParser.Context.ParseStartTag | libxml2/HTMLparser.c:3463-3499 | opens the element unless it is misplaced |
| HtmlParser.Context.ParseEndTag | libxml2/HTMLparser.c:3669-3712 | changes the stack as specified and reports whether it did |
| HtmlParser.Context.ParseElement | libxml2/HTMLparser.c:3987-4050 | the element up to its content: empty ones are closed, unfinished ones dropped |
| HtmlParser.Context.TakeAll | libxml2/HTMLparser.c:3987-4050 | any sequence of steps leaves the stack and events of the specified run |
| HtmlStack.AutoClosedPrefix | libxml2/HTMLparser.c:1221-1241 | auto-closing shortens the stack exactly as far as the table goes on saying so |
| HtmlStack.StartedWellPlaced | libxml2/HTMLparser.c:3463-3499 | a start tag keeps html at the bottom, head above it and body single |
| HtmlStack.ParagraphWellPlaced | libxml2/HTMLparser.c:1362-1390 | so does text, which then never stands directly in html or head |
| HtmlStack.RunWellPlaced | libxml2/HTMLparser.c:1305-1348 | every run that supplies omitted elements keeps that structure, for every table |
| HtmlImplied.RunHoused | libxml2/HTMLparser.c:1305-1348 | in every run that supplies omitted elements, for every table, any element but html, head, body and the frame elements has a head or a body below it on the stack |
| HtmlImplied.FirstTag | libxml2/HTMLparser.c:1305-1348 | a first script, style, meta, link, title or base stands directly in head, any other first element in body, apart from html, head, body and the frame elements |
| HtmlImplied.SuppliedIs | libxml2/HTMLparser.c:1305-1348 | which elements are supplied in front of any start tag |
| HtmlImplied.StartTagOpens | libxml2/HTMLparser.c:3463-3499 | a start tag closes what the table says, supplies what is missing, and opens its element: html only where nothing is open, head only right inside html, body once |
| HtmlImplied.BegunIs | libxml2/HTMLparser.c:3987-4050 | an element stays open behind its start tag unless it is empty or unfinished |
| HtmlImplied.TextOpensParagraph | libxml2/HTMLparser.c:1362-1390 | text opens a paragraph exactly if nothing is open or html or head is innermost, and else changes nothing |
| HtmlStack.OmittedNeeded | libxml2/HTMLparser.c:1306-1307 | without supplied elements it fails at the first start tag |
| HtmlStack.EndTagCuts | libxml2/HTMLparser.c:3669-3712 | an end tag leaves the stack alone or cuts it below the topmost element of its name, exactly if nothing above has a higher priority |
| HtmlStack.RunFaithful | libxml2/HTMLparser.c:1152-1206 | in every run each end event closes the element opened last, the events account for the stack, and at the end nothing is open |
| HtmlParser.ParseContent | libxml2/HTMLparser.c:1050-1390 | a run of the parser itself leaves the stack and events of the specified run over its own tables: with supplied elements the structure holds and other elements stand in head or body, and the events replay to the stack, for every table |
| Utf8.CharAtEncode | libxml2/HTMLparser.c:1914-1942 | decoding inverts encoding, whatever stands around it |
| HtmlEntities.EntityValueLookup | libxml2/HTMLparser.c:1765-1777 | the scan with its early stop computes the lookup |
| HtmlEntities.ValueFound | libxml2/HTMLparser.c:1765-1777 | in a sorted table the early stop misses nothing |
| HtmlEntities.EntityLookup | libxml2/HTMLparser.c:1742-1752 | the first entry with the name |
| HtmlEntities.ReadChar | libxml2/HTMLparser.c:1914-1942 | reads one character, or tells that it is malformed or cut off |
| HtmlEntities.EncodeEntities | libxml2/HTMLparser.c:1899-1979 | code, output and consumed count are the specified ones; nothing is written behind the given length |
| HtmlEntities.UsedIsEncoded | libxml2/HTMLparser.c:1899-1979 | the consumed input is whole characters and the output exactly their encoding, for both result codes |
| HtmlEntities.WhyItStops | libxml2/HTMLparser.c:1899-1979 | -2 exactly at bytes that begin no character; otherwise input, completeness or room has run out |
| HtmlEntities.RestartIsWhole | libxml2/HTMLparser.c:1899-1979 | restarting with buffers that each fit one encoded character gives the encoding of the whole |
| HtmlEntities.WholeEncodes | libxml2/HTMLparser.c:1899-1979 | input of whole characters is encoded throughout |
| HtmlAttribute.Buffer.Reserve | libxml2/HTMLparser.c:1719-1729 | afterwards a hundred places are free and the contents are the same |
| HtmlAttribute.Buffer.PutChar | libxml2/HTMLparser.c:2447-2459 | appends the bytes of a code point within the reserved room |
| HtmlAttribute.Input.ParseCharRef | libxml2/HTMLparser.c:3092-3151 | the value of the reference, zero if it has none, and the position behind what was read |
| HtmlAttribute.Input.ParseName | libxml2/HTMLparser.c:2260-2291 | the longest ASCII name, if one starts here |
| HtmlAttribute.Input.ParseEntityRef | libxml2/HTMLparser.c:2480-2515 | the name and its entry; the semicolon is skipped only for a known entity |
| HtmlAttribute.Input.ParseHTMLAttribute | libxml2/HTMLparser.c:2340-2465 | the value up to the stop, as specified piece by piece; no write passes the buffer's end |
| HtmlRoundTrip.DecimalRead | libxml2/HTMLparser.c:3121-3135 | reading a printed number gives it back |
| HtmlRoundTrip.NameFindsValue | libxml2/HTMLparser.c:1742-1777 | in a table with unique names, the name of a value's entry leads back to that entry |
| HtmlRoundTrip.EscapedRead | libxml2/HTMLparser.c:2340-2465 | what the encoder wrote for a character is parsed as that character |
| HtmlRoundTrip.AttributeRoundTrip | libxml2/HTMLparser.c:1899-1979 | encoding NUL-free text of valid characters, in any number of buffers, and parsing it up to the quote gives the text back |
| HtmlRoundTrip.EncodeResumed | libxml2/HTMLparser.c:1899-1979 | one call after the other, each with a fresh buffer, gives the specified outcome |
| HtmlRoundTrip.EncodeAndParse | libxml2/HTMLparser.c:2340-2465 | running the encoder and then the parser gives the text back, with the cursor at the quote |
| HtmlRoundTrip.WrittenIsSafe | libxml2/HTMLparser.c:1945-1973 | the encoder's output is ASCII and free of NUL, of the quote and of tag brackets |
| HtmlVerbatim.OwnQuotedValue | libxml2/HTMLparser.c:2340-2465 | ASCII without NUL, the quote, `&#` and entity names between `&` and `;` is its own value |
| HtmlVerbatim.OwnUnquotedValue | libxml2/HTMLparser.c:2340-2465 | without quotes it ends at the first blank or `>` behind it, or with the input |
| HtmlVerbatim.ParseQuoted | libxml2/HTMLparser.c:2340-2465 | so the parser reads it |
| HtmlVerbatim.ParseUnquoted | libxml2/HTMLparser.c:2340-2465 | the same without quotes |
| HtmlVerbatim.HexReference | libxml2/HTMLparser.c:3092-3120 | a hexadecimal reference, in digits of either case, stands for its character, or for a NUL if its number is no character |
| HtmlVerbatim.BrokenReference | libxml2/HTMLparser.c:3121-3151 | a decimal reference that breaks off leaves a NUL, and the value goes on behind its digits |
| HtmlVerbatim.EncoderKeeps | libxml2/HTMLparser.c:1945-1973 | the encoder copies ASCII without ampersand, tag brackets and the quote |
| HtmlVerbatim.EncoderRefers | libxml2/HTMLparser.c:1945-1973 | and writes any other character by its name in a sorted table, or else by its number |
| SaxText.Builder.TextNode | libxml2/SAX2.c:1780-1843 | the string is held in the node, in the dictionary, or in memory of its own, as its length and surroundings decide |
| SaxText.Builder.TakeOver | libxml2/SAX2.c:2439-2445 | interned and in-node content is replaced by a private copy before it is changed |
| SaxText.Builder.Reserve | libxml2/SAX2.c:2446-2459 | afterwards the private buffer has room for the new text and its final zero |
| SaxText.Builder.Append | libxml2/SAX2.c:2460-2462 | the text grows by exactly the new characters |
| SaxText.Builder.ReceiveCharacters | libxml2/SAX2.c:2381-2483 | the tree changes as plain concatenation says; only private memory is written |
| SaxText.Builder.ReceiveStartElement | libxml2/SAX2.c:2224-2229 | a new innermost element; the reset counter never meets a text node |
| SaxText.Builder.ReceiveEndElement | libxml2/SAX2.c:2311-2341 | the innermost element joins its parent's children |
| SaxText.Builder.CopyEntityText | libxml2/parser.c:6196-6225 | a copied text joins a text node in front of it; the counters are reset to zero |
| SaxText.Builder.Receive | libxml2/SAX2.c:2381-2483 | any callback keeps the counters right and changes the tree as specified |
| SaxText.Builder.ReceiveAll | libxml2/SAX2.c:2381-2483 | any run of callbacks builds the specified tree; one that reports some children, with no text behind a text, adds exactly these children |
| SaxTree.ChunksJoin | libxml2/SAX2.c:2381-2483 | character data in pieces builds what it builds in one piece |
| SaxTree.ChunkingIrrelevant | libxml2/SAX2.c:2381-2483 | anywhere in a run, two ways of cutting the same data build the same tree |
| SaxTree.CallsGrow | libxml2/SAX2.c:2311-2483 | the callbacks that report some children add exactly these, in order, to the innermost open element, or at the top level, where text is dropped |
| SaxTree.DocumentGrows | libxml2/SAX2.c:2311-2483 | the callbacks of a document build the document |
| SaxTree.EntityTextIsCharacters | libxml2/parser.c:6196-6225 | the text of entities counts as character data |
| SaxText.BuildBoth | libxml2/SAX2.c:2381-2483 | two builders with any settings and lookahead that receive differently cut data end up with the same tree |
| TreeWalk.TopOnce | libxml2/debugXML.c:2712-2737 | no node below the start is the start again, so the comparison with it stops the walk only there |
| TreeWalk.Behind | libxml2/debugXML.c:2712-2737 | behind a child comes its next sibling, or what comes behind the parent |
| TreeWalk.Climb | libxml2/debugXML.c:2715-2737 | ends at the next visit in pre-order behind the subtree that was left, or stops if there is none |
| TreeWalk.Next | libxml2/debugXML.c:2704-2739 | the node and indent after one step are those of the next visit in pre-order |
| TreeWalk.ListingIsLines | libxml2/debugXML.c:2690-2698 | printing along the pre-order gives the recursive listing |
| TreeWalk.PlaceUnique | libxml2/debugXML.c:2704-2739 | the parent and next links give every node of a stored tree only one place |
| TreeWalk.VisitedOnce | libxml2/debugXML.c:2676-2742 | pre-order meets no node of a stored tree twice |
| TreeWalk.ShellDu | libxml2/debugXML.c:2676-2742 | terminates, visits exactly the subtree in pre-order, each node once, without entering entity references, and prints each element indented by its depth, one less below a document |
| TreeListing.ListingIsPrinted | libxml2/debugXML.c:2690-2698 | one line for each document or element that is reached, in document order: a slash, or the name indented by the steps down to it, one less below a document |

## Left out

- Canonicaliser: comments, processing instructions, entity references.
- C14n.C14NCtx.ProcessNode: comments, processing instructions and the errors for other node types.
- C14n.C14NCtx.ProcessElementNode: what an erroneous run leaves in the buffer and on the stack.
- Uri.ParseAbsolute: user, port, path, query and fragment are read over but not kept; relative references are not told apart from what does not parse, because the test refuses both.
- C14nMeaning.CanonicalFormKeepsMeaning: the selection must keep an element and its namespace nodes together and select no attribute of an omitted element; other selections have no promise here. The condition on namespace URIs is exact and comes from the source, which writes them without escaping (`c14n.c:534-554`).
- C14nText.ReadText: the reader takes the spellings that canonical output has; it checks nesting, references and delimiters, but neither the characters of names nor repeated attributes.
- C14nDocument.TextKeepsMeaning: names must be free of delimiters, and no attribute may be called xmlns or have that prefix, as Namespaces in XML demands.
- C14nSorted.CanonicalFormAscends: no element may have two attributes with the same namespace and name, which a parser refuses.
- C14nEscape.UnescapeEscape: the comment and processing-instruction modes are not invertible and are not covered.
- Dict.Dict.Sub: the table and pools of the sub-dictionary are taken over as values and again at each later look (`LookupOver`), where the source follows a pointer; reference counts and the mutex are not modelled.
- Dict.Dict.Lookup: names of length zero are excluded, because their key reads a byte behind the name (`EmptyNameKeyDependsOnMemory`); the caller gives the length, where the source also takes a negative one for a NUL-terminated name; `xmlDictQLookup` hashes by another function and is not modelled.
- Dict.Dict.FreeEntries: freeing the pools themselves is not modelled.
- CatalogUrns.UnwrapWrap: longer identifiers are cut at 1997 or 1998 characters.
- Catalog.Resolver.XMLResolve: on cyclic graphs termination, the counters and the budget are stated, not the answer; that depends on where the depth limit cuts the recursion.
- Catalog.Resolver.ListResolve: loading is a total function from URL to entry list, and a list is known by its URL; a failed load, which also changes the entry's type, and the file cache are not modelled.
- CatalogGroups.ReloadKeepsList: the preference of the root element is not written by the dump, so the statement passes it in.
- Catalogs: URI resolution (`xmlCatalogXMLResolveURI`), SGML catalogs, adding and removing entries, debugging output.
- HtmlParser.Context.ParseStartTag: attributes, the meta element's encoding, and tags without a name.
- HtmlParser.Context.AutoClose: the rows of the start-close table and the contents of the element table are parameters; the results hold for every table.
- HtmlRoundTrip.AttributeRoundTrip: the 253 entries of the entity table are not transcribed; the table is a parameter whose names must be unique and made of name characters.
- HtmlAttribute.Input.ParseHTMLAttribute: malformed UTF-8, which makes the source switch to Latin-1, and entity names with other than ASCII characters end the modelled part.
- HtmlVerbatim.HexReference: with more digits than 32 bits hold the source's number wraps around; here it is unbounded.
- HtmlEntities.EncodeEntities: NULL arguments; `UTF8ToHtml`.
- HTML: comments, scripts, push-mode lookahead and encoding detection.
- SaxText.Builder.ReceiveStartElement: attributes, namespaces and validation; only the tree's shape and the counters are modelled. An entity's content is modelled as text.
- SaxText.Builder.CopyEntityText: only entities whose nodes are copied; for the first use of an entity the source adds the parsed nodes themselves and renames a text at either end to "nbktext" (`parser.c:6273-6289`), so that it does not join its neighbour.
- SaxText.Builder.TextConcat: memory is always allocated anew, where the source may extend it in place.
- TreeWalk.ShellDu: a line is an indent and a name, its two blanks for each level are not spelled; memory is a map of read-only records; a document occurs only as the start of the walk.
- Allocation failure, input and output, locking, and the overflow of 32-bit sizes.
