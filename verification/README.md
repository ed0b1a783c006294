# ogier's EPUB backend, modelled in Dafny

This project models the Rust backend of the EPUB reader ogier. The model covers:

- **Opening a book.** The zip archive is indexed by the URL of each entry. The container file names the package document. The package document (OPF) gives the version, the metadata, the manifest and the spine. The book is assembled from the spine's itemrefs and the leftover manifest items. It has a reading order (the spine) and an index from URL to resource.
- **Moving through a book.** The model covers stepping forward and back in the reading order, jumping to a URL, the first page, the title, the cover and the navigation document.
- **The commands of `lib.rs`.** These serve documents and resources to the front end and save and load reading progress. They also compute the book's identifying hash.
- **The CSS regulator of `alter.rs`** and its older revision `css.rs`. Each rewrites a stylesheet: absolute lengths and font-size keywords become `rem`, `line-height` values become multiples of a scale variable, and listed font families are substituted.

The repository has two revisions of the EPUB parser, and one model covers both through a `Revision` parameter:

- `Modular` is `epub/mod.rs` with `epub/package.rs`. Ids are kept as raw attribute bytes. Manifest hrefs are resolved when the book is assembled, and an unresolvable one is `InvalidHref`.
- `SingleFile` is `epub.rs`, which `lib.rs` uses. Ids are XML-decoded. Hrefs are resolved while the manifest is parsed. Itemref `properties` are dropped, and metadata text is taken without unescaping.

Foreign code is passed in as a parameter:

- URL joining and parsing;
- UTF-8 decoding and base64;
- the XML-to-HTML and CSS alterers;
- xxHash64 and the file reader.

XML documents and stylesheets are modelled after tokenisation. An XML document is a sequence of events. A stylesheet is a forest of tokens and blocks, and a block whose contents failed to parse is marked `failed`. In the code the nested parsers' closures always return `Ok`, so no block ever fails and `regulate_css` always gives a stylesheet. The `failed` flag is therefore an over-approximation: it models a failure the code can report but never produces, and `failed == false` everywhere is the case the code runs. The regulators write their output as a sequence of pieces:

- literal text;
- a fixed-point number printed with two decimals;
- a token printed as CSS;
- an opening bracket.

Modules follow the source:

| module | file |
|---|---|
| `Wrappers` | `Result`/`Option` |
| `Ascii` | ASCII case-insensitive comparison |
| `XmlEvents` | XML events and attribute lookup |
| `Properties` | `PropertiesValue` |
| `Opf`, `OpfMetadata`, `OpfPackage` | `package.rs` and the parsing half of `epub.rs` |
| `EpubArchive` | archive index and container file |
| `Book` | assembling the book in `open` |
| `Navigation` | the `Epub` accessors |
| `EpubOpen` | `open` |
| `Progress` | the progress store |
| `Commands` | `lib.rs` commands |
| `BookHash` | `compute_book_hash` |
| `CssTokens`, `CssValues`, `Alter`, `AlterExamples` | `alter.rs` |
| `CssLegacy`, `CssLegacyExamples` | `css.rs` |

Where the code and its intended behaviour disagree, the model's operations (`EpubOpen.Open`, `Alter.Emit`, `CssLegacy.BodyEmit`) do what the code does. The corrected definitions sit beside them (`EpubOpen.OpenCorrected`, `Book.Build`, `OpfPackage.Parse`, `CssValues.AbsLengthInRem`), with lemmas relating the two. The proved discrepancies are listed under Findings. The points below come from reading the code. None is a proved discrepancy, so they are not listed under Findings:

- `css.rs` is not declared as a module in `lib.rs`, so it is never compiled. It is modelled as the older revision of `alter.rs`.
- Its unit test expects the whitespace of the input to disappear. The code copies whitespace tokens through, and the model does the same.
- `css.rs` copies the blocks inside a declaration block one level deep only. Contents at depth two are dropped (`CssLegacyExamples.DeepContentsDropped`). The source marks this itself with a note to use a stack.

## Model

| member | source | states |
|---|---|---|
| Ascii.LowerAll | src-tauri/src/epub/package.rs:156 | lower-casing keeps the length and maps every character by ASCII lower-casing |
| Ascii.EqIgnoreCaseLowerPattern | src-tauri/src/epub/package.rs:156 | against a lower-case pattern, case-insensitive equality is equality of the lower-cased string |
| Ascii.EqIgnoreCaseWithoutLetters | src-tauri/src/epub/package.rs:156 | against a pattern without letters (such as "3.0"), case-insensitive equality is plain equality |
| XmlEvents.ColonIndex | src-tauri/src/epub/package.rs:151 | finds the first colon of a qualified name, or reports there is none |
| XmlEvents.LocalName | src-tauri/src/epub/package.rs:151 | the local name is the whole name without a colon, else what follows the first colon |
| XmlEvents.TryGetAttribute | src-tauri/src/epub/package.rs:418-424 | a value found is the first attribute with the key, with no malformed attribute before it; nothing is found exactly when every attribute is well-formed and none has the key; an error exactly when a malformed attribute comes before any attribute with the key |
| XmlEvents.GetRaw | src-tauri/src/epub/package.rs:418-424 | the raw value of the first attribute with the key, absent exactly when the lookup finds none, an error exactly when a malformed attribute comes first |
| XmlEvents.GetDecoded | src-tauri/src/epub/package.rs:426-438 | the decoded value of the first attribute with the key; fails exactly when the lookup fails or that value does not decode |
| Properties.SpaceIndex | src-tauri/src/epub/package.rs:42-46 | the first space of a string that has one |
| Properties.Split | src-tauri/src/epub/package.rs:42-46 | splitting on spaces gives at least one token, none holding a space |
| Properties.SplitJoin | src-tauri/src/epub/package.rs:42-46 | joining the tokens with single spaces gives back the string |
| Properties.JoinSplit | src-tauri/src/epub/package.rs:42-46 | splitting a space-joined list of space-free tokens gives back the list |
| Properties.Has | src-tauri/src/epub/package.rs:42-46 | `PropertiesValue::has`, a search of the space-split tokens; `HasYieldsTokenAt`, `TokenAtYieldsHas` and `HasIffToken` state that it holds exactly when the property is space-free and a whole token |
| Properties.HasYieldsTokenAt | src-tauri/src/epub/package.rs:42-46 | a property `has` reports is space-free and occurs as a whole token |
| Properties.TokenAtYieldsHas | src-tauri/src/epub/package.rs:42-46 | a space-free property occurring as a whole token is reported by `has` |
| Properties.HasIffToken | src-tauri/src/epub/package.rs:42-46 | `has` holds exactly when the property is space-free and one of the space-separated tokens |
| Opf.MapXmlError | src-tauri/src/epub/package.rs:136-141 | an XML I/O error stays I/O; every other XML error is a generic invalid package |
| Opf.GetId | src-tauri/src/epub.rs:681-690 | ids are raw in the modular revision and decoded in the single-file one |
| Opf.VersionOf | src-tauri/src/epub/package.rs:156-160 | the version is EPUB 3 exactly when the attribute reads "3.0" |
| Opf.PackageVersion | src-tauri/src/epub/package.rs:151-161 | a package without a readable version is invalid; otherwise EPUB 3 exactly for "3.0" |
| Opf.ManifestEntry | src-tauri/src/epub/package.rs:359-378 | an item needs id, href and media-type; it keeps media type and properties; the href is resolved against the package URL only in the single-file revision, where failing to resolve is the only bad-href error |
| Opf.CleanLookup | src-tauri/src/epub/package.rs:418-438 | on a well-formed tag both lookups succeed and find a value exactly when the attribute is present |
| Opf.ManifestEntryRequiredAttributes | src-tauri/src/epub/package.rs:359-378 | on a well-formed tag an item is accepted exactly when id, href and media-type are present (and the href resolves, single-file); properties are kept exactly when present |
| Opf.ManifestStep | src-tauri/src/epub/package.rs:346-385 | one manifest event: the loop ends with the map so far at `</manifest>`, which is consumed, or at the end of input, which is not |
| Opf.ManifestStepDeclares | src-tauri/src/epub/package.rs:359-378 | after an event that continues the loop, each id maps to the item the event declares, else to what it mapped to before |
| Opf.ManifestLoop | src-tauri/src/epub/package.rs:346-385 | `parse_manifest`; it never moves back and stays within the events, and `ManifestLastWins` states that each id maps to the last item declaring it |
| Opf.ManifestTurn | src-tauri/src/epub/package.rs:346-385 | one turn either ends a successful parse with the map unchanged and no declaration, or continues from the next event with the id bound as the event declares |
| Opf.ManifestLastWins | src-tauri/src/epub/package.rs:346-385 | after the manifest loop each id maps to the last item declaring it, else to its earlier entry |
| Opf.ItemrefOf | src-tauri/src/epub/package.rs:400-409 | an itemref without idref is the spine error; otherwise it carries the idref, and no properties in the single-file revision |
| Opf.SpineStep | src-tauri/src/epub/package.rs:387-416 | one spine event: ends at `</spine>` or end of input, fails only on an itemref without idref or an XML error, and otherwise appends the itemref the event holds |
| Opf.SpineLoop | src-tauri/src/epub/package.rs:387-416 | a successful spine parse is exactly the itemrefs of the events read, in document order; a missing-idref failure points at an itemref without idref |
| Opf.SpineToc | src-tauri/src/epub/package.rs:183-186 | the spine's toc attribute, and an unreadable one is a generic invalid package |
| OpfMetadata.TextValue | src-tauri/src/epub/package.rs:224-227 | text is unescaped in the modular revision (failing exactly when unescaping fails) and taken raw in the single-file one |
| OpfMetadata.FillPending | src-tauri/src/epub/package.rs:224-233 | text fills the value of the item or refinement just opened, changing nothing else |
| OpfMetadata.Decoded | src-tauri/src/epub/package.rs:426-438 | an attribute value decodes exactly when its decoded form exists |
| OpfMetadata.LastLocalIsLast | src-tauri/src/epub/package.rs:241-260 | the reference for "a later attribute overrides an earlier one": the attribute found sits at the last position with that local name, and nothing is found exactly when no position has it |
| OpfMetadata.ReadDcAttrsStep | src-tauri/src/epub/package.rs:241-260 | reading the first attribute and then the rest says the same about decoding, id, lang and refinements as reading the whole list |
| OpfMetadata.ReadDcAttrs | src-tauri/src/epub/package.rs:241-260 | reading fails exactly when an id (single-file), a lang or, in EPUB 2, an OPF attribute does not decode; the last id (raw in the modular revision) and the last lang win; EPUB 2 adds the OPF attributes as refinements in order and EPUB 3 none |
| OpfMetadata.DcItem | src-tauri/src/epub/package.rs:235-271 | a dc element opens an item named by its local name with an empty value, the last id and lang, and in EPUB 2 its OPF attributes as refinements; it fails exactly when one of those does not decode |
| OpfMetadata.RefinedId | src-tauri/src/epub/package.rs:281 | a `refines` reference with one leading `#` removed |
| OpfMetadata.MetaElement | src-tauri/src/epub/package.rs:273-309 | a `meta` without property changes nothing; with `refines` it opens a refinement of the referenced id; without it opens a new item |
| OpfMetadata.LegacyMeta | src-tauri/src/epub/package.rs:311-326 | a legacy `meta` fails exactly when name or content does not decode; with both present it adds their item, legacy in the modular revision; otherwise nothing changes |
| OpfMetadata.LegacyMetaNeedsNameAndContent | src-tauri/src/epub/package.rs:311-326 | on a well-formed tag a legacy item is added exactly when both name and content are present, with those as property and value |
| OpfMetadata.MetaStep | src-tauri/src/epub/package.rs:219-330 | one metadata event: ends at `</metadata>` or end of input, fails on an XML error; text fills a pending value or is ignored; a dc start tag pushes its item with its value pending; an OPF `<meta>` start tag and an empty `<meta/>` of any namespace are read as their own arms; every other event changes nothing |
| OpfMetadata.MetaLoop | src-tauri/src/epub/package.rs:200-344 | the metadata loop ends within the input and leaves a consistent state |
| OpfMetadata.FillPendingBlanked | src-tauri/src/epub/package.rs:224-233 | completing a pending value changes values only |
| OpfMetadata.MetaStepDeclares | src-tauri/src/epub/package.rs:219-330 | an event that continues the loop adds exactly the item and refinement it declares (the reference definitions `ItemDeclaredBy` and `RefinementDeclaredBy`: a dc start tag, an OPF `<meta property>` with or without `refines`, an empty `<meta name content/>`), values aside |
| OpfMetadata.DcStartDeclares | src-tauri/src/epub/package.rs:235-271 | the item a dc start tag pushes is the one it declares, and it declares no refinement |
| OpfMetadata.MetaElementDeclares | src-tauri/src/epub/package.rs:273-309 | an OPF `<meta>` adds exactly the item or refinement it declares |
| OpfMetadata.LegacyMetaDeclares | src-tauri/src/epub/package.rs:311-326 | an empty `<meta/>` adds exactly the item it declares and no refinement |
| OpfMetadata.MetaTurn | src-tauri/src/epub/package.rs:219-330 | one turn either ends a successful loop with nothing more declared, or continues at the next event from a state that adds what this event declares |
| OpfMetadata.MetaLoopCollects | src-tauri/src/epub/package.rs:200-331 | the loop collects exactly the items, and for each id the refinements, that its events declare, in document order, values aside |
| OpfMetadata.MetaLoopCollectsFromStart | src-tauri/src/epub/package.rs:200-331 | from the start of the section, the items and refinements collected are those the section declares |
| OpfMetadata.Merge | src-tauri/src/epub/package.rs:333-341 | attaching refinements keeps the number of items |
| OpfMetadata.MergeAttachesToFirst | src-tauri/src/epub/package.rs:333-341 | each refinement list goes to the first item carrying that id, and no other item changes |
| OpfMetadata.ParseMetadata | src-tauri/src/epub/package.rs:200-344 | the metadata is the loop's items with refinements attached to the first item of each id |
| OpfMetadata.MergedDeclared | src-tauri/src/epub/package.rs:333-341 | a merged item is its declaration plus, when first with its id, the refinements declared for that id |
| OpfMetadata.ParseMetadataCollects | src-tauri/src/epub/package.rs:200-344 | the metadata is one item per declared item in document order, each with its own refinements and, when first with its id, every refinement declared for that id in document order (values aside) |
| OpfPackage.PackageStep | src-tauri/src/epub/package.rs:143-198 | one package event: advances, stops at `</package>` with the package so far, or finds no event at the end of input |
| OpfPackage.Run | src-tauri/src/epub/package.rs:143-198 | a package parse only closes at a `</package>` event |
| OpfPackage.ParseAsWritten | src-tauri/src/epub/package.rs:143-198 | as written, a parse succeeds only past a `</package>` event |
| OpfPackage.Parse | src-tauri/src/epub/package.rs:143-198 | a parse succeeds only past `</package>`, agrees with the code where it ends, and rejects input on which the code spins |
| OpfPackage.RunOverInert | src-tauri/src/epub/package.rs:143-198 | events outside every dispatch arm leave the parse exhausted with its package unchanged |
| OpfPackage.EmptyDocumentSpins | src-tauri/src/epub/package.rs:143-198 | as written, a document without package events never ends |
| OpfPackage.TruncatedPackageSpins | src-tauri/src/epub/package.rs:143-198 | as written, a `<package>` without its end tag never ends |
| OpfPackage.PackageVersionFromTag | src-tauri/src/epub/package.rs:446-464 | a package tag's version attribute sets the version, and a missing one is invalid |
| EpubArchive.Normalize | src-tauri/src/epub/mod.rs:52 | backslashes become slashes and nothing else changes |
| EpubArchive.ZipIndex | src-tauri/src/epub/mod.rs:43-62 | the URL index built by `EpubArchive::new`; `ZipIndexIsLastEntry` states that a URL is indexed exactly when some entry resolves to it, and at the last such entry |
| EpubArchive.IndexFrom | src-tauri/src/epub/mod.rs:43-62 | every URL indexed points at an entry with that URL, and each later entry is indexed at or after its position |
| EpubArchive.ZipIndexIsLastEntry | src-tauri/src/epub/mod.rs:43-62 | a URL is indexed exactly when some entry resolves to it, and the index names the last such entry |
| EpubArchive.EntryFor | src-tauri/src/epub/mod.rs:65-69 | an entry is found exactly when the URL is indexed |
| EpubArchive.ParseContainer | src-tauri/src/epub/mod.rs:279-310 | `parse_container_file`; `FirstRootfileDecides` states that the first rootfile decides the result, and `ContainerExample` gives the unit test's container |
| EpubArchive.FirstRootfileDecides | src-tauri/src/epub/mod.rs:279-310 | the first rootfile decides: its resolved full-path, or an invalid container |
| EpubArchive.ContainerExample | src-tauri/src/epub/mod.rs:320-338 | the container of the unit test names `EPUB/As_You_Like_It.opf` |
| Book.TakeItemref | src-tauri/src/epub/mod.rs:147-169 | an itemref's item is appended to resources and reading order, indexed under its URL at its resource and reading position, and marked as cover or toc when its id says so |
| Book.IndexItemrefs | src-tauri/src/epub/mod.rs:147-169 | indexing itemrefs fails only with the spine error, or with a bad href in the modular revision |
| Book.TakeItemrefSound | src-tauri/src/epub/mod.rs:147-169 | taking an itemref keeps the URL index consistent with resources and reading order |
| Book.IndexItemrefsSound | src-tauri/src/epub/mod.rs:147-169 | indexing all itemrefs keeps the index consistent |
| Book.IndexItemrefsSucceeds | src-tauri/src/epub/mod.rs:147-169 | indexing succeeds exactly when each idref names a not-yet-used item whose URL resolves |
| Book.IndexItemrefsResources | src-tauri/src/epub/mod.rs:147-169 | the itemrefs' items are appended in spine order after the existing resources |
| Book.IndexItemrefsSpine | src-tauri/src/epub/mod.rs:147-169 | the reading order gains exactly the new positions and the itemrefs' ids leave the pool |
| Book.IndexItemrefsCover | src-tauri/src/epub/mod.rs:134-169 | the legacy cover changes only to the position of an itemref whose id is the cover id |
| Book.TakeLeftover | src-tauri/src/epub/mod.rs:170-178 | a leftover item is appended to resources, to the reading order only if asked, indexed under its URL with no reading position, and leaves the pool |
| Book.TakeLeftoverSound | src-tauri/src/epub/mod.rs:170-178 | taking a leftover keeps the index consistent |
| Book.IndexLeftovers | src-tauri/src/epub/mod.rs:170-178 | indexing leftovers fails only with a bad href, in the modular revision |
| Book.IndexLeftoversSound | src-tauri/src/epub/mod.rs:170-178 | indexing leftovers keeps the index consistent |
| Book.IndexLeftoversSucceeds | src-tauri/src/epub/mod.rs:170-178 | indexing leftovers succeeds exactly when every leftover's URL resolves |
| Book.IndexLeftoversLayout | src-tauri/src/epub/mod.rs:170-178 | leftovers are appended after the existing resources, and reach the reading order only if asked |
| Book.IndexLeftoversKeepsItems | src-tauri/src/epub/mod.rs:170-178 | every leftover item ends up among the resources |
| Book.TakeItemrefIndexes | src-tauri/src/epub/mod.rs:152-159 | taking an itemref keeps every resource indexed at or after itself, with reading positions exactly for the spine's resources |
| Book.IndexItemrefsIndexes | src-tauri/src/epub/mod.rs:147-169 | after the itemref loop every resource is indexed at or after itself, and an entry has a reading position exactly when it is an itemref's resource, at that position |
| Book.TakeLeftoverIndexes | src-tauri/src/epub/mod.rs:170-178 | taking a leftover keeps every resource indexed and gives the new entry no reading position |
| Book.IndexLeftoversIndexes | src-tauri/src/epub/mod.rs:170-178 | after the leftover loop every resource is indexed and only itemrefs' entries have reading positions |
| Book.RemoveOne | src-tauri/src/epub/mod.rs:150 | removing a present id shrinks the manifest by one |
| Book.IndexItemrefsCount | src-tauri/src/epub/mod.rs:147-169 | each item the itemref loop takes leaves the manifest and joins the resources |
| Book.IndexLeftoversCount | src-tauri/src/epub/mod.rs:170-178 | the leftover loop moves every listed item still left into the resources, and the pool only shrinks |
| Book.CoverId | src-tauri/src/epub/mod.rs:134-139 | the value of a metadata item named "cover", present exactly when one exists |
| Book.BuildBook | src-tauri/src/epub/mod.rs:93-191 | an assembled book is consistent, keeps version and metadata, and indexes every resource under its own URL |
| Book.BuildSucceeds | src-tauri/src/epub/mod.rs:147-178 | assembly succeeds exactly when the itemrefs can all be taken and every manifest item no itemref names has a URL that resolves |
| Book.ReadingOrderStartsWithItemrefs | src-tauri/src/epub/mod.rs:147-169 | in either assembly the reading order begins with the itemrefs' positions, and those resources are the itemrefs' items in spine order |
| Book.BookIndexes | src-tauri/src/epub/mod.rs:152-177 | in either assembly every resource's URL is indexed at it or at a later resource with that URL, no later resource has the URL, and an entry has a reading position exactly when it is an itemref's resource |
| Book.BookResourcesAreManifest | src-tauri/src/epub/mod.rs:147-178 | in either assembly the resources are exactly the manifest items, one per id |
| Book.LeftoversIgnoreSpine | src-tauri/src/epub/mod.rs:170-178 | whether leftovers join the reading order changes nothing but the reading order, and not whether the loop succeeds |
| Book.BuildAsWritten | src-tauri/src/epub/mod.rs:147-178 | the code's assembly, with leftovers in the reading order; `AsWrittenSpineHasEveryResource` states that every resource is in the reading order, and `AssembliesAgree` relates it to `Build` |
| Book.Build | src-tauri/src/epub/mod.rs:147-178 | the corrected assembly, with leftovers indexed but left out of the reading order; `SpineIsItemrefs` states that the reading order is exactly the itemrefs' items |
| Book.AssembliesAgree | src-tauri/src/epub/mod.rs:147-178 | the code's assembly and the corrected one succeed and fail together, and give the same book except that the corrected reading order is the code's cut after the itemrefs |
| Book.SpineIsItemrefs | src-tauri/src/epub/mod.rs:147-169 | corrected: the reading order is exactly the itemrefs' items, in spine order |
| Book.AsWrittenSpineHasEveryResource | src-tauri/src/epub/mod.rs:170-178 | as written: every resource, leftover or not, is in the reading order |
| Book.BookHasEveryItem | src-tauri/src/epub/mod.rs:93-191 | every manifest item is a resource of the book |
| Book.LegacyCoverOnlyFromSpine | src-tauri/src/epub/mod.rs:134-169 | a legacy cover is always an itemref whose id is the cover id |
| Navigation.NavigateFrom | src-tauri/src/epub/mod.rs:193-218 | unknown URL is an error; outside the reading order or at its end there is no neighbour; otherwise the next or previous reading-order item |
| Navigation.Resource | src-tauri/src/epub/mod.rs:241-246 | the resource indexed under the URL, found exactly when it is indexed |
| Navigation.NavigateTo | src-tauri/src/epub/mod.rs:222-230 | the resource at the URL, flagged exactly when it has a reading position |
| Navigation.NavigateToStart | src-tauri/src/epub/mod.rs:232-235 | the first resource, none exactly for an empty book |
| Navigation.Title | src-tauri/src/epub/mod.rs:248-250 | the first metadata item named "title", present exactly when one exists |
| Navigation.FirstWith | src-tauri/src/epub/mod.rs:252-275 | the first resource having a property, present exactly when one has it |
| Navigation.Cover | src-tauri/src/epub/mod.rs:252-264 | EPUB 3 takes the first cover-image resource; otherwise the legacy cover |
| Navigation.Nav | src-tauri/src/epub/mod.rs:266-275 | only EPUB 3 has a nav; it exists iff some resource has the nav property, and it is the first such resource |
| Navigation.NavigateInverse | src-tauri/src/epub/mod.rs:193-218 | forward then back from neighbours in the reading order returns to where it started |
| Navigation.ResourceLivesAtItsUrl | src-tauri/src/epub/mod.rs:93-191 | in either assembly the resource found under a URL resolves back to that URL |
| Navigation.NavigationStaysInReadingOrder | src-tauri/src/epub/mod.rs:193-218 | corrected assembly: a neighbour is always an itemref's item |
| Navigation.InSpineMeansItemref | src-tauri/src/epub/mod.rs:222-230 | in either assembly a resource reached by URL has a reading position exactly when it is an itemref's item, and then it is that item |
| Navigation.StartIsFirstItemref | src-tauri/src/epub/mod.rs:232-235 | in either assembly the first page is the first itemref's item |
| Navigation.ForwardFromLastChapterReachesImage | src-tauri/src/epub/mod.rs:175 | as written, moving forward from the last chapter reaches an image no itemref names; corrected, there is no next page |
| EpubOpen.LocatePackage | src-tauri/src/epub/mod.rs:98-128 | archive I/O errors are I/O and other archive errors are the archive error; a missing or unreadable container is the container error; an unindexed package document is a generic package error; otherwise the package document's URL and events |
| EpubOpen.OpenErrorOf | src-tauri/src/epub/mod.rs:129-132 | a package parse error stays I/O or becomes a package document error |
| EpubOpen.Open | src-tauri/src/epub/mod.rs:93-191 | as written: opening hangs exactly when the package document has no `</package>`; otherwise it is what the container, the package document and the code's assembly give, and an opened book is consistent |
| EpubOpen.OpenCorrected | src-tauri/src/epub/mod.rs:93-191 | corrected: a package document without `</package>` is rejected and the reading order is the itemrefs; an opened book is consistent |
| EpubOpen.OpenAgreesWithCorrected | src-tauri/src/epub/mod.rs:93-191 | where the code hangs the corrected opening reports a malformed package; otherwise they fail alike and succeed together with the same book, the corrected reading order a prefix of the code's |
| EpubOpen.OpenedBook | src-tauri/src/epub/mod.rs:140-178 | an opened book holds one resource per manifest item, the itemrefs' items first, and its reading order runs through every resource |
| Progress.ProgressValue | src-tauri/src/lib.rs:98-115 | no current page saves null; otherwise `[url]` or `[url, percentage]` |
| Progress.Save | src-tauri/src/lib.rs:98-115 | saving replaces this book's entry and keeps every other one |
| Progress.Load | src-tauri/src/lib.rs:119-133 | a page is found exactly when the entry is an array starting with a parseable URL string, and becomes the current page |
| Progress.SaveLoadRoundTrip | src-tauri/src/lib.rs:98-133 | loading what was saved gives back the page and percentage |
| Progress.SaveNothingLoadsNothing | src-tauri/src/lib.rs:98-133 | saving no page makes the next load find nothing |
| Progress.SaveIsolatesBooks | src-tauri/src/lib.rs:98-133 | saving one book does not change what another book loads |
| Commands.ReadToEnd | src-tauri/src/lib.rs:59-64 | the entry's bytes; an unindexed URL is not-found, an unreadable entry is I/O |
| Commands.ReadToString | src-tauri/src/lib.rs:52-57 | as ReadToEnd, and bytes that are not UTF-8 are an I/O error |
| Commands.BookGetContent | src-tauri/src/lib.rs:68-92 | only SVG and XHTML are served; XHTML text is what the alterer makes of it when it makes something |
| Commands.SvgNotAltered | src-tauri/src/lib.rs:68-92 | a document that is not XHTML is served the same whatever the alterer |
| Commands.BookGetInitPage | src-tauri/src/lib.rs:198-223 | resumes at a saved page the book has, else lands on and saves the first resource; panics exactly for an empty book without a saved page |
| Commands.NavigateAdjacent | src-tauri/src/lib.rs:328-351 | without a current page it panics; otherwise the neighbour becomes current and is saved, at either end nothing changes, and an unknown page is not-found |
| Commands.NavigateToPage | src-tauri/src/lib.rs:354-372 | the resource at the URL becomes current and is saved; an unknown URL changes nothing |
| Commands.NavigateThenReopen | src-tauri/src/lib.rs:198-223 | reopening after a jump resumes at the page jumped to |
| Commands.InitPageSettles | src-tauri/src/lib.rs:198-223 | landing on the first page twice changes nothing the second time |
| Commands.GetResource | src-tauri/src/lib.rs:267-293 | images become `mime;base64,` data; text must be UTF-8 and CSS is altered; anything else is empty |
| BookHash.Hex | src-tauri/src/lib.rs:245 | a fixed number of lower-case hexadecimal digits |
| BookHash.Hex16 | src-tauri/src/lib.rs:245 | the hash prints as sixteen digits |
| BookHash.DigitValue | src-tauri/src/lib.rs:245 | the value of a hexadecimal digit |
| BookHash.ParseHexOfHex | src-tauri/src/lib.rs:245 | reading back the digits gives the number whenever the width suffices |
| BookHash.Hex16RoundTrip | src-tauri/src/lib.rs:245 | the sixteen digits read back as the hash |
| BookHash.Hex16Injective | src-tauri/src/lib.rs:245 | different hashes print differently |
| BookHash.ComputeBookHash | src-tauri/src/lib.rs:226-246 | the chunks read are at most 8 KiB each and together exactly the first MiB (or the whole file); the result is the hash of those bytes in sixteen digits; a read error is the only failure |
| CssTokens.Closer | src-tauri/src/alter.rs:130-135 | curly blocks close with `}`, square with `]`, functions and parentheses with `)` |
| CssValues.AbsLengthInRem | src-tauri/src/alter.rs:6-18 | corrected: absolute units convert to rem at 16px per rem and 96px per inch; other units are left alone |
| CssValues.AbsLengthInRemAsWritten | src-tauri/src/alter.rs:6-18 | as written: as the corrected conversion, except `Q` comes out ten times too small |
| CssValues.AbsoluteUnitsAgree | src-tauri/src/alter.rs:6-18 | the units agree with each other (96px = 2.54cm = 6pc = 72pt = 1in, 10mm = 40Q = 1cm) |
| CssValues.FortyQuartersAsWritten | src-tauri/src/alter.rs:12 | as written, 40Q converts like 1mm instead of 1cm |
| CssValues.SizeInRem | src-tauri/src/alter.rs:20-32 | font-size keywords map to rem, medium to 1 |
| CssValues.SizeKeywordsIncrease | src-tauri/src/alter.rs:20-32 | the keywords from xx-small to xxx-large strictly increase |
| CssValues.UnitBuffer | src-tauri/src/alter.rs:99-104 | a unit of up to eight characters is kept, a longer one becomes empty |
| CssValues.RegulatedLineHeight | src-tauri/src/alter.rs:41-59 | a line-height becomes the scale variable times its factor; a length without a factor stays as is |
| Alter.Emit | src-tauri/src/alter.rs:69-129 | one token: semicolons reset the context, `line-height` and `font-family` set it; zero is `0`; lengths (with `Q` as written) and size keywords become rem; listed fonts are substituted inside `font-family` |
| Alter.FortyQuartersEmitted | src-tauri/src/alter.rs:12 | as written, `40Q` is regulated like `1mm`, not like `1cm` |
| Alter.FlagsAfterSnoc | src-tauri/src/alter.rs:69-129 | the context after one more token is that token's effect on the context before |
| Alter.FlagsTrackDeclaration | src-tauri/src/alter.rs:69-129 | after any run of tokens, the `line-height` and `font-family` contexts hold exactly when that word appeared since the last semicolon (or held at the start with no semicolon since) |
| Alter.Transform | src-tauri/src/alter.rs:61-144 | `transform_css` over the parsed forest; `TransformFailsIffAnyFailed` states that it fails exactly when a block at any depth failed, `TransformLeaf`/`BlockFramed` give its layout, and `InertRoundTrip` that an inert sheet comes back token for token |
| Alter.TransformLeaf | src-tauri/src/alter.rs:61-144 | a token's output precedes the output of the rest, read in the context it leaves |
| Alter.TransformFailsIffAnyFailed | src-tauri/src/alter.rs:61-144 | the recursive regulator fails exactly when some block at any depth failed to parse |
| Alter.RegulateCss | src-tauri/src/alter.rs:146-157 | `regulate_css`, the transform from a fresh context; `RegulateCssFailsIffAnyFailed` states that it gives nothing exactly when a block failed |
| Alter.RegulateCssFailsIffAnyFailed | src-tauri/src/alter.rs:146-157 | regulating a stylesheet gives nothing exactly when some block failed to parse |
| Alter.BlockFramed | src-tauri/src/alter.rs:130-141 | a block is written as its opening, its contents regulated from a fresh context, and its closer |
| Alter.InertRoundTrip | src-tauri/src/alter.rs:174-178 | a stylesheet with nothing to regulate, however deeply nested, is written back token for token |
| AlterExamples.PaddingTokens | src-tauri/src/alter.rs:165-171 | the tokens of `p { padding: 8px; }` each write their text, 8px as 0.50rem |
| AlterExamples.PaddingValueExample | src-tauri/src/alter.rs:165-171 | the value `8px;` becomes `0.50rem;` |
| AlterExamples.PaddingBodyExample | src-tauri/src/alter.rs:165-171 | the declaration `padding: 8px` becomes `padding: 0.50rem` |
| AlterExamples.PaddingExample | src-tauri/src/alter.rs:165-171 | the rule `p { padding: 8px; }` becomes `p { padding: 0.50rem; }` |
| AlterExamples.FreshTokens | src-tauri/src/alter.rs:181-189 | from a fresh context `font-family` opens the font-family context and the other words of the test stylesheet, listed or not, are copied |
| AlterExamples.FamilyTokens | src-tauri/src/alter.rs:181-189 | inside a font-family declaration the listed name is replaced, and whitespace and colons keep the context |
| AlterExamples.FamilyValueExample | src-tauri/src/alter.rs:181-189 | after `font-family:` the value ` sans-serif ` becomes ` X ` |
| AlterExamples.FamilyBodyExample | src-tauri/src/alter.rs:181-189 | inside `font-family` the listed name is replaced |
| AlterExamples.HeadRuleExample | src-tauri/src/alter.rs:181-189 | a listed name used as a selector stays |
| AlterExamples.HostBlockExample | src-tauri/src/alter.rs:181-189 | the `:host` block followed by the `head` rule is written with only the family name replaced |
| AlterExamples.FontSubstituteExample | src-tauri/src/alter.rs:181-189 | the test stylesheet is regulated with only the font-family value substituted |
| CssLegacy.FirstCurly | src-tauri/src/css.rs:69-70 | the position of the first curly block, with none before it |
| CssLegacy.Flat | src-tauri/src/css.rs:150-169 | copying one level deep writes one piece per node |
| CssLegacy.Prelude | src-tauri/src/css.rs:69-98 | a prelude fails exactly when one of its blocks failed, and a prelude of plain tokens is copied |
| CssLegacy.BodyEmit | src-tauri/src/css.rs:104-149 | one declaration token: semicolons reset and `line-height` sets the context; zero, lengths (with `Q` as written) and size keywords are rewritten; other identifiers are copied |
| CssLegacy.LegacyFortyQuartersEmitted | src-tauri/src/css.rs:10 | as written, `40Q` is regulated like `1mm`, not like `1cm` |
| CssLegacy.Body | src-tauri/src/css.rs:101-179 | a declaration block fails exactly when a block inside it failed at the first or second level |
| CssLegacy.BodyLeaf | src-tauri/src/css.rs:104-149 | a token's output precedes the output of the rest of the declaration block |
| CssLegacy.BodyFramed | src-tauri/src/css.rs:150-169 | a nested block is copied framed by its brackets |
| CssLegacy.Sheet | src-tauri/src/css.rs:59-186 | a stylesheet of only whitespace writes nothing |
| CssLegacy.LegacyFailsSplit | src-tauri/src/css.rs:59-186 | the failure of a stylesheet splits into its first rule's and the rest's |
| CssLegacy.LegacyFailsFlat | src-tauri/src/css.rs:69-98 | without curly blocks, failing means some block failed |
| CssLegacy.SheetFailsIff | src-tauri/src/css.rs:59-186 | the legacy regulator fails exactly at the failures it can see |
| CssLegacy.LegacyCompletes | src-tauri/src/css.rs:59-186 | a stylesheet without failed blocks is regulated |
| CssLegacy.AnyFailedAt | src-tauri/src/css.rs:150-169 | a failure inside a block is a failure of the stylesheet |
| CssLegacy.SheetRule | src-tauri/src/css.rs:59-186 | a rule is written as prelude, `{`, regulated body, `}`, then the rest |
| CssLegacy.FirstCurlyOf | src-tauri/src/css.rs:69-70 | the first curly block after a prelude without one is at the prelude's end |
| CssLegacy.FlatIgnoresContents | src-tauri/src/css.rs:150-169 | the one-level copy does not depend on a block's contents |
| CssLegacy.RevisionsAgreeOnValues | src-tauri/src/css.rs:104-149 | outside `font-family`, both revisions write numbers, lengths and size keywords the same |
| CssLegacyExamples.LegacyPaddingTokens | src-tauri/src/css.rs:194-200 | the tokens of the test declaration each write their text, 8px as 0.50rem |
| CssLegacyExamples.LegacyPaddingValue | src-tauri/src/css.rs:194-200 | the value `8px;` becomes `0.50rem;` |
| CssLegacyExamples.LegacyPaddingBody | src-tauri/src/css.rs:194-200 | the test declaration becomes `padding: 0.50rem` with its whitespace kept |
| CssLegacyExamples.LegacyPaddingExample | src-tauri/src/css.rs:194-200 | the test rule is regulated with its whitespace kept |
| CssLegacyExamples.DeepTokens | src-tauri/src/css.rs:104-149 | the identifiers and the colon of `a{b:f(g(x))}` are copied by both regulators |
| CssLegacyExamples.DeepBodyDropped | src-tauri/src/css.rs:150-169 | the declaration `b:f(g(x))` comes out as `b:f(g()` |
| CssLegacyExamples.DeepContentsDropped | src-tauri/src/css.rs:150-169 | a block two levels deep in a declaration block loses its contents |
| CssLegacyExamples.InnerCallKept | src-tauri/src/alter.rs:130-141 | the recursive regulator writes `g(x)` back whole |
| CssLegacyExamples.DeepBodyKept | src-tauri/src/alter.rs:130-141 | the recursive regulator writes the declaration `b:f(g(x))` back whole |
| CssLegacyExamples.DeepContentsKept | src-tauri/src/alter.rs:130-141 | the recursive regulator keeps that block's contents |

## Left out

- The file systems, the zip decompressor, the XML and CSS tokenisers, windows, menus and the Tauri runtime are left out. Each enters the model only through what it returns: entry names and event sequences, token forests, a flag for whether the store opened, and the reader's successive read sizes.
- URL joining and parsing, UTF-8 decoding, base64, xxHash64 and the alterers `alter_xhtml`/`alter_css` are parameters. Their implementations are not part of this model.
- The iteration order of the manifest `HashMap` is a parameter, `order`, of assembly and `Open`. It may be any listing of every manifest id (`Book.ListsEvery`, `EpubOpen.OrdersEvery`); which listing the hashing gives is left open.
- `f32` arithmetic and the two-decimal formatting are modelled on exact reals. Rounding, NaN and the printed digits are left out. The model's pieces record the number and the format.
- The mutex held by `get_resource` across a second `lock()` call (lib.rs lines 270 and 274) is left out. Locking is not modelled, and the second lock's deadlock is not represented.
- Commands.NavigateAdjacent: the book is taken to be present. The source unwraps an absent book (lib.rs line 335), but the command layer always opens one before navigating, so that panic is not modelled.
- Commands.ReadToEnd: a `by_index` error other than I/O panics in the source (epub.rs lines 141-144, mod.rs line 72). The model has only the I/O error case. The zip decompressor is left out, and its other errors (an unsupported compression method, a corrupt entry header) are not among the entry outcomes the model takes as input.
- EpubOpen.Open: the same panic, when the container file or the package document is fetched (mod.rs lines 115-128), is not modelled either. An unreadable entry there is an I/O error.
- OpfMetadata.MetaLoop: the collected items and refinements are stated up to their text values (`OpfMetadata.MetaLoopCollects`). Which text fills which value is stated per event by `MetaStep` and `FillPending`, not over the whole loop.
- OpfMetadata.ParseMetadata: the same holds for the returned metadata (`OpfMetadata.ParseMetadataCollects`).
- Left out from lib.rs: `book_open`, `post_book_open`, `get_toc`, `get_details`, custom styles, preferences, menus and `run`. They are window, store and menu plumbing around the modelled operations.
- The table of contents (NCX/nav) and the book details are left out, because no core operation parses them.
- CssValues.UnitBuffer: counts characters where the source's `ArrayString<8>` counts UTF-8 bytes. The two differ only for non-ASCII units.
- BookHash.ComputeBookHash: a reader that offers zero bytes is taken to be at end of file, as `Read::read` promises. Partial reads are modelled; interrupted reads are not.
- OpfPackage.ParseAsWritten: the spinning of the code is represented by the outcome `Spins` and is not an unbounded computation.

## Findings

| source | as written | input that shows it | evidently intended | confidence | as-written member | corrected member |
|---|---|---|---|---|---|---|
| src-tauri/src/epub/package.rs:143-198 | the package loop has no arm for end of input, so after the last event it reads end of input forever | a document without `</package>`, e.g. only `<package version="3.0">` | reaching end of input before `</package>` is an invalid package document | not executed | OpfPackage.TruncatedPackageSpins | OpfPackage.Parse |
| src-tauri/src/epub/mod.rs:175 | every manifest item no itemref names is appended to the reading order | a manifest with a chapter `a` in the spine and an image `b` outside it | the reading order is the spine's itemrefs; other items are resources only | not executed | Navigation.ForwardFromLastChapterReachesImage | Book.SpineIsItemrefs |
| src-tauri/src/alter.rs:12 | `Q` divides by 25.4 (millimetres per inch) where the centimetre conversion divides by 2.54 | `40Q`, which is 1cm, converts like `1mm` | 1Q is a quarter millimetre, 1/40 cm | not executed | Alter.FortyQuartersEmitted | CssValues.AbsLengthInRem |
| src-tauri/src/css.rs:10 | the older regulator has the same `Q` divisor, 25.4 | `40Q` converts like `1mm` | 1Q is 1/40 cm | not executed | CssLegacy.LegacyFortyQuartersEmitted | CssValues.AbsLengthInRem |
