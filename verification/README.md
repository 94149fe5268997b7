# wikiparse, modelled in Dafny

This project models the pure logic of the wikiparse toolchain. The toolchain
splits a MediaWiki XML export into one cached page per article. It then
converts a page's wikitext to a JSON element tree, with a Java visitor. Finally
it loads that tree back into Python page objects. The model covers:

- **Page extraction.** `find_pages` and `split_xml` in the three splitters:
  the packaged `wikiparse/wikisplitter.py`, the older `wikisplitter.py`, and
  `zip_splitter.py`. Module `XmlTree` holds the shared element tree, tag
  matching and `UNKNOWN_n` naming. `PageSplitter` models the packaged
  splitter, with its redirect filter. `LegacySplitter` models the find
  function that the two older splitters share, and `wikisplitter.py`'s write
  loop. `ZipSplitter` covers title normalisation, directory fan-out, SQL
  batching and the XML rename loop.
- **Page caches.** `ArchiveCache` models the packaged file manager: one zip
  archive, an overwrite rule, and fetch and convert fallbacks. `DiskCache`
  models the older file manager: a directory tree of per-page files.
- **Converter state.** Module `JsonConverter` covers the `WikiToJson.java`
  visitor state. That is the element id counter, the property stack and its
  `name(n)` labels, the entity-reference state machine of `visit(NodeList)`,
  the plain iteration of the page's top-level nodes, and `cleanedWikitext`. `PropLabels` holds the label format and both
  Python parsers of it.
- **Page loaders.** `PageObjects` models the packaged loader: `construct`
  dispatch, element registration, pointers, `part_of`, `is_part_of`,
  `redirection` and `resolve_page`. `RichText` and `SectionTree` model two
  pieces of the root loader, `wikipage.py`.
- **Dump-link finder.** `Downloader` covers the pure pieces of both
  versions: menu selection, `unique`, the URL builders, escaping, type names
  and extension grouping.
- **Bracket indenter.** `Indentify` models `WikiToJson/test/indentify.py`.

All I/O is a parameter or a value:

- The XML stream is the sequence of completed elements.
- The zip archive is a sequence of members.
- The file system is a map from path to content.
- `unidecode` is a function parameter `translit`.
- An HTTP fetch is its outcome.
- The Java converter is a function parameter `convert`.
- Console input is a sequence of lines.
- A menu entry's action is a function parameter `run`.
- Clock readings are a sequence of reals.

Python exceptions become `Failure(<exception name>)` of `Result`. The XML output branch of `zip_splitter.py` is dead while `OUTPUT_TYPE` is `SQL`, but it is modelled as well, as `ZipSplitter.PickOutputName`.

## Model

| member | source | states |
|---|---|---|
| XmlTree.NoNsSpec | wikiparse/wikisplitter.py:120-121 | A tag's key is the text after the last `}`, lower-cased. It is the whole tag, lower-cased, when there is no `}`. |
| XmlTree.FindChildSpec | wikiparse/wikisplitter.py:123-127 | Returns the position of the first child in document order whose key equals the tag. No earlier child matches. `None` means no child matches. |
| XmlTree.FindElByTagSpec | wikiparse/wikisplitter.py:123-127 | A child is found exactly when some child has the requested key. The found element is a child with that key, and no earlier child has the key. |
| Strings.AfterLastSpec | wikiparse/wikisplitter.py:121 | `rpartition('}')[2]` is a suffix of the tag containing no `}`. It is preceded by `}` unless it is the whole tag. |
| Strings.NatToDecimalSpec | wikiparse/wikisplitter.py:135 | The `%d` numeral is a non-empty string of digits that reads back as the number. |
| XmlTree.UnknownTitleInjective | wikiparse/wikisplitter.py:134-135 | Different counter values give different `UNKNOWN_n` names. |
| PageSplitter.FindFirstChild | wikiparse/wikisplitter.py:123-127 | `find_el_by_tag` returns the first child whose `no_ns` tag matches, and `None` exactly when no child matches. |
| PageSplitter.WikitextFinder | wikiparse/wikisplitter.py:137-143 | At child positions: the wikitext is the text of the first `text` child of the first `revision` child. It is `None` when the page has no `revision` child or that child has no `text` child. |
| PageSplitter.FindPagesAllRecords | wikiparse/wikisplitter.py:129-159 | Without redirect filtering, every `page` element yields exactly one record, in document order. A page's title is its title text, or `UNKNOWN_n`, where n counts the titleless pages up to and including it. |
| PageSplitter.RedirectFilterDropsOnlySkipped | wikiparse/wikisplitter.py:153-159 | With filtering, the output is the unfiltered output minus the skipped pages. Titles and `UNKNOWN` numbers are assigned before the redirect decision, so skipped pages still use up counter values. |
| PageSplitter.NoNsPlain | wikiparse/wikisplitter.py:120-121 | A lower-case tag with no namespace is its own key. |
| PageSplitter.AsWrittenDropsNonEmptyRedirectOnly | wikiparse/wikisplitter.py:156-157 | As written, `--no_redirects` drops a page exactly when its first `redirect` child has children of its own. |
| PageSplitter.AsWrittenKeepsEmptyRedirect | wikiparse/wikisplitter.py:156-157 | The as-written test keeps a page whose `redirect` child is empty. The intended test drops it. |
| PageSplitter.ChildPresentDropsRedirectPages | wikiparse/wikisplitter.py:155-157 | The intended test drops a page exactly when the page has a child whose key is `redirect`. |
| PageSplitter.SplitXml | wikiparse/wikisplitter.py:84-112 | Every record with wikitext is written to the archive. A write that raises is reported and skipped, and later records are still written. Reported titles are those whose wikitext was `None`. No name already in the archive disappears. |
| PageSplitter.NextFacts | wikiparse/wikisplitter.py:84-88 | One `output_page` call adds at most the record's own member name and leaves every other member's content alone. An allowed write stores the wikitext. Overwriting off and the name present leave the archive as it was. The call raises exactly when the wikitext is `None` and the write is not suppressed. |
| PageSplitter.FailedFromMembers | wikiparse/wikisplitter.py:84-88 | A title is in the reference report exactly when some record with that title raises. |
| PageSplitter.SplitXmlFailed | wikiparse/wikisplitter.py:84-112 | The loop reports exactly the records whose write raises, in record order. Those are the records with `None` wikitext, minus those skipped because overwriting is off and the name is present, either from the start or from an earlier record with wikitext. |
| PageSplitter.SplitXmlOthersUnchanged | wikiparse/wikisplitter.py:84-112 | A member that no record with wikitext names keeps its content. |
| PageSplitter.SplitXmlKeepsPresent | wikiparse/filemanager.py:68-77 | With overwriting off, a member already in the archive keeps its content through the whole loop. |
| PageSplitter.SplitXmlLastWriteWins | wikiparse/wikisplitter.py:84-112 | With overwriting on, the member of a title holds the wikitext of the last record with that title that has wikitext. |
| PageSplitter.SplitXmlFirstWriteKept | wikiparse/wikisplitter.py:84-112 | With overwriting off and a title whose member is not yet in the archive, the member holds the wikitext of the first record with that title that has wikitext. |
| ArchiveCache.WritePageFrame | wikiparse/filemanager.py:68-77 | A successful write adds at most its own member name. Every other name keeps its presence and its content. |
| ArchiveCache.Lookup | wikiparse/filemanager.py:106-110 | A lookup succeeds exactly when the name is in `namelist()`, and it returns content stored under that name. |
| ArchiveCache.NameList | wikiparse/filemanager.py:63 | `namelist()` lists the member names in archive order, one per member. |
| ArchiveCache.PickPathInjective | wikiparse/filemanager.py:65-66 | The member name `"<title>.<ext>"` does not alter the title: equal names mean equal titles and extensions. |
| ArchiveCache.PossibleTitles | wikiparse/filemanager.py:54-63 | Yields exactly the member names that start with the partial title. A single name is yielded when it matches and dropped otherwise. |
| ArchiveCache.PossibleTitlesAppend | wikiparse/filemanager.py:63 | The generator keeps `namelist()` order and repeats: the titles of two runs of names are the first run's titles followed by the second's. |
| ArchiveCache.Store | wikiparse/filemanager.py:73-77 | With overwriting off and the name present, nothing changes. Otherwise the name then reads back as the new content. Other names read as before, and no name disappears. |
| ArchiveCache.WritePage | wikiparse/filemanager.py:68-77 | An existing name with overwriting off is a silent no-op. Otherwise the write succeeds exactly when there is content, `bytes(None)` being a `TypeError`, and the name then reads back as the content. |
| ArchiveCache.ReadPage | wikiparse/filemanager.py:103-110 | Returns content exactly when the member name is present. A miss gives `None`, never an exception. |
| ArchiveCache.WriteThenRead | wikiparse/filemanager.py:68-110 | An allowed write followed by a read of the same title and kind gives back the written content. |
| ArchiveCache.NoOverwriteKeepsFirst | wikiparse/filemanager.py:73-75 | With overwriting off, a second write of a title changes nothing, and the first content survives. |
| ArchiveCache.FetchWikitext | wikiparse/filemanager.py:112-123 | Returns the fetch outcome, where an HTTP error is `None`. The archive is unchanged unless the fetch succeeded and `cache_pulls` is set. In that case the wikitext is cached. The JSON entry is never touched. |
| ArchiveCache.ReadWikitext | wikiparse/filemanager.py:144-158 | A cache hit is returned with no change. A miss gives `None` without `try_pulls`, and otherwise the fetch outcome. A fetched page is cached when `cache_pulls` is set. |
| ArchiveCache.ReadJson | wikiparse/filemanager.py:160-179 | Cached JSON is returned without conversion. On a miss, the wikitext is converted, and missing wikitext gives `None`. The converted JSON is cached exactly when `cache_pulls` is set. |
| DiskCache.PickDir | filemanager.py:20-21 | Exactly `dir_nesting` entries. Entry i is the i-th character of the cleaned title, or `None` past its end. |
| DiskCache.DirNames | filemanager.py:21 | When the cleaned title is long enough, the directory names are its first `dir_nesting` characters, one per level. |
| DiskCache.PathJoin | filemanager.py:29 | `os.path.join` keeps its last part as the end of the path, and an absolute last part replaces everything before it. |
| DiskCache.JoinDirs | filemanager.py:29 | Joining the directory entries succeeds exactly when none of them is `None`. |
| DiskCache.PickPath | filemanager.py:27-29 | A path exists exactly when the transliterated title has at least `dir_nesting` characters. The path then ends in `<cleaned>.<ext>`. |
| DiskCache.PickPathLayout | filemanager.py:20-29 | For a rooted layout, the path is `root/c0/c1/…/<cleaned>.<ext>`, one directory per leading character of the transliteration. |
| DiskCache.WritePage | filemanager.py:32-37 | Always writes, with no overwrite check, replacing any earlier file at the path. It fails exactly when no path can be built. |
| DiskCache.ReadPage | filemanager.py:46-51 | Returns the file's content if it exists, and `None` otherwise. |
| DiskCache.WriteThenRead | filemanager.py:32-51 | A successful write is read back unchanged. |
| DiskCache.SameTransliterationCollides | filemanager.py:23-29 | Two titles with equal transliterations share a path, so the second write replaces the first. |
| DiskCache.KindsDoNotCollide | filemanager.py:27-29 | The wikitext file and the JSON file of one title never share a path. |
| DiskCache.ReadWikitext | filemanager.py:53-85 | Returns the cached file. Otherwise it fetches when `try_pulls` is set, and otherwise gives `None`. A failed fetch raises, and a fetched page is written when `cache_pulls` is set. |
| DiskCache.ReadJson | filemanager.py:87-96 | Returns the cached file. Otherwise it gives the converted wikitext, which is not written back, or `None` when there is no wikitext. The JSON file is never changed. |
| LegacySplitter.FindPagesSpec | wikisplitter.py:43-64 | Each page whose local tag is exactly `page` yields one record, in order, named by its first child tagged exactly `title`, or `UNKNOWN_n` in order of occurrence. There is no redirect filtering. The run stops only at a page whose naming raises. |
| LegacySplitter.FindPagesCount | wikisplitter.py:43-64 | The run is cut short exactly when fewer records than pages are yielded. That happens only at a page whose naming raises. |
| LegacySplitter.FindPagesRecords | wikisplitter.py:45-64 | The k-th record carries the k-th page element under its expected name. |
| LegacySplitter.StrNamerNeverAborts | wikisplitter.py:61 | With `str(el.text)` naming, every page yields a record. |
| LegacySplitter.SplitXml | wikisplitter.py:25-37 | Records are written in order, and the run is cut short exactly when fewer than all were written. A failing first write leaves the files as they were. |
| LegacySplitter.SplitXmlStopsAtFirstFailure | wikisplitter.py:25-37 | Every record written had a usable path. There is no exception handler, so the first record without one ends the run. |
| LegacySplitter.SplitXmlLastWriteReadable | wikisplitter.py:25-37 | After the loop, the file of the last record written holds that record's serialised page. |
| LegacySplitter.ProgressLines | wikisplitter.py:28-36 | A progress line is written before a record exactly when at least 0.1 s have passed since the last line. |
| ZipSplitter.Clean | zip_splitter.py:41 | The cleaner keeps the length. Each character is replaced by `_` exactly when it is outside the allowed set, or it comes first and is not a word character. |
| ZipSplitter.NormalizeTitle | zip_splitter.py:41-43 | The result is as long as the stripped transliterated title. Every character is a word character, whitespace or one of `()-_.`, and a non-empty result starts with a word character. |
| ZipSplitter.NormalizeTitleIdempotent | zip_splitter.py:41-43 | When the transliteration leaves ASCII text unchanged, normalising twice gives the same as normalising once. |
| ZipSplitter.NormalizedIsStripped | zip_splitter.py:43 | Cleaning a stripped string leaves it stripped. |
| ZipSplitter.CleanFixesSafe | zip_splitter.py:41 | The cleaner leaves a name made of allowed characters, starting with a word character, unchanged. |
| ZipSplitter.WordCharsUpper | zip_splitter.py:37-39 | Each segment character comes from a `[\w\d]` character of the title, upper-cased. |
| ZipSplitter.WordCharsUpperAppend | zip_splitter.py:37-39 | `findall` over a title split in two is the first part's matches followed by the second's. With the one-character case this gives every `[\w\d]` character of the title, upper-cased, in title order and with repeats. |
| ZipSplitter.SliceTo | zip_splitter.py:39 | Python's `[:depth]`: a prefix of the list, counted from the end for a negative depth. |
| ZipSplitter.GetSubDirectory | zip_splitter.py:38-39 | At most `depth` single-character segments: the title's word characters, upper-cased, in order. There are fewer only when the title has fewer, and then there is one per word character. A negative `depth` drops that many from the end, as Python's `[:depth]` does. |
| ZipSplitter.UnknownTitleSafe | zip_splitter.py:138 | `UNKNOWN_n` is a safe page name. |
| ZipSplitter.ZipNamesSafe | zip_splitter.py:130-138 | Every page name yielded is safe. The run stops only at a titled page whose title element has no text. |
| ZipSplitter.Dump | zip_splitter.py:77-81 | Inserts the waiting rows in order and empties the buffer. It leaves `num_runs` alone. |
| ZipSplitter.OutputPage | zip_splitter.py:83-90 | The buffer length stays equal to `num_runs`, and no row is lost or reordered. Reaching `commit` rows inserts the whole buffer and empties it. Otherwise nothing is inserted. |
| ZipSplitter.OutputAll | zip_splitter.py:83-97 | After any number of pages, the inserted rows followed by the buffer are exactly the input rows, in arrival order. |
| ZipSplitter.OutputAllBatches | zip_splitter.py:83-90 | With `commit >= 1`, the buffer always holds fewer than `commit` rows, and every insert adds a whole batch. |
| ZipSplitter.SqlRunStoresAllRows | zip_splitter.py:77-90 | After the closing dump, the table holds exactly the rows, in stream order. |
| ZipSplitter.PickOutputName | zip_splitter.py:66-71 | Names are tried as `title.0.xml`, `title.1.xml` and so on. The first name that does not exist and saves is kept, and every earlier name was unusable. No existing file is written to. |
| PropLabels.SuffixDigits | wikiparse/wikipage.py:161 | A suffix of the label pattern is `(` digits `)`, with an optional final newline. |
| PropLabels.GreedySplit | wikiparse/wikipage.py:161 | The backtracking of the greedy `(.+)`: it finds the last split point at or before k, or reports that there is none. |
| PropLabels.SplitUnique | wikiparse/wikipage.py:161 | A label can be split in at most one place, so greediness never changes the match. |
| PropLabels.MatchLabel | wikiparse/wikipage.py:161-167 | A match gives a non-empty, newline-free name and a digit run, and the label is `name(digits)`. There is no match exactly when no split point exists. |
| PropLabels.ParseLabel | wikiparse/wikipage.py:167-170 | A matched label gives `Prop(int(digits), name)`. Any other label gives `Prop("ERROR PARSING: <label>", -1)`. |
| PropLabels.ParseLabelRoot | wikipage.py:61-64 | The root loader stores the tuple of both groups in both `id` and `type` of a matched label. It gives the error entry otherwise. |
| PropLabels.ShapeSplits | wikiparse/wikipage.py:161 | A newline-free name followed by `(digits)` matches with exactly those groups. |
| PropLabels.ParseFormatRoundTrip | wikiparse/wikipage.py:161-170 | The Python side parses the label the Java side writes, `name(n)`, back to `(n, name)`. |
| PropLabels.RootParseKeepsGroups | wikipage.py:64 | The root loader parses the same label to the tuple of groups in both fields, never to the number n. |
| PropLabels.NoParenIsError | wikiparse/wikipage.py:168-170 | A label without `(` is an error entry in both loaders. |
| PropLabels.UnnumberedLabelsAreErrors | WikiToJson/src/org/example/WikiToJson.java:377-680 | The labels `redirection` (line 387), `magic` (line 604), `url` (line 632) and `tag_extension_<name>` (line 680) carry no counter, so the Python parser marks them as errors. |
| JsonConverter.NameOf | WikiToJson/src/org/example/WikiToJson.java:556-694 | Every name passed to `textProperty` is non-empty and newline-free, so its labels round-trip. |
| JsonConverter.AddText | WikiToJson/src/org/example/WikiToJson.java:505-508 | A new text element takes the next id and snapshots the whole property stack, bottom first. It is added to the current context, and nothing else changes. |
| JsonConverter.NewContext | WikiToJson/src/org/example/WikiToJson.java:82-88 | A new context takes the next id, and nothing else changes. |
| JsonConverter.EntityStep | WikiToJson/src/org/example/WikiToJson.java:470-491 | The counter goes to `(count+1) % 4`. States 1 and 3 route to a fresh `JUNK` context. State 2 creates `ref_<name>` under refs and leaves a pointer in the stored context. State 0 restores the stored context. |
| JsonConverter.VisitNode | WikiToJson/src/org/example/WikiToJson.java:505-527 | A node leaves the stack and the current context as it found them. It uses one counter value per non-null property node, and it only adds elements. |
| JsonConverter.Prefix | WikiToJson/src/org/example/WikiToJson.java:453-495 | Partway through a node list, the counter is below 4, the stack is unchanged, and the counter values used are those of the children seen so far. |
| JsonConverter.VisitList | WikiToJson/src/org/example/WikiToJson.java:453-499 | A node list restores the stack and the context it started in, and uses the counter values of its children. |
| JsonConverter.Initial | WikiToJson/src/org/example/WikiToJson.java:425-433 | Each conversion starts with ids from 1, the refs context and the `__root` context. |
| JsonConverter.VisitAll | WikiToJson/src/org/example/WikiToJson.java:501-503 | `iterate` dispatches each child in turn. It leaves the stack and the current context as it found them, and it uses the counter values of its children. |
| JsonConverter.VisitAllGrows | WikiToJson/src/org/example/WikiToJson.java:501-503 | Iterating only adds elements and content, each new element taking the next id. Every text created carries the properties in force when iterating started. |
| JsonConverter.VisitAllAppend | WikiToJson/src/org/example/WikiToJson.java:501-503 | Children are handled left to right: iterating `xs + ys` is iterating `xs`, then `ys` from the visitor state `xs` left behind. |
| JsonConverter.Convert | WikiToJson/src/org/example/WikiToJson.java:501-503 | A whole conversion iterates the page's top-level nodes. Element ids are 1, 2, 3, … in creation order. The stack ends empty, and the property counter ends at 1 plus the number of non-null property nodes. |
| JsonConverter.TopLevelEntityOpensNothing | WikiToJson/src/org/example/WikiToJson.java:453-503 | A top-level entity reference creates no element. The same reference as the only child of a node list opens a `JUNK` context and leaves an unfinished cycle closed by a `"\n"` text. |
| JsonConverter.GrowsTrans | WikiToJson/src/org/example/WikiToJson.java:84 | Only-adding steps compose, and ids stay consecutive. |
| JsonConverter.SnapshotsTrans | WikiToJson/src/org/example/WikiToJson.java:220-226 | Text snapshots that extend the stack compose across steps. |
| JsonConverter.GrowsNumbered | WikiToJson/src/org/example/WikiToJson.java:83-88 | Growth keeps element ids consecutive from 1. |
| JsonConverter.CycleOther | WikiToJson/src/org/example/WikiToJson.java:470 | A child other than an entity reference leaves the entity-reference state alone. |
| JsonConverter.CycleEntity | WikiToJson/src/org/example/WikiToJson.java:470-491 | An entity reference advances the state machine by one step. |
| JsonConverter.EntityCycle | WikiToJson/src/org/example/WikiToJson.java:455-491 | After any prefix of a node list, the counter is the number of entity references seen, mod 4. The current context is the stored one at 0, a `JUNK` context at 1 or 3, and the `ref_<name>` of the last reference at 2. |
| JsonConverter.NodeListEnd | WikiToJson/src/org/example/WikiToJson.java:496-498 | After a node list, the starting context is current again. If the cycle ended midway, a `"\n"` text is first added to the context current then. |
| JsonConverter.NullPropertyIsNoOp | WikiToJson/src/org/example/WikiToJson.java:519-520 | `textProperty` on a `null` node changes nothing, not even the counter. |
| JsonConverter.PropertyOnEveryText | WikiToJson/src/org/example/WikiToJson.java:519-527 | Every text created under a non-null property node carries the outer stack, then `name(n)` with n the counter at entry. The counter grows by one, and the stack is restored. |
| JsonConverter.NumberedLabelsDistinct | WikiToJson/src/org/example/WikiToJson.java:212-213 | Labels with different counter values differ, so the numbered labels of one conversion are distinct. |
| JsonConverter.CleanedWikitext | WikiToJson/src/org/example/WikiToJson.java:738-740 | Replacing `&nbsp;` never makes the text longer. |
| JsonConverter.CleanedPrefix | WikiToJson/src/org/example/WikiToJson.java:738-740 | Up to the first space of the output, the text is unchanged. |
| JsonConverter.CleanedHasNoNbsp | WikiToJson/src/org/example/WikiToJson.java:738-740 | The result contains no `&nbsp;`. |
| JsonConverter.CleanedShrinks | WikiToJson/src/org/example/WikiToJson.java:738-740 | An occurrence of `&nbsp;` makes the result strictly shorter. |
| JsonConverter.CleanedKeepsPlain | WikiToJson/src/org/example/WikiToJson.java:738-740 | Text without `&nbsp;` is returned unchanged. |
| JsonConverter.CleanedUnchangedIff | WikiToJson/src/org/example/WikiToJson.java:738-740 | Cleaning changes the text exactly when it contains `&nbsp;`. |
| PageObjects.TypeMapping | wikiparse/wikipage.py:389-401 | `text` and `redirection` map to their own classes. An unknown type has no class. |
| PageObjects.Register | wikiparse/wikipage.py:50-54 | An element is registered under its JSON id. A later element with the same id replaces the earlier one but keeps the key's position. |
| PageObjects.Construct | wikiparse/wikipage.py:404-416 | A pointer returns the element already registered under its target, and raises when there is none. An unknown type raises. Any other element is new, registered under its id, of the mapped class, and under the given parent. With name mangling on, links and sections raise. |
| PageObjects.Make | wikiparse/wikipage.py:109-114 | A constructor registers its element first, then builds the children. |
| PageObjects.Build | wikiparse/wikipage.py:111-114 | After registration, the children and then the named parts are built. Objects built earlier are unchanged, and the element keeps its id, class and parent. A mangled link or section raises. |
| PageObjects.BuildChildren | wikiparse/wikipage.py:113-114 | A context constructs its JSON children under itself, and a text or redirection constructs none. What was built before is kept. |
| PageObjects.BuildParts | wikiparse/wikipage.py:263-266 | A missing named part raises `KeyError`. Otherwise the parts are constructed after the children, earlier objects are kept, and a mangled link or section raises. |
| PageObjects.SetContent | wikiparse/wikipage.py:113-114 | Storing the children of an element keeps the registry, the key order and every id, class and parent. |
| PageObjects.Finish | wikiparse/wikipage.py:264-266 | A section's content is its body's content, and any other context's content is its children. Earlier objects and key positions are kept. |
| PageObjects.ConstructAll | wikiparse/wikipage.py:499-501 | A list comprehension of `construct` gives one element per JSON entry. |
| PageObjects.ParseAll | wikiparse/wikipage.py:166-170 | A text's properties are its labels, each parsed. |
| PageObjects.PartOfAncestors | wikiparse/wikipage.py:68-71 | `part_of()` holds a class exactly when the element or one of its ancestors has that class. |
| PageObjects.AncestorBound | wikiparse/wikipage.py:71 | A parent is built before its children, so every ancestor comes earlier and the parent walk of `part_of` ends. |
| PageObjects.IsPartOfNeverFalse | wikiparse/wikipage.py:73-81 | As written, `is_part_of` answers `True` when the element or an ancestor matches. Otherwise it raises `AttributeError` on the root's `None` parent, and it never answers `False`. |
| PageObjects.IsPartOfFixedAgrees | wikiparse/wikipage.py:73-81 | The documented `is_part_of` agrees with `part_of()` in both directions. |
| PageObjects.FirstRedirect | wikiparse/wikipage.py:513-514 | Returns the first position in key order whose element is a `Redirection`. |
| PageObjects.Redirection | wikiparse/wikipage.py:508-517 | The page redirects exactly when some registered element is a `Redirection`. The target is that of the first one in `all_elements` order. |
| PageObjects.LoadPage | wikiparse/wikipage.py:495-501 | A loaded page keeps the registry invariant. A root that is a pointer raises. Only a `Context` can be indexed, so a text or redirection root raises `TypeError` at `root[0]`. A context root without content raises `IndexError` there. A page that loads has a context root with content. |
| PageObjects.LoadPageNeedsContextRoot | wikiparse/wikipage.py:495-496 | A page loads only from a root whose JSON kind is neither `pointer`, `text` nor `redirection`. A `text` or `redirection` root that constructs raises `TypeError`. |
| PageObjects.PageRedirection | wikiparse/wikipage.py:528-531 | A title with no JSON raises `TypeError`. |
| PageObjects.ResolvePage | wikiparse/wikipage.py:519-532 | Without following, the loaded page is returned. With following, a result has no redirection. Loading errors propagate. |
| PageObjects.ResolveFollowsChain | wikiparse/wikipage.py:519-532 | With following, the outcome stays on the redirect chain from `title`. A returned page is reached from `title` within the hop budget. An error is the error of loading a page on the chain. The loop runs out of hops exactly when every page within the budget redirects. |
| PageObjects.ResolveReachesChainEnd | wikiparse/wikipage.py:529-532 | The first page on the chain that does not redirect, when reached within the hop budget, is the page returned. |
| PageObjects.ResolveFuelMonotone | wikiparse/wikipage.py:529-531 | Once the loop has stopped, more hops change nothing. |
| PageObjects.ResolveCycleNeverEnds | wikipage.py:228-235 | Two pages that redirect to each other are followed forever: there is no cycle detection. |
| RichText.Flatten | wikipage.py:179-187 | An already visited element adds nothing. A `Text` not yet visited adds itself. Any other element adds what the loop over its sub-elements adds, with itself marked visited first. The texts added are distinct and fresh, every text element newly visited is added, and every sub-element of a newly visited element ends up visited. |
| RichText.FlattenList | wikipage.py:182-187 | The loop over sub-elements visits all of them. It yields fresh, distinct texts: every text element it newly visits, and no other. |
| RichText.FlattenListAppend | wikipage.py:182-187 | The loop runs left to right: walking `xs + ys` yields `xs`'s texts, then `ys`'s texts from the visited set `xs` left behind. |
| RichText.PathVisited | wikipage.py:179-187 | Flattening from the root visits every element reachable from it through sub-elements, even along a pointer cycle. |
| RichText.Segments | wikipage.py:173-176 | Every segment is the string and properties of some `Text` of the page. |
| RichText.SegmentsComplete | wikipage.py:173-187 | Every `Text` reachable from the root element appears among the segments. There is one segment per text element visited, and no text element gives two. |
| RichText.ExpandSpellsStr | wikipage.py:204-205 | `str()` is the concatenation of the segments in flattening order, and it has the total segment length. |
| RichText.Locate | wikipage.py:193-199 | The segment walk raises only `IndexError`. |
| RichText.LocateMatchesExpand | wikipage.py:193-199 | For an index from the front, the segment walk returns the character at that position with its segment's properties. It raises `IndexError` past the end. |
| RichText.GetItem | wikipage.py:189-199 | As written, an index below the length returns that character of `str()`, and an index past the end raises `IndexError`. |
| RichText.Len | wikipage.py:201-202 | As written, `len()` is always 0. |
| RichText.GetItemNegativeFirstSegment | wikipage.py:191-197 | As written, a negative index addresses the first segment from its end. |
| RichText.GetItemCounterexample | wikipage.py:174-176 | On the segments `"ab"` and `"cd"`, index -1 gives `'b'` as written and `'d'` as intended. `len()` gives 0 as written and 4 as intended. |
| RichText.LenFixed | wikipage.py:201-202 | The intended `len()` is the length of `str()`. |
| RichText.GetItemFixed | wikipage.py:189-199 | The intended indexing follows Python sequence rules over the whole text, from either end. It raises `IndexError` outside `[-len, len)`. |
| RichText.AdjustedNegativeStillWraps | wikipage.py:191-197 | Summing the total alone does not reject an index below -len, because it would wrap into the first segment. |
| RichText.GetItemFixedMatchesExpand | wikipage.py:189-199 | The intended indexing returns the per-character view's entry, with its segment's properties. |
| RichText.GetItemAgreesFromFront | wikipage.py:189-199 | Both versions agree on indexes from the front. |
| SectionTree.Place | wikipage.py:248-253 | A section whose parent title is in `flat` goes under the node `flat` holds for that title, and is recorded under its stripped title. |
| SectionTree.LastKey | wikipage.py:250-253 | `flat[title]` is the last placement recorded under that stripped title, because a later assignment replaces an earlier one. `None` means no placement has that title. |
| SectionTree.Step | wikipage.py:246-255 | One iteration places the first section, or moves it to the back. |
| SectionTree.StepConserves | wikipage.py:246-255 | One iteration neither loses nor duplicates a section. |
| SectionTree.Pass | wikipage.py:244-255 | A pass only appends placements, each well placed. |
| SectionTree.PassConserves | wikipage.py:244-255 | A pass neither loses nor duplicates a section. |
| SectionTree.PassNonePlaced | wikipage.py:244-255 | A pass that places nothing rotates the worklist. Every section it examined had a parent title not in `flat`. |
| SectionTree.PassPrevLen | wikipage.py:242-245 | After a pass, `prev_len` equals the worklist length exactly when the pass's last section was deferred. The loop then stops. |
| SectionTree.Loop | wikipage.py:243-255 | The loop as written places sections well and loses none. |
| SectionTree.SectionTreeOf | wikipage.py:237-257 | Every section is either placed or left top-level, and each placement is under its parent's node. |
| SectionTree.SectionTreeStopsEarly | wikipage.py:242-255 | As written, `[B under A, A under root, C under X]` leaves B unplaced although A was placed. |
| SectionTree.LoopFixed | wikipage.py:243-255 | Repeating passes while one places something leaves no placeable section. |
| SectionTree.SectionTreeFixed | wikipage.py:237-257 | The intended tree loses no section and places each one well. Every top-level leftover has a parent title that is not in `flat`. |
| Downloader.Unique | wikiparse/wikidownloader.py:128-133 | `unique` yields each element once, and exactly the elements of the input. |
| Downloader.FirstIndex | wikiparse/wikidownloader.py:130-132 | Returns the position of an element's first occurrence. |
| Downloader.UniqueKeepsFirstOrder | wikidownloader.py:17-22 | `unique` lists the elements in order of first occurrence. |
| Downloader.NonEmpty | wikidownloader.py:11-12 | Keeps exactly the non-empty parts, in order. |
| Downloader.RootUrlRoundTrip | wikiparse/wikidownloader.py:122 | Splitting the root URL at `/` gives the base's pieces, then the non-empty language and date. Empty parts leave no empty piece. |
| Downloader.FilePrefixRoundTrip | wikiparse/wikidownloader.py:123 | The file prefix is each non-empty part followed by `-`. It is empty exactly when both parts are. |
| Downloader.EscapeRoundTrip | wikiparse/wikidownloader.py:266 | The escaped pattern reads back as the original. It has one backslash per non-alphanumeric character. |
| Downloader.EscapeAlnumUnchanged | wikidownloader.py:142 | Alphanumeric text is not escaped. |
| Downloader.AfterPrefix | wikiparse/wikidownloader.py:242 | Returns the text after the first occurrence of the prefix, or the whole link when the prefix does not occur. An empty prefix raises `ValueError`. |
| Downloader.LazyGroupLen | wikiparse/wikidownloader.py:243 | The lazy group is the text before the dot minus its trailing digits, keeping at least one character. |
| Downloader.TypeGroup | wikiparse/wikidownloader.py:243-244 | There is no match exactly when there is no `.` or the `.` comes first. Otherwise the match is a dot-free prefix, followed only by digits up to the first dot, and as short as possible. |
| Downloader.AfterPrefixTakesFirst | wikiparse/wikidownloader.py:242 | With prefix `enwiki-`, the link `enwiki-enwiki-x` gives `enwiki-x`, the text after the first occurrence. |
| Downloader.AfterPrefixAll | wikiparse/wikidownloader.py:242 | The first link raises for an empty prefix. Otherwise each link gives its tail. |
| Downloader.Groups | wikiparse/wikidownloader.py:243-244 | Every kept name is the dot-free match of some tail, and every tail that matches gives its match. A single tail gives its match, or nothing when `re.match` returns `None`. |
| Downloader.GroupsAppend | wikiparse/wikidownloader.py:243-244 | The comprehension keeps tail order: the matches of two runs of tails are the first run's matches followed by the second's. |
| Downloader.NonBlankKeepsOrder | wikiparse/wikidownloader.py:245 | Dropping blank names keeps the rest in order of first occurrence. |
| Downloader.NonBlank | wikiparse/wikidownloader.py:245 | Keeps exactly the names that are not blank, and keeps them distinct. |
| Downloader.TypeNames | wikiparse/wikidownloader.py:242-245 | The type names are distinct, non-blank and dot-free, each the match of some link. Every non-blank match of a link's tail is a type name. The names are in order of first occurrence among the matches. An empty prefix raises when there are links. |
| Downloader.Extensions | wikidownloader.py:174-177 | The extension entries are distinct, and they are exactly the extensions of the links. |
| Downloader.PartialNumbersGrouped | wikidownloader.py:169-175 | A part `xml-p<digits>p<digits>` is shown as `xml-PART`. |
| Downloader.ExtensionKeepsPlainParts | wikidownloader.py:174-176 | Without partial parts, the extension is everything after the first dot, or empty when there is no dot. |
| Downloader.FindKey | wikiparse/wikidownloader.py:148 | Finds the position of a key, or shows that it is absent. |
| Downloader.SetOption | wikiparse/wikidownloader.py:148 | `options[key] = action` keeps the keys distinct. An existing key keeps its position, and a new key goes last. |
| Downloader.MakeMenu | wikiparse/wikidownloader.py:145-148 | The menu has the back option under the version's back key. Every other entry comes from the given items. |
| Downloader.Exact | wikiparse/wikidownloader.py:158 | Keeps exactly the entries whose key equals the selection, ignoring case. |
| Downloader.Prefixed | wikiparse/wikidownloader.py:160 | Keeps exactly the entries whose key starts with the selection, ignoring case. |
| Downloader.Candidates | wikiparse/wikidownloader.py:158-160 | Exact matches take precedence. Prefix matches are used only when there is no exact match. |
| Downloader.ExactSelectsOne | wikidownloader.py:47-49 | With keys distinct ignoring case, typing a key in any case selects exactly that entry, even when other keys start with it. |
| Downloader.ExactOnly | wikidownloader.py:47 | With case-distinct keys, one exact match is the only one. |
| Downloader.NoneExact | wikidownloader.py:47-48 | Without exact matches, the exact list is empty. |
| Downloader.HandleLoop | wikiparse/wikidownloader.py:153-173 | The menu can only return `Quit` or `Loop`. |
| Downloader.ChildResultCodes | wikiparse/wikidownloader.py:161-168 | A single candidate runs. A `Quit` result returns `Quit`, a `Back` result returns `Loop`, and any other result reads the next line. |
| Downloader.BackOptionQuits | wikiparse/wikidownloader.py:141-148 | The back option returns `True`, which equals `Quit`, so choosing it ends the menu with `Quit`. |
| Downloader.BackKeysAgree | wikidownloader.py:37 | The older menu's `back` and the packaged `BACK` are typed alike, in any case. |
| Downloader.AmbiguousOrUnmatchedRepeats | wikidownloader.py:58-62 | An ambiguous or unmatched line is answered with a message, and the loop reads the next line. |
| Indentify.Spaces | WikiToJson/test/indentify.py:13-16 | `' ' * k` is k spaces, and none for a negative k. |
| Indentify.Emit | WikiToJson/test/indentify.py:10-18 | The output is never shorter than the input. |
| Indentify.IndentCounts | WikiToJson/test/indentify.py:7-16 | The indent is its start plus 2 × (count of `[` − count of `]`). |
| Indentify.BalancedEndsAtZero | WikiToJson/test/indentify.py:11-16 | For balanced brackets, the final indent is 0. |
| Indentify.DedentEmit | WikiToJson/test/indentify.py:10-18 | Deleting the newline and spaces written after each bracket recovers the input exactly. So every other character is copied unchanged and in order. |
| Indentify.NegativeIndentNoSpaces | WikiToJson/test/indentify.py:14-16 | A `]` below indent 0 is followed by the newline alone. |
| Indentify.NoBracketsUnchanged | WikiToJson/test/indentify.py:17-18 | Text without brackets is copied unchanged. |

## Left out

- Streaming XML parsing, decompression and `element.clear()` are library I/O. The model takes the sequence of completed elements instead.
- Zip, gzip, bz2, sqlite, LZMA, directory creation and configuration loading are modelled as pure values. The text encoding and compression cancel out between a write and a read.
- The packaged `_pick_path` returns bytes while `namelist()` yields str. The model keys the archive by name as text.
- The urllib fetches, the BeautifulSoup scraping in `DateMenu`/`TypeMenu`, and the Py4J gateway with its subprocess launch are network or process calls. Their outcomes are parameters.
- The worker thread and queue of `zip_splitter.py` are concurrency plumbing. The model feeds the worker one row at a time.
- Progress output, tqdm, `print` and the atexit messages are output only.
- `start_recording_index` and `finish_recording_index` are defined in neither file manager. So as written, both `split_xml` versions raise `AttributeError` before reading a page. The model treats these calls as no-ops and models the loop they surround.
- The Sweble visitor overloads other than `visit(Page)`, `visit(NodeList)`, `visit(Text)` and `textProperty` are left out. So are Gson serialisation and the `VisitingException` handler. `JsonConverter` keeps them abstract through a small node datatype.
- JsonConverter.Convert: `textPropNumber` and `S_ID` are Java `int`, and their wrap-around after 2^31 elements is not modelled.
- LegacySplitter.ProgressLines: the source reads the clock twice per record, and the model uses one reading for both the test and the new reference.
- The `_redir` cache of `WikiPage.redirection` does not change the value, so only the value is modelled.
- The dynamic iteration protocol (`__iter__`/`__next__` over attribute names), `section`/`cur_section` tracking and the fake INTRO and section bodies of the packaged loader are left out. They depend on attributes that are name-mangled and never set. The constructors that read such a private attribute are the `mangled` flag of `PageObjects.Construct`: Link at wikiparse/wikipage.py:195 and Section at wikiparse/wikipage.py:266.
- PageObjects.Construct models registration, dispatch and pointers only. Field values such as labels, levels and targets are not kept.
- The root `wikipage.py` `construct` and `WikiPage.__init__` are left out. They do the same dispatch as the packaged loader, which `PageObjects` models.
- `WikiPage.__init__` raises `LookupError` when the JSON text is the literal `null`. This case is left out, and a missing page is the `TypeError` of `json.loads(None)`.
- The ordered-dict rendering of `section_tree` and the `str(title)` keys of `sections` are left out. `SectionTree.Tree` keeps the placements and the leftovers in order instead.
- `\w`, `\d`, `isalnum`, `strip`, `lower` and `upper` are modelled on ASCII. `unidecode` is assumed to give ASCII.
- Strings.Strip: the contract states that the result is no longer than the input, has no outer whitespace, and leaves an already stripped string alone. It does not state that the result is the input with exactly its outer whitespace removed.
- Downloader.HandleLoop: a chosen entry is a function parameter that returns its result and the input it leaves. The nested menus it opens are not modelled themselves. `pick_type`, `pick_ext` and the file-link regexes of `FileMenu` need the network and the regex engine.
- The packaged `TypeMenu`'s `HELP` entry is an ordinary entry, returning `Loop`, through the `run` parameter.
- ZipSplitter.PickOutputName: the source loop has no bound, and the model tries at most `attempts` names.
- PageObjects.ResolvePage: `resolve_page` has no bound on the number of hops. The model takes a hop budget `fuel`, and `Unfinished` stands for a loop that has not ended within it.

## Findings

| source | as written | input that shows it | evidently intended | confidence | as-written member | corrected member |
|---|---|---|---|---|---|---|
| wikiparse/wikisplitter.py:156-157 | `not is_redirect` tests the truth value of the found element, which is its child count | with `--no_redirects`, a page whose redirect child is `<redirect title="X"/>` is kept | drop every page that has a `redirect` child | not executed | PageSplitter.AsWrittenKeepsEmptyRedirect | PageSplitter.ChildPresentDropsRedirectPages |
| wikipage.py:64 | `Prop(mtch.groups(1), mtch.groups(0))` stores the tuple of both groups in `id` and in `type` | the label `bold(1)` gives `Prop(("bold","1"), ("bold","1"))` | `Prop(1, "bold")`, as the packaged loader does | not executed | PropLabels.RootParseKeepsGroups | PropLabels.ParseFormatRoundTrip |
| wikipage.py:174-176 | `_total_len` is summed before `_flatten` fills `_lens` | segments `"ab"` and `"cd"`: `len()` is 0 and `[-1]` is `'b'` | `len()` is 4 and `[-1]` is `'d'` | not executed | RichText.GetItemCounterexample | RichText.GetItemFixedMatchesExpand |
| wikiparse/wikipage.py:81 | `is_part_of` recurses into `self.__parent` even when it is `None` | an element whose ancestors do not have the target type raises `AttributeError` | answer `False` | not executed | PageObjects.IsPartOfNeverFalse | PageObjects.IsPartOfFixedAgrees |
| wikipage.py:244-245 | `prev_len` is reset inside the inner loop, so the loop stops after any pass whose last section was deferred | sections B (parent A), A (parent root), C (parent X): B stays unplaced | repeat passes while a pass places something | not executed | SectionTree.SectionTreeStopsEarly | SectionTree.SectionTreeFixed |
