# PokePoster core, modelled in Dafny

PokePoster scrapes the entries of a Pokédex index page on pokewiki.de. For every entry it:

- downloads the entry's page;
- cuts the German and English name, the artwork URL, the type-icon URLs and the type labels out of the page's info panel;
- fetches the artwork and one icon per distinct type;
- records the path of the composed picture.

It then lays all entries out on a poster grid of `rows` x `cols` cells. Each live cell has a caption `#NNN name`.

This project models the deterministic logic of `pokeutils.py`. Each part takes the form the source has:

- **String extractors as functions.** The `str.split` / `str.find` / index / slice pipelines of the extractors are total functions over strings. Each returns a value or the exception Python raises (`Result`).
- **Python idioms as functions.** The list idioms the code relies on are functions with their own properties:
  - comprehension filters;
  - comprehensions that stop at the first exception;
  - `dict.fromkeys` de-duplication;
  - `np.unique`.
- **Classes as classes.** The two classes are Dafny classes whose methods update their fields in place. The loops of `set_type_urls`, `set_types`, `load_type_images`, `fill_pokedex` and `make_poster` are `while` loops. Each is proved against a specification function:
  - `TypeUrls` and `Types` for the two extractors;
  - `Fill` / `Run` for `fill_pokedex`;
  - `Poster` / `Walk` for `make_poster`.
- **Exceptions as data.** The exceptions the modelled code raises on malformed input are values of the model:
  - an `IndexError` from a missing `[0]`, `[1]` or `[-2]`;
  - an `AttributeError` on a page without the expected block;
  - a `TypeError` from iterating `tqdm(None)` while the URL list is still `None` (an empty list raises nothing);
  - a `TypeError` from `self.num_pokemons + grid_offset` while the entry count is `None`, inside the chained comparison of `make_poster`;
  - on a poster grid with one row or one column, an `IndexError` from indexing its one-dimensional array of axes with two indices; on a 1 x 1 grid, a `TypeError` from indexing its single `Axes`;
  - a `TypeError` from `imshow(None)` for an entry without artwork, and from `os.path.join` with `None`;
  - a `ValueError` from matplotlib on a grid or gridspec without rows or columns.

  What `plt.imread` raises is not modelled (see "Left out").
- **HTML nodes as strings.** Every HTML node is its rendering `str(node)`. A `find` that finds nothing is `None`, which renders as `"None"`.
- **The outside world as a parameter.** Everything that leaves the process is a field of a `World` value:
  - the page fetches, with the BeautifulSoup queries on them;
  - the image fetches;
  - `os.path.join`.

Modules:

- `outcomes.dfy` (`Outcomes`): `Option`, the exception kinds, `Result`.
- `decimal.dfy` (`Decimal`): decimal numerals and `f"{n:03d}"`.
- `pytext.dfy` (`PyText`, `CharSplit`): `str.find`, `str.split`, slicing, and one-character splits.
- `pyseq.dfy` (`PySeq`): comprehension filters, comprehensions that raise, `dict.fromkeys`, `np.unique`.
- `markup.dfy` (`Markup`): the string extractors of the index page and of the info panel.
- `poster.dfy` (`PosterGrid`): the cell arithmetic and captions of `make_poster`.
- `pokeutils.dfy` (`PokeUtils`): the classes `Pokemon` and `Pokedex`.

Where the code and its evident intent differ, the model follows the code:

- **English name.** `set_english_name` computes the English name and then stores the printed list of all spans in its place. The model stores that list too.
- **Chained comparison.** The liveness test of a poster cell is a chained comparison. Its second half adds the offset to the entry count, which raises `TypeError` while the count is `None`. That half is evaluated only when the first half holds, so the `TypeError` comes only from cells at or after the offset.
- **Entries without type icons.** Composing an entry that has no type icons calls `add_gridspec(0, 2)`, which raises `ValueError`, so `fill_pokedex` stops at such an entry. The model (`Merged`) raises it too.

## Model

| member | source | states |
|---|---|---|
| PyText.Find | pokeutils.py:39-40 | `str.find`: -1 when the needle does not occur, else an index where it occurs with no earlier occurrence |
| PyText.Split | pokeutils.py:41 | `str.split(sep)`: at least one piece, and joining the pieces with `sep` gives the input back |
| PyText.PySlice | pokeutils.py:161 | Python slicing `s[lo:hi]` from a non-negative start: a negative end counts from the end, an end past the string is clamped to it, and an empty or reversed range gives `""`; so `s[5:-1]` drops the first five and the last character |
| PyText.ListRepr | pokeutils.py:132 | the printed list is bracketed, `[]` for no items and `[x]` for one |
| PyText.SplitFields | pokeutils.py:139 | `s.split(sep)` has a second piece exactly when `sep` occurs in `s`; the first piece is the text before the first `sep`, the second the text between the first and second `sep` |
| CharSplit.SplitCharFields | pokeutils.py:41 | for a one-character separator: the first piece runs up to the first separator, a second piece exists exactly when the separator occurs, and it is the text between the first two separators |
| CharSplit.AfterLast | pokeutils.py:161 | what follows the last `c`: a `c`-free end of the string, preceded by `c` when shorter than the string, and the whole string exactly when it has no `c` |
| CharSplit.BeforeLast | pokeutils.py:161 | a string holding `c` is what precedes its last `c`, that `c`, and what follows it |
| CharSplit.SplitLastField | pokeutils.py:161 | `s.split(c)[-1]` is what follows the last `c` of `s` (all of `s` without a `c`) |
| CharSplit.SplitAppendField | pokeutils.py:161 | splitting `q + c + y`, with `y` free of `c`, adds the one field `y` after the fields of `q` |
| CharSplit.SplitLastFields | pokeutils.py:161 | for a string holding `c`, `split(c)[-2]` is the field before its last `c` (from the `c` before it, or from the start) and `split(c)[-1]` is what follows its last `c` |
| CharSplit.SplitLastTwo | pokeutils.py:161 | `split(" ")[-2]` of `p x y`, where `x` and `y` hold no space, is `x` (and `[-1]` is `y`) |
| CharSplit.SplitCharUnique | pokeutils.py:41 | splitting the join of separator-free pieces gives the pieces back |
| CharSplit.TakeUntilTwice | pokeutils.py:121 | cutting at `>` and then at `<` is cutting at the first of either |
| PySeq.Filter | pokeutils.py:39-40 | a comprehension filter keeps exactly the elements that pass the test, and no more elements than the input has |
| PySeq.FilterConcat | pokeutils.py:39-40 | filtering a concatenation is the concatenation of the filtered parts, in order |
| PySeq.FilterAppend | pokeutils.py:39-40 | a further element is appended to the filtered list exactly when it passes the test, so the filter keeps the passing elements in order and with their repetitions |
| PySeq.FilterHead | pokeutils.py:150 | `[0]` of a filtered list is the first input element that passes the test |
| PySeq.MapUntilError | pokeutils.py:159-161 | a loop that appends `f(x)` per element holds, when it stops, the values of a prefix of the input, stopping only at an element whose `f` raises |
| PySeq.MapUntilErrorExtend | pokeutils.py:160-161 | one iteration of such a loop appends `f(s[j])`, or ends the loop with what it holds |
| PySeq.MapAll | pokeutils.py:41 | a comprehension `[f(x) for x in s]` succeeds exactly when no `f(x)` raises, then holds `f(s[k])` at `k`; otherwise it raises the exception of the first element that raises |
| PySeq.Dedup | pokeutils.py:43 | `list(dict.fromkeys(xs))` has no duplicates and holds exactly the values of `xs` |
| PySeq.DedupKeepsFirstSeenOrder | pokeutils.py:43 | the de-duplicated values are ordered by their first occurrence in the input |
| PySeq.DedupOfDistinct | pokeutils.py:43 | de-duplicating a duplicate-free list changes nothing (so de-duplication is idempotent) |
| PySeq.SortedUnique | pokeutils.py:203 | `np.unique` on strings is strictly increasing in code-point order and holds exactly the input's values |
| PySeq.UniqueCount | pokeutils.py:203 | `np.unique` returns as many values as the input has distinct values |
| PySeq.StrLessTotal | pokeutils.py:203 | the string order `np.unique` sorts by is total |
| Decimal.Numeral | pokeutils.py:85 | the decimal numeral of `n` is digits only, one digit exactly below 10, and starts with a non-zero digit for `n >= 1` |
| Decimal.Pad3 | pokeutils.py:85 | `f"{n:03d}"` is digits only, at least three of them, and starts with a non-zero digit when longer than three |
| Decimal.NumeralValue | pokeutils.py:85 | the decimal numeral of `n` reads back as `n` |
| Decimal.Pad3Value | pokeutils.py:85 | `f"{n:03d}"` reads back as `n`, has at least three digits, exactly three below 1000, and no leading zero when longer |
| Markup.HrefUrl | pokeutils.py:41 | the URL of an anchor is the site origin followed by the text between its first two `"`; IndexError exactly when it has no `"` |
| Markup.HrefUrlOfLink | pokeutils.py:41 | an anchor `<a href="path"...` yields the origin followed by `path` |
| Markup.ExtractedUrls | pokeutils.py:39-41 | the URL comprehension succeeds exactly when every entry cell's anchor has a `"`, and otherwise raises IndexError |
| Markup.ExtractedUrlsValue | pokeutils.py:39-41 | a successful extraction holds one URL per entry cell, in page order: URL `k` is the origin and the text between the first two `"` of entry cell `k`'s anchor |
| Markup.ExtractedUrlsMembers | pokeutils.py:39-41 | a URL is extracted exactly when some cell with `title=` and `<a href=`, and without `></a>`, links to it |
| Markup.PokemonUrls | pokeutils.py:37-43 | without the content block AttributeError; with it, success exactly when the extraction succeeds, and the list is duplicate-free |
| Markup.PokemonUrlsMembers | pokeutils.py:39-43 | a URL is on the de-duplicated list exactly when some entry cell links to it |
| Markup.PokemonUrlsFirstSeenOrder | pokeutils.py:43 | the list keeps the order in which the URLs are first met on the page |
| Markup.GermanName | pokeutils.py:121 | the German name is the text after the first `>` of the bold node, up to the next `>` or `<`; IndexError exactly when the node has no `>` |
| Markup.GermanNameOfBold | pokeutils.py:121 | `<b>name</b>` yields `name` |
| Markup.EnglishName | pokeutils.py:128-132 | IndexError exactly when no span carries the font-size marker; otherwise the result is the printed list of all spans |
| Markup.FontMarkerHasGt | pokeutils.py:130 | a marked span always has a `>`, so the `[1]` after the marker filter cannot raise |
| Markup.ImageUrl | pokeutils.py:139-140 | the artwork URL is the origin followed by the text between the first two `"` of the part between the first and second `src=`; IndexError exactly when there is no `src=` or that part has no `"` |
| Markup.ImageUrlOfArtwork | pokeutils.py:139-140 | an anchor `... src="path" ...` with one `src=` yields the origin followed by `path` |
| Markup.IconCellMentionsIcon | pokeutils.py:149-150 | the second, looser cell filter of `set_type_urls` keeps every cell the first one kept |
| Markup.IconCellSpans | pokeutils.py:147-150 | the spans of the first `td` with `class="ic_icon"`; IndexError exactly when no `td` has it |
| Markup.Retained | pokeutils.py:152-156 | the longest prefix of the spans without a stop span: it ends at the first span with `</span> (` but not `</span> (variab` |
| Markup.TypeIconUrl | pokeutils.py:161 | an icon URL exists exactly when the image node has a space; otherwise IndexError |
| Markup.TypeIconUrlValue | pokeutils.py:161 | the icon URL is the origin, a slash, and the field before the node's last space, without its first five and its last character |
| Markup.TypeIconUrlOfImg | pokeutils.py:161 | an image `p src="path" last` yields the origin, a slash, then `path` |
| Markup.TypeUrls | pokeutils.py:144-163 | the type-icon URLs exist only when the panel has an icon cell, and are at most as many as its spans; every exception on the way is IndexError |
| Markup.TypeUrlsOnePerIcon | pokeutils.py:149-161 | success exactly when there is an icon cell and every retained icon span's image has a space; then one URL per retained icon span, in span order |
| Markup.TypeLabel | pokeutils.py:172 | a type label is the text between the first two `"` of the anchor without its first character; IndexError exactly when the anchor has no `"` |
| Markup.TypeLabelOfLink | pokeutils.py:172 | `<a href="/name"...` yields `name` |
| Markup.Types | pokeutils.py:165-174 | one label per `ic_icon` span, in order and with repetitions; success exactly when every anchor has a `"`, and IndexError otherwise |
| Markup.Infos | pokeutils.py:184-188 | without the info panel AttributeError; a run without exceptions has one type label per `ic_icon` span and at most one icon URL per span of the icon cell |
| Markup.InfosOk | pokeutils.py:176-188 | the five extractors succeed together exactly when the panel exists and each one succeeds, and then give their five results; without a panel AttributeError, and with one every exception is IndexError |
| PosterGrid.Caption | pokeutils.py:85 | the caption is `#`, the padded number, a space, then the name |
| PosterGrid.CaptionNumber | pokeutils.py:85 | the caption's number field reads back as the entry number, is three digits below 1000 and has no leading zero when longer |
| PosterGrid.SmallCaption | pokeutils.py:85 | the caption of entry number 1 to 9 is `#00`, the digit, a space and the name |
| PosterGrid.CellAt | pokeutils.py:81-92 | cell `i` raises exactly when `offset <= i` and either the count is `None` (TypeError) or `i` is live past the end of the entry list (IndexError); otherwise it is live exactly when `offset <= i < count + offset`, then shows entry `i - offset` under its caption, and a blank cell has an empty caption |
| PosterGrid.Walk | pokeutils.py:79-95 | a walk that does not raise holds one cell per grid position; an empty walk does not raise |
| PosterGrid.TwoByTwo | pokeutils.py:79-92 | a 2 x 2 poster whose four cells do not raise shows them in row-major order |
| PosterGrid.AxesError | pokeutils.py:69 | `plt.subplots` gives an indexable 2-D grid exactly when neither dimension is 1; a 1 x 1 grid raises TypeError when indexed, a single row or column IndexError |
| PosterGrid.Poster | pokeutils.py:69-95 | an empty grid raises ValueError; a poster that does not raise has at least two rows and columns and is the row-major walk of all `rows * cols` cells |
| PosterGrid.WalkCells | pokeutils.py:79-95 | the row-major walk succeeds exactly when no cell raises, and then holds cell `k` at index `k`, for every `k < rows * cols` |
| PosterGrid.WalkFirstError | pokeutils.py:79-95 | a walk that raises raises what its first raising cell raises |
| PosterGrid.WalkErrorStays | pokeutils.py:79-95 | once a cell has raised, the rest of the grid is not drawn |
| PosterGrid.RowMajorIndex | pokeutils.py:79-81 | `row * cols + column` is a valid linear index, and consecutive rows start `cols` apart |
| PosterGrid.PosterStopsAt | pokeutils.py:83-86 | the poster raises what the first raising cell raises |
| PosterGrid.SqueezedPoster | pokeutils.py:86-92 | a squeezed grid raises its indexing error right after the first cell is worked out |
| PosterGrid.PosterCells | pokeutils.py:79-92 | with the count recorded and a grid of at least 2 x 2, no cell raises; cell `i` is live exactly when `offset <= i < n + offset`, then shows entry `i - offset` captioned with number `i + 1 - offset`, and otherwise is blank with an empty caption |
| PosterGrid.EachEntryOnce | pokeutils.py:83-85 | every entry whose cell lies on the grid is drawn exactly once, at cell `offset + e` |
| PosterGrid.ShiftedPoster | pokeutils.py:79-92 | a 2 x 2 poster of three entries shifted by one: blank, `#001 A`, `#002 B`, `#003 C` |
| PokeUtils.ScrapeInto | pokeutils.py:176-190 | `set_infos` changes no field outside the five it scrapes, changes nothing without a panel, and stores the German name exactly when its extractor succeeds |
| PokeUtils.ScrapeIntoInfo | pokeutils.py:176-188 | when no extractor raises, the staged field writes of `set_infos` store exactly the five results |
| PokeUtils.Loaded | pokeutils.py:192-208 | loading sets the artwork and appends, after the images already held, the image of each distinct type URL in sorted URL order, one per URL; no other field changes |
| PokeUtils.Merged | pokeutils.py:210-228 | composing raises ValueError without type images and TypeError without artwork, directory or German name, and these are its only exceptions; otherwise it records `join(dir, germanName) + ".png"` and nothing else |
| PokeUtils.Process | pokeutils.py:49-53 | a processed entry keeps its URL and has its artwork and its picture path |
| PokeUtils.ProcessOutcome | pokeutils.py:49-53 | an entry is built exactly when its page scrapes, it has a type icon and a directory is given; it then has its URL, its German name, the images of its distinct icon URLs in sorted order, one per URL, and the path `dir/germanName.png`; otherwise it raises what scraping raised, ValueError without type icons, or TypeError without a directory |
| PokeUtils.RunStep | pokeutils.py:49-55 | one more URL of a run that has not raised appends its entry, or ends the run with its exception |
| PokeUtils.RunErrorStays | pokeutils.py:49-55 | a run that has raised is not continued |
| PokeUtils.RunOutcome | pokeutils.py:49-59 | a run keeps a prefix of the outcomes, all of them entries; it raises exactly when some outcome is an exception, and then raises the first one |
| PokeUtils.FillOutcome | pokeutils.py:45-61 | `fill_pokedex` keeps entry `k` exactly when the first `k + 1` URLs all process, entry `k` is then `urls[k]` processed; without an exception it keeps one entry per URL, and otherwise it raises the exception of the first URL that fails |
| PokeUtils.GermanNames | pokeutils.py:85 | the name printed for entry `k` is `str` of its German name |
| PokeUtils.Pokemon.constructor | pokeutils.py:104-114 | stores the given fields; no artwork, no type images, no picture path |
| PokeUtils.Pokemon.Create | pokeutils.py:104-116 | `Pokemon(url)` raises what the extractors raise on the fetched page; otherwise it holds exactly their five results |
| PokeUtils.Pokemon.SetGermanName | pokeutils.py:118-123 | returns the German name and stores it; on an exception nothing changes |
| PokeUtils.Pokemon.SetEnglishName | pokeutils.py:125-134 | returns and stores the English name as the code computes it; on an exception nothing changes |
| PokeUtils.Pokemon.SetImg | pokeutils.py:136-142 | returns the artwork URL and stores it; on an exception nothing changes |
| PokeUtils.Pokemon.SetTypeUrls | pokeutils.py:144-163 | returns the type-icon URLs; once the icon cell is found, the field holds the URLs appended before any exception; without an icon cell nothing changes |
| PokeUtils.Pokemon.RelevantSpans | pokeutils.py:152-156 | the scan with `break` keeps exactly the spans before the first stop span |
| PokeUtils.Pokemon.SetTypes | pokeutils.py:165-174 | returns one label per `ic_icon` span; the field holds the labels appended before any exception |
| PokeUtils.Pokemon.SetInfos | pokeutils.py:176-190 | raises what the first failing extractor raises; the fields hold what each extractor stored before it |
| PokeUtils.Pokemon.LoadImage | pokeutils.py:192-198 | stores and returns the image behind the artwork URL; nothing else changes |
| PokeUtils.Pokemon.LoadTypeImages | pokeutils.py:200-208 | appends one fetched image per distinct type URL, in sorted URL order, after the images already held; nothing else changes |
| PokeUtils.Pokemon.MergePokemonAndTypeImgs | pokeutils.py:210-230 | raises and records as `Merged` describes; on an exception nothing changes |
| PokeUtils.Pokemon.Build | pokeutils.py:50-53 | one iteration of `fill_pokedex`: a fresh entry whose fields are the processed URL, or the exception processing raises |
| PokeUtils.Pokedex.constructor | pokeutils.py:21-26 | stores the given fields; a missing or empty entry list becomes an empty one |
| PokeUtils.Pokedex.Create | pokeutils.py:21-29 | `Pokedex(...)` raises what the URL extraction raises; when nothing raises it holds the extracted URLs and counts its entries |
| PokeUtils.Pokedex.GetPokemonUrls | pokeutils.py:31-43 | stores the de-duplicated entry URLs, or raises and leaves every field as it was |
| PokeUtils.Pokedex.FillPokedex | pokeutils.py:45-61 | without URLs TypeError and no change; otherwise the entries built from the URLs are appended after the ones held, the run ends at the first exception, and the count is the final list length exactly when nothing raised |
| PokeUtils.Pokedex.BuildEntries | pokeutils.py:48-55 | the loop builds the entries of the run in URL order and raises its exception |
| PokeUtils.Pokedex.MakePoster | pokeutils.py:63-95 | the cells drawn, or the exception raised, are those of `Poster` for the recorded count and the entries' German names |
| PokeUtils.Pokedex.DrawCells | pokeutils.py:79-95 | the row loop yields the poster's row-major cells or its exception |
| PokeUtils.Pokedex.DrawRow | pokeutils.py:80-95 | one row extends the walk by `cols` cells, or stops with the exception the poster raises |

## Left out

- HTTP (`requests.get`) and HTML parsing (BeautifulSoup) are not modelled. A page is given as the results of the queries the extractors make on it, as fields of `World`. Nothing ties those query results to one HTML document.
- Network and decoding failures (`requests` exceptions, PIL errors) are not modelled: fetching an image always succeeds and yields its content.
- Rendering is not modelled; only the recorded path and the exceptions are:
  - the figure, gridspec, `imshow`, `axis`, `set_title`, fonts and DPI;
  - `savefig`, `show` and `close`.
- `make_poster` reads each entry's picture with `plt.imread`. That read is not modelled, including its failure when the entry has no picture path. The blank image of an empty cell is not modelled either.
- The `file_path` argument of `make_poster` is not modelled; it only names the output file.
- `tqdm` progress bars and their descriptions are UI only and not modelled.
- `os.path.join` is the `joinPath` field of `World`.
- Aliasing is not modelled. Python appends to the very list passed to `Pokedex(...)`. The model copies it into its `pokemons` field.
- Integer widths are not modelled: the poster index `row * cols + column` is an unbounded integer, not numpy's 64-bit one.
- example.py is a configuration-only driver and is not part of this model.
- PokeUtils.Pokemon.LoadImage: requires an artwork URL. Python would pass `None` to `requests.get`. In `fill_pokedex` the URL is always set before the call.
- PokeUtils.Pokemon.LoadTypeImages: requires the type-URL list. Python would pass `np.unique(None)` to `requests.get`. In `fill_pokedex` the list is always set before the call.
- PokeUtils.Pokedex.Create: states only that extraction errors propagate and what a run without exceptions leaves. The full behaviour is stated by `GetPokemonUrls` and `FillPokedex`.
- PokeUtils.Pokedex.FillPokedex: does not state that the appended entries are new objects.
- Markup.TypeUrls: its own contract states only the bound. The full characterisation is `TypeUrlsOnePerIcon`.
