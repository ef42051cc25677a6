/**
 * The string extractors of the scraper. Every HTML node is its rendering `str(node)`;
 * a `find` that finds nothing yields `None`, which renders as `"None"`. The results of
 * the BeautifulSoup queries each extractor makes are the fields of the input records
 * below, in document order.
 */
module Markup {
  import opened Outcomes
  import opened PyText
  import opened CharSplit
  import opened PySeq

  /** The site every scraped path is relative to. */
  const Origin: string := "https://www.pokewiki.de"

  /** Type-icon paths are joined to the origin with an extra slash. */
  const IconOrigin: string := Origin + "/"

  /** `str(node)` of a `find` result. */
  function Render(node: Option<string>): string {
    if node.Some? then node.value else "None"
  }

  // ---------------------------------------------------------------------------
  // Entry links on the index page (Pokedex.get_pokemon_urls)

  /** A table cell of the index page: `str(td)` and `str(td.find("a"))`'s node. */
  datatype ListCell = ListCell(markup: string, anchor: Option<string>)

  /** A cell that links to an entry page: it has a title and a link, and no empty link. */
  predicate IsEntryCell(cell: ListCell) {
    Contains(cell.markup, "title=") && !Contains(cell.markup, "></a>") && Contains(cell.markup, "<a href=")
  }

  /** `origin + str(tag).split('"')[1]`. */
  function HrefUrl(anchor: Option<string>): (r: Result<string>)
    ensures r.Ok? <==> '"' in Render(anchor)
    ensures r.Ok? ==> r.value == Origin + Between(Render(anchor), '"')
    ensures r.Err? ==> r.error == IndexError
  {
    SplitCharFields(Render(anchor), '"');
    var parts := Split(Render(anchor), "\"");
    if |parts| < 2 then Err(IndexError) else Ok(Origin + parts[1])
  }

  function CellUrl(cell: ListCell): Result<string> {
    HrefUrl(cell.anchor)
  }

  /** The URL of every entry cell, in page order, duplicates included. */
  function ExtractedUrls(cells: seq<ListCell>): (r: Result<seq<string>>)
    ensures r.Ok? <==> forall k :: 0 <= k < |cells| && IsEntryCell(cells[k]) ==> '"' in Render(cells[k].anchor)
    ensures r.Err? ==> r.error == IndexError
  {
    var entries := Filter(IsEntryCell, cells);
    MapAll(CellUrl, entries)
  }

  /** An extraction that does not raise holds one URL per entry cell, in page order: the origin and the cell's link target. */
  lemma ExtractedUrlsValue(cells: seq<ListCell>)
    requires ExtractedUrls(cells).Ok?
    ensures var entries, urls := Filter(IsEntryCell, cells), ExtractedUrls(cells).value;
            |urls| == |entries| &&
            forall k :: 0 <= k < |entries| ==> urls[k] == Origin + Between(Render(entries[k].anchor), '"')
  {
    var entries := Filter(IsEntryCell, cells);
    forall k | 0 <= k < |entries|
      ensures CellUrl(entries[k]).Ok?
    {
    }
  }

  /**
   * The entry URLs of the index page: the extracted URLs with duplicates removed,
   * each kept at its first occurrence. Without the content block `find` returns
   * `None` and `find_all` on it raises AttributeError.
   */
  function PokemonUrls(content: Option<seq<ListCell>>): (r: Result<seq<string>>)
    ensures content.None? ==> r == Err(AttributeError)
    ensures content.Some? ==> (r.Ok? <==> ExtractedUrls(content.value).Ok?)
    ensures r.Ok? ==> Distinct(r.value)
  {
    if content.None? then Err(AttributeError)
    else
      var urls :- ExtractedUrls(content.value);
      Ok(Dedup(urls))
  }

  /** The cell is an entry cell and links to `u`. */
  predicate LinksTo(cell: ListCell, u: string) {
    IsEntryCell(cell) && CellUrl(cell) == Ok(u)
  }

  lemma ExtractedUrlsMembers(cells: seq<ListCell>, u: string)
    requires ExtractedUrls(cells).Ok?
    ensures u in ExtractedUrls(cells).value <==> exists k :: 0 <= k < |cells| && LinksTo(cells[k], u)
  {
    var entries := Filter(IsEntryCell, cells);
    var urls := MapAll(CellUrl, entries).value;
    assert ExtractedUrls(cells).value == urls;
    if u in urls {
      var j :| 0 <= j < |urls| && urls[j] == u;
      LinkFromEntry(cells, entries, j, u);
    }
    if exists k :: 0 <= k < |cells| && LinksTo(cells[k], u) {
      var k :| 0 <= k < |cells| && LinksTo(cells[k], u);
      EntryFromLink(cells, entries, k, u);
    }
  }

  lemma LinkFromEntry(cells: seq<ListCell>, entries: seq<ListCell>, j: int, u: string)
    requires entries == Filter(IsEntryCell, cells)
    requires 0 <= j < |entries| && CellUrl(entries[j]) == Ok(u)
    ensures exists k :: 0 <= k < |cells| && LinksTo(cells[k], u)
  {
    var k := FilterOrigin(IsEntryCell, cells, j);
    assert LinksTo(cells[k], u);
  }

  lemma EntryFromLink(cells: seq<ListCell>, entries: seq<ListCell>, k: int, u: string)
    requires entries == Filter(IsEntryCell, cells) && MapAll(CellUrl, entries).Ok?
    requires 0 <= k < |cells| && LinksTo(cells[k], u)
    ensures u in MapAll(CellUrl, entries).value
  {
    assert cells[k] in entries;
    var j :| 0 <= j < |entries| && entries[j] == cells[k];
    assert MapAll(CellUrl, entries).value[j] == u;
  }

  /** A URL is on the list exactly when some entry cell links to it. */
  lemma PokemonUrlsMembers(cells: seq<ListCell>, u: string)
    requires PokemonUrls(Some(cells)).Ok?
    ensures u in PokemonUrls(Some(cells)).value <==> exists k :: 0 <= k < |cells| && LinksTo(cells[k], u)
  {
    ExtractedUrlsMembers(cells, u);
    assert PokemonUrls(Some(cells)).value == Dedup(ExtractedUrls(cells).value);
  }

  /** The list keeps the order in which the URLs are first met on the page. */
  lemma PokemonUrlsFirstSeenOrder(cells: seq<ListCell>)
    requires PokemonUrls(Some(cells)).Ok?
    ensures var urls := PokemonUrls(Some(cells)).value; var all := ExtractedUrls(cells).value;
            forall i, j :: 0 <= i < j < |urls| ==> FirstIndex(all, urls[i]) < FirstIndex(all, urls[j])
  {
    DedupKeepsFirstSeenOrder(ExtractedUrls(cells).value);
  }

  /** An entry cell whose link is `<a href="path" ...` contributes the origin followed by `path`. */
  lemma HrefUrlOfLink(path: string, rest: string)
    requires '"' !in path
    ensures HrefUrl(Some("<a href=\"" + path + "\"" + rest)) == Ok(Origin + path)
  {
    assert "<a href=\"" + path + "\"" + rest == "<a href=" + ['"'] + path + ['"'] + rest;
    BetweenIs("<a href=", '"', path, rest);
  }

  // ---------------------------------------------------------------------------
  // The info panel of an entry page (Pokemon.set_*)

  /** A `span` inside a table cell of the info panel: `str(span)` and `str(span.find("img"))`'s node. */
  datatype IconSpan = IconSpan(markup: string, img: Option<string>)

  /** A `td` of the info panel: `str(td)` and its `find_all("span")`. */
  datatype PanelCell = PanelCell(markup: string, spans: seq<IconSpan>)

  /**
   * The info panel (`table` of class "right round innerround") as the queries see it:
   * `find("b")`, `find_all("span")`, `find("a", class_="image")`, `find_all("td")`, and
   * `find("a")` in each `span` of class "ic_icon".
   */
  datatype InfoPanel = InfoPanel(
    bold: Option<string>,
    spans: seq<string>,
    imageAnchor: Option<string>,
    cells: seq<PanelCell>,
    iconAnchors: seq<Option<string>>)

  /** `str(infopanel.find("b")).split(">")[1].split("<")[0]`. */
  function GermanName(bold: Option<string>): (r: Result<string>)
    ensures r.Ok? <==> '>' in Render(bold)
    ensures r.Ok? ==> r.value == TakeUntil(After(Render(bold), '>'), {'>', '<'})
    ensures r.Err? ==> r.error == IndexError
  {
    var b := Render(bold);
    SplitCharFields(b, '>');
    var parts := Split(b, ">");
    if |parts| < 2 then Err(IndexError)
    else
      SplitCharHead(parts[1], '<');
      TakeUntilTwice(After(b, '>'), {'>'}, {'<'});
      assert {'>'} + {'<'} == {'>', '<'};
      Ok(Split(parts[1], "<")[0])
  }

  /** The name of `<b>name</b>` is `name`. */
  lemma GermanNameOfBold(name: string)
    requires '<' !in name && '>' !in name
    ensures GermanName(Some("<b>" + name + "</b>")) == Ok(name)
  {
    var q := name + "</b>";
    assert "<b>" + name + "</b>" == "<b" + ['>'] + q;
    AfterIs("<b", '>', q);
    assert q[|name|] == '<';
    TakeUntilIs(q, {'>', '<'}, |name|);
    assert q[..|name|] == name;
  }

  /** The marker of the span holding the English name. */
  const FontMarker: string := "style=\"font-size:15px\">"

  predicate HasFontMarker(span: string) {
    Contains(span, FontMarker)
  }

  lemma FontMarkerHasGt(span: string)
    requires HasFontMarker(span)
    ensures '>' in span
  {
    var i := Find(span, FontMarker);
    assert span[i + |FontMarker| - 1] == span[i..i + |FontMarker|][|FontMarker| - 1];
  }

  /**
   * `set_english_name`: the text of the first marked span is cut out (`[0]` raises
   * IndexError when no span is marked) and then discarded; what is stored is
   * `str(infopanel.find_all('span'))`, the printed list of all spans.
   */
  function EnglishName(spans: seq<string>): (r: Result<string>)
    ensures r.Ok? <==> exists k :: 0 <= k < |spans| && HasFontMarker(spans[k])
    ensures r.Ok? ==> r.value == ListRepr(spans)
    ensures r.Err? ==> r.error == IndexError
  {
    var marked := Filter(HasFontMarker, spans);
    if marked == [] then Err(IndexError)
    else
      FontMarkerHasGt(marked[0]);
      SplitCharFields(marked[0], '>');
      var parts := Split(marked[0], ">");
      if |parts| < 2 then Err(IndexError)
      else
        var discarded := Split(parts[1], "<")[0];
        Ok(ListRepr(spans))
  }

  /** The attribute the artwork link is cut from. */
  const SrcMarker: string := "src="

  /** The text after the first `src=` of an anchor, up to the next `src=`. */
  function SrcValue(anchor: string): string
    requires Contains(anchor, SrcMarker)
  {
    Before(AfterFirst(anchor, SrcMarker), SrcMarker)
  }

  /** `origin + str(infopanel.find("a", class_="image")).split("src=")[1].split('"')[1]`. */
  function ImageUrl(anchor: Option<string>): (r: Result<string>)
    ensures r.Ok? <==> Contains(Render(anchor), SrcMarker) && '"' in SrcValue(Render(anchor))
    ensures r.Ok? ==> r.value == Origin + Between(SrcValue(Render(anchor)), '"')
    ensures r.Err? ==> r.error == IndexError
  {
    var a := Render(anchor);
    SplitFields(a, SrcMarker);
    var parts := Split(a, SrcMarker);
    if |parts| < 2 then Err(IndexError)
    else
      SplitCharFields(parts[1], '"');
      var quoted := Split(parts[1], "\"");
      if |quoted| < 2 then Err(IndexError) else Ok(Origin + quoted[1])
  }

  /** `src=` cannot overlap itself, so it cannot start just before another `src=`. */
  lemma SrcMarkerNotStraddling(p: string, q: string, j: int)
    requires 0 <= j && |p| - |SrcMarker| < j < |p|
    ensures !OccursAt(p + SrcMarker + q, SrcMarker, j)
  {
    var s := p + SrcMarker + q;
    var m := |p| - j;
    assert s[|p|] == 's';
    assert SrcMarker[m] != 's';
    assert s[j..j + |SrcMarker|][m] == s[|p|];
  }

  /** The first `src=` of `p + "src=" + q` is the one after `p` when `p` has none. */
  lemma FirstSrcMarker(p: string, q: string)
    requires !Contains(p, SrcMarker)
    ensures Contains(p + SrcMarker + q, SrcMarker)
    ensures AfterFirst(p + SrcMarker + q, SrcMarker) == q
  {
    var s := p + SrcMarker + q;
    forall j | 0 <= j < |p|
      ensures !OccursAt(s, SrcMarker, j)
    {
      if j <= |p| - |SrcMarker| {
        assert !OccursAt(p, SrcMarker, j);
        assert s[j..j + |SrcMarker|] == p[j..j + |SrcMarker|];
      } else {
        SrcMarkerNotStraddling(p, q, j);
      }
    }
    assert s[|p|..|p| + |SrcMarker|] == SrcMarker;
    assert OccursAt(s, SrcMarker, |p|);
    assert Find(s, SrcMarker) == |p|;
  }

  lemma SrcValueOf(p: string, q: string)
    requires !Contains(p, SrcMarker) && !Contains(q, SrcMarker)
    ensures Contains(p + SrcMarker + q, SrcMarker)
    ensures SrcValue(p + SrcMarker + q) == q
  {
    FirstSrcMarker(p, q);
  }

  lemma QuotedFirst(q: string, path: string, rest: string)
    requires '"' !in path && q == "\"" + path + "\"" + rest
    ensures '"' in q && Between(q, '"') == path
  {
    assert q == [] + ['"'] + path + ['"'] + rest;
    BetweenIs([], '"', path, rest);
  }

  lemma ImageUrlOfSrcValue(a: string, path: string)
    requires Contains(a, SrcMarker) && '"' in SrcValue(a) && Between(SrcValue(a), '"') == path
    ensures ImageUrl(Some(a)) == Ok(Origin + path)
  {
  }

  /** An artwork link `... src="path" ...` (with one `src=`) yields the origin followed by `path`. */
  lemma ImageUrlOfArtwork(p: string, path: string, rest: string)
    requires !Contains(p, SrcMarker)
    requires '"' !in path
    requires !Contains("\"" + path + "\"" + rest, SrcMarker)
    ensures ImageUrl(Some(p + SrcMarker + "\"" + path + "\"" + rest)) == Ok(Origin + path)
  {
    var q := "\"" + path + "\"" + rest;
    var a := p + SrcMarker + q;
    assert a == p + SrcMarker + "\"" + path + "\"" + rest;
    SrcValueOf(p, q);
    QuotedFirst(q, path, rest);
    ImageUrlOfSrcValue(a, path);
  }

  // ---------------------------------------------------------------------------
  // Type icons (Pokemon.set_type_urls) and type labels (Pokemon.set_types)

  /** The marker of a cell holding type icons. */
  const IconCellMarker: string := "class=\"ic_icon\""

  /** The marker of a span holding a type icon. */
  const IconSpanMarker: string := "class=\"ic_icon\">"

  predicate HasIconCellMarker(cell: PanelCell) {
    Contains(cell.markup, IconCellMarker)
  }

  predicate MentionsIcon(cell: PanelCell) {
    Contains(cell.markup, "ic_icon")
  }

  /** The second, looser filter of `set_type_urls` lets every already selected cell through. */
  lemma IconCellMentionsIcon(cell: PanelCell)
    requires HasIconCellMarker(cell)
    ensures MentionsIcon(cell)
  {
    assert IconCellMarker[7..7 + |"ic_icon"|] == "ic_icon";
    ContainsWithin(cell.markup, IconCellMarker, "ic_icon", 7);
  }

  /**
   * The spans of the first cell carrying the icon-cell marker, after both filters of
   * `set_type_urls`; `[0]` raises IndexError when no cell carries it.
   */
  function IconCellSpans(cells: seq<PanelCell>): (r: Result<seq<IconSpan>>)
    ensures r.Ok? <==> exists k :: 0 <= k < |cells| && HasIconCellMarker(cells[k])
    ensures r.Ok? ==> exists k :: 0 <= k < |cells| && HasIconCellMarker(cells[k]) && r.value == cells[k].spans &&
                                  forall j :: 0 <= j < k ==> !HasIconCellMarker(cells[j])
    ensures r.Err? ==> r.error == IndexError
  {
    var marked := Filter(HasIconCellMarker, cells);
    forall k | 0 <= k < |marked|
      ensures MentionsIcon(marked[k])
    {
      IconCellMentionsIcon(marked[k]);
    }
    FilterAll(MentionsIcon, marked);
    var target := Filter(MentionsIcon, marked);
    if target == [] then Err(IndexError)
    else
      var k := FirstMarkedCell(cells);
      FilterHead(HasIconCellMarker, cells, k);
      Ok(target[0].spans)
  }

  function FirstMarkedCell(cells: seq<PanelCell>): (k: nat)
    requires exists k :: 0 <= k < |cells| && HasIconCellMarker(cells[k])
    ensures k < |cells| && HasIconCellMarker(cells[k])
    ensures forall j :: 0 <= j < k ==> !HasIconCellMarker(cells[j])
  {
    if HasIconCellMarker(cells[0]) then 0
    else
      var k := FirstMarkedCell(cells[1..]);
      k + 1
  }

  /** The span that ends the icon list: a parenthesised remark that is not "(variab...". */
  predicate IsStop(span: IconSpan) {
    Contains(span.markup, "</span> (") && !Contains(span.markup, "</span> (variab")
  }

  /** The spans before the first stop span (all of them when there is none). */
  function Retained(spans: seq<IconSpan>): (r: seq<IconSpan>)
    ensures |r| <= |spans| && r == spans[..|r|]
    ensures forall k :: 0 <= k < |r| ==> !IsStop(spans[k])
    ensures |r| == |spans| || IsStop(spans[|r|])
  {
    if spans == [] || IsStop(spans[0]) then [] else [spans[0]] + Retained(spans[1..])
  }

  lemma RetainedIs(spans: seq<IconSpan>, n: nat)
    requires n <= |spans|
    requires forall k :: 0 <= k < n ==> !IsStop(spans[k])
    requires n == |spans| || IsStop(spans[n])
    ensures Retained(spans) == spans[..n]
  {
  }

  predicate IsIconSpan(span: IconSpan) {
    Contains(span.markup, IconSpanMarker)
  }

  /** `"https://www.pokewiki.de/" + str(span.find("img")).split(" ")[-2][5:-1]`. */
  function TypeIconUrl(img: Option<string>): (r: Result<string>)
    ensures r.Ok? <==> ' ' in Render(img)
    ensures r.Err? ==> r.error == IndexError
  {
    var parts := Split(Render(img), " ");
    SplitCharFields(Render(img), ' ');
    if |parts| < 2 then Err(IndexError) else Ok(IconOrigin + PySlice(parts[|parts| - 2], 5, -1))
  }

  /**
   * The URL of an image whose rendering holds a space: the field between its last two
   * spaces (everything before the last space when there is only one), without its
   * first five and its last character, after the icon origin.
   */
  lemma TypeIconUrlValue(img: Option<string>)
    requires ' ' in Render(img)
    ensures TypeIconUrl(img) == Ok(IconOrigin + PySlice(PenultimateField(Render(img), ' '), 5, -1))
  {
    SplitLastFields(Render(img), ' ');
  }

  function SpanIconUrl(span: IconSpan): Result<string> {
    TypeIconUrl(span.img)
  }

  /**
   * An icon `p src="path" last`, whose `src` attribute is the last attribute but one,
   * yields `path` after the icon origin.
   */
  lemma TypeIconUrlOfImg(p: string, path: string, last: string)
    requires ' ' !in path && ' ' !in last
    ensures TypeIconUrl(Some(p + " " + ("src=\"" + path + "\"") + " " + last)) == Ok(IconOrigin + path)
  {
    var token := "src=\"" + path + "\"";
    assert ' ' !in token;
    SplitLastTwo(p, token, last, ' ');
    assert PySlice(token, 5, -1) == path by {
      assert token[5..|token| - 1] == path;
    }
  }

  /** The type-icon URLs of the panel's icon cell, or the first exception on the way. */
  function TypeUrls(cells: seq<PanelCell>): (r: Result<seq<string>>)
    ensures r.Ok? ==> IconCellSpans(cells).Ok? && |r.value| <= |IconCellSpans(cells).value|
    ensures r.Err? ==> r.error == IndexError
  {
    var spans :- IconCellSpans(cells);
    MapAll(SpanIconUrl, Filter(IsIconSpan, Retained(spans)))
  }

  /**
   * `set_type_urls` succeeds exactly when the panel has an icon cell and every retained
   * icon span's image has a space in it, and then yields one URL per retained icon span,
   * in span order, so at most one per span of the icon cell.
   */
  lemma TypeUrlsOnePerIcon(cells: seq<PanelCell>)
    ensures var r := TypeUrls(cells); var spans := IconCellSpans(cells);
            r.Ok? <==> spans.Ok? && var icons := Filter(IsIconSpan, Retained(spans.value));
                                    forall k :: 0 <= k < |icons| ==> ' ' in Render(icons[k].img)
    ensures var r := TypeUrls(cells);
            r.Ok? ==> var spans := IconCellSpans(cells).value; var icons := Filter(IsIconSpan, Retained(spans));
                      |r.value| == |icons| <= |spans| &&
                      forall k :: 0 <= k < |icons| ==> TypeIconUrl(icons[k].img) == Ok(r.value[k])
  {
  }

  /** `str(span.find("a")).split('"')[1][1:]`: the link target without its leading slash. */
  function TypeLabel(anchor: Option<string>): (r: Result<string>)
    ensures r.Ok? <==> '"' in Render(anchor)
    ensures r.Ok? ==> var b := Between(Render(anchor), '"'); r.value == if b == [] then [] else b[1..]
    ensures r.Err? ==> r.error == IndexError
  {
    SplitCharFields(Render(anchor), '"');
    var parts := Split(Render(anchor), "\"");
    if |parts| < 2 then Err(IndexError)
    else
      DropFirst(parts[1]);
      Ok(PySlice(parts[1], 1, |parts[1]|))
  }

  /** `s[1:]` drops the first character, if any. */
  lemma DropFirst(s: string)
    ensures PySlice(s, 1, |s|) == if s == [] then [] else s[1..]
  {
  }

  /** The label of `<a href="/name"...` is `name`. */
  lemma TypeLabelOfLink(name: string, rest: string)
    requires '"' !in name
    ensures TypeLabel(Some("<a href=\"/" + name + "\"" + rest)) == Ok(name)
  {
    assert "<a href=\"/" + name + "\"" + rest == "<a href=" + ['"'] + ("/" + name) + ['"'] + rest;
    BetweenIs("<a href=", '"', "/" + name, rest);
    assert ("/" + name)[1..] == name;
  }

  /** One label per `ic_icon` span, in order and with repetitions, or the first exception. */
  function Types(anchors: seq<Option<string>>): (r: Result<seq<string>>)
    ensures r.Ok? <==> forall k :: 0 <= k < |anchors| ==> '"' in Render(anchors[k])
    ensures r.Ok? ==> |r.value| == |anchors| && forall k :: 0 <= k < |anchors| ==> Ok(r.value[k]) == TypeLabel(anchors[k])
    ensures r.Err? ==> r.error == IndexError
  {
    MapAll(TypeLabel, anchors)
  }

  // ---------------------------------------------------------------------------
  // All five extractors (Pokemon.set_infos)

  datatype Info = Info(
    germanName: string,
    englishName: string,
    imageUrl: string,
    typeUrls: seq<string>,
    types: seq<string>)

  /**
   * The five extractors in the order `set_infos` runs them; the first exception ends
   * the run. Without the info panel the first one raises AttributeError.
   */
  function Infos(panel: Option<InfoPanel>): (r: Result<Info>)
    ensures panel.None? ==> r == Err(AttributeError)
    ensures r.Ok? ==> panel.Some? && |r.value.types| == |panel.value.iconAnchors| &&
                      IconCellSpans(panel.value.cells).Ok? &&
                      |r.value.typeUrls| <= |IconCellSpans(panel.value.cells).value|
  {
    if panel.None? then Err(AttributeError)
    else
      var p := panel.value;
      var germanName :- GermanName(p.bold);
      var englishName :- EnglishName(p.spans);
      var imageUrl :- ImageUrl(p.imageAnchor);
      var typeUrls :- TypeUrls(p.cells);
      var types :- Types(p.iconAnchors);
      Ok(Info(germanName, englishName, imageUrl, typeUrls, types))
  }

  /**
   * The run succeeds exactly when the panel is there and each extractor succeeds, and
   * then holds the five results; without the panel it raises AttributeError.
   */
  lemma InfosOk(panel: Option<InfoPanel>)
    ensures var r := Infos(panel);
            (r.Ok? <==> panel.Some? && GermanName(panel.value.bold).Ok? && EnglishName(panel.value.spans).Ok? &&
                        ImageUrl(panel.value.imageAnchor).Ok? && TypeUrls(panel.value.cells).Ok? &&
                        Types(panel.value.iconAnchors).Ok?) &&
            (r.Ok? ==> r.value == Info(GermanName(panel.value.bold).value, EnglishName(panel.value.spans).value,
                                       ImageUrl(panel.value.imageAnchor).value, TypeUrls(panel.value.cells).value,
                                       Types(panel.value.iconAnchors).value)) &&
            (panel.None? ==> r == Err(AttributeError)) &&
            (panel.Some? && r.Err? ==> r.error == IndexError)
  {
  }
}
