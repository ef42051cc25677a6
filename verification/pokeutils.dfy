/**
 * The two classes of the poster creator. A `Pokemon` scrapes one entry page into its
 * fields, fetches its artwork and type icons, and composes them into one picture; a
 * `Pokedex` collects the entry URLs of an index page, builds one `Pokemon` per URL,
 * and lays the entries out on a poster grid.
 *
 * Everything that leaves the process is a field of a `World`: fetching and parsing a
 * page down to the query results the extractors use, fetching and decoding an image,
 * and joining paths.
 */
module PokeUtils {
  import opened Outcomes
  import opened PySeq
  import opened Markup
  import opened PosterGrid

  /** A decoded image, as the bytes of its content. */
  datatype Image = Image(content: seq<bv8>)

  datatype World = World(
    /** The `td` cells of the index page's content block, or None without that block. */
    indexContent: string -> Option<seq<ListCell>>,
    /** The info panel of an entry page, or None without one. */
    entryPage: string -> Option<InfoPanel>,
    /** The image behind a URL. */
    image: string -> Image,
    /** `os.path.join`. */
    joinPath: (string, string) -> string)

  /** The fields of a `Pokemon`. */
  datatype PokemonState = PokemonState(
    url: string,
    germanName: Option<string>,
    englishName: Option<string>,
    types: Option<seq<string>>,
    typeUrls: Option<seq<string>>,
    imageUrl: Option<string>,
    img: Option<Image>,
    typeImgs: seq<Image>,
    localImgPath: Option<string>)

  /** A freshly constructed entry, before anything is scraped. */
  function Initial(url: string): PokemonState {
    PokemonState(url, None, None, None, None, None, None, [], None)
  }

  /** The fields once all five extractors have succeeded. */
  function WithInfo(s: PokemonState, info: Info): PokemonState {
    s.(germanName := Some(info.germanName), englishName := Some(info.englishName),
       imageUrl := Some(info.imageUrl), typeUrls := Some(info.typeUrls), types := Some(info.types))
  }

  /**
   * The fields after `set_infos`, whether or not it raised: each extractor that
   * succeeds stores its result before the next one runs, and the two loops of
   * `set_type_urls` and `set_types` store what they have appended up to an exception.
   */
  function ScrapeInto(s: PokemonState, panel: Option<InfoPanel>): (r: PokemonState)
    ensures r.url == s.url && r.img == s.img && r.typeImgs == s.typeImgs && r.localImgPath == s.localImgPath
    ensures panel.None? ==> r == s
    ensures r.germanName == if panel.Some? && GermanName(panel.value.bold).Ok? then Some(GermanName(panel.value.bold).value)
                            else s.germanName
  {
    if panel.None? then s
    else
      var p := panel.value;
      var g := GermanName(p.bold);
      if g.Err? then s
      else
        var s1 := s.(germanName := Some(g.value));
        var e := EnglishName(p.spans);
        if e.Err? then s1
        else
          var s2 := s1.(englishName := Some(e.value));
          var i := ImageUrl(p.imageAnchor);
          if i.Err? then s2
          else
            var s3 := s2.(imageUrl := Some(i.value));
            var spans := IconCellSpans(p.cells);
            if spans.Err? then s3
            else
              var s4 := s3.(typeUrls := Some(MapUntilError(SpanIconUrl, Filter(IsIconSpan, Retained(spans.value)))));
              if TypeUrls(p.cells).Err? then s4
              else s4.(types := Some(MapUntilError(TypeLabel, p.iconAnchors)))
  }

  /** When no extractor raises, the staged writes of `set_infos` store exactly the five results. */
  lemma ScrapeIntoInfo(s: PokemonState, panel: Option<InfoPanel>)
    requires Infos(panel).Ok?
    ensures ScrapeInto(s, panel) == WithInfo(s, Infos(panel).value)
  {
    InfosOk(panel);
    var p := panel.value;
    var spans := IconCellSpans(p.cells).value;
    assert TypeUrls(p.cells).value == MapUntilError(SpanIconUrl, Filter(IsIconSpan, Retained(spans))) by {
      MapAllValue(SpanIconUrl, Filter(IsIconSpan, Retained(spans)));
    }
    assert Types(p.iconAnchors).value == MapUntilError(TypeLabel, p.iconAnchors) by {
      MapAllValue(TypeLabel, p.iconAnchors);
    }
  }

  /** The fields after `load_image` and `load_type_images`: one image per distinct type URL, in sorted order. */
  function Loaded(world: World, s: PokemonState): (r: PokemonState)
    requires s.imageUrl.Some? && s.typeUrls.Some?
    ensures r == s.(img := r.img, typeImgs := r.typeImgs)
    ensures r.img == Some(world.image(s.imageUrl.value))
    ensures |r.typeImgs| == |s.typeImgs| + |set u | u in s.typeUrls.value| && r.typeImgs[..|s.typeImgs|] == s.typeImgs
    ensures r.typeImgs[|s.typeImgs|..] == Map(world.image, SortedUnique(s.typeUrls.value))
  {
    UniqueCount(s.typeUrls.value);
    s.(img := Some(world.image(s.imageUrl.value)),
       typeImgs := s.typeImgs + Map(world.image, SortedUnique(s.typeUrls.value)))
  }

  /**
   * `merge_pokemon_and_type_imgs`: a grid with no row for type icons is refused
   * (ValueError), an absent artwork cannot be shown (TypeError), and `os.path.join`
   * of None raises TypeError; otherwise the composed picture's path is recorded.
   */
  function Merged(world: World, dir: Option<string>, s: PokemonState): (r: Result<PokemonState>)
    ensures r.Ok? <==> |s.typeImgs| > 0 && s.img.Some? && dir.Some? && s.germanName.Some?
    ensures r.Ok? ==> r.value == s.(localImgPath := Some(world.joinPath(dir.value, s.germanName.value) + ".png"))
    ensures r.Err? ==> r.error == if |s.typeImgs| == 0 then ValueError else TypeError
  {
    if |s.typeImgs| == 0 then Err(ValueError)
    else if s.img.None? then Err(TypeError)
    else if dir.None? || s.germanName.None? then Err(TypeError)
    else Ok(s.(localImgPath := Some(world.joinPath(dir.value, s.germanName.value) + ".png")))
  }

  /** One iteration of `fill_pokedex`: construct the entry, load its images, compose them. */
  function Process(world: World, dir: Option<string>, url: string): (r: Result<PokemonState>)
    ensures r.Ok? ==> r.value.url == url && r.value.img.Some? && r.value.localImgPath.Some?
  {
    var info :- Infos(world.entryPage(url));
    Merged(world, dir, Loaded(world, WithInfo(Initial(url), info)))
  }

  /**
   * An entry is kept exactly when its page scrapes, it has at least one type icon and
   * a directory is given. It then holds one type image per distinct icon URL and
   * the path `dir/germanName.png`. Otherwise it raises what the scraping raised, or
   * ValueError for an entry without type icons, or TypeError without a directory.
   */
  lemma ProcessOutcome(world: World, dir: Option<string>, url: string)
    ensures var info := Infos(world.entryPage(url));
            Process(world, dir, url).Ok? <==> info.Ok? && |info.value.typeUrls| > 0 && dir.Some?
    ensures var info := Infos(world.entryPage(url)); var r := Process(world, dir, url);
            r.Ok? ==> r.value.url == url && r.value.germanName == Some(info.value.germanName) &&
                      |r.value.typeImgs| == |set u | u in info.value.typeUrls| &&
                      r.value.typeImgs == Map(world.image, SortedUnique(info.value.typeUrls)) &&
                      r.value.localImgPath == Some(world.joinPath(dir.value, info.value.germanName) + ".png")
    ensures var info := Infos(world.entryPage(url)); var r := Process(world, dir, url);
            r.Err? ==> r.error == if info.Err? then info.error else if |info.value.typeUrls| == 0 then ValueError else TypeError
  {
    var info := Infos(world.entryPage(url));
    if info.Ok? {
      UniqueCount(info.value.typeUrls);
      var urls := info.value.typeUrls;
      if |urls| > 0 {
        assert urls[0] in SortedUnique(urls);
      }
    }
  }

  /** `Process` for a fixed world and save directory, as the loop over the URLs applies it. */
  function Processor(world: World, dir: Option<string>): string -> Result<PokemonState> {
    url => Process(world, dir, url)
  }

  /** The entries a run of `fill_pokedex` appends, and the exception that ended it, if one did. */
  datatype Filling = Filling(built: seq<PokemonState>, err: Option<PyError>)

  /** A run over the outcomes of processing the URLs one after the other; the first exception ends it. */
  function Run(outcomes: seq<Result<PokemonState>>): Filling {
    if outcomes == [] then Filling([], None)
    else
      var prev := Run(outcomes[..|outcomes| - 1]);
      if prev.err.Some? then prev
      else match outcomes[|outcomes| - 1]
        case Ok(s) => Filling(prev.built + [s], None)
        case Err(e) => Filling(prev.built, Some(e))
  }

  /** The run of `fill_pokedex` over `urls`. */
  function Fill(world: World, dir: Option<string>, urls: seq<string>): Filling {
    Run(Map(Processor(world, dir), urls))
  }

  /** One more outcome of a run that has not raised: it appends the entry, or it ends the run. */
  lemma RunStep(outcomes: seq<Result<PokemonState>>, i: nat)
    requires i < |outcomes| && Run(outcomes[..i]).err.None?
    ensures Run(outcomes[..i + 1]) == match outcomes[i]
              case Ok(s) => Filling(Run(outcomes[..i]).built + [s], None)
              case Err(e) => Filling(Run(outcomes[..i]).built, Some(e))
  {
    assert outcomes[..i + 1][..i] == outcomes[..i];
  }

  /** A run that has raised stays stopped, whatever outcomes would have followed. */
  lemma {:induction false} RunErrorStays(outcomes: seq<Result<PokemonState>>, k: nat)
    requires k <= |outcomes| && Run(outcomes[..k]).err.Some?
    ensures Run(outcomes) == Run(outcomes[..k])
  {
    if k < |outcomes| {
      var p := outcomes[..|outcomes| - 1];
      assert p[..k] == outcomes[..k];
      RunErrorStays(p, k);
    } else {
      assert outcomes[..k] == outcomes;
    }
  }

  /**
   * A run keeps outcome `k` exactly when the first `k + 1` outcomes are all entries; it
   * raises the exception of the first outcome that is one, and none when there is none.
   */
  lemma {:induction false} RunOutcome(outcomes: seq<Result<PokemonState>>)
    ensures var run := Run(outcomes);
            |run.built| <= |outcomes| &&
            (forall k :: 0 <= k < |run.built| ==> outcomes[k] == Ok(run.built[k])) &&
            (run.err.None? <==> forall k :: 0 <= k < |outcomes| ==> outcomes[k].Ok?) &&
            (run.err.None? ==> |run.built| == |outcomes|) &&
            (run.err.Some? ==> |run.built| < |outcomes| && outcomes[|run.built|] == Err(run.err.value))
  {
    if outcomes != [] {
      var n := |outcomes| - 1;
      var p := outcomes[..n];
      RunOutcome(p);
      var prev := Run(p);
      assert forall k :: 0 <= k < n ==> p[k] == outcomes[k];
      if prev.err.None? && outcomes[n].Ok? {
        var built := prev.built + [outcomes[n].value];
        assert Run(outcomes) == Filling(built, None);
        assert forall k :: 0 <= k < n ==> built[k] == prev.built[k];
      }
    }
  }

  /**
   * `fill_pokedex` keeps entry `k` exactly when the first `k + 1` URLs all process, and
   * entry `k` is then the processed `urls[k]`; it raises the exception of the first URL
   * that fails, and none when every URL processes.
   */
  lemma FillOutcome(world: World, dir: Option<string>, urls: seq<string>)
    ensures var run := Fill(world, dir, urls);
            |run.built| <= |urls| &&
            (forall k :: 0 <= k < |run.built| ==> Process(world, dir, urls[k]) == Ok(run.built[k])) &&
            (run.err.None? <==> forall k :: 0 <= k < |urls| ==> Process(world, dir, urls[k]).Ok?) &&
            (run.err.None? ==> |run.built| == |urls|) &&
            (run.err.Some? ==> |run.built| < |urls| && Process(world, dir, urls[|run.built|]) == Err(run.err.value))
  {
    RunOutcome(Map(Processor(world, dir), urls));
  }

  /** The fields of each of a list of entries. */
  function States(ps: seq<Pokemon>): (states: seq<PokemonState>)
    reads set k | 0 <= k < |ps| :: ps[k]
    ensures |states| == |ps|
  {
    if ps == [] then [] else States(ps[..|ps| - 1]) + [ps[|ps| - 1].State()]
  }

  /** Appending an entry appends its fields. */
  lemma StatesAppend(ps: seq<Pokemon>, p: Pokemon)
    ensures States(ps + [p]) == States(ps) + [p.State()]
  {
    assert (ps + [p])[..|ps|] == ps;
  }

  /** Renders the German names of a list of entries as an f-string does. */
  function GermanNames(ps: seq<Pokemon>): (names: seq<string>)
    reads set k | 0 <= k < |ps| :: ps[k]
    ensures |names| == |ps| && forall k :: 0 <= k < |ps| ==> names[k] == Render(ps[k].germanName)
  {
    if ps == [] then [] else [Render(ps[0].germanName)] + GermanNames(ps[1..])
  }

  class Pokemon {
    const url: string
    var germanName: Option<string>
    var englishName: Option<string>
    var types: Option<seq<string>>
    var typeUrls: Option<seq<string>>
    var imageUrl: Option<string>
    var img: Option<Image>
    var typeImgs: seq<Image>
    var localImgPath: Option<string>

    function State(): PokemonState
      reads this
    {
      PokemonState(url, germanName, englishName, types, typeUrls, imageUrl, img, typeImgs, localImgPath)
    }

    /** Stores the given fields; the scraping that follows construction is `Create`. */
    constructor(url: string, germanName: Option<string>, englishName: Option<string>, types: Option<seq<string>>,
                typeUrls: Option<seq<string>>, imageUrl: Option<string>)
      ensures State() == PokemonState(url, germanName, englishName, types, typeUrls, imageUrl, None, [], None)
    {
      this.url := url;
      this.germanName := germanName;
      this.englishName := englishName;
      this.types := types;
      this.typeUrls := typeUrls;
      this.imageUrl := imageUrl;
      this.img := None;
      this.typeImgs := [];
      this.localImgPath := None;
    }

    /** `Pokemon(url)`: construction followed by `set_infos`. */
    static method Create(world: World, url: string) returns (p: Pokemon, err: Option<PyError>)
      ensures fresh(p)
      ensures err == Infos(world.entryPage(url)).Failure()
      ensures err.None? ==> p.State() == WithInfo(Initial(url), Infos(world.entryPage(url)).value)
    {
      p := new Pokemon(url, None, None, None, None, None);
      err := p.SetInfos(world);
      if err.None? {
        ScrapeIntoInfo(Initial(url), world.entryPage(url));
      }
    }

    method SetGermanName(panel: InfoPanel) returns (r: Result<string>)
      modifies this
      ensures r == GermanName(panel.bold)
      ensures State() == if r.Ok? then old(State()).(germanName := Some(r.value)) else old(State())
    {
      r := GermanName(panel.bold);
      if r.Ok? {
        germanName := Some(r.value);
      }
    }

    method SetEnglishName(panel: InfoPanel) returns (r: Result<string>)
      modifies this
      ensures r == EnglishName(panel.spans)
      ensures State() == if r.Ok? then old(State()).(englishName := Some(r.value)) else old(State())
    {
      r := EnglishName(panel.spans);
      if r.Ok? {
        englishName := Some(r.value);
      }
    }

    method SetImg(panel: InfoPanel) returns (r: Result<string>)
      modifies this
      ensures r == ImageUrl(panel.imageAnchor)
      ensures State() == if r.Ok? then old(State()).(imageUrl := Some(r.value)) else old(State())
    {
      r := ImageUrl(panel.imageAnchor);
      if r.Ok? {
        imageUrl := Some(r.value);
      }
    }

    /**
     * Scans the spans of the icon cell up to the first stop span, keeps the icon
     * spans among them, and appends one URL per icon span to a fresh list.
     */
    method SetTypeUrls(panel: InfoPanel) returns (r: Result<seq<string>>)
      modifies this
      ensures r == TypeUrls(panel.cells)
      ensures State() == match IconCellSpans(panel.cells)
                         case Err(_) => old(State())
                         case Ok(spans) =>
                           old(State()).(typeUrls := Some(MapUntilError(SpanIconUrl, Filter(IsIconSpan, Retained(spans)))))
    {
      var found := IconCellSpans(panel.cells);
      if found.Err? {
        return Err(found.error);
      }
      var relevant := RelevantSpans(found.value);
      relevant := Filter(IsIconSpan, relevant);
      typeUrls := Some([]);
      var j := 0;
      while j < |relevant|
        invariant 0 <= j <= |relevant|
        invariant typeUrls == Some(MapUntilError(SpanIconUrl, relevant[..j])) && |typeUrls.value| == j
        invariant State() == old(State()).(typeUrls := typeUrls)
      {
        var u := TypeIconUrl(relevant[j].img);
        if u.Err? {
          MapUntilErrorExtend(SpanIconUrl, relevant, j);
          return Err(u.error);
        }
        assert MapUntilError(SpanIconUrl, relevant[..j + 1]) == typeUrls.value + [u.value] by {
          MapUntilErrorExtend(SpanIconUrl, relevant, j);
        }
        typeUrls := Some(typeUrls.value + [u.value]);
        j := j + 1;
      }
      assert TypeUrls(panel.cells) == Ok(typeUrls.value) by {
        assert relevant[..j] == relevant;
      }
      r := Ok(typeUrls.value);
    }

    /** The spans of the icon cell up to, and not including, the first stop span. */
    static method RelevantSpans(targetSpans: seq<IconSpan>) returns (relevant: seq<IconSpan>)
      ensures relevant == Retained(targetSpans)
    {
      relevant := [];
      var i := 0;
      while i < |targetSpans|
        invariant 0 <= i <= |targetSpans| && relevant == targetSpans[..i]
        invariant forall k :: 0 <= k < i ==> !IsStop(targetSpans[k])
      {
        if IsStop(targetSpans[i]) {
          break;
        }
        relevant := relevant + [targetSpans[i]];
        i := i + 1;
      }
      RetainedIs(targetSpans, i);
    }

    /** Appends one label per `ic_icon` span to a fresh list. */
    method SetTypes(panel: InfoPanel) returns (r: Result<seq<string>>)
      modifies this
      ensures r == Types(panel.iconAnchors)
      ensures State() == old(State()).(types := Some(MapUntilError(TypeLabel, panel.iconAnchors)))
    {
      var typeSpans := panel.iconAnchors;
      types := Some([]);
      var j := 0;
      while j < |typeSpans|
        invariant 0 <= j <= |typeSpans|
        invariant types == Some(MapUntilError(TypeLabel, typeSpans[..j])) && |types.value| == j
        invariant State() == old(State()).(types := types)
      {
        var typeLabel := TypeLabel(typeSpans[j]);
        if typeLabel.Err? {
          MapUntilErrorExtend(TypeLabel, typeSpans, j);
          return Err(typeLabel.error);
        }
        MapUntilErrorExtend(TypeLabel, typeSpans, j);
        types := Some(types.value + [typeLabel.value]);
        j := j + 1;
      }
      assert typeSpans[..j] == typeSpans;
      r := MapAll(TypeLabel, typeSpans);
    }

    /** Fetches the entry page and runs the five extractors in order; the first exception ends the run. */
    method SetInfos(world: World) returns (err: Option<PyError>)
      modifies this
      ensures err == Infos(world.entryPage(url)).Failure()
      ensures State() == ScrapeInto(old(State()), world.entryPage(url))
    {
      var infopanel := world.entryPage(url);
      if infopanel.None? {
        return Some(AttributeError);
      }
      var panel := infopanel.value;
      var g := SetGermanName(panel);
      if g.Err? {
        return Some(g.error);
      }
      var e := SetEnglishName(panel);
      if e.Err? {
        return Some(e.error);
      }
      var i := SetImg(panel);
      if i.Err? {
        return Some(i.error);
      }
      var u := SetTypeUrls(panel);
      if u.Err? {
        return Some(u.error);
      }
      var t := SetTypes(panel);
      if t.Err? {
        return Some(t.error);
      }
      err := None;
    }

    method LoadImage(world: World) returns (image: Image)
      requires imageUrl.Some?
      modifies this
      ensures image == world.image(old(imageUrl).value)
      ensures State() == old(State()).(img := Some(image))
    {
      image := world.image(imageUrl.value);
      img := Some(image);
    }

    /** Fetches each distinct type URL once, in sorted order, appending the images. */
    method LoadTypeImages(world: World) returns (images: seq<Image>)
      requires typeUrls.Some?
      modifies this
      ensures images == typeImgs
      ensures State() == old(State()).(typeImgs := old(typeImgs) + Map(world.image, SortedUnique(old(typeUrls).value)))
    {
      var unique := SortedUnique(typeUrls.value);
      var i := 0;
      while i < |unique|
        invariant 0 <= i <= |unique|
        invariant |typeImgs| == |old(typeImgs)| + i && typeImgs[..|old(typeImgs)|] == old(typeImgs)
        invariant forall k :: 0 <= k < i ==> typeImgs[|old(typeImgs)| + k] == world.image(unique[k])
        invariant State() == old(State()).(typeImgs := typeImgs)
      {
        var typeImg := world.image(unique[i]);
        typeImgs := typeImgs + [typeImg];
        i := i + 1;
      }
      assert typeImgs == old(typeImgs) + Map(world.image, unique);
      images := typeImgs;
    }

    /** The body of the loop of `fill_pokedex` for one URL, up to the append. */
    static method Build(world: World, dir: Option<string>, url: string, ghost process: string -> Result<PokemonState>)
      returns (p: Pokemon, err: Option<PyError>)
      requires forall u {:trigger Process(world, dir, u)} :: process(u) == Process(world, dir, u)
      ensures fresh(p)
      ensures err == process(url).Failure()
      ensures err.None? ==> process(url) == Ok(p.State())
    {
      assert process(url) == Process(world, dir, url);
      p, err := Create(world, url);
      if err.Some? {
        return;
      }
      var image := p.LoadImage(world);
      var typeImages := p.LoadTypeImages(world);
      err := p.MergePokemonAndTypeImgs(world, dir);
    }

    method MergePokemonAndTypeImgs(world: World, localPokemonImgPath: Option<string>) returns (err: Option<PyError>)
      modifies this
      ensures err == Merged(world, localPokemonImgPath, old(State())).Failure()
      ensures State() == if err.None? then Merged(world, localPokemonImgPath, old(State())).value else old(State())
    {
      if |typeImgs| == 0 {
        return Some(ValueError);
      }
      if img.None? {
        return Some(TypeError);
      }
      if localPokemonImgPath.None? || germanName.None? {
        return Some(TypeError);
      }
      localImgPath := Some(world.joinPath(localPokemonImgPath.value, germanName.value) + ".png");
      err := None;
    }
  }

  class Pokedex {
    const pokewikiPokedexUrl: string
    var urls: Option<seq<string>>
    var pokemons: seq<Pokemon>
    var numPokemons: Option<int>
    var savePath: Option<string>

    /** Stores the given fields; a missing or empty entry list becomes a new empty one. */
    constructor(pokewikiPokedexUrl: string, urls: Option<seq<string>>, pokemons: Option<seq<Pokemon>>,
                numPokemons: Option<int>, savePath: Option<string>)
      ensures this.pokewikiPokedexUrl == pokewikiPokedexUrl && this.urls == urls
      ensures this.pokemons == (if pokemons.Some? && |pokemons.value| > 0 then pokemons.value else [])
      ensures this.numPokemons == numPokemons && this.savePath == savePath
    {
      this.pokewikiPokedexUrl := pokewikiPokedexUrl;
      this.urls := urls;
      this.pokemons := if pokemons.Some? && |pokemons.value| > 0 then pokemons.value else [];
      this.numPokemons := numPokemons;
      this.savePath := savePath;
    }

    /** The German names of the entries, as the poster captions print them. */
    function Names(): seq<string>
      reads this, set k | 0 <= k < |pokemons| :: pokemons[k]
    {
      GermanNames(pokemons)
    }

    /** `Pokedex(...)`: construction followed by `get_pokemon_urls` and `fill_pokedex`. */
    static method Create(world: World, pokewikiPokedexUrl: string, urls: Option<seq<string>>,
                         pokemons: Option<seq<Pokemon>>, numPokemons: Option<int>, savePath: Option<string>)
      returns (d: Pokedex, err: Option<PyError>)
      ensures fresh(d)
      ensures PokemonUrls(world.indexContent(pokewikiPokedexUrl)).Err? ==>
                err == PokemonUrls(world.indexContent(pokewikiPokedexUrl)).Failure()
      ensures err.None? ==> d.urls == Some(PokemonUrls(world.indexContent(pokewikiPokedexUrl)).value) &&
                            d.numPokemons == Some(|d.pokemons|)
    {
      d := new Pokedex(pokewikiPokedexUrl, urls, pokemons, numPokemons, savePath);
      err := d.GetPokemonUrls(world);
      if err.Some? {
        return;
      }
      err := d.FillPokedex(world);
    }

    /** Collects the entry URLs of the index page, without duplicates, in first-seen order. */
    method GetPokemonUrls(world: World) returns (err: Option<PyError>)
      modifies this
      ensures err == PokemonUrls(world.indexContent(pokewikiPokedexUrl)).Failure()
      ensures urls == if err.None? then Some(PokemonUrls(world.indexContent(pokewikiPokedexUrl)).value) else old(urls)
      ensures pokemons == old(pokemons) && numPokemons == old(numPokemons) && savePath == old(savePath)
    {
      var content := world.indexContent(pokewikiPokedexUrl);
      var found := PokemonUrls(content);
      if found.Err? {
        return Some(found.error);
      }
      urls := Some(found.value);
      err := None;
    }

    /**
     * Builds one entry per URL, in URL order, after the entries already held, and then
     * records the number of entries. The first exception ends the run: the entries
     * built before it stay appended and the count is not recorded.
     */
    method FillPokedex(world: World) returns (err: Option<PyError>)
      modifies this
      ensures urls == old(urls) && savePath == old(savePath)
      ensures old(urls).None? ==> err == Some(TypeError) && pokemons == old(pokemons) && numPokemons == old(numPokemons)
      ensures old(urls).Some? ==>
                var run := Fill(world, savePath, old(urls).value);
                |old(pokemons)| <= |pokemons| && pokemons[..|old(pokemons)|] == old(pokemons) &&
                States(pokemons[|old(pokemons)|..]) == run.built && err == run.err &&
                numPokemons == if err.None? then Some(|pokemons|) else old(numPokemons)
    {
      if urls.None? {
        return Some(TypeError);
      }
      var added;
      added, err := BuildEntries(world, savePath, urls.value, Processor(world, savePath));
      pokemons := pokemons + added;
      assert pokemons[|old(pokemons)|..] == added;
      if err.None? {
        numPokemons := Some(|pokemons|);
      }
    }

    /**
     * The loop of `fill_pokedex`: one entry per URL, in URL order, until the first
     * exception; the entries built before it are kept.
     */
    static method BuildEntries(world: World, dir: Option<string>, urls: seq<string>, ghost process: string -> Result<PokemonState>)
      returns (added: seq<Pokemon>, err: Option<PyError>)
      requires forall u {:trigger Process(world, dir, u)} :: process(u) == Process(world, dir, u)
      ensures States(added) == Run(Map(process, urls)).built && err == Run(Map(process, urls)).err
    {
      ghost var outcomes := Map(process, urls);
      added := [];
      var i := 0;
      while i < |urls|
        invariant 0 <= i <= |urls|
        invariant Run(outcomes[..i]) == Filling(States(added), None)
      {
        var pokemon, e := Pokemon.Build(world, dir, urls[i], process);
        RunStep(outcomes, i);
        if e.Some? {
          RunErrorStays(outcomes, i + 1);
          return added, e;
        }
        StatesAppend(added, pokemon);
        added := added + [pokemon];
        i := i + 1;
      }
      assert outcomes[..i] == outcomes;
      err := None;
    }

    /**
     * The cells of the poster, walked row by row; raises as `make_poster` does on a
     * grid `plt.subplots` cannot index and on an entry it cannot find.
     */
    method MakePoster(rows: int, cols: int, gridOffset: int) returns (r: Result<seq<Cell>>)
      ensures r == Poster(rows, cols, CellsOf(gridOffset, numPokemons, Names()))
    {
      r := DrawCells(rows, cols, gridOffset, numPokemons, Names(), CellsOf(gridOffset, numPokemons, Names()));
    }

    /** The outer loop of `make_poster`, over the rows of the grid, whose cell `i` is `grid(i)`. */
    static method DrawCells(rows: int, cols: int, gridOffset: int, numPokemons: Option<int>, names: seq<string>,
                            ghost grid: int -> Result<Cell>)
      returns (r: Result<seq<Cell>>)
      requires forall i {:trigger CellAt(i, gridOffset, numPokemons, names)} :: grid(i) == CellAt(i, gridOffset, numPokemons, names)
      ensures r == Poster(rows, cols, grid)
    {
      if rows <= 0 || cols <= 0 {
        return Err(ValueError);
      }
      var cells: seq<Cell> := [];
      var row := 0;
      var start := 0;
      while row < rows
        invariant 0 <= row <= rows && start == row * cols && 0 <= start
        invariant Walk(start, grid) == Ok(cells)
        invariant AxesError(rows, cols).Some? ==> start == 0
      {
        var raised;
        cells, raised := DrawRow(rows, cols, row, start, gridOffset, numPokemons, names, cells, grid);
        if raised.Some? {
          return Err(raised.value);
        }
        RowMajorIndex(row, 0, rows, cols);
        row := row + 1;
        start := start + cols;
      }
      r := Ok(cells);
    }

    /**
     * The inner loop of `make_poster`, over the columns of row `row`, whose first cell
     * is cell `start`: it appends the row's cells to `drawn`, or stops with the
     * exception the poster raises there.
     */
    static method DrawRow(rows: int, cols: int, row: int, start: nat, gridOffset: int, numPokemons: Option<int>,
                          names: seq<string>, drawn: seq<Cell>, ghost grid: int -> Result<Cell>)
      returns (cells: seq<Cell>, raised: Option<PyError>)
      requires forall i {:trigger CellAt(i, gridOffset, numPokemons, names)} :: grid(i) == CellAt(i, gridOffset, numPokemons, names)
      requires 0 <= row < rows && cols > 0 && start == row * cols
      requires Walk(start, grid) == Ok(drawn)
      requires AxesError(rows, cols).Some? ==> start == 0
      ensures raised.Some? ==> Poster(rows, cols, grid) == Err(raised.value)
      ensures raised.None? ==> AxesError(rows, cols).None? && Walk(start + cols, grid) == Ok(cells)
    {
      cells := drawn;
      var column := 0;
      while column < cols
        invariant 0 <= column <= cols
        invariant Walk(start + column, grid) == Ok(cells)
        invariant AxesError(rows, cols).Some? ==> start + column == 0
      {
        RowMajorIndex(row, column, rows, cols);
        var i := start + column;
        var cell := CellAt(i, gridOffset, numPokemons, names);
        if cell.Err? {
          PosterStopsAt(rows, cols, grid, i);
          return cells, Some(cell.error);
        }
        if AxesError(rows, cols).Some? {
          SqueezedPoster(rows, cols, grid);
          return cells, AxesError(rows, cols);
        }
        WalkStep(i, grid);
        cells := cells + [cell.value];
        column := column + 1;
      }
      raised := None;
    }
  }
}
