/** Resource locations of the remote Pokémon API that the pages request. */
module Api {
  const PokemonEndpoint := "https://pokeapi.co/api/v2/pokemon/"
  const GenerationEndpoint := "https://pokeapi.co/api/v2/generation/"
}

/** The details page: which resource it requests for the name in the route,
    the record it builds from the reply, the displayed Pokédex number, and
    the page state a load leaves behind. */
module PokemonDetails {
  import opened Wrappers
  import opened Strings
  import opened Decimal
  import opened TextFormat
  import Api

  const DetailsError := "Failed to load Pokémon details!"

  /** The resource key requested for the route's name: lower-cased, with the
      bare `deoxys` replaced by its `deoxys-normal` form. */
  function FetchKey(name: string): (key: string)
    ensures LowerAll(name) == "deoxys" ==> key == "deoxys-normal"
    ensures LowerAll(name) != "deoxys" ==> key == LowerAll(name)
    ensures key != "deoxys"
    ensures forall i :: 0 <= i < |key| ==> !IsUpper(key[i])
  {
    var lower := LowerAll(name);
    if lower == "deoxys" then "deoxys-normal" else lower
  }

  /** The one request a load issues. */
  function DetailsRequest(name: string): (url: string)
  {
    Api.PokemonEndpoint + FetchKey(name)
  }

  /** One entry of the reply's `stats` list. */
  datatype StatEntry = StatEntry(statName: string, baseStat: int)

  /** The parts of the JSON reply the page reads. The artwork fields may be
      `null` in the reply, hence `Option`. */
  datatype Payload = Payload(
    name: string,
    abilityNames: seq<string>,
    artwork: Option<string>,
    shinyArtwork: Option<string>,
    gameNames: seq<string>,
    typeNames: seq<string>,
    stats: seq<StatEntry>,
    id: nat,
    height: int,
    weight: int)

  datatype Stat = Stat(name: string, baseStat: int)

  /** The record the page keeps in its `pokemon` state. */
  datatype Details = Details(
    name: string,
    abilities: string,
    image: Option<string>,
    hoverImage: Option<string>,
    games: string,
    types: string,
    stats: seq<Stat>,
    pokedexId: nat,
    height: int,
    weight: int)

  function FormatAll(names: seq<string>): (labels: seq<string>)
    ensures |labels| == |names|
    ensures forall i :: 0 <= i < |names| ==> labels[i] == FormatText(names[i])
  {
    if names == [] then [] else [FormatText(names[0])] + FormatAll(names[1..])
  }

  /** A list field of the record: the formatted entries joined by `", "`. */
  function ListText(names: seq<string>): (text: string)
  {
    Join(FormatAll(names), ", ")
  }

  function FormatStats(stats: seq<StatEntry>): (r: seq<Stat>)
    ensures |r| == |stats|
    ensures forall i :: 0 <= i < |stats| ==>
      r[i].name == FormatText(stats[i].statName) && r[i].baseStat == stats[i].baseStat
  {
    if stats == [] then [] else [Stat(FormatText(stats[0].statName), stats[0].baseStat)] + FormatStats(stats[1..])
  }

  /** The record built from a reply. */
  function BuildDetails(p: Payload): (d: Details)
    ensures d.name == FormatText(p.name)
    ensures d.abilities == ListText(p.abilityNames)
    ensures d.games == ListText(p.gameNames)
    ensures d.types == ListText(p.typeNames)
    ensures d.image == p.artwork && d.hoverImage == p.shinyArtwork
    ensures |d.stats| == |p.stats|
    ensures forall i :: 0 <= i < |p.stats| ==>
      d.stats[i] == Stat(FormatText(p.stats[i].statName), p.stats[i].baseStat)
    ensures d.pokedexId == p.id && d.height == p.height && d.weight == p.weight
  {
    Details(
      FormatText(p.name),
      ListText(p.abilityNames),
      p.artwork,
      p.shinyArtwork,
      ListText(p.gameNames),
      ListText(p.typeNames),
      FormatStats(p.stats),
      p.id,
      p.height,
      p.weight)
  }

  lemma FormatTextKeepsCommaFree(name: string)
    requires ',' !in name
    ensures ',' !in FormatText(name)
  {
    FormatTextChars(name);
    var shown := FormatText(name);
    forall i | 0 <= i < |shown| ensures shown[i] != ',' {
      assert shown[i] == LabelChar(name, i);
    }
  }

  /** A list field holds one entry per source entry, in source order: splitting
      it on `", "` (as the display does) gives back the formatted entries when
      the source names contain no comma; an empty list becomes `""`. */
  lemma ListTextEntries(names: seq<string>)
    ensures names == [] ==> ListText(names) == ""
    ensures |names| > 0 && (forall n <- names :: ',' !in n) ==>
      Split(ListText(names), ", ") == FormatAll(names) &&
      |Split(ListText(names), ", ")| == |names|
  {
    if |names| > 0 && (forall n <- names :: ',' !in n) {
      var labels := FormatAll(names);
      forall w <- labels ensures ',' !in w {
        var i :| 0 <= i < |labels| && labels[i] == w;
        FormatTextKeepsCommaFree(names[i]);
      }
      SplitJoin(labels, ", ");
    }
  }

  /** The displayed number: `#` and the id left-padded with `'0'` to four digits. */
  function DisplayId(id: nat): (shown: string)
  {
    "#" + PadStart(NatToString(id), 4, '0')
  }

  /** The displayed number is `#`, then zeros, then the id's own digits; it is
      `1 + max(4, digits)` long, and reading its digits back gives the id. */
  lemma DisplayIdShape(id: nat)
    ensures var d := DisplayId(id);
      var digits := NatToString(id);
      d[0] == '#' &&
      |d| == 1 + (if |digits| >= 4 then |digits| else 4) &&
      d[1..] == Repeat('0', |d| - 1 - |digits|) + digits &&
      AllDigits(d[1..]) && DecimalValue(d[1..]) == id
  {
    var digits := NatToString(id);
    var zeros := Repeat('0', |PadStart(digits, 4, '0')| - |digits|);
    assert DisplayId(id)[1..] == zeros + digits;
    NatToStringRoundTrip(id);
    LeadingZerosIgnored(zeros, digits);
  }

  /** What the page holds after a load (the React state the effect sets). */
  datatype DetailsState = DetailsState(
    loading: bool,
    error: Option<string>,
    pokemon: Option<Details>,
    currentImage: Option<string>)

  /** What the page renders for a state: loading text first, then the error,
      then the record. */
  datatype Screen = LoadingScreen | ErrorScreen(message: string) | DetailsScreen(details: Details)

  function Render(s: DetailsState): (screen: Screen)
    requires s.loading || s.error.Some? || s.pokemon.Some?
  {
    if s.loading then LoadingScreen
    else if s.error.Some? then ErrorScreen(s.error.value)
    else DetailsScreen(s.pokemon.value)
  }

  /** What one load leaves behind: the new page state and the request it issued. */
  datatype DetailsLoad = DetailsLoad(state: DetailsState, request: string)

  /** A load for the route's `name`, as the source writes it: `reply` is the
      parsed reply to the request, or `None` when the request or its parsing
      threw. The error from an earlier load is never cleared. */
  function LoadDetailsAsWritten(prior: DetailsState, name: string, reply: Option<Payload>): (l: DetailsLoad)
    ensures l.request == DetailsRequest(name)
    ensures !l.state.loading
    ensures reply.None? ==> l.state == prior.(loading := false, error := Some(DetailsError))
    ensures reply.Some? ==>
      l.state == prior.(loading := false, pokemon := Some(BuildDetails(reply.value)),
                        currentImage := reply.value.artwork)
  {
    var state := match reply
      case None => prior.(loading := false, error := Some(DetailsError))
      case Some(p) =>
        prior.(loading := false, pokemon := Some(BuildDetails(p)), currentImage := p.artwork);
    DetailsLoad(state, DetailsRequest(name))
  }

  /** The as-written load hides a successful reply behind an earlier failure. */
  lemma StaleErrorHidesDetails(prior: DetailsState, name: string, p: Payload)
    requires prior.error.Some?
    ensures Render(LoadDetailsAsWritten(prior, name, Some(p)).state) == ErrorScreen(prior.error.value)
  {
  }

  /** A load with the error reset at its start, as the region page does. */
  function LoadDetails(prior: DetailsState, name: string, reply: Option<Payload>): (l: DetailsLoad)
    ensures l.request == DetailsRequest(name)
    ensures !l.state.loading
    ensures reply.None? ==>
      l.state == prior.(loading := false, error := Some(DetailsError)) &&
      Render(l.state) == ErrorScreen(DetailsError)
    ensures reply.Some? ==>
      l.state == prior.(loading := false, error := None, pokemon := Some(BuildDetails(reply.value)),
                        currentImage := reply.value.artwork) &&
      Render(l.state) == DetailsScreen(BuildDetails(reply.value))
  {
    LoadDetailsAsWritten(prior.(error := None), name, reply)
  }
}
