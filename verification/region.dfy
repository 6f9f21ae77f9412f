/** The region page: from the region name in the route to the sorted roster
    of the region's species.

    The network is not modelled. The reply to the generation request and the
    outcome of every per-species request are inputs: `Promise.all` keeps the
    species order whatever the completion order, so the roster is a function
    of the per-species outcomes listed in discovery order. */
module Region {
  import opened Wrappers
  import opened Strings
  import opened Decimal
  import opened Roster
  import Api
  import PokemonDetails

  const InvalidRegionError := "Invalid region name."
  const RegionLoadError := "Failed to load Pokémon data."

  /** `regionToGenerationMap`. */
  const RegionToGeneration: map<string, nat> := map[
    "kanto" := 1, "johto" := 2, "hoenn" := 3, "sinnoh" := 4, "unova" := 5,
    "kalos" := 6, "alola" := 7, "galar" := 8, "paldea" := 9]

  /** The regions in generation order, as the navigation bar lists them. */
  const NavbarRegions: seq<string> :=
    ["Kanto", "Johto", "Hoenn", "Sinnoh", "Unova", "Kalos", "Alola", "Galar", "Paldea"]

  /** The property names a plain JavaScript object inherits from
      `Object.prototype` that are written in lower case. The other inherited
      names (`hasOwnProperty`, `toString`, ...) contain upper-case letters,
      so no lower-cased route name can reach them. */
  const ObjectPrototypeKeys: set<string> := {"constructor", "__proto__"}

  /** What `regionToGenerationMap[key]` yields in JavaScript. */
  datatype PropertyValue = Undefined | Number(n: nat) | Inherited(key: string)

  predicate Truthy(v: PropertyValue)
  {
    match v
    case Undefined => false
    case Number(n) => n != 0
    case Inherited(_) => true
  }

  /** The lookup as written: an indexing of a plain object, so an inherited
      member answers too. */
  function LookupAsWritten(regionName: string): (v: PropertyValue)
  {
    var key := LowerAll(regionName);
    if key in RegionToGeneration then Number(RegionToGeneration[key])
    else if key in ObjectPrototypeKeys then Inherited(key)
    else Undefined
  }

  /** The keys of `regionToGenerationMap`, in generation order. */
  const RegionNames: seq<string> :=
    ["kanto", "johto", "hoenn", "sinnoh", "unova", "kalos", "alola", "galar", "paldea"]

  /** The lookup as intended: only the nine regions, case-insensitively. */
  function Generation(regionName: string): (g: Option<nat>)
  {
    var key := LowerAll(regionName);
    if key in RegionToGeneration then Some(RegionToGeneration[key]) else None
  }

  /** Lower-casing a word without upper-case letters changes nothing. */
  lemma LowerOfLowercase(w: string)
    requires forall j :: 0 <= j < |w| ==> !IsUpper(w[j])
    ensures LowerAll(w) == w
  {
  }

  /** Only the nine region names resolve, each to its position in the list. */
  lemma GenerationOnlyRegions(regionName: string)
    ensures Generation(regionName).Some? ==>
      var g := Generation(regionName).value;
      1 <= g <= |RegionNames| && RegionNames[g - 1] == LowerAll(regionName)
  {
  }

  /** The table maps the `i`-th region to generation `i + 1`. */
  lemma RegionTable(i: nat)
    requires i < |RegionNames|
    ensures Generation(RegionNames[i]) == Some(i + 1)
  {
    LowerOfLowercase(RegionNames[i]);
    assert RegionNames[i] in RegionToGeneration && RegionToGeneration[RegionNames[i]] == i + 1;
  }

  /** Lower-casing a capitalised word changes only its first character. */
  lemma LowerCapitalized(w: string)
    requires |w| > 0 && forall j :: 1 <= j < |w| ==> !IsUpper(w[j])
    ensures LowerAll(w) == [ToLower(w[0])] + w[1..]
  {
  }

  /** The lookup ignores case: every spelling whose lower-case form is the
      `i`-th region resolves to generation `i + 1`, in the as-written lookup
      as well as in the intended one. */
  lemma LookupIgnoresCase(regionName: string, i: nat)
    requires i < |RegionNames| && LowerAll(regionName) == RegionNames[i]
    ensures Generation(regionName) == Some(i + 1)
    ensures LookupAsWritten(regionName) == Number(i + 1)
  {
    assert RegionNames[i] in RegionToGeneration && RegionToGeneration[RegionNames[i]] == i + 1;
  }

  /** Every region of the navigation bar resolves to its generation, both in
      the bar's capitalised spelling and in the lower-cased form its links
      carry. */
  lemma NavbarRegionsResolve(i: nat)
    requires i < |NavbarRegions|
    ensures Generation(NavbarRegions[i]) == Some(i + 1)
    ensures Generation(LowerAll(NavbarRegions[i])) == Some(i + 1)
  {
    var name := NavbarRegions[i];
    LowerCapitalized(name);
    assert LowerAll(name) == RegionNames[i];
    LookupIgnoresCase(name, i);
    LowerOfLowercase(RegionNames[i]);
    LookupIgnoresCase(RegionNames[i], i);
  }

  /** What an inherited value prints as when it is put into the request URL:
      `Object` for `constructor`, `Object.prototype` for `__proto__`. */
  function InheritedText(key: string): (text: string)
  {
    if key == "constructor" then "function Object() { [native code] }" else "[object Object]"
  }

  /** The generation request the page issues for a value that passed the guard. */
  function GenerationRequest(v: PropertyValue): (url: string)
    requires Truthy(v)
  {
    match v
    case Number(n) => GenerationUrl(n)
    case Inherited(key) => Api.GenerationEndpoint + InheritedText(key) + "/"
  }

  /** The as-written guard lets a name through that is not a region, and the
      page then requests a generation named after `Object`. */
  lemma PrototypeKeyPassesGuard()
    ensures LookupAsWritten("constructor") == Inherited("constructor")
    ensures Truthy(LookupAsWritten("constructor"))
    ensures GenerationRequest(LookupAsWritten("constructor")) ==
      Api.GenerationEndpoint + "function Object() { [native code] }/"
    ensures Generation("constructor") == None
  {
    LowerOfLowercase("constructor");
  }

  /** Apart from the inherited member names, the as-written guard and the
      intended lookup agree, and so do the requests they lead to. */
  lemma LookupAgreesOffPrototype(regionName: string)
    requires LowerAll(regionName) !in ObjectPrototypeKeys
    ensures Truthy(LookupAsWritten(regionName)) <==> Generation(regionName).Some?
    ensures Generation(regionName).Some? ==>
      GenerationRequest(LookupAsWritten(regionName)) == GenerationUrl(Generation(regionName).value)
  {
  }

  function GenerationUrl(g: nat): (url: string)
  {
    Api.GenerationEndpoint + NatToString(g) + "/"
  }

  /** The generation number is the final `/<digits>/` segment of its URL. */
  lemma GenerationUrlNumber(g: nat)
    ensures SpeciesId(GenerationUrl(g)) == Some(g)
  {
    var prefix := "https://pokeapi.co/api/v2/generation";
    assert Api.GenerationEndpoint == prefix + "/";
    assert GenerationUrl(g) == prefix + "/" + NatToString(g) + "/";
    SpeciesIdRoundTrip(prefix, g);
  }

  /** One entry of the generation reply's `pokemon_species`. */
  datatype Species = Species(name: string, url: string)

  /** The sprite URLs of a species' detail reply that the page reads;
      `None` stands for `null` or a missing link in the optional chain. */
  datatype Sprites = Sprites(showdownFront: Option<string>, front: Option<string>)

  /** A species and the outcome of its detail request (`None`: it threw). */
  datatype MemberReply = MemberReply(species: Species, details: Option<Sprites>)

  /** The resource requested for a species: the bare `deoxys` is requested
      in its `deoxys-normal` form. */
  function MemberUrl(baseName: string): (url: string)
    ensures baseName == "deoxys" ==> url == Api.PokemonEndpoint + "deoxys-normal"
    ensures baseName != "deoxys" ==> url == Api.PokemonEndpoint + baseName
  {
    var key := if baseName == "deoxys" then baseName + "-normal" else baseName;
    Api.PokemonEndpoint + key
  }

  /** A string is truthy when it is present and not empty. */
  predicate Present(s: Option<string>) { s.Some? && s.value != "" }

  /** The animated sprite, else the default sprite, else `""`. */
  function ImageUrl(sprites: Sprites): (image: string)
    ensures image != "" <==> Present(sprites.showdownFront) || Present(sprites.front)
    ensures Present(sprites.showdownFront) ==> image == sprites.showdownFront.value
    ensures !Present(sprites.showdownFront) && Present(sprites.front) ==> image == sprites.front.value
  {
    if Present(sprites.showdownFront) then sprites.showdownFront.value
    else if Present(sprites.front) then sprites.front.value
    else ""
  }

  /** Length of the run of digits at the end of `s`. */
  function TrailingDigits(s: string): (k: nat)
    ensures k <= |s|
    ensures forall i :: |s| - k <= i < |s| ==> IsDigit(s[i])
    ensures k < |s| ==> !IsDigit(s[|s| - k - 1])
  {
    if |s| == 0 || !IsDigit(s[|s| - 1]) then 0 else TrailingDigits(s[..|s| - 1]) + 1
  }

  /** The species number in a species URL: the digits of a final
      `/<digits>/` segment (the regular expression `\/(\d+)\/$`), else
      `None`. */
  function SpeciesId(url: string): (id: Option<nat>)
  {
    if |url| == 0 || url[|url| - 1] != '/' then None
    else
      var body := url[..|url| - 1];
      var k := TrailingDigits(body);
      if k == 0 || k == |body| || body[|body| - k - 1] != '/' then None
      else Some(DecimalValue(body[|body| - k..]))
  }

  /** `url` ends in `/<digits>/` with the opening slash at position `i`. */
  predicate IdSegmentAt(url: string, i: nat)
  {
    i + 2 < |url| && url[i] == '/' && url[|url| - 1] == '/' && AllDigits(url[i + 1..|url| - 1])
  }

  /** A digit run that reaches the end of `s` and cannot be extended to the
      left is the maximal trailing run. */
  lemma TrailingDigitsExact(s: string, p: nat)
    requires p <= |s| && AllDigits(s[p..])
    requires p == 0 || !IsDigit(s[p - 1])
    ensures TrailingDigits(s) == |s| - p
  {
  }

  /** The id is found exactly when the URL ends in `/<digits>/`, and it is
      the value of those digits. */
  lemma SpeciesIdMatches(url: string)
    ensures SpeciesId(url).Some? <==> exists i :: IdSegmentAt(url, i)
    ensures forall i :: IdSegmentAt(url, i) ==>
      SpeciesId(url) == Some(DecimalValue(url[i + 1..|url| - 1]))
  {
    forall i: nat | IdSegmentAt(url, i)
      ensures SpeciesId(url) == Some(DecimalValue(url[i + 1..|url| - 1]))
    {
      var body := url[..|url| - 1];
      assert body[i + 1..] == url[i + 1..|url| - 1];
      TrailingDigitsExact(body, i + 1);
    }
    if SpeciesId(url).Some? {
      var body := url[..|url| - 1];
      var k := TrailingDigits(body);
      var i := |body| - k - 1;
      assert url[i + 1..|url| - 1] == body[|body| - k..];
      assert IdSegmentAt(url, i);
    }
  }

  /** Round trip: the id written into a species URL is read back. */
  lemma SpeciesIdRoundTrip(prefix: string, id: nat)
    ensures SpeciesId(prefix + "/" + NatToString(id) + "/") == Some(id)
  {
    var url := prefix + "/" + NatToString(id) + "/";
    assert url[|prefix| + 1..|url| - 1] == NatToString(id);
    assert IdSegmentAt(url, |prefix|);
    SpeciesIdMatches(url);
    NatToStringRoundTrip(id);
  }

  /** The route name of a roster entry's details link: every space of the
      base name becomes a hyphen. */
  function LinkName(name: string): (r: string)
    ensures |r| == |name| && ' ' !in r
    ensures forall i :: 0 <= i < |name| ==> name[i] != ' ' ==> r[i] == name[i]
    ensures forall i :: 0 <= i < |name| ==> name[i] == ' ' ==> r[i] == '-'
  {
    seq(|name|, i requires 0 <= i < |name| => if name[i] == ' ' then '-' else name[i])
  }

  /** For a base name without upper-case letters, the details page a roster
      entry links to requests the same resource as the roster did exactly
      when the name has no space; with a space, the roster requests the
      spaced name and the details page the hyphenated one. */
  lemma RosterAndDetailsAgree(name: string)
    requires forall j :: 0 <= j < |name| ==> !IsUpper(name[j])
    ensures ' ' !in name ==> MemberUrl(name) == PokemonDetails.DetailsRequest(LinkName(name))
    ensures ' ' in name ==> MemberUrl(name) != PokemonDetails.DetailsRequest(LinkName(name))
  {
    var link := LinkName(name);
    var key := PokemonDetails.FetchKey(link);
    if ' ' !in name {
      assert link == name;
      LowerOfLowercase(name);
    } else {
      assert name != "deoxys";
      assert ' ' !in key by {
        forall i | 0 <= i < |key| ensures key[i] != ' ' {
          if LowerAll(link) != "deoxys" {
            assert key[i] == ToLower(link[i]);
          }
        }
      }
      assert name != key;
      DistinctTails(Api.PokemonEndpoint, name, key);
    }
  }

  /** Strings with a common prefix differ when their tails do. */
  lemma DistinctTails(p: string, a: string, b: string)
    requires a != b
    ensures p + a != p + b
  {
    assert (p + a)[|p|..] == a;
    assert (p + b)[|p|..] == b;
  }

  /** The roster entry for one species, or `None` when its request failed.
      The entry keeps the base name even when another form was requested. */
  function BuildMember(r: MemberReply): (m: Option<Member>)
    ensures m.Some? <==> r.details.Some?
    ensures m.Some? ==> m.value.name == r.species.name
    ensures m.Some? ==> m.value.image == ImageUrl(r.details.value) && m.value.id == SpeciesId(r.species.url)
  {
    match r.details
    case None => None
    case Some(sprites) => Some(Member(r.species.name, ImageUrl(sprites), SpeciesId(r.species.url)))
  }

  /** The `Promise.all` result: one outcome per species, in species order. */
  function Outcomes(rs: seq<MemberReply>): (os: seq<Option<Member>>)
    ensures |os| == |rs|
    ensures forall i :: 0 <= i < |rs| ==> os[i] == BuildMember(rs[i])
  {
    if rs == [] then [] else [BuildMember(rs[0])] + Outcomes(rs[1..])
  }

  /** The requests for the species, in species order. */
  function MemberUrls(rs: seq<MemberReply>): (urls: seq<string>)
    ensures |urls| == |rs|
    ensures forall i :: 0 <= i < |rs| ==> urls[i] == MemberUrl(rs[i].species.name)
  {
    if rs == [] then [] else [MemberUrl(rs[0].species.name)] + MemberUrls(rs[1..])
  }

  /** `filter(pokemon => pokemon !== null)`: the present outcomes, in order. */
  function FilterSome(os: seq<Option<Member>>): (r: seq<Member>)
    ensures |r| <= |os|
  {
    if os == [] then []
    else (if os[0].Some? then [os[0].value] else []) + FilterSome(os[1..])
  }

  /** The filtered list holds exactly the present outcomes. */
  lemma {:induction false} FilterSomeMembers(os: seq<Option<Member>>)
    ensures forall m :: m in FilterSome(os) <==> Some(m) in os
  {
    if os != [] {
      FilterSomeMembers(os[1..]);
      assert os == [os[0]] + os[1..];
    }
  }

  lemma {:induction false} FilterSomeAppend(a: seq<Option<Member>>, b: seq<Option<Member>>)
    ensures FilterSome(a + b) == FilterSome(a) + FilterSome(b)
  {
    if a == [] {
      assert a + b == b;
    } else {
      assert (a + b)[0] == a[0];
      assert (a + b)[1..] == a[1..] + b;
      FilterSomeAppend(a[1..], b);
    }
  }

  /** Each outcome contributes on its own: a failed member is left out and
      nothing else changes; a successful one keeps its place. */
  lemma OutcomeContributes(before: seq<Option<Member>>, o: Option<Member>, after: seq<Option<Member>>)
    ensures o.None? ==> FilterSome(before + [o] + after) == FilterSome(before) + FilterSome(after)
    ensures o.Some? ==> FilterSome(before + [o] + after) == FilterSome(before) + [o.value] + FilterSome(after)
  {
    FilterSomeAppend(before + [o], after);
    FilterSomeAppend(before, [o]);
    FilterSomeSingle(o);
  }

  lemma FilterSomeSingle(o: Option<Member>)
    ensures FilterSome([o]) == if o.Some? then [o.value] else []
  {
    assert [o][1..] == [];
  }

  /** What the page holds after a load. */
  datatype RegionState = RegionState(loading: bool, error: Option<string>, pokemonList: seq<Member>)

  /** The roster built from the species replies: the present entries, sorted
      in place by `id || 0`. */
  method BuildRoster(members: seq<MemberReply>) returns (roster: seq<Member>)
    ensures roster == SortedById(FilterSome(Outcomes(members)))
    ensures SortedByKey(roster)
    ensures multiset(roster) == multiset(FilterSome(Outcomes(members)))
  {
    var valid := FilterSome(Outcomes(members));
    var entries := new Member[|valid|](i requires 0 <= i < |valid| => valid[i]);
    assert entries[..] == valid;
    SortById(entries);
    SortedByIdCorrect(valid);
    roster := entries[..];
  }

  /** One run of the page's effect for `regionName`, with the lookup as
      written. `reply` is the generation reply joined with every species'
      detail outcome, or `None` when the generation request or its parsing
      threw. Returns the new state and the requests issued, in issue order. */
  method LoadRegionAsWritten(prior: RegionState, regionName: string, reply: Option<seq<MemberReply>>)
    returns (state: RegionState, requests: seq<string>)
    ensures !state.loading
    ensures !Truthy(LookupAsWritten(regionName)) ==>
      state == RegionState(false, Some(InvalidRegionError), prior.pokemonList) && requests == []
    ensures Truthy(LookupAsWritten(regionName)) && reply.None? ==>
      state == RegionState(false, Some(RegionLoadError), prior.pokemonList) &&
      requests == [GenerationRequest(LookupAsWritten(regionName))]
    ensures Truthy(LookupAsWritten(regionName)) && reply.Some? ==>
      state.error == None &&
      requests == [GenerationRequest(LookupAsWritten(regionName))] + MemberUrls(reply.value) &&
      state.pokemonList == SortedById(FilterSome(Outcomes(reply.value)))
  {
    var generationId := LookupAsWritten(regionName);
    if !Truthy(generationId) {
      return RegionState(false, Some(InvalidRegionError), prior.pokemonList), [];
    }
    requests := [GenerationRequest(generationId)];
    if reply.None? {
      return RegionState(false, Some(RegionLoadError), prior.pokemonList), requests;
    }
    requests := requests + MemberUrls(reply.value);
    var roster := BuildRoster(reply.value);
    state := RegionState(false, None, roster);
  }

  /** One run of the page's effect for `regionName`, with the intended
      lookup (only the nine regions pass). Arguments and results as for
      `LoadRegionAsWritten`. */
  method LoadRegion(prior: RegionState, regionName: string, reply: Option<seq<MemberReply>>)
    returns (state: RegionState, requests: seq<string>)
    ensures !state.loading
    ensures Generation(regionName).None? ==>
      state == RegionState(false, Some(InvalidRegionError), prior.pokemonList) && requests == []
    ensures Generation(regionName).Some? && reply.None? ==>
      state == RegionState(false, Some(RegionLoadError), prior.pokemonList) &&
      requests == [GenerationUrl(Generation(regionName).value)]
    ensures Generation(regionName).Some? && reply.Some? ==>
      state.error == None &&
      requests == [GenerationUrl(Generation(regionName).value)] + MemberUrls(reply.value) &&
      state.pokemonList == SortedById(FilterSome(Outcomes(reply.value))) &&
      SortedByKey(state.pokemonList) &&
      multiset(state.pokemonList) == multiset(FilterSome(Outcomes(reply.value)))
  {
    var generation := Generation(regionName);
    if generation.None? {
      return RegionState(false, Some(InvalidRegionError), prior.pokemonList), [];
    }
    requests := [GenerationUrl(generation.value)];
    if reply.None? {
      return RegionState(false, Some(RegionLoadError), prior.pokemonList), requests;
    }
    requests := requests + MemberUrls(reply.value);
    var roster := BuildRoster(reply.value);
    state := RegionState(false, None, roster);
  }
}
