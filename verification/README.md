# Pokédex pages: a Dafny model

This project models the data logic of two pages of the Pokédex web
application:

- The **details page** (`PokemonDetailsPage.js`) does four things:
  - It turns kebab-case API names into labels with `formatText`
    (`"charizard-mega-x"` becomes `"Charizard Mega X"`).
  - It picks the resource it requests for the route's name (lower-cased, with
    the bare `deoxys` asked for as `deoxys-normal`).
  - It builds the displayed record from the reply.
  - It shows the Pokédex number as `#` followed by at least four digits.
- The **region page** (`RegionPage.js`) works in three steps:
  - It resolves the region name of the route to a generation number.
  - It requests each species of that generation, with the same `deoxys`
    substitution, and builds one roster entry per species that answered:
    - the image is the animated sprite, else the default sprite, else `""`;
    - the id is the digits of a final `/<digits>/` URL segment, else none.
  - It drops the species that failed, then sorts the rest in place, stably,
    by `id || 0`.

The network is not modelled. Each reply, and each failure, is an input to
the function or method that consumes it. For each page the model lists the
requests a load issues, and the state the load leaves behind.

The modules are:

- `Wrappers`: `Option`.
- `Strings`: ASCII case mapping, plus `split` (with a non-empty string
  separator and no limit), `join` and `padStart` as JavaScript defines them.
- `Decimal`: `toString` of a natural number, and `parseInt` of a digit
  string.
- `TextFormat`: `formatText`, and a character-by-character reference
  definition that it is proved equal to.
- `Api`: the two endpoints.
- `PokemonDetails`: the details page.
- `Roster`: a roster entry; the stable sort as a function, with its
  correctness lemmas; and the in-place array sort, proved to compute that
  function.
- `Region`: the region page.

Two places where the code is followed rather than a plain reading of its
intent:

- The roster is not deduplicated. Every species that answered appears once
  per occurrence in the generation reply.
- A species without an id has sort key 0, so it is listed **before** every
  species with a positive id. An id of 0 ties with it, and the two keep
  their discovery order.

## Model

| member | source | states |
|---|---|---|
| Strings.SplitJoinsBack | src/containers/pages/PokemonDetailsPage.js:16 | joining the pieces of `split` with its separator gives back the input |
| Strings.Split | src/containers/pages/PokemonDetailsPage.js:16 | `split` with a non-empty separator always yields at least one piece |
| Strings.SplitJoin | src/containers/pages/PokemonDetailsPage.js:16-18 | splitting the join of a non-empty list of pieces, none containing the separator's first character, gives back the pieces |
| Strings.SplitPiecesAvoidSeparator | src/containers/pages/PokemonDetailsPage.js:16 | with a one-character separator, no piece of `split` contains it |
| Strings.Join | src/containers/pages/PokemonDetailsPage.js:18 | `join`: no ensures of its own; `Strings.SplitJoinsBack` and `Strings.SplitJoin` show it undoes `split` and is undone by it |
| Strings.PadStart | src/containers/pages/PokemonDetailsPage.js:72 | the result is as long as the larger of the width and the input, and is fill characters followed by the unchanged input |
| Strings.LowerAll | src/containers/pages/PokemonDetailsPage.js:26 | `toLowerCase` keeps the length and lower-cases each upper-case letter, leaving every other character as it is |
| Decimal.NatToString | src/containers/pages/PokemonDetailsPage.js:72 | `toString` gives a non-empty digit string with no leading zero except for `"0"` itself |
| Decimal.NatToStringRoundTrip | src/containers/pages/PokemonDetailsPage.js:72 | parsing the decimal spelling of a number gives the number back |
| Decimal.LeadingZerosIgnored | src/containers/pages/PokemonDetailsPage.js:72 | zeros put in front of a digit string do not change its value |
| Decimal.DecimalValue | src/containers/pages/RegionPage.js:83 | `parseInt(s, 10)` on a digit string: no ensures of its own; `Decimal.NatToStringRoundTrip` makes it the inverse of `toString` and `Decimal.LeadingZerosIgnored` shows leading zeros do not count |
| TextFormat.ReplaceHyphens | src/containers/pages/PokemonDetailsPage.js:15 | the length is kept; a position holds a space exactly where the input has a hyphen or a space; every other character is unchanged |
| TextFormat.FormatTextIsTitleCase | src/containers/pages/PokemonDetailsPage.js:13-18 | the replace/split/capitalise/join chain equals the reference: the first letter of each space-delimited word upper-cased, the others lower-cased, and spaces kept |
| TextFormat.FormatTextChars | src/containers/pages/PokemonDetailsPage.js:13-18 | the label has the input's length; at each position it holds a space where the input has `-` or a space, the upper-cased character at a word start, and the lower-cased one elsewhere |
| TextFormat.FormatTextHasNoHyphen | src/containers/pages/PokemonDetailsPage.js:15 | no hyphen survives in a label |
| TextFormat.CapitalizeShape | src/containers/pages/PokemonDetailsPage.js:17 | a capitalised word keeps its length, starts with a non-lower-case character, has no upper-case letter after that, and gains no space |
| TextFormat.FormatTextWords | src/containers/pages/PokemonDetailsPage.js:16-18 | splitting the label on spaces gives one capitalised word per word of the hyphen-free input, empty words included, and every word is title-shaped |
| TextFormat.FormatTextIdempotent | src/containers/pages/PokemonDetailsPage.js:13-18 | formatting a label again leaves it unchanged |
| TextFormat.FormatText | src/containers/pages/PokemonDetailsPage.js:13-18 | `formatText` as the replace/split/map/join chain: no ensures of its own; `TextFormat.FormatTextIsTitleCase` equates it to the reference and the lemmas above give its length, characters, words and idempotence |
| TextFormat.Capitalize | src/containers/pages/PokemonDetailsPage.js:17 | the per-word capitalisation: no ensures of its own; `TextFormat.CapitalizeShape` gives its length and shape |
| PokemonDetails.FetchKey | src/containers/pages/PokemonDetailsPage.js:26-29 | the requested key is the lower-cased name, except that `deoxys` in any case becomes `deoxys-normal`; the key is never the bare `deoxys` and has no upper-case letter |
| PokemonDetails.DetailsRequest | src/containers/pages/PokemonDetailsPage.js:31 | the details request is the pokemon endpoint followed by the fetch key: no ensures of its own; every load's contract names it, and `Region.RosterAndDetailsAgree` compares it with the roster's request for the linked entry |
| PokemonDetails.FormatAll | src/containers/pages/PokemonDetailsPage.js:35 | one label per name, each the formatted name, in order |
| PokemonDetails.FormatStats | src/containers/pages/PokemonDetailsPage.js:40-43 | one stat per entry, in order, with the formatted stat name and the base value unchanged |
| PokemonDetails.BuildDetails | src/containers/pages/PokemonDetailsPage.js:33-47 | each field of the record comes from its reply field: the formatted name; abilities, games and types as formatted lists; the artwork URLs copied; stats one per entry; id, height and weight copied |
| PokemonDetails.ListTextEntries | src/containers/pages/PokemonDetailsPage.js:35-39 | an empty list shows as `""`; a non-empty list of comma-free names splits back on `", "` into exactly its formatted entries, one per name |
| PokemonDetails.ListText | src/containers/pages/PokemonDetailsPage.js:35 | a list field: no ensures of its own; `PokemonDetails.ListTextEntries` says what it holds |
| PokemonDetails.DisplayIdShape | src/containers/pages/PokemonDetailsPage.js:72 | the shown number is `#`, then zeros, then the id's digits; it is `1 + max(4, digits)` long, and its digits read back as the id |
| PokemonDetails.DisplayId | src/containers/pages/PokemonDetailsPage.js:72 | the shown number: no ensures of its own; `PokemonDetails.DisplayIdShape` gives its shape and value |
| PokemonDetails.Render | src/containers/pages/PokemonDetailsPage.js:59-60 | loading text first, then the error, then the record: no ensures of its own; the load contracts state what it shows after each load |
| PokemonDetails.LoadDetailsAsWritten | src/containers/pages/PokemonDetailsPage.js:20-53 | a load issues the details request for the route's name and ends with loading off; a failure sets the details error and keeps everything else; a success stores the built record and the artwork and leaves the error as it was |
| PokemonDetails.StaleErrorHidesDetails | src/containers/pages/PokemonDetailsPage.js:59-60 | after a successful load that follows an earlier failure, the page still renders the old error |
| PokemonDetails.LoadDetails | src/containers/pages/PokemonDetailsPage.js:20-60 | with the error reset at the start of a load: the same request; a failure sets only loading and the details error and renders that error; a success clears the error, stores the record and artwork, and renders the record built from the reply |
| Region.GenerationOnlyRegions | src/containers/pages/RegionPage.js:40-52 | a name resolves only when its lower-case form is one of the nine regions, and it resolves to that region's position in generation order |
| Region.RegionTable | src/containers/pages/RegionPage.js:40-50 | the `i`-th region resolves to generation `i + 1` |
| Region.Generation | src/containers/pages/RegionPage.js:40-54 | the intended lookup, own keys only: no ensures of its own; `Region.GenerationOnlyRegions` and `Region.RegionTable` characterise it |
| Region.LookupAsWritten | src/containers/pages/RegionPage.js:52-54 | the lookup as written on a plain object: no ensures of its own; `Region.PrototypeKeyPassesGuard` and `Region.LookupAgreesOffPrototype` characterise it |
| Region.LookupIgnoresCase | src/containers/pages/RegionPage.js:40-52 | every spelling whose lower-case form is the `i`-th region resolves to generation `i + 1`, in the as-written lookup and in the intended one: the if-direction of `Region.GenerationOnlyRegions` |
| Region.NavbarRegionsResolve | src/containers/Navbar.js:6-30 | every region the navigation bar lists resolves to its generation, both in the bar's capitalised spelling and in the lower-cased form its links carry |
| Region.PrototypeKeyPassesGuard | src/containers/pages/RegionPage.js:52-60 | as written, the name `constructor` finds the inherited `Object`, passes the guard although it is not a region, and leads to a request for the generation `function Object() { [native code] }` |
| Region.LookupAgreesOffPrototype | src/containers/pages/RegionPage.js:52-60 | for every name that is not an inherited member name, the as-written guard passes exactly when the name is a region, and the generation request is the same |
| Region.GenerationRequest | src/containers/pages/RegionPage.js:60 | the generation request for a value that passed the guard: no ensures of its own; `Region.PrototypeKeyPassesGuard`, `Region.LookupAgreesOffPrototype` and `Region.GenerationUrlNumber` characterise it |
| Region.GenerationUrl | src/containers/pages/RegionPage.js:60 | the request for a generation number: no ensures of its own; `Region.GenerationUrlNumber` reads the number back from it |
| Region.GenerationUrlNumber | src/containers/pages/RegionPage.js:60 | the generation number is the final `/<digits>/` segment of its request URL |
| Region.MemberUrl | src/containers/pages/RegionPage.js:65-70 | a species is requested under its own name, except `deoxys`, which is requested as `deoxys-normal` |
| Region.RosterAndDetailsAgree | src/containers/pages/RegionPage.js:132 | for a base name without upper-case letters, the details page a roster entry links to requests the same resource as the roster did (`deoxys` included) when the name has no space, and a different one when it has a space (the link hyphenates, the roster request does not) |
| Region.LinkName | src/containers/pages/RegionPage.js:132 | the route name of a roster entry's details link keeps the length, turns each space into `-`, and keeps every other character |
| Region.ImageUrl | src/containers/pages/RegionPage.js:76 | the image is the animated sprite when it is present and non-empty, else the default sprite when it is, else `""`; it is non-empty exactly when one of them is |
| Region.TrailingDigits | src/containers/pages/RegionPage.js:78 | the counted suffix is all digits and cannot be extended to the left |
| Region.SpeciesIdMatches | src/containers/pages/RegionPage.js:78-83 | an id is found exactly when the URL ends in `/<digits>/`, and it is the value of those digits |
| Region.SpeciesIdRoundTrip | src/containers/pages/RegionPage.js:78-83 | an id written into a URL as a final `/<digits>/` segment is read back |
| Region.SpeciesId | src/containers/pages/RegionPage.js:78-83 | the id read from a species URL: no ensures of its own; `Region.SpeciesIdMatches` ties it to the regular expression and `Region.SpeciesIdRoundTrip` to `toString` |
| Region.BuildMember | src/containers/pages/RegionPage.js:72-88 | an entry exists exactly when the species' request succeeded; it keeps the base name, the chosen image and the parsed id |
| Region.Outcomes | src/containers/pages/RegionPage.js:63-90 | one outcome per species, in species order |
| Region.MemberUrls | src/containers/pages/RegionPage.js:63-70 | one request per species, in species order |
| Region.FilterSomeMembers | src/containers/pages/RegionPage.js:92 | an entry is in the filtered list exactly when it is a present outcome |
| Region.FilterSome | src/containers/pages/RegionPage.js:92 | the filter is never longer than its input; `Region.FilterSomeMembers`, `Region.FilterSomeAppend` and `Region.OutcomeContributes` say which entries it keeps and in what order |
| Region.FilterSomeAppend | src/containers/pages/RegionPage.js:92 | filtering distributes over concatenation |
| Region.OutcomeContributes | src/containers/pages/RegionPage.js:92 | a failed species is left out with nothing else changing; a successful one keeps its place among the others |
| Region.BuildRoster | src/containers/pages/RegionPage.js:92-94 | the roster is the stable sort of the present entries, built by the in-place sort; it is ordered by key and a permutation of them |
| Region.LoadRegionAsWritten | src/containers/pages/RegionPage.js:34-102 | with the plain-object lookup: a value that fails the guard sets "Invalid region name." with no request; a value that passes it issues its generation request, then a failed reply sets "Failed to load Pokémon data." and a successful one gives the species requests and the sorted roster |
| Region.LoadRegion | src/containers/pages/RegionPage.js:34-102 | with the intended lookup: an unknown region sets "Invalid region name." and issues no request; a failed generation load sets "Failed to load Pokémon data."; otherwise the error is cleared, one request goes to the generation and one to each species, and the list is the stable sort of the present entries, ordered by key and a permutation of them |
| Roster.InsertPermutes | src/containers/pages/RegionPage.js:94 | one insertion step adds exactly the inserted entry |
| Roster.InsertSorted | src/containers/pages/RegionPage.js:94 | one insertion step keeps a sorted list sorted |
| Roster.InsertStable | src/containers/pages/RegionPage.js:94 | one insertion step puts the inserted entry after every entry with an equal key |
| Roster.SortedByIdCorrect | src/containers/pages/RegionPage.js:94 | the sort's output is ordered by `id \|\| 0`, is a permutation of its input, and keeps the input order among entries with equal keys |
| Roster.MissingIdsFirst | src/containers/pages/RegionPage.js:94 | after the sort, an entry without an id comes before every entry with a positive id |
| Roster.InsertAtPoint | src/containers/pages/RegionPage.js:94 | the inserted entry lands after the last key not larger than its own |
| Roster.InsertAt | src/containers/pages/RegionPage.js:94 | one in-place step turns the sorted prefix plus the next entry into the insertion of that entry, leaving the rest of the array alone |
| Roster.SortById | src/containers/pages/RegionPage.js:94 | the in-place sort leaves the array holding the stable sort of its old contents |
| Roster.Key | src/containers/pages/RegionPage.js:94 | the sort key `id \|\| 0`: no ensures of its own; `Roster.MissingIdsFirst` shows what the `0` does |
| Roster.SortedById | src/containers/pages/RegionPage.js:94 | the stable sort as insertion from the right: no ensures of its own; `Roster.SortedByIdCorrect` characterises it |

## Left out

- Network access and JSON parsing are not modelled. Each reply is a parameter: `Option` of its parsed content, with `None` when the request or the parsing threw. The reply structures keep only the fields the pages read.
- `Promise.all` concurrency is not modelled. The outcome list is in species order, which is the order `Promise.all` delivers whatever the completion order.
- React state, hooks, effects and JSX are not modelled, apart from the state a load leaves behind and the choice between the loading, error and details views. The intermediate `loading = true` states, the hover image swap, the back button and `console.error` are left out.
- The scroll tracking and back-to-top button of the region page (`RegionPage.js:12-32`) are left out, because they are presentation only.
- `Strings.LowerAll`: only ASCII letters are case-mapped, because Unicode case mapping is not modelled. `Strings.ToUpper` likewise. With non-ASCII letters the source's case mapping can change the length (`'ß'.toUpperCase()` is `"SS"`), so `TextFormat.FormatTextChars` (length) and `TextFormat.FormatTextIdempotent` hold of the source only on ASCII input: `formatText("ßa")` is `"SSa"`, and formatting that again gives `"Ssa"`.
- `Decimal.NatToString`: JavaScript numbers are doubles. `toString` writes numbers from 10^21 on in exponent form, and ids above 2^53 are not exact. The model spells every natural number in full.
- `Decimal.DecimalValue`: `parseInt` is modelled only on the digit strings the regular expression admits, exactly and without floating-point rounding.
- `PokemonDetails.BuildDetails`: the Pokédex id is a natural number, height and weight are integers, and the artwork URLs are `Option<string>` (for `null`). The model cannot represent a reply whose fields have other JSON types. The source does not treat all of those as failures: a string id still renders, and a `null` id fails in the render at `PokemonDetailsPage.js:72`, outside the load's `try`.
- `Region.ImageUrl`: a missing link in the `sprites?.other?.showdown` optional chain is folded into `None` for that sprite.
- `src/containers/PokemonDetails.js`, `src/containers/PokedexContainer.js`, `src/App.js` and `src/containers/ErrorMessage.js` are not part of this model. They render or route, and compute nothing the pages depend on. `src/containers/Navbar.js` is used only for its list of regions.
- Region.LoadRegion: it uses the intended lookup, with own keys only (see Findings). So for `constructor` and `__proto__`, in any capitalisation, it sets "Invalid region name." with no request, where the source issues a generation request. `Region.LoadRegionAsWritten` models the source's behaviour.
- `Region.LoadRegionAsWritten`: the reply to the request for an inherited value is an input like every other reply; the API has no such generation, so in practice it is the failure case.

## Findings

| source | as written | input that shows it | evidently intended | confidence | as-written member | corrected member |
|---|---|---|---|---|---|---|
| src/containers/pages/RegionPage.js:52-58 | the region is looked up by indexing a plain object, which also answers with inherited `Object.prototype` members | route name `constructor` (or `__proto__`), in any capitalisation: the looked-up value is the inherited `Object`, the guard passes, `Region.LoadRegionAsWritten` issues a request for the generation `function Object() { [native code] }`, and with its failed reply the page ends on "Failed to load Pokémon data." instead of "Invalid region name." | only the nine region names pass the guard; any other name gives "Invalid region name." with no request | high that the lookup answers; not executed | Region.PrototypeKeyPassesGuard | Region.GenerationOnlyRegions |
| src/containers/pages/PokemonDetailsPage.js:20-53 | a load sets `error` on failure and never clears it | a failed load for one name, then a successful load for another on the same mounted page: the page still shows "Failed to load Pokémon details!" | clear the error when a load starts, as `RegionPage.js:37` does | medium (depends on the page staying mounted across route changes); not executed | PokemonDetails.StaleErrorHidesDetails | PokemonDetails.LoadDetails |
