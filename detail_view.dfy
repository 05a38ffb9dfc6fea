/** The detail page (src/pages/DetailView.tsx): where the route's
    identifier sits in the loaded list, the previous/next navigation it
    allows, the English flavour text, the zero-padded identifier label, the
    displayed stat and ability names, and the page's own load state. */
module DetailView {

  import opened Wrappers
  import opened JsString
  import opened PokemonTypes
  import opened PokemonApi

  /** The route of a creature's detail page, `/pokemon/{id}`; the router
      hands the text after the prefix to the page as its id parameter. */
  function PokemonRoute(id: nat): string
  {
    "/pokemon/" + NatToString(id)
  }

  /** `id || '0'`: a missing or empty route parameter stands for "0". */
  function RouteParamOrZero(id: Option<string>): string
  {
    if id.None? || id.value == "" then "0" else id.value
  }

  /** parseInt, with no radix, of the route parameter: the identifier the
      page looks for. */
  function RouteId(id: Option<string>): IntOrNaN
  {
    ParseIntAutoRadix(RouteParamOrZero(id))
  }

  /** findIndex over the identifiers: the first position holding n, or -1. */
  function FindIndexById(list: seq<Pokemon>, n: int): (r: int)
    ensures -1 <= r < |list|
    ensures r >= 0 ==> list[r].id == n && forall j :: 0 <= j < r ==> list[j].id != n
    ensures r == -1 <==> forall j :: 0 <= j < |list| ==> list[j].id != n
  {
    if list == [] then -1
    else if list[0].id == n then 0
    else
      var k := FindIndexById(list[1..], n);
      assert forall j :: 1 <= j < |list| ==> list[j] == list[1..][j - 1];
      if k == -1 then -1 else k + 1
  }

  /** currentIndex: the first position whose identifier equals the parsed
      route identifier, or -1; NaN equals no identifier. */
  function CurrentIndex(list: seq<Pokemon>, id: Option<string>): (r: int)
    ensures -1 <= r < |list|
    ensures r >= 0 ==> RouteId(id) == Int(list[r].id) && forall j :: 0 <= j < r ==> RouteId(id) != Int(list[j].id)
    ensures r == -1 <==> forall j :: 0 <= j < |list| ==> RouteId(id) != Int(list[j].id)
  {
    match RouteId(id)
    case NaN => -1
    case Int(n) => FindIndexById(list, n)
  }

  predicate CanGoPrevious(list: seq<Pokemon>, id: Option<string>)
  {
    CurrentIndex(list, id) > 0
  }

  predicate CanGoNext(list: seq<Pokemon>, id: Option<string>)
  {
    CurrentIndex(list, id) < |list| - 1
  }

  /** handlePrevious: the route of the item before the current one when
      Previous is enabled; no navigation otherwise. */
  function HandlePrevious(list: seq<Pokemon>, id: Option<string>): (target: Option<string>)
    ensures target.Some? <==> CanGoPrevious(list, id)
    ensures target.Some? ==>
              (0 < CurrentIndex(list, id) < |list| && target.value == PokemonRoute(list[CurrentIndex(list, id) - 1].id))
  {
    var i := CurrentIndex(list, id);
    if i > 0 then Some(PokemonRoute(list[i - 1].id)) else None
  }

  /** handleNext: the route of the item after the current one when Next is
      enabled; no navigation otherwise. */
  function HandleNext(list: seq<Pokemon>, id: Option<string>): (target: Option<string>)
    ensures target.Some? <==> CanGoNext(list, id)
    ensures target.Some? ==>
              (-1 <= CurrentIndex(list, id) < |list| - 1 && target.value == PokemonRoute(list[CurrentIndex(list, id) + 1].id))
  {
    var i := CurrentIndex(list, id);
    if i < |list| - 1 then Some(PokemonRoute(list[i + 1].id)) else None
  }

  predicate DistinctIds(list: seq<Pokemon>)
  {
    forall i, j :: 0 <= i < j < |list| ==> list[i].id != list[j].id
  }

  /** The route parameter of a detail route reads back as its identifier. */
  lemma RouteIdOfRoute(n: nat)
    ensures RouteId(Some(NatToString(n))) == Int(n)
  {
    AutoRadixOfNatToString(n);
  }

  /** With distinct identifiers, Next from the k-th item leads to the
      (k+1)-th, and Previous from there leads back to the k-th. */
  lemma NextThenPreviousReturns(list: seq<Pokemon>, k: nat)
    requires DistinctIds(list) && k + 1 < |list|
    ensures HandleNext(list, Some(NatToString(list[k].id))) == Some(PokemonRoute(list[k + 1].id))
    ensures HandlePrevious(list, Some(NatToString(list[k + 1].id))) == Some(PokemonRoute(list[k].id))
  {
    IndexOfRoute(list, k);
    IndexOfRoute(list, k + 1);
  }

  /** With distinct identifiers, the route of the k-th item has current index k. */
  lemma IndexOfRoute(list: seq<Pokemon>, k: nat)
    requires DistinctIds(list) && k < |list|
    ensures CurrentIndex(list, Some(NatToString(list[k].id))) == k
  {
    var id := Some(NatToString(list[k].id));
    RouteIdOfRoute(list[k].id);
    var i := CurrentIndex(list, id);
    assert i != -1;
    assert list[i].id == list[k].id;
  }

  /** An identifier missing from the list has current index -1. */
  lemma AbsentIdHasNoIndex(list: seq<Pokemon>, id: Option<string>)
    requires forall j :: 0 <= j < |list| ==> RouteId(id) != Int(list[j].id)
    ensures CurrentIndex(list, id) == -1
  {
  }

  /** Without a current index, Previous is disabled and Next leads to the
      first item, even when that item is the only one. */
  lemma NoIndexNavigation(list: seq<Pokemon>, id: Option<string>)
    requires list != [] && CurrentIndex(list, id) == -1
    ensures HandlePrevious(list, id) == None
    ensures HandleNext(list, id) == Some(PokemonRoute(list[0].id))
  {
  }

  /** An identifier missing from a non-empty list disables Previous but
      enables Next, which then leads to the first item (with a single item,
      back to that same item's page). */
  lemma AbsentIdLeadsToFirst(list: seq<Pokemon>, id: Option<string>)
    requires list != [] && forall j :: 0 <= j < |list| ==> RouteId(id) != Int(list[j].id)
    ensures HandlePrevious(list, id) == None
    ensures HandleNext(list, id) == Some(PokemonRoute(list[0].id))
  {
    AbsentIdHasNoIndex(list, id);
    NoIndexNavigation(list, id);
  }

  /** A missing route parameter is read as identifier 0. */
  lemma MissingRouteIdIsZero()
    ensures RouteId(None) == Int(0) && RouteId(Some("")) == Int(0)
  {
    assert RouteParamOrZero(None) == "0" && RouteParamOrZero(Some("")) == "0";
    assert NatToString(0) == "0";
    AutoRadixOfNatToString(0);
  }

  /** A parameter written in hexadecimal, such as "0x19", is read as the
      identifier it spells (25). */
  lemma HexRouteId()
    ensures RouteId(Some("0x19")) == Int(25)
  {
    var ds := "19";
    assert ds[..1] == "1" && HexValue("1") == 1;
    assert HexValue(ds) == 25;
    assert RouteParamOrZero(Some("0x19")) == "0x" + ds;
    AutoRadixReadsHex(ds);
  }

  // ---------------------------------------------------------------------
  // getFlavorText

  const FormFeed: char := '\U{000C}'

  /** find over the flavour text entries: the position of the first entry
      in English, if any. */
  function FirstEnglishIndex(entries: seq<FlavorTextEntry>): (r: Option<nat>)
    ensures r.Some? ==> r.value < |entries| && entries[r.value].language.name == "en"
    ensures r.Some? ==> forall j :: 0 <= j < r.value ==> entries[j].language.name != "en"
    ensures r.None? <==> forall j :: 0 <= j < |entries| ==> entries[j].language.name != "en"
  {
    if entries == [] then None
    else if entries[0].language.name == "en" then Some(0)
    else
      assert forall j :: 1 <= j < |entries| ==> entries[j] == entries[1..][j - 1];
      match FirstEnglishIndex(entries[1..])
      case None => None
      case Some(k) => Some(k + 1)
  }

  /** getFlavorText: empty without species data or without an English
      entry; otherwise the first English text with every form feed turned
      into a space, so the result has the text's length and no form feed. */
  function FlavorText(species: Option<PokemonSpecies>): (r: string)
    ensures FormFeed !in r
    ensures species.None? ==> r == ""
    ensures species.Some? && FirstEnglishIndex(species.value.flavorTextEntries).None? ==> r == ""
    ensures species.Some? && FirstEnglishIndex(species.value.flavorTextEntries).Some? ==>
              var text := species.value.flavorTextEntries[FirstEnglishIndex(species.value.flavorTextEntries).value].flavorText;
              |r| == |text| && forall i :: 0 <= i < |text| ==> r[i] == if text[i] == FormFeed then ' ' else text[i]
  {
    if species.None? then ""
    else
      match FirstEnglishIndex(species.value.flavorTextEntries)
      case None => ""
      case Some(k) =>
        var text := species.value.flavorTextEntries[k].flavorText;
        ReplaceAllRemovesAll(text, FormFeed, ' ');
        ReplaceAll(text, FormFeed, ' ')
  }

  // ---------------------------------------------------------------------
  // Labels

  /** `id.toString().padStart(3, '0')`, the number shown after '#' on the
      detail page and on the list and gallery cards: at least three digits,
      the decimal form itself when it already has three, and always read
      back as the identifier. */
  function IdLabel(id: nat): (r: string)
    ensures |r| >= 3 && AllDigits(r)
    ensures |NatToString(id)| >= 3 ==> r == NatToString(id)
    ensures |NatToString(id)| < 3 ==> r == Repeat('0', 3 - |NatToString(id)|) + NatToString(id)
    ensures ParseInt(r) == Int(id)
  {
    var d := NatToString(id);
    ParseIntOfZeroPadded(id, 3);
    PaddedIsZerosThen(d, 3);
    PaddedDigits(d, 3);
    PadStart(d, 3, '0')
  }

  /** `name.replace('-', ' ')` for stat and ability names: the first hyphen
      becomes a space, every later hyphen stays. */
  function DisplayName(name: string): (r: string)
    ensures |r| == |name|
    ensures '-' !in name ==> r == name
    ensures '-' in name ==> r[IndexOf(name, '-')] == ' '
    ensures '-' in name ==> multiset(r)['-'] == multiset(name)['-'] - 1
    ensures '-' in name ==> forall i :: 0 <= i < |name| && i != IndexOf(name, '-') ==> r[i] == name[i]
  {
    if '-' in name then
      ReplaceFirstRemovesOne(name, '-', ' ');
      ReplaceFirst(name, '-', ' ')
    else
      ReplaceFirst(name, '-', ' ')
  }

  // ---------------------------------------------------------------------
  // loadPokemonDetail

  const DetailErrorMessage: string := "Failed to load Pokémon details"

  /** The page's own state: the creature and species shown, and its load flags. */
  class DetailPage {
    var pokemon: Option<Pokemon>
    var species: Option<PokemonSpecies>
    var loading: bool
    var error: Option<string>

    constructor ()
      ensures pokemon == None && species == None && loading && error == None
    {
      pokemon := None;
      species := None;
      loading := true;
      error := None;
    }

    /** loadPokemonDetail: loading is raised and the error cleared; the
        detail and species requests are both made with the route text; the
        creature and species are stored only when both succeed, otherwise
        the error message is set; loading ends in both cases. */
    method LoadPokemonDetail(pokemonId: string, detailAt: string -> Fetch<Pokemon>, speciesAt: string -> Fetch<PokemonSpecies>)
      modifies this
      ensures !loading
      ensures detailAt(DetailPath(ByName(pokemonId))).Received? && speciesAt(SpeciesPath(ByName(pokemonId))).Received? ==>
                pokemon == Some(detailAt(DetailPath(ByName(pokemonId))).data)
                && species == Some(speciesAt(SpeciesPath(ByName(pokemonId))).data)
                && error == None
      ensures detailAt(DetailPath(ByName(pokemonId))).TransportError? || speciesAt(SpeciesPath(ByName(pokemonId))).TransportError? ==>
                pokemon == old(pokemon) && species == old(species) && error == Some(DetailErrorMessage)
    {
      loading := true;
      error := None;
      var pokemonData := detailAt(DetailPath(ByName(pokemonId)));
      var speciesData := speciesAt(SpeciesPath(ByName(pokemonId)));
      if pokemonData.Received? && speciesData.Received? {
        pokemon := Some(pokemonData.data);
        species := Some(speciesData.data);
      } else {
        error := Some(DetailErrorMessage);
      }
      loading := false;
    }

    /** The effect run when the route parameter changes: a load with the
        parameter's text only when it is present and non-empty, leaving what
        that load leaves; otherwise nothing changes. */
    method OnRouteChange(id: Option<string>, detailAt: string -> Fetch<Pokemon>, speciesAt: string -> Fetch<PokemonSpecies>)
      modifies this
      ensures (id.None? || id.value == "") ==>
                pokemon == old(pokemon) && species == old(species) && loading == old(loading) && error == old(error)
      ensures id.Some? && id.value != "" ==> !loading
      ensures id.Some? && id.value != "" &&
              detailAt(DetailPath(ByName(id.value))).Received? && speciesAt(SpeciesPath(ByName(id.value))).Received? ==>
                pokemon == Some(detailAt(DetailPath(ByName(id.value))).data)
                && species == Some(speciesAt(SpeciesPath(ByName(id.value))).data)
                && error == None
      ensures id.Some? && id.value != "" &&
              (detailAt(DetailPath(ByName(id.value))).TransportError? || speciesAt(SpeciesPath(ByName(id.value))).TransportError?) ==>
                pokemon == old(pokemon) && species == old(species) && error == Some(DetailErrorMessage)
    {
      if id.Some? && id.value != "" {
        LoadPokemonDetail(id.value, detailAt, speciesAt);
      }
    }
  }
}
