/** The records the catalogue service returns and the sort choices of the
    list page (src/types/pokemon.ts). Field names follow the service's JSON
    in camel case; the nested { name } and { name, url } objects become
    NamedResource. */
module PokemonTypes {

  import opened Wrappers

  /** A { name, url } reference to another resource of the service. */
  datatype NamedResource = NamedResource(name: string, url: string)

  /** The sprite URLs of a creature; the service may leave any of them out. */
  datatype Sprites = Sprites(
    frontDefault: Option<string>,
    frontShiny: Option<string>,
    officialArtwork: Option<string>,
    dreamWorld: Option<string>)

  /** One entry of `types`: the type the creature has in that slot. */
  datatype TypeSlot = TypeSlot(typeRef: NamedResource)

  datatype StatEntry = StatEntry(baseStat: int, stat: NamedResource)

  datatype AbilitySlot = AbilitySlot(ability: NamedResource, isHidden: bool)

  /** A creature record as the detail endpoint returns it. Identifiers are
      positive integers in the service, so they are natural numbers here. */
  datatype Pokemon = Pokemon(
    id: nat,
    name: string,
    url: string,
    sprites: Sprites,
    types: seq<TypeSlot>,
    stats: seq<StatEntry>,
    abilities: seq<AbilitySlot>,
    height: nat,
    weight: nat,
    baseExperience: nat,
    species: NamedResource)

  /** One row of the paginated list endpoint: a name and the resource URL
      from which the numeric identifier is parsed. */
  datatype PokemonListItem = PokemonListItem(name: string, url: string)

  datatype PokemonListResponse = PokemonListResponse(
    count: nat,
    next: Option<string>,
    previous: Option<string>,
    results: seq<PokemonListItem>)

  /** The response of the type taxonomy endpoint. */
  datatype TypeListResponse = TypeListResponse(results: seq<NamedResource>)

  datatype FlavorTextEntry = FlavorTextEntry(flavorText: string, language: NamedResource)

  datatype PokemonSpecies = PokemonSpecies(
    name: string,
    color: NamedResource,
    flavorTextEntries: seq<FlavorTextEntry>,
    generation: NamedResource)

  /** The field the list page sorts by. */
  datatype SortField = Name | Id | Height | Weight | BaseExperience

  datatype SortOrder = Asc | Desc
}
