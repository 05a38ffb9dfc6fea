/** The remote data client (src/services/pokemonApi.ts): the request path
    each API method builds, the identifier parsed out of a resource URL, and
    the artwork URL derived from an identifier. The HTTP calls themselves
    are not modelled; the load routines receive their results as inputs. */
module PokemonApi {

  import opened JsString
  import opened Wrappers

  /** The page size and offset getPokemonList uses when called without arguments. */
  const DefaultLimit: nat := 150
  const DefaultOffset: nat := 0

  /** getPokemon and getPokemonSpecies accept a name or a number; a number
      may be NaN, which the path template spells "NaN". */
  datatype NameOrId = ByName(name: string) | ByNumber(number: IntOrNaN)

  /** The text a template literal inserts for a name or a number. */
  function NameOrIdText(key: NameOrId): string
  {
    match key
    case ByName(name) => name
    case ByNumber(Int(i)) => IntToString(i)
    case ByNumber(NaN) => "NaN"
  }

  const ListPrefix: string := "/pokemon?limit="
  const OffsetParam: string := "&offset="
  const DetailPrefix: string := "/pokemon/"
  const SpeciesPrefix: string := "/pokemon-species/"
  const TypePrefix: string := "/type/"
  const AllTypesPath: string := "/type"

  /** The path getPokemonList requests. */
  function ListPath(limit: nat, offset: nat): string
  {
    ListPrefix + NatToString(limit) + OffsetParam + NatToString(offset)
  }

  /** The path getPokemon requests. */
  function DetailPath(key: NameOrId): string
  {
    DetailPrefix + NameOrIdText(key)
  }

  /** The path getPokemonSpecies requests. */
  function SpeciesPath(key: NameOrId): string
  {
    SpeciesPrefix + NameOrIdText(key)
  }

  /** The path getPokemonByType requests. */
  function TypePath(typeName: string): string
  {
    TypePrefix + typeName
  }

  /** The path of the list request made with the default arguments. */
  lemma DefaultListPath()
    ensures ListPath(DefaultLimit, DefaultOffset) == "/pokemon?limit=150&offset=0"
  {
    assert NatToString(1) == "1";
    assert NatToString(15) == "15";
    assert NatToString(150) == "150";
  }

  /** Different page sizes or offsets give different list paths: the path
      determines both numbers. */
  lemma ListPathInjective(limit1: nat, offset1: nat, limit2: nat, offset2: nat)
    requires ListPath(limit1, offset1) == ListPath(limit2, offset2)
    ensures limit1 == limit2 && offset1 == offset2
  {
    var d1, d2 := NatToString(limit1), NatToString(limit2);
    var o1, o2 := NatToString(offset1), NatToString(offset2);
    var t1, t2 := OffsetParam + o1, OffsetParam + o2;
    ListPathShape(limit1, offset1);
    ListPathShape(limit2, offset2);
    PrefixCancel(ListPrefix, d1 + t1, d2 + t2);
    DigitsThenInjective(d1, t1, d2, t2);
    PrefixCancel(OffsetParam, o1, o2);
    DigitsValueOfNatToString(limit1);
    DigitsValueOfNatToString(limit2);
    DigitsValueOfNatToString(offset1);
    DigitsValueOfNatToString(offset2);
  }

  /** A list path is the prefix followed by the limit's digits and the offset parameter. */
  lemma ListPathShape(limit: nat, offset: nat)
    ensures ListPath(limit, offset) == ListPrefix + (NatToString(limit) + (OffsetParam + NatToString(offset)))
  {
  }

  /** Equal strings with the same start agree after it. */
  lemma PrefixCancel(a: string, x: string, y: string)
    requires a + x == a + y
    ensures x == y
  {
    assert x == (a + x)[|a|..];
    assert y == (a + y)[|a|..];
  }

  /** A digit run followed by a text that starts with a non-digit is
      determined by the whole string, and so is the text. */
  lemma DigitsThenInjective(d1: string, t1: string, d2: string, t2: string)
    requires AllDigits(d1) && AllDigits(d2)
    requires t1 != [] && !IsDigit(t1[0]) && t2 != [] && !IsDigit(t2[0])
    requires d1 + t1 == d2 + t2
    ensures d1 == d2 && t1 == t2
  {
    LeadingDigitsOfDigitsThen(d1, t1);
    LeadingDigitsOfDigitsThen(d2, t2);
    assert t1 == (d1 + t1)[|d1|..];
    assert t2 == (d2 + t2)[|d2|..];
  }

  /** The endpoint a request path addresses, told apart by its prefix. */
  datatype Endpoint = ListEndpoint | DetailEndpoint | SpeciesEndpoint | TypeEndpoint | AllTypesEndpoint | OtherEndpoint

  function EndpointOf(path: string): Endpoint
  {
    if StartsWith(path, "/pokemon?") then ListEndpoint
    else if StartsWith(path, DetailPrefix) then DetailEndpoint
    else if StartsWith(path, SpeciesPrefix) then SpeciesEndpoint
    else if StartsWith(path, TypePrefix) then TypeEndpoint
    else if path == AllTypesPath then AllTypesEndpoint
    else OtherEndpoint
  }

  /** Every API method's path addresses its own endpoint, whatever name or
      number is inserted, so requests of different methods never share a path. */
  lemma PathsAddressTheirEndpoint(limit: nat, offset: nat, key: NameOrId, typeName: string)
    ensures EndpointOf(ListPath(limit, offset)) == ListEndpoint
    ensures EndpointOf(DetailPath(key)) == DetailEndpoint
    ensures EndpointOf(SpeciesPath(key)) == SpeciesEndpoint
    ensures EndpointOf(TypePath(typeName)) == TypeEndpoint
    ensures EndpointOf(AllTypesPath) == AllTypesEndpoint
  {
    ListPathEndpoint(limit, offset);
    DetailPathEndpoint(key);
    SpeciesPathEndpoint(key);
    TypePathEndpoint(typeName);
    assert |AllTypesPath| < |TypePrefix| < |DetailPrefix|;
  }

  lemma ListPathEndpoint(limit: nat, offset: nat)
    ensures EndpointOf(ListPath(limit, offset)) == ListEndpoint
  {
    var l := ListPath(limit, offset);
    ListPathShape(limit, offset);
    assert l[..9] == ListPrefix[..9] == "/pokemon?";
  }

  lemma DetailPathEndpoint(key: NameOrId)
    ensures EndpointOf(DetailPath(key)) == DetailEndpoint
  {
    var d := DetailPath(key);
    assert d[..9] == DetailPrefix;
    assert d[8] == '/';
  }

  lemma SpeciesPathEndpoint(key: NameOrId)
    ensures EndpointOf(SpeciesPath(key)) == SpeciesEndpoint
  {
    var s := SpeciesPath(key);
    assert s[..|SpeciesPrefix|] == SpeciesPrefix;
    assert s[8] == '-';
  }

  lemma TypePathEndpoint(typeName: string)
    ensures EndpointOf(TypePath(typeName)) == TypeEndpoint
  {
    var t := TypePath(typeName);
    assert t[..|TypePrefix|] == TypePrefix;
    assert t[1] == 't';
  }


  /** extractIdFromUrl: the second-to-last `/`-separated piece of the URL,
      read by parseInt; a URL with fewer than two pieces reads parseInt of
      undefined, which is NaN. */
  function ExtractIdFromUrl(url: string): IntOrNaN
  {
    var parts := Split(url, '/');
    if |parts| < 2 then NaN else ParseInt(parts[|parts| - 2])
  }

  /** The piece read is the one between the last two slashes. */
  lemma ExtractIdReadsSecondToLastPiece(prefix: string, piece: string, last: string)
    requires '/' !in piece && '/' !in last
    ensures ExtractIdFromUrl(prefix + "/" + piece + "/" + last) == ParseInt(piece)
  {
    SplitWithoutSeparator(piece, '/');
    SplitWithoutSeparator(last, '/');
    SplitAtSeparator(piece, '/', last);
    assert prefix + "/" + piece + "/" + last == prefix + ['/'] + (piece + ['/'] + last);
    SplitAtSeparator(prefix, '/', piece + ['/'] + last);
  }

  /** With a trailing slash the piece read is the last one before it. */
  lemma ExtractIdReadsTrailingPiece(prefix: string, piece: string)
    requires '/' !in piece
    ensures ExtractIdFromUrl(prefix + "/" + piece + "/") == ParseInt(piece)
  {
    ExtractIdReadsSecondToLastPiece(prefix, piece, "");
    assert prefix + "/" + piece + "/" + "" == prefix + "/" + piece + "/";
  }

  /** A resource URL ending in "/{n}/" yields n. */
  lemma ExtractIdRoundTrip(prefix: string, n: nat)
    ensures ExtractIdFromUrl(prefix + "/" + NatToString(n) + "/") == Int(n)
  {
    var d := NatToString(n);
    assert '/' !in d;
    ExtractIdReadsTrailingPiece(prefix, d);
    ParseIntOfNatToString(n, []);
    assert d + [] == d;
  }

  /** The resource URL of Pikachu yields 25. */
  lemma ExtractIdExample()
    ensures ExtractIdFromUrl("https://pokeapi.co/api/v2/pokemon/25/") == Int(25)
  {
    var prefix := "https://pokeapi.co/api/v2/pokemon";
    assert NatToString(25) == "25";
    ExtractIdRoundTrip(prefix, 25);
    assert prefix + "/" + NatToString(25) + "/" == "https://pokeapi.co/api/v2/pokemon/25/";
  }

  /** Without the trailing slash the piece read is "pokemon", which is NaN. */
  lemma ExtractIdWithoutTrailingSlash(base: string, n: nat)
    ensures ExtractIdFromUrl(base + "/pokemon/" + NatToString(n)) == NaN
  {
    var d := NatToString(n);
    assert '/' !in d;
    var word := "pokemon";
    assert '/' !in word;
    assert "/" + word + "/" == "/pokemon/";
    calc {
      ExtractIdFromUrl(base + "/pokemon/" + d);
      { assert base + "/pokemon/" + d == base + "/" + word + "/" + d; }
      ExtractIdFromUrl(base + "/" + word + "/" + d);
      { ExtractIdReadsSecondToLastPiece(base, word, d); }
      ParseInt(word);
      { ParseIntNoLeadingDigit(word); }
      NaN;
    }
  }

  /** A URL with no slash splits into one piece and yields NaN. */
  lemma ExtractIdWithoutSlash(url: string)
    requires '/' !in url
    ensures ExtractIdFromUrl(url) == NaN
  {
    SplitWithoutSeparator(url, '/');
  }

  /** A piece with digits followed by other characters reads as its leading digits. */
  lemma ExtractIdLeadingDigits(prefix: string, n: nat, tail: string)
    requires '/' !in tail && (tail == [] || !IsDigit(tail[0]))
    ensures ExtractIdFromUrl(prefix + "/" + (NatToString(n) + tail) + "/") == Int(n)
  {
    var d := NatToString(n);
    assert '/' !in d + tail;
    ExtractIdReadsTrailingPiece(prefix, d + tail);
    ParseIntOfNatToString(n, tail);
  }

  const ArtworkPrefix: string := "https://raw.githubusercontent.com/PokeAPI/sprites/master/sprites/pokemon/other/official-artwork/"
  const ArtworkSuffix: string := ".png"

  /** getPokemonImageUrl: the official-artwork URL of an identifier. */
  function PokemonImageUrl(id: int): string
  {
    ArtworkPrefix + IntToString(id) + ArtworkSuffix
  }

  /** The artwork URL has the fixed prefix and suffix, and the text between
      them reads back as the identifier, so different identifiers give
      different URLs. */
  lemma PokemonImageUrlRoundTrip(id: int)
    ensures StartsWith(PokemonImageUrl(id), ArtworkPrefix)
    ensures |PokemonImageUrl(id)| > |ArtworkPrefix| + |ArtworkSuffix|
    ensures PokemonImageUrl(id)[|PokemonImageUrl(id)| - |ArtworkSuffix|..] == ArtworkSuffix
    ensures ParseInt(PokemonImageUrl(id)[|ArtworkPrefix|..|PokemonImageUrl(id)| - |ArtworkSuffix|]) == Int(id)
  {
    var u := PokemonImageUrl(id);
    var d := IntToString(id);
    assert u[..|ArtworkPrefix|] == ArtworkPrefix;
    calc {
      ParseInt(u[|ArtworkPrefix|..|u| - |ArtworkSuffix|]);
      { assert u[|ArtworkPrefix|..|u| - |ArtworkSuffix|] == d; }
      ParseInt(d);
      Int(id);
    }
  }
}
