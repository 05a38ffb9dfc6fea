/** The collection query engine and load state of the usePokemon hook
    (src/hooks/usePokemon.ts): search, sort and type filtering over the
    fetched list, and the state the two load routines update. */
module UsePokemon {

  import opened Wrappers
  import opened JsString
  import opened Seqs
  import opened PokemonTypes
  import opened PokemonApi

  // ---------------------------------------------------------------------
  // searchPokemon

  /** Some type name of p, lowered, contains the lowered term. */
  predicate SomeTypeContains(p: Pokemon, loweredTerm: string)
  {
    exists i :: 0 <= i < |p.types| && Includes(ToLower(p.types[i].typeRef.name), loweredTerm)
  }

  /** The search predicate: the lowered name contains the lowered term, or
      the decimal id contains the raw term, or some lowered type name
      contains the lowered term. The term itself is not trimmed. */
  predicate Matches(p: Pokemon, term: string)
  {
    || Includes(ToLower(p.name), ToLower(term))
    || Includes(NatToString(p.id), term)
    || SomeTypeContains(p, ToLower(term))
  }

  /** `pokemonList.filter(...)` with the search predicate. */
  function KeepMatching(list: seq<Pokemon>, term: string): (r: seq<Pokemon>)
    ensures IsSubsequence(r, list)
    ensures forall p :: multiset(r)[p] == if Matches(p, term) then multiset(list)[p] else 0
  {
    if list == [] then []
    else
      assert list == [list[0]] + list[1..];
      if Matches(list[0], term) then [list[0]] + KeepMatching(list[1..], term)
      else KeepMatching(list[1..], term)
  }

  /** searchPokemon: the whole list for an empty or whitespace-only term,
      otherwise the items the term matches, in their original order. */
  function SearchPokemon(list: seq<Pokemon>, term: string): (r: seq<Pokemon>)
    ensures IsBlank(term) ==> r == list
    ensures !IsBlank(term) ==> IsSubsequence(r, list)
    ensures !IsBlank(term) ==> forall p :: multiset(r)[p] == if Matches(p, term) then multiset(list)[p] else 0
  {
    if IsBlank(term) then list else KeepMatching(list, term)
  }

  /** A non-blank search keeps an item exactly when the item is in the list
      and the term matches it, and never lengthens the list. */
  lemma SearchMembership(list: seq<Pokemon>, term: string, p: Pokemon)
    requires !IsBlank(term)
    ensures p in SearchPokemon(list, term) <==> p in list && Matches(p, term)
    ensures |SearchPokemon(list, term)| <= |list|
  {
    SubsequenceShape(SearchPokemon(list, term), list);
    assert p in SearchPokemon(list, term) <==> multiset(SearchPokemon(list, term))[p] > 0;
    assert p in list <==> multiset(list)[p] > 0;
  }

  // ---------------------------------------------------------------------
  // filterByType

  /** Some type name of p is among the selected names. */
  predicate HasSelectedType(p: Pokemon, selected: seq<string>)
  {
    exists i :: 0 <= i < |p.types| && p.types[i].typeRef.name in selected
  }

  /** `pokemon.filter(...)` with the any-selected-type predicate. */
  function KeepWithSelectedType(list: seq<Pokemon>, selected: seq<string>): (r: seq<Pokemon>)
    ensures IsSubsequence(r, list)
    ensures forall p :: multiset(r)[p] == if HasSelectedType(p, selected) then multiset(list)[p] else 0
  {
    if list == [] then []
    else
      assert list == [list[0]] + list[1..];
      if HasSelectedType(list[0], selected) then [list[0]] + KeepWithSelectedType(list[1..], selected)
      else KeepWithSelectedType(list[1..], selected)
  }

  /** filterByType: the list as is when nothing is selected, otherwise the
      items having at least one selected type, in their original order. */
  function FilterByType(list: seq<Pokemon>, selected: seq<string>): (r: seq<Pokemon>)
    ensures selected == [] ==> r == list
    ensures selected != [] ==> IsSubsequence(r, list)
    ensures selected != [] ==> forall p :: multiset(r)[p] == if HasSelectedType(p, selected) then multiset(list)[p] else 0
  {
    if |selected| == 0 then list else KeepWithSelectedType(list, selected)
  }

  /** Selecting one type keeps exactly the items that have that type. */
  lemma FilterBySingleType(list: seq<Pokemon>, t: string, p: Pokemon)
    ensures p in FilterByType(list, [t]) <==> p in list && exists i :: 0 <= i < |p.types| && p.types[i].typeRef.name == t
  {
    var r := FilterByType(list, [t]);
    assert p in r <==> multiset(r)[p] > 0;
    assert p in list <==> multiset(list)[p] > 0;
  }

  /** Only the set of selected names matters: their order and repetitions
      do not change the result. */
  lemma {:induction false} FilterBySameSelection(list: seq<Pokemon>, s1: seq<string>, s2: seq<string>)
    requires forall t :: t in s1 <==> t in s2
    ensures FilterByType(list, s1) == FilterByType(list, s2)
  {
    assert s1 == [] <==> s2 == [] by {
      if s1 != [] {
        assert s1[0] in s2;
      }
      if s2 != [] {
        assert s2[0] in s1;
      }
    }
    KeepSameSelection(list, s1, s2);
  }

  lemma {:induction false} KeepSameSelection(list: seq<Pokemon>, s1: seq<string>, s2: seq<string>)
    requires forall t :: t in s1 <==> t in s2
    ensures KeepWithSelectedType(list, s1) == KeepWithSelectedType(list, s2)
  {
    if list != [] {
      KeepSameSelection(list[1..], s1, s2);
      assert HasSelectedType(list[0], s1) == HasSelectedType(list[0], s2);
    }
  }

  // ---------------------------------------------------------------------
  // sortPokemon

  /** The value the comparator reads from an item: a string for the name,
      a number for the other fields. */
  datatype Key = Text(text: string) | Number(number: int)

  function KeyOf(p: Pokemon, field: SortField): Key
  {
    match field
    case Name => Text(p.name)
    case Id => Number(p.id)
    case Height => Number(p.height)
    case Weight => Number(p.weight)
    case BaseExperience => Number(p.baseExperience)
  }

  /** The operator > on two keys: lexicographic for strings, numeric for numbers. */
  predicate KeyGreater(a: Key, b: Key)
  {
    match (a, b)
    case (Text(x), Text(y)) => LexLess(y, x)
    case (Number(x), Number(y)) => x > y
    case _ => false
  }

  /** The comparator sortPokemon passes to Array.prototype.sort. It returns
      1 or -1 and never 0, so two items with equal keys compare as -1 in
      both directions. */
  function Compare(a: Pokemon, b: Pokemon, field: SortField, order: SortOrder): int
  {
    var x, y := KeyOf(a, field), KeyOf(b, field);
    match order
    case Asc => if KeyGreater(x, y) then 1 else -1
    case Desc => if KeyGreater(y, x) then 1 else -1
  }

  /** a may stand before b in a list sorted by field in the given order:
      its key is not greater (ascending) or not smaller (descending). */
  predicate Precedes(a: Pokemon, b: Pokemon, field: SortField, order: SortOrder)
  {
    match order
    case Asc => !KeyGreater(KeyOf(a, field), KeyOf(b, field))
    case Desc => !KeyGreater(KeyOf(b, field), KeyOf(a, field))
  }

  predicate SortedBy(s: seq<Pokemon>, field: SortField, order: SortOrder)
  {
    forall i, j :: 0 <= i < j < |s| ==> Precedes(s[i], s[j], field, order)
  }

  /** The comparator agrees with the key order: a positive result puts a
      strictly after b, any other result lets a stand first. */
  lemma CompareAgreesWithKeyOrder(a: Pokemon, b: Pokemon, field: SortField, order: SortOrder)
    ensures Compare(a, b, field, order) > 0 ==> Precedes(b, a, field, order) && !Precedes(a, b, field, order)
    ensures Compare(a, b, field, order) <= 0 ==> Precedes(a, b, field, order)
    ensures Compare(a, b, field, order) != 0
  {
    if field == Name {
      LexAsymmetric(a.name, b.name);
    }
  }

  /** "May stand before" is transitive, for every field and order. */
  lemma PrecedesTransitive(a: Pokemon, b: Pokemon, c: Pokemon, field: SortField, order: SortOrder)
    requires Precedes(a, b, field, order) && Precedes(b, c, field, order)
    ensures Precedes(a, c, field, order)
  {
    if field == Name {
      if order == Asc {
        LexNotGreaterTransitive(a.name, b.name, c.name);
      } else {
        LexNotGreaterTransitive(c.name, b.name, a.name);
      }
    }
  }

  /** Inserts x into a list, passing over the items the comparator says x
      goes after. */
  function Insert(x: Pokemon, s: seq<Pokemon>, field: SortField, order: SortOrder): (r: seq<Pokemon>)
    ensures multiset(r) == multiset(s) + multiset{x}
    ensures SortedBy(s, field, order) ==> SortedBy(r, field, order)
  {
    if s == [] then [x]
    else
      assert s == [s[0]] + s[1..];
      CompareAgreesWithKeyOrder(x, s[0], field, order);
      if Compare(x, s[0], field, order) > 0 then
        var tail := Insert(x, s[1..], field, order);
        assert SortedBy(s, field, order) ==> SortedBy([s[0]] + tail, field, order) by {
          if SortedBy(s, field, order) {
            SortedAfterHead(s[0], s[1..], tail, x, field, order);
          }
        }
        [s[0]] + tail
      else
        assert SortedBy(s, field, order) ==> SortedBy([x] + s, field, order) by {
          if SortedBy(s, field, order) {
            SortedBeforeHead(x, s, field, order);
          }
        }
        [x] + s
  }

  /** Keeping the head of a sorted list in front of a sorted list holding the
      rest of it and one more item the head may precede stays sorted. */
  lemma SortedAfterHead(h: Pokemon, rest: seq<Pokemon>, tail: seq<Pokemon>, x: Pokemon, field: SortField, order: SortOrder)
    requires SortedBy([h] + rest, field, order) && SortedBy(tail, field, order)
    requires multiset(tail) == multiset(rest) + multiset{x} && Precedes(h, x, field, order)
    ensures SortedBy([h] + tail, field, order)
  {
    forall y | y in tail ensures Precedes(h, y, field, order) {
      assert y in multiset(tail);
      if y != x {
        assert y in rest;
        var k :| 0 <= k < |rest| && rest[k] == y;
        var hr := [h] + rest;
        assert hr[0] == h && hr[k + 1] == y;
        assert Precedes(hr[0], hr[k + 1], field, order);
      }
    }
    SortedCons(h, tail, field, order);
  }

  /** An item that may precede the head of a sorted list may go in front of it. */
  lemma SortedBeforeHead(x: Pokemon, s: seq<Pokemon>, field: SortField, order: SortOrder)
    requires SortedBy(s, field, order) && s != [] && Precedes(x, s[0], field, order)
    ensures SortedBy([x] + s, field, order)
  {
    forall y | y in s ensures Precedes(x, y, field, order) {
      var k :| 0 <= k < |s| && s[k] == y;
      if k > 0 {
        PrecedesTransitive(x, s[0], y, field, order);
      }
    }
    SortedCons(x, s, field, order);
  }

  /** Putting in front of a sorted list an item that may precede all of its
      items keeps it sorted. */
  lemma SortedCons(x: Pokemon, s: seq<Pokemon>, field: SortField, order: SortOrder)
    requires SortedBy(s, field, order)
    requires forall y :: y in s ==> Precedes(x, y, field, order)
    ensures SortedBy([x] + s, field, order)
  {
    var r := [x] + s;
    forall i, j | 0 <= i < j < |r| ensures Precedes(r[i], r[j], field, order) {
      if i > 0 {
        assert r[i] == s[i - 1] && r[j] == s[j - 1];
      } else {
        assert r[j] == s[j - 1];
      }
    }
  }

  /** sortPokemon: a copy of the list put in order by the comparator. The
      result holds the same items, as many times each, in non-decreasing
      (ascending) or non-increasing (descending) order of the field. Items
      with equal keys may come out in any order. */
  function SortPokemon(list: seq<Pokemon>, field: SortField, order: SortOrder): (r: seq<Pokemon>)
    ensures multiset(r) == multiset(list) && |r| == |list|
    ensures SortedBy(r, field, order)
  {
    if list == [] then []
    else
      assert list == [list[0]] + list[1..];
      Insert(list[0], SortPokemon(list[1..], field, order), field, order)
  }

  function Reverse(s: seq<Pokemon>): (r: seq<Pokemon>)
    ensures |r| == |s| && forall i :: 0 <= i < |s| ==> r[i] == s[|s| - 1 - i]
  {
    if s == [] then [] else Reverse(s[1..]) + [s[0]]
  }

  /** A list is in ascending order exactly when its reversal is in
      descending order; so the descending result and the reversed ascending
      result agree up to the order of equal keys. */
  lemma AscendingReversedIsDescending(s: seq<Pokemon>, field: SortField)
    ensures SortedBy(s, field, Asc) <==> SortedBy(Reverse(s), field, Desc)
  {
    var r := Reverse(s);
    if SortedBy(s, field, Asc) {
      forall i, j | 0 <= i < j < |r| ensures Precedes(r[i], r[j], field, Desc) {
        assert r[i] == s[|s| - 1 - i] && r[j] == s[|s| - 1 - j];
        assert Precedes(s[|s| - 1 - j], s[|s| - 1 - i], field, Asc);
      }
    }
    if SortedBy(r, field, Desc) {
      forall i, j | 0 <= i < j < |s| ensures Precedes(s[i], s[j], field, Asc) {
        assert s[i] == r[|s| - 1 - i] && s[j] == r[|s| - 1 - j];
        assert Precedes(r[|s| - 1 - j], r[|s| - 1 - i], field, Desc);
      }
    }
  }

  // ---------------------------------------------------------------------
  // loadPokemonData and loadTypes

  /** The size and offset of the list page the hook loads. */
  const LoadLimit: nat := 150
  const LoadOffset: nat := 0

  const LoadErrorMessage: string := "Failed to load Pokemon data"

  /** The detail request made for one summary: getPokemon of the identifier
      extracted from its URL (NaN when the URL does not hold one). */
  function DetailRequestPath(item: PokemonListItem): string
  {
    DetailPath(ByNumber(ExtractIdFromUrl(item.url)))
  }

  /** Every detail request for the summaries succeeds. */
  predicate AllReceived(items: seq<PokemonListItem>, detailAt: string -> Fetch<Pokemon>)
  {
    forall i :: 0 <= i < |items| ==> detailAt(DetailRequestPath(items[i])).Received?
  }

  /** details holds, position by position, the detail received for each summary. */
  predicate DetailsOf(details: seq<Pokemon>, items: seq<PokemonListItem>, detailAt: string -> Fetch<Pokemon>)
  {
    |details| == |items| &&
    forall i :: 0 <= i < |items| ==>
      detailAt(DetailRequestPath(items[i])) == Received(details[i])
  }

  /** Promise.all over the detail requests: every detail, in the order of
      the summaries, when every request succeeds; nothing as soon as one fails. */
  function FetchDetails(items: seq<PokemonListItem>, detailAt: string -> Fetch<Pokemon>): (r: Option<seq<Pokemon>>)
    ensures r.Some? <==> AllReceived(items, detailAt)
    ensures r.Some? ==> DetailsOf(r.value, items, detailAt)
  {
    if items == [] then Some([])
    else
      AllReceivedCons(items, detailAt);
      match detailAt(DetailRequestPath(items[0]))
      case TransportError => None
      case Received(first) =>
        match FetchDetails(items[1..], detailAt)
        case None => None
        case Some(rest) =>
          DetailsOfCons(first, rest, items, detailAt);
          Some([first] + rest)
  }

  /** All requests succeed exactly when the first one and all the others do. */
  lemma AllReceivedCons(items: seq<PokemonListItem>, detailAt: string -> Fetch<Pokemon>)
    requires items != []
    ensures AllReceived(items, detailAt) <==>
              (detailAt(DetailRequestPath(items[0])).Received? && AllReceived(items[1..], detailAt))
  {
    if detailAt(DetailRequestPath(items[0])).Received? && AllReceived(items[1..], detailAt) {
      AllReceivedFromTail(items, detailAt);
    }
    if AllReceived(items, detailAt) {
      AllReceivedOfTail(items, detailAt);
    }
  }

  lemma AllReceivedFromTail(items: seq<PokemonListItem>, detailAt: string -> Fetch<Pokemon>)
    requires items != [] && detailAt(DetailRequestPath(items[0])).Received?
    requires AllReceived(items[1..], detailAt)
    ensures AllReceived(items, detailAt)
  {
    var tail := items[1..];
    forall i | 0 <= i < |items| ensures detailAt(DetailRequestPath(items[i])).Received? {
      if i > 0 {
        assert items[i] == tail[i - 1];
        assert detailAt(DetailRequestPath(tail[i - 1])).Received?;
      }
    }
  }

  lemma AllReceivedOfTail(items: seq<PokemonListItem>, detailAt: string -> Fetch<Pokemon>)
    requires items != [] && AllReceived(items, detailAt)
    ensures AllReceived(items[1..], detailAt)
  {
    forall j | 0 <= j < |items[1..]| ensures detailAt(DetailRequestPath(items[1..][j])).Received? {
      assert items[1..][j] == items[j + 1];
    }
  }

  /** The first detail in front of the details of the other summaries are
      the details of all of them. */
  lemma DetailsOfCons(first: Pokemon, rest: seq<Pokemon>, items: seq<PokemonListItem>, detailAt: string -> Fetch<Pokemon>)
    requires items != [] && detailAt(DetailRequestPath(items[0])) == Received(first)
    requires DetailsOf(rest, items[1..], detailAt)
    ensures DetailsOf([first] + rest, items, detailAt)
  {
    var r := [first] + rest;
    forall i | 0 <= i < |items| ensures detailAt(DetailRequestPath(items[i])) == Received(r[i]) {
      if i > 0 {
        assert r[i] == rest[i - 1] && items[i] == items[1..][i - 1];
      }
    }
  }

  /** The outcome of one load cycle: the list request with the hook's page
      size and offset, then the details of every summary. */
  function LoadOutcome(listAt: string -> Fetch<PokemonListResponse>, detailAt: string -> Fetch<Pokemon>): (r: Option<seq<Pokemon>>)
    ensures r.Some? <==>
              (listAt(ListPath(LoadLimit, LoadOffset)).Received? &&
               AllReceived(listAt(ListPath(LoadLimit, LoadOffset)).data.results, detailAt))
    ensures r.Some? ==> DetailsOf(r.value, listAt(ListPath(LoadLimit, LoadOffset)).data.results, detailAt)
  {
    match listAt(ListPath(LoadLimit, LoadOffset))
    case TransportError => None
    case Received(page) => FetchDetails(page.results, detailAt)
  }

  function Names(resources: seq<NamedResource>): (names: seq<string>)
    ensures |names| == |resources|
    ensures forall i :: 0 <= i < |names| ==> names[i] == resources[i].name
  {
    seq(|resources|, i requires 0 <= i < |resources| => resources[i].name)
  }

  /** The state the hook exposes. The remote service is passed to each load
      as a function from request path to response. */
  class PokemonStore {
    var pokemonList: seq<Pokemon>
    var loading: bool
    var error: Option<string>
    var types: seq<string>

    /** The initial state: nothing loaded yet, and loading already true. */
    constructor ()
      ensures pokemonList == [] && loading && error == None && types == []
    {
      pokemonList := [];
      loading := true;
      error := None;
      types := [];
    }

    /** The first two setter calls of loadPokemonData. */
    method StartLoad()
      modifies this
      ensures loading && error == None
      ensures pokemonList == old(pokemonList) && types == old(types)
    {
      loading := true;
      error := None;
    }

    /** The catch and finally blocks: the list is replaced only on success,
      the error message is set only on failure, loading ends in both cases. */
    method FinishLoad(outcome: Option<seq<Pokemon>>)
      modifies this
      ensures !loading
      ensures outcome.Some? ==> pokemonList == outcome.value && error == old(error)
      ensures outcome.None? ==> pokemonList == old(pokemonList) && error == Some(LoadErrorMessage)
      ensures types == old(types)
    {
      if outcome.Some? {
        pokemonList := outcome.value;
      } else {
        error := Some(LoadErrorMessage);
      }
      loading := false;
    }

    /** loadPokemonData, also exposed as refetch. */
    method LoadPokemonData(listAt: string -> Fetch<PokemonListResponse>, detailAt: string -> Fetch<Pokemon>)
      modifies this
      ensures !loading && types == old(types)
      ensures LoadOutcome(listAt, detailAt).Some? ==> pokemonList == LoadOutcome(listAt, detailAt).value && error == None
      ensures LoadOutcome(listAt, detailAt).None? ==> pokemonList == old(pokemonList) && error == Some(LoadErrorMessage)
    {
      StartLoad();
      var outcome := LoadOutcome(listAt, detailAt);
      FinishLoad(outcome);
    }

    /** loadTypes: the names of the taxonomy response, in order, on success;
      on failure nothing changes (the error is only logged). */
    method LoadTypes(typesAt: string -> Fetch<TypeListResponse>)
      modifies this
      ensures typesAt(AllTypesPath).Received? ==> types == Names(typesAt(AllTypesPath).data.results)
      ensures typesAt(AllTypesPath).TransportError? ==> types == old(types)
      ensures pokemonList == old(pokemonList) && loading == old(loading) && error == old(error)
    {
      match typesAt(AllTypesPath)
      case Received(response) =>
        types := Names(response.results);
      case TransportError =>
    }

    /** The mount effect: loadPokemonData, then loadTypes. */
    method Mount(listAt: string -> Fetch<PokemonListResponse>, detailAt: string -> Fetch<Pokemon>, typesAt: string -> Fetch<TypeListResponse>)
      modifies this
      ensures !loading
      ensures LoadOutcome(listAt, detailAt).Some? ==> pokemonList == LoadOutcome(listAt, detailAt).value && error == None
      ensures LoadOutcome(listAt, detailAt).None? ==> pokemonList == old(pokemonList) && error == Some(LoadErrorMessage)
      ensures typesAt(AllTypesPath).Received? ==> types == Names(typesAt(AllTypesPath).data.results)
      ensures typesAt(AllTypesPath).TransportError? ==> types == old(types)
    {
      LoadPokemonData(listAt, detailAt);
      LoadTypes(typesAt);
    }
  }

  /** A load whose list holds n summaries and whose detail requests all
      succeed leaves exactly n items, the i-th being the detail fetched for
      the i-th summary; one failed detail request fails the whole cycle. */
  lemma LoadIsAllOrNothing(listAt: string -> Fetch<PokemonListResponse>, detailAt: string -> Fetch<Pokemon>, k: nat)
    requires listAt(ListPath(LoadLimit, LoadOffset)).Received?
    requires k < |listAt(ListPath(LoadLimit, LoadOffset)).data.results|
    ensures detailAt(DetailRequestPath(listAt(ListPath(LoadLimit, LoadOffset)).data.results[k])).TransportError?
            ==> LoadOutcome(listAt, detailAt) == None
    ensures LoadOutcome(listAt, detailAt).Some? ==>
            |LoadOutcome(listAt, detailAt).value| == |listAt(ListPath(LoadLimit, LoadOffset)).data.results|
            && LoadOutcome(listAt, detailAt).value[k]
               == detailAt(DetailRequestPath(listAt(ListPath(LoadLimit, LoadOffset)).data.results[k])).data
  {
  }
}
