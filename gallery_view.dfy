/** The gallery page (src/pages/GalleryView.tsx): the selection of type
    names the user toggles, the type-filtered list it shows, the row of
    filter buttons, the results line and the empty-result notice. */
module GalleryView {

  import opened JsString
  import opened Seqs
  import opened PokemonTypes
  import opened UsePokemon

  // ---------------------------------------------------------------------
  // handleTypeToggle

  /** `prev.filter(t => t !== typeName)`: every occurrence of t removed, the
      other names kept in order and as often as before. */
  function Without(s: seq<string>, t: string): (r: seq<string>)
    ensures IsSubsequence(r, s)
    ensures t !in r
    ensures forall x :: x != t ==> multiset(r)[x] == multiset(s)[x]
    ensures |r| == |s| - multiset(s)[t]
  {
    if s == [] then []
    else
      assert s == [s[0]] + s[1..];
      if s[0] != t then [s[0]] + Without(s[1..], t) else Without(s[1..], t)
  }

  /** The selection after the button of type t is pressed: t removed when
      it was selected, otherwise appended at the end. */
  function Toggled(prev: seq<string>, t: string): (r: seq<string>)
    ensures t in r <==> t !in prev
    ensures forall x :: x != t ==> (x in r <==> x in prev)
    ensures t in prev ==> r == Without(prev, t) && IsSubsequence(r, prev) && |r| < |prev|
    ensures t !in prev ==> r == prev + [t]
  {
    if t in prev then
      var r := Without(prev, t);
      assert multiset(prev)[t] > 0;
      forall x | x != t ensures x in r <==> x in prev {
        assert x in r <==> multiset(r)[x] > 0;
        assert x in prev <==> multiset(prev)[x] > 0;
      }
      r
    else
      prev + [t]
  }

  /** Pressing a button never selects a name twice. */
  lemma ToggleKeepsDistinct(prev: seq<string>, t: string)
    requires Distinct(prev)
    ensures Distinct(Toggled(prev, t))
  {
    var r := Toggled(prev, t);
    if t in prev {
      SubsequenceOfDistinct(r, prev);
    } else {
      forall i, j | 0 <= i < j < |r| ensures r[i] != r[j] {
        if j == |prev| {
          assert r[i] == prev[i] && r[j] == t;
        } else {
          assert r[i] == prev[i] && r[j] == prev[j];
        }
      }
    }
  }

  /** On a duplicate-free selection a press selects or deselects exactly
      one name. */
  lemma ToggleChangesSizeByOne(prev: seq<string>, t: string)
    requires Distinct(prev)
    ensures |Toggled(prev, t)| == if t in prev then |prev| - 1 else |prev| + 1
  {
    if t in prev {
      DistinctCount(prev, t);
      assert multiset(prev)[t] == 1;
    }
  }

  /** Removing a name that is not there changes nothing. */
  lemma {:induction false} WithoutAbsent(s: seq<string>, t: string)
    requires t !in s
    ensures Without(s, t) == s
  {
    if s != [] {
      WithoutAbsent(s[1..], t);
      assert s == [s[0]] + s[1..];
    }
  }

  /** Removing t from a list starting with another name keeps that name in front. */
  lemma WithoutCons(x: string, rest: seq<string>, t: string)
    requires x != t
    ensures Without([x] + rest, t) == [x] + Without(rest, t)
  {
    assert ([x] + rest)[1..] == rest;
  }

  /** Removing a name from a list that ends in it and holds it nowhere else
      gives back the rest. */
  lemma {:induction false} WithoutAppended(s: seq<string>, t: string)
    requires t !in s
    ensures Without(s + [t], t) == s
  {
    if s == [] {
      assert [t][1..] == [];
    } else {
      var u := s[1..];
      assert t !in u;
      calc {
        Without(s + [t], t);
        { assert s + [t] == [s[0]] + (u + [t]); }
        Without([s[0]] + (u + [t]), t);
        { WithoutCons(s[0], u + [t], t); }
        [s[0]] + Without(u + [t], t);
        { WithoutAppended(u, t); }
        [s[0]] + u;
        s;
      }
    }
  }

  /** Pressing the same button twice on a name not yet selected gives back
      the selection exactly. */
  lemma ToggleTwiceRestores(prev: seq<string>, t: string)
    requires t !in prev
    ensures Toggled(Toggled(prev, t), t) == prev
  {
    assert t in prev + [t];
    WithoutAppended(prev, t);
  }

  /** Pressing the same button twice always leaves the gallery showing the
      same items, even when t moves to the end of the selection. */
  lemma ToggleTwiceShowsSame(list: seq<Pokemon>, prev: seq<string>, t: string)
    ensures FilterByType(list, Toggled(Toggled(prev, t), t)) == FilterByType(list, prev)
  {
    var twice := Toggled(Toggled(prev, t), t);
    assert forall x :: x in twice <==> x in prev;
    FilterBySameSelection(list, twice, prev);
  }

  // ---------------------------------------------------------------------
  // What the page shows

  /** The maximum number of type buttons shown. */
  const MaxFilterButtons: nat := 18

  /** `types.slice(0, 18)`: the first 18 type names, or all when fewer. */
  function FilterButtons(types: seq<string>): (r: seq<string>)
    ensures |r| <= MaxFilterButtons && |r| <= |types|
    ensures |types| <= MaxFilterButtons ==> r == types
    ensures |types| > MaxFilterButtons ==> |r| == MaxFilterButtons
    ensures forall i :: 0 <= i < |r| ==> r[i] == types[i]
  {
    if |types| <= MaxFilterButtons then types else types[..MaxFilterButtons]
  }

  /** The text after the count when types are selected:
      " with type: a" or " with types: a, b, ..." ; empty otherwise. */
  function TypeSuffix(selected: seq<string>): string
  {
    if |selected| > 0 then
      " with type" + (if |selected| > 1 then "s" else "") + ": " + Join(selected, ", ")
    else ""
  }

  const CountPrefix: string := "Showing "
  const CountSuffix: string := " Pokémon"

  /** "Showing {n} Pokémon", the count line of both the gallery and the list page. */
  function CountLabel(shown: nat): string
  {
    CountPrefix + NatToString(shown) + CountSuffix
  }

  /** The results line of the gallery: the count, then the selection. */
  function ResultsLabel(shown: nat, selected: seq<string>): string
  {
    CountLabel(shown) + TypeSuffix(selected)
  }

  /** Regrouping the four parts of the results line. */
  lemma Regroup(a: string, b: string, c: string, d: string)
    ensures a + b + c + d == a + (b + (c + d))
  {
  }

  /** The number in the results line reads back as the number of items
      shown, whatever the selection. */
  lemma ResultsLabelCount(shown: nat, selected: seq<string>)
    ensures StartsWith(ResultsLabel(shown, selected), CountPrefix)
    ensures ParseInt(ResultsLabel(shown, selected)[|CountPrefix|..]) == Int(shown)
  {
    var d := NatToString(shown);
    var rest := CountSuffix + TypeSuffix(selected);
    Regroup(CountPrefix, d, CountSuffix, TypeSuffix(selected));
    StartsWithConcat(CountPrefix, d + rest);
    assert rest[0] == ' ';
    ParseIntOfNatToString(shown, rest);
  }

  /** The two spellings of the word before the names. */
  lemma TypeWords()
    ensures " with type" + "" + ": " == " with type: "
    ensures " with type" + "s" + ": " == " with types: "
  {
  }

  /** The selection part of the results line: absent exactly when nothing
      is selected, singular for one name, plural and comma-separated for more. */
  lemma TypeSuffixShape(selected: seq<string>)
    ensures TypeSuffix(selected) == "" <==> selected == []
    ensures |selected| == 1 ==> TypeSuffix(selected) == " with type: " + selected[0]
    ensures |selected| > 1 ==> TypeSuffix(selected) == " with types: " + Join(selected, ", ")
  {
    TypeWords();
    if |selected| == 1 {
      assert Join(selected, ", ") == selected[0];
    }
  }

  /** The empty-result notice: nothing shown while some type is selected. */
  predicate ShowsNoResults(filtered: seq<Pokemon>, selected: seq<string>)
  {
    |filtered| == 0 && |selected| > 0
  }

  /** The notice appears exactly when a selection is active and no item of
      the list has any selected type. */
  lemma NoResultsIff(list: seq<Pokemon>, selected: seq<string>)
    ensures ShowsNoResults(FilterByType(list, selected), selected) <==>
              (selected != [] && forall p :: p in list ==> !HasSelectedType(p, selected))
  {
    var r := FilterByType(list, selected);
    if selected != [] {
      if r == [] {
        forall p | p in list ensures !HasSelectedType(p, selected) {
          assert multiset(list)[p] > 0;
          assert multiset(r)[p] == 0;
        }
      } else {
        assert multiset(r)[r[0]] > 0;
        assert r[0] in list by {
          assert multiset(list)[r[0]] > 0;
        }
      }
    }
  }

  // ---------------------------------------------------------------------
  // The page state

  /** The gallery's selection of type names. */
  class Gallery {
    var selectedTypes: seq<string>

    /** Toggling keeps every name selected at most once. */
    predicate Valid()
      reads this
    {
      Distinct(selectedTypes)
    }

    constructor ()
      ensures Valid() && selectedTypes == []
    {
      selectedTypes := [];
    }

    /** handleTypeToggle. */
    method HandleTypeToggle(typeName: string)
      requires Valid()
      modifies this
      ensures Valid()
      ensures selectedTypes == Toggled(old(selectedTypes), typeName)
      ensures |selectedTypes| == if typeName in old(selectedTypes) then |old(selectedTypes)| - 1 else |old(selectedTypes)| + 1
    {
      ToggleKeepsDistinct(selectedTypes, typeName);
      ToggleChangesSizeByOne(selectedTypes, typeName);
      selectedTypes := Toggled(selectedTypes, typeName);
    }

    /** clearFilters: the selection emptied, so the whole list is shown. */
    method ClearFilters(list: seq<Pokemon>)
      modifies this
      ensures Valid() && selectedTypes == []
      ensures FilteredPokemon(list) == list
    {
      selectedTypes := [];
    }

    /** filteredPokemon: the list filtered by the current selection, each
      kept item as many times as the list holds it. */
    function FilteredPokemon(list: seq<Pokemon>): (r: seq<Pokemon>)
      reads this
      ensures IsSubsequence(r, list)
      ensures selectedTypes == [] ==> r == list
      ensures forall p :: p in r <==> p in list && (selectedTypes == [] || HasSelectedType(p, selectedTypes))
      ensures selectedTypes != [] ==> forall p :: multiset(r)[p] == if HasSelectedType(p, selectedTypes) then multiset(list)[p] else 0
    {
      var r := FilterByType(list, selectedTypes);
      if selectedTypes == [] then
        SubsequenceReflexive(list);
        r
      else
        assert forall p :: p in r <==> multiset(r)[p] > 0;
        assert forall p :: p in list <==> multiset(list)[p] > 0;
        r
    }
  }
}
