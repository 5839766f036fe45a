/** The client-side filter (`filterCharacters`): up to three `Array.prototype.filter`
    passes over the catalog, each switched off by an empty filter value. */
module Filter {
  import opened Characters
  import opened Text

  /** `a` is an order-preserving subsequence of `b`: `b` with some elements removed. */
  predicate IsSubsequence<T(==,!new)>(a: seq<T>, b: seq<T>)
    decreases |b|
  {
    if a == [] then true
    else if b == [] then false
    else if a[0] == b[0] then IsSubsequence(a[1..], b[1..])
    else IsSubsequence(a, b[1..])
  }

  /** `s.filter(p)`: the elements of `s` that satisfy `p`, in their original order. */
  function Keep<T(==,!new)>(s: seq<T>, p: T -> bool): (r: seq<T>)
    ensures IsSubsequence(r, s)
    ensures forall x :: x in r ==> p(x)
    ensures forall x :: multiset(r)[x] == if p(x) then multiset(s)[x] else 0
    decreases |s|
  {
    if s == [] then []
    else
      var rest := Keep(s[1..], p);
      assert s == [s[0]] + s[1..];
      if p(s[0]) then [s[0]] + rest
      else
        assert rest != [] ==> rest[0] != s[0];
        rest
  }

  /** Filtering twice is filtering once by the conjunction of both conditions. */
  lemma {:induction false} KeepFusion<T(!new)>(s: seq<T>, p: T -> bool, q: T -> bool, both: T -> bool)
    requires forall x :: both(x) == (p(x) && q(x))
    ensures Keep(Keep(s, p), q) == Keep(s, both)
    decreases |s|
  {
    if s != [] {
      KeepFusion(s[1..], p, q, both);
      if p(s[0]) {
        assert Keep(s, p) == [s[0]] + Keep(s[1..], p);
        assert ([s[0]] + Keep(s[1..], p))[1..] == Keep(s[1..], p);
      }
    }
  }

  /** A condition every element satisfies removes nothing. */
  lemma {:induction false} KeepAll<T(!new)>(s: seq<T>, p: T -> bool)
    requires forall x :: x in s ==> p(x)
    ensures Keep(s, p) == s
    decreases |s|
  {
    if s != [] {
      assert forall x :: x in s[1..] ==> x in s;
      KeepAll(s[1..], p);
      assert [s[0]] + s[1..] == s;
    }
  }

  /** The three filter inputs; the empty string means "no constraint". */
  datatype Filters = Filters(search: string, species: string, status: string)

  const NoFilters := Filters("", "", "")

  /** The name test: the lower-cased search text occurs in the lower-cased name. */
  predicate NameMatches(c: Character, search: string)
  {
    Includes(Lower(c.name), Lower(search))
  }

  /** The search pass (lines 44-48): skipped when the search text is empty. */
  function ByName(characters: seq<Character>, search: string): seq<Character>
  {
    if search != "" then Keep(characters, (c: Character) => NameMatches(c, search)) else characters
  }

  /** The species pass (lines 50-52): exact, case-sensitive equality. */
  function BySpecies(characters: seq<Character>, species: string): seq<Character>
  {
    if species != "" then Keep(characters, (c: Character) => c.species == species) else characters
  }

  /** The status pass (lines 54-56): exact, case-sensitive equality. */
  function ByStatus(characters: seq<Character>, status: string): seq<Character>
  {
    if status != "" then Keep(characters, (c: Character) => c.status == status) else characters
  }

  /** The filter pipeline exactly as the component runs it: the name pass, then the
      species pass, then the status pass. */
  function FilterCharacters(characters: seq<Character>, f: Filters): (r: seq<Character>)
    ensures r == Keep(characters, (c: Character) => Admits(f, c))
    ensures IsSubsequence(r, characters)
    ensures forall c :: c in r <==> c in characters && Admits(f, c)
    ensures forall c :: multiset(r)[c] == if Admits(f, c) then multiset(characters)[c] else 0
  {
    var r := ByStatus(BySpecies(ByName(characters, f.search), f.species), f.status);
    var admits := (c: Character) => Admits(f, c);
    FilterIsOnePass(characters, f);
    assert r == Keep(characters, admits);
    assert forall c :: multiset(r)[c] == if admits(c) then multiset(characters)[c] else 0;
    assert forall c :: c in r <==> multiset(r)[c] > 0;
    r
  }

  /** The single-pass reference: a character is kept when it satisfies every
      active condition. */
  predicate Admits(f: Filters, c: Character)
  {
    && (f.search == "" || NameMatches(c, f.search))
    && (f.species == "" || c.species == f.species)
    && (f.status == "" || c.status == f.status)
  }

  /** The three successive passes keep exactly what one pass with `Admits` keeps. */
  lemma FilterIsOnePass(characters: seq<Character>, f: Filters)
    ensures ByStatus(BySpecies(ByName(characters, f.search), f.species), f.status)
         == Keep(characters, (c: Character) => Admits(f, c))
  {
    var nameOk := (c: Character) => f.search == "" || NameMatches(c, f.search);
    var speciesOk := (c: Character) => f.species == "" || c.species == f.species;
    var statusOk := (c: Character) => f.status == "" || c.status == f.status;
    var nameAndSpecies := (c: Character) => nameOk(c) && speciesOk(c);
    var byName := ByName(characters, f.search);
    var bySpecies := BySpecies(byName, f.species);
    if f.search != "" {
      PointwiseKeep(characters, (c: Character) => NameMatches(c, f.search), nameOk);
    } else {
      KeepAll(characters, nameOk);
    }
    assert byName == Keep(characters, nameOk);
    if f.species != "" {
      PointwiseKeep(byName, (c: Character) => c.species == f.species, speciesOk);
    } else {
      KeepAll(byName, speciesOk);
    }
    KeepFusion(characters, nameOk, speciesOk, nameAndSpecies);
    assert bySpecies == Keep(characters, nameAndSpecies);
    if f.status != "" {
      PointwiseKeep(bySpecies, (c: Character) => c.status == f.status, statusOk);
    } else {
      KeepAll(bySpecies, statusOk);
    }
    KeepFusion(characters, nameAndSpecies, statusOk, (c: Character) => Admits(f, c));
  }

  /** Two conditions that agree on every element filter alike. */
  lemma {:induction false} PointwiseKeep<T(!new)>(s: seq<T>, p: T -> bool, q: T -> bool)
    requires forall x :: p(x) == q(x)
    ensures Keep(s, p) == Keep(s, q)
    decreases |s|
  {
    if s != [] {
      PointwiseKeep(s[1..], p, q);
    }
  }

  /** With the search box and both drop-downs empty the catalog passes unchanged. */
  lemma NoFiltersKeepsCatalog(characters: seq<Character>)
    ensures FilterCharacters(characters, NoFilters) == characters
  {
  }

  /** Filtering an already filtered list with the same inputs removes nothing more. */
  lemma FilterIdempotent(characters: seq<Character>, f: Filters)
    ensures FilterCharacters(FilterCharacters(characters, f), f) == FilterCharacters(characters, f)
  {
    var admits := (c: Character) => Admits(f, c);
    KeepFusion(characters, admits, admits, admits);
  }

  /** The lower-cased forms the search example compares. */
  lemma RickSanchezLowered()
    ensures Lower("Rick Sanchez") == "rick sanchez"
    ensures Lower("rick") == "rick" && Lower("SANCHEZ") == "sanchez"
    ensures Lower("ck san") == "ck san" && Lower("morty") == "morty"
  {
    assert Lower("Rick Sanchez") == "rick sanchez";
    assert Lower("SANCHEZ") == "sanchez";
  }

  /** The name search ignores case and matches inside the name: "Rick Sanchez" is
      found by "rick", "SANCHEZ" and "ck san", but not by "morty". */
  lemma RickSanchezSearch()
    ensures var rick := Character(1, "Rick Sanchez", "Human", "Alive");
            && NameMatches(rick, "rick")
            && NameMatches(rick, "SANCHEZ")
            && NameMatches(rick, "ck san")
            && !NameMatches(rick, "morty")
  {
    RickSanchezLowered();
    var name := "rick sanchez";
    assert name[0..4] == "rick";
    IncludesAt(name, "rick", 0);
    assert name[5..12] == "sanchez";
    IncludesAt(name, "sanchez", 5);
    assert name[2..8] == "ck san";
    IncludesAt(name, "ck san", 2);
    assert forall i :: 0 <= i < |name| ==> name[i] != 'm';
    AbsentFirstCharacter(name, "morty");
  }
}
