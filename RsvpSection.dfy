/**
 * The RSVP guest lookup of `RSVPSection`: a fixed guest list, a
 * case-insensitive surname search gated on a minimum query length, selection
 * of a guest, and the path of the personalised invitation page.
 */
module RsvpSection {
  import opened JsString
  import opened Optional

  /** One invited party: `apellido` is the surname searched on,
      `nombreCompleto` the display name, `personas` the party size. */
  datatype Guest = Guest(id: int, apellido: string, nombreCompleto: string, personas: int)

  const Garcia := Guest(1, "García", "Familia García", 4)
  const Rodriguez := Guest(2, "Rodríguez", "Familia Rodríguez", 3)
  const Martinez := Guest(3, "Martínez", "Familia Martínez", 5)
  const Lopez := Guest(4, "López", "Familia López", 2)
  const Gonzalez := Guest(5, "González", "Familia González", 6)

  /** The hard-coded guest list, in its declared order. */
  const GuestList: seq<Guest> := [Garcia, Rodriguez, Martinez, Lopez, Gonzalez]

  /** Queries shorter than this show no results. */
  const MinQueryLength := 2

  /** Route prefix of a personalised invitation. */
  const InvitationRoute := "/invitacion/"

  /** Guest ids are pairwise distinct and every party has at least one person. */
  predicate WellFormed(guests: seq<Guest>)
  {
    && (forall i, j :: 0 <= i < j < |guests| ==> guests[i].id != guests[j].id)
    && (forall i :: 0 <= i < |guests| ==> guests[i].personas > 0)
  }

  lemma GuestListWellFormed()
    ensures WellFormed(GuestList)
  {
  }

  /**
   * The search predicate: the lower-cased surname includes the lower-cased
   * query. The empty query matches every guest; a query longer than the
   * surname matches none.
   */
  predicate Matches(g: Guest, query: string): (r: bool)
    ensures query == [] ==> r
    ensures r ==> |query| <= |g.apellido|
  {
    Includes(Lower(g.apellido), Lower(query))
  }

  /** `a` is `b` with some elements dropped, the rest kept in order. */
  predicate IsSubsequence(a: seq<Guest>, b: seq<Guest>)
    decreases |b|
  {
    a == [] || (b != [] && if a[0] == b[0] then IsSubsequence(a[1..], b[1..]) else IsSubsequence(a, b[1..]))
  }

  /**
   * `guests.filter(g => matches)`: the matching guests in their original
   * order, each as often as it occurs, and nothing else.
   */
  function Filter(guests: seq<Guest>, query: string): (r: seq<Guest>)
    ensures forall g :: g in r <==> g in guests && Matches(g, query)
  {
    if guests == [] then []
    else
      var rest := Filter(guests[1..], query);
      assert guests == [guests[0]] + guests[1..];
      if Matches(guests[0], query) then [guests[0]] + rest else rest
  }

  /** The result keeps the list order: it is the list with some guests dropped. */
  lemma {:induction false} FilterIsSubsequence(guests: seq<Guest>, query: string)
    ensures IsSubsequence(Filter(guests, query), guests)
    decreases |guests|
  {
    if guests != [] {
      var rest := Filter(guests[1..], query);
      FilterIsSubsequence(guests[1..], query);
      if Matches(guests[0], query) {
        assert ([guests[0]] + rest)[1..] == rest;
      } else if rest != [] {
        assert rest[0] in rest;
      }
    }
  }

  /** No matching guest is dropped or duplicated: each occurs in the result as
      often as in the list when it matches, and not at all otherwise. */
  lemma {:induction false} FilterCount(guests: seq<Guest>, query: string, g: Guest)
    ensures multiset(Filter(guests, query))[g] == if Matches(g, query) then multiset(guests)[g] else 0
    decreases |guests|
  {
    if guests != [] {
      FilterCount(guests[1..], query, g);
      assert guests == [guests[0]] + guests[1..];
    }
  }

  /** Filtering distributes over concatenation, so the order of the list is kept. */
  lemma {:induction false} FilterAppend(a: seq<Guest>, b: seq<Guest>, query: string)
    ensures Filter(a + b, query) == Filter(a, query) + Filter(b, query)
    decreases |a|
  {
    if a != [] {
      assert (a + b)[1..] == a[1..] + b;
      FilterAppend(a[1..], b, query);
    } else {
      assert a + b == b;
    }
  }

  /** A surname that lacks some character of the lower-cased query does not match. */
  lemma LacksCharNoMatch(g: Guest, query: string, k: int)
    requires 0 <= k < |query| && Lower(query)[k] !in Lower(g.apellido)
    ensures !Matches(g, query)
  {
    if Matches(g, query) {
      IncludesHasChar(Lower(g.apellido), Lower(query), k);
    }
  }

  /** Searching for a guest's own surname finds that guest. */
  lemma FindsOwnSurname(g: Guest, guests: seq<Guest>)
    requires g in guests
    ensures g in Filter(guests, g.apellido)
  {
    IncludesSelf(Lower(g.apellido));
  }

  /** What the filter keeps of one guest. */
  function Kept(g: Guest, query: string): seq<Guest>
  {
    if Matches(g, query) then [g] else []
  }

  /** The first guest is kept exactly when it matches; the rest is filtered on its own. */
  lemma FilterCons(g: Guest, rest: seq<Guest>, query: string)
    ensures Filter([g] + rest, query) == Kept(g, query) + Filter(rest, query)
  {
    assert ([g] + rest)[1..] == rest;
  }

  /** The filter of a five-guest list, one guest at a time. */
  lemma FilterFive(g1: Guest, g2: Guest, g3: Guest, g4: Guest, g5: Guest, query: string)
    ensures Filter([g1, g2, g3, g4, g5], query) ==
      Kept(g1, query) + (Kept(g2, query) + (Kept(g3, query) + (Kept(g4, query) + Kept(g5, query))))
  {
    assert [g1, g2, g3, g4, g5] == [g1] + [g2, g3, g4, g5];
    assert [g2, g3, g4, g5] == [g2] + [g3, g4, g5];
    assert [g3, g4, g5] == [g3] + [g4, g5];
    assert [g4, g5] == [g4] + [g5];
    assert [g5] == [g5] + [];
    FilterCons(g1, [g2, g3, g4, g5], query);
    FilterCons(g2, [g3, g4, g5], query);
    FilterCons(g3, [g4, g5], query);
    FilterCons(g4, [g5], query);
    FilterCons(g5, [], query);
    assert Kept(g5, query) + [] == Kept(g5, query);
  }

  /** A guest whose lower-cased surname holds the lower-cased query at position `i` matches. */
  lemma MatchAt(g: Guest, query: string, i: int)
    requires OccursAt(Lower(g.apellido), Lower(query), i)
    ensures Matches(g, query)
  {
  }

  /** The lower-cased surnames of the five guests. */
  lemma LowerSurnames()
    ensures Lower(Garcia.apellido) == "garcía"
    ensures Lower(Rodriguez.apellido) == "rodríguez"
    ensures Lower(Martinez.apellido) == "martínez"
    ensures Lower(Lopez.apellido) == "lópez"
    ensures Lower(Gonzalez.apellido) == "gonzález"
  {
  }

  /** Upper and lower case select the same guests: "GAR" and "gar" find only García. */
  lemma SearchGarIgnoresCase(query: string)
    requires query == "GAR" || query == "gar"
    ensures Filter(GuestList, query) == [Garcia]
  {
    assert Lower(query) == "gar";
    GarMatches(query);
    FilterFive(Garcia, Rodriguez, Martinez, Lopez, Gonzalez, query);
    assert [Garcia] + ([] + ([] + ([] + []))) == [Garcia];
  }

  /** "gar" matches García's surname and no other. */
  lemma GarMatches(query: string)
    requires Lower(query) == "gar"
    ensures Kept(Garcia, query) == [Garcia] && Kept(Rodriguez, query) == []
    ensures Kept(Martinez, query) == [] && Kept(Lopez, query) == [] && Kept(Gonzalez, query) == []
  {
    LowerSurnames();
    MatchAt(Garcia, query, 0);
    LacksCharNoMatch(Rodriguez, query, 1);
    LacksCharNoMatch(Martinez, query, 0);
    LacksCharNoMatch(Lopez, query, 0);
    LacksCharNoMatch(Gonzalez, query, 1);
  }

  /** A surname ending in the lower-cased query matches it. */
  lemma EndsWithQuery(g: Guest, query: string, surname: string)
    requires Lower(g.apellido) == surname && |Lower(query)| <= |surname|
    requires surname[|surname| - |Lower(query)|..] == Lower(query)
    ensures Matches(g, query)
  {
    MatchAt(g, query, |surname| - |Lower(query)|);
  }

  /** "ez" matches every surname but García's. */
  lemma EzMatches(query: string)
    requires Lower(query) == "ez"
    ensures Kept(Garcia, query) == []
    ensures Kept(Rodriguez, query) == [Rodriguez] && Kept(Martinez, query) == [Martinez]
    ensures Kept(Lopez, query) == [Lopez] && Kept(Gonzalez, query) == [Gonzalez]
  {
    LowerSurnames();
    LacksCharNoMatch(Garcia, query, 0);
    EndsWithQuery(Rodriguez, query, "rodríguez");
    EndsWithQuery(Martinez, query, "martínez");
    EndsWithQuery(Lopez, query, "lópez");
    EndsWithQuery(Gonzalez, query, "gonzález");
  }

  /** A substring inside a surname matches, in either case, and the list order is kept. */
  lemma SearchEzKeepsOrder(query: string)
    requires query == "ez" || query == "EZ"
    ensures Filter(GuestList, query) == [Rodriguez, Martinez, Lopez, Gonzalez]
  {
    assert Lower(query) == "ez";
    EzMatches(query);
    FilterFive(Garcia, Rodriguez, Martinez, Lopez, Gonzalez, query);
    JoinFour(Rodriguez, Martinez, Lopez, Gonzalez);
  }

  /**
   * Four single guests after an empty contribution join into one list; stated
   * over variables so that the solver does not unfold the guest constants.
   */
  lemma JoinFour(a: Guest, b: Guest, c: Guest, d: Guest)
    ensures [] + ([a] + ([b] + ([c] + [d]))) == [a, b, c, d]
  {
  }

  /** Matching does not fold accents: "garcia" does not find García. */
  lemma SearchIsAccentSensitive(query: string)
    requires query == "garcia" || query == "GARCIA"
    ensures Filter(GuestList, query) == []
  {
    assert Lower(query) == "garcia";
    GarciaMatchesNobody(query);
    FilterFive(Garcia, Rodriguez, Martinez, Lopez, Gonzalez, query);
    var none: seq<Guest> := [];
    assert none + (none + (none + (none + none))) == none;
  }

  /** Unaccented "garcia" matches no surname: the plain 'i' is missing from "garcía". */
  lemma GarciaMatchesNobody(query: string)
    requires Lower(query) == "garcia"
    ensures Kept(Garcia, query) == [] && Kept(Rodriguez, query) == []
    ensures Kept(Martinez, query) == [] && Kept(Lopez, query) == [] && Kept(Gonzalez, query) == []
  {
    LowerSurnames();
    LacksCharNoMatch(Garcia, query, 4);
    LacksCharNoMatch(Rodriguez, query, 1);
    LacksCharNoMatch(Martinez, query, 0);
    LacksCharNoMatch(Lopez, query, 0);
    LacksCharNoMatch(Gonzalez, query, 1);
  }

  /** A surname that is not on the list finds nobody. */
  lemma SearchUnknownSurname(query: string)
    requires query == "xyz" || query == "XYZ"
    ensures Filter(GuestList, query) == []
  {
    assert Lower(query) == "xyz";
    XyzMatchesNobody(query);
    FilterFive(Garcia, Rodriguez, Martinez, Lopez, Gonzalez, query);
    var none: seq<Guest> := [];
    assert none + (none + (none + (none + none))) == none;
  }

  /** "xyz" matches no surname: none contains an 'x'. */
  lemma XyzMatchesNobody(query: string)
    requires Lower(query) == "xyz"
    ensures Kept(Garcia, query) == [] && Kept(Rodriguez, query) == []
    ensures Kept(Martinez, query) == [] && Kept(Lopez, query) == [] && Kept(Gonzalez, query) == []
  {
    LowerSurnames();
    LacksCharNoMatch(Garcia, query, 0);
    LacksCharNoMatch(Rodriguez, query, 0);
    LacksCharNoMatch(Martinez, query, 0);
    LacksCharNoMatch(Lopez, query, 0);
    LacksCharNoMatch(Gonzalez, query, 0);
  }

  /** García's invitation lives at "/invitacion/familia-garcía". */
  lemma GarciaInvitationPath()
    ensures InvitationPath(Garcia.nombreCompleto) == "/invitacion/familia-garcía"
  {
    GarciaSlug();
    assert InvitationRoute + "familia-garcía" == "/invitacion/familia-garcía";
  }

  /** García's display name lower-cases and hyphenates to "familia-garcía". */
  lemma GarciaSlug()
    ensures SlugSegment(Garcia.nombreCompleto) == "familia-garcía"
  {
    assert Lower("Familia García") == "familia garcía";
    assert ReplaceAll("familia garcía", ' ', '-') == "familia-garcía";
  }

  /** The path of a guest's invitation segment: lower-case, every space a hyphen. */
  function SlugSegment(nombreCompleto: string): (r: string)
    ensures |r| == |nombreCompleto| && ' ' !in r
    ensures forall i :: 0 <= i < |r| ==>
      r[i] == if nombreCompleto[i] == ' ' then '-' else LowerChar(nombreCompleto[i])
  {
    ReplaceAll(Lower(nombreCompleto), ' ', '-')
  }

  /** The navigation target of `handleViewInvitation`; it never contains a space. */
  function InvitationPath(nombreCompleto: string): (r: string)
    ensures |r| == |InvitationRoute| + |nombreCompleto|
    ensures r[..|InvitationRoute|] == InvitationRoute && ' ' !in r
    ensures r[|InvitationRoute|..] == SlugSegment(nombreCompleto)
  {
    InvitationRoute + SlugSegment(nombreCompleto)
  }

  /** The party-size label: "persona" for exactly one person, "personas" otherwise. */
  function PersonLabel(personas: int): (r: string)
    ensures r == "persona" <==> personas == 1
    ensures r == "personas" <==> personas != 1
  {
    if personas == 1 then "persona" else "personas"
  }

  /** The four pieces of React state of the lookup and its three handlers. */
  class Section {
    var searchTerm: string
    var filteredGuests: seq<Guest>
    var selectedGuest: Option<Guest>
    var showResults: bool

    /** Results come from the guest list, and while shown they are the
        filter of the current search term, which passed the length gate. */
    ghost predicate Valid()
      reads this
    {
      && (forall g :: g in filteredGuests ==> g in GuestList)
      && (showResults ==> |searchTerm| >= MinQueryLength && filteredGuests == Filter(GuestList, searchTerm))
    }

    constructor ()
      ensures Valid()
      ensures searchTerm == "" && filteredGuests == [] && selectedGuest == None && !showResults
    {
      searchTerm := "";
      filteredGuests := [];
      selectedGuest := None;
      showResults := false;
    }

    /** The result list is rendered. */
    predicate ResultListShown()
      reads this
    {
      showResults && |filteredGuests| > 0
    }

    /** The "no results" message is rendered. */
    predicate NoResultsShown()
      reads this
    {
      showResults && |filteredGuests| == 0 && |searchTerm| >= MinQueryLength
    }

    /** `handleSearch(value)`: store the text; filter only from two characters on. */
    method HandleSearch(value: string)
      requires Valid()
      modifies this
      ensures Valid()
      ensures searchTerm == value && selectedGuest == old(selectedGuest)
      ensures |value| < MinQueryLength ==> !showResults && filteredGuests == []
      ensures |value| >= MinQueryLength ==> showResults && filteredGuests == Filter(GuestList, value)
      ensures ResultListShown() <==> |value| >= MinQueryLength && exists g :: g in GuestList && Matches(g, value)
      ensures NoResultsShown() <==> |value| >= MinQueryLength && forall g :: g in GuestList ==> !Matches(g, value)
    {
      searchTerm := value;
      if |value| >= MinQueryLength {
        var filtered := Filter(GuestList, value);
        filteredGuests := filtered;
        showResults := true;
        if filtered != [] {
          assert filtered[0] in filtered;
        }
      } else {
        showResults := false;
        filteredGuests := [];
      }
    }

    /** `handleSelectGuest(guest)`: remember the guest, show its surname, hide the list. */
    method HandleSelectGuest(guest: Guest)
      requires Valid()
      modifies this
      ensures Valid()
      ensures selectedGuest == Some(guest) && searchTerm == guest.apellido && !showResults
      ensures filteredGuests == old(filteredGuests)
      ensures !ResultListShown() && !NoResultsShown()
    {
      selectedGuest := Some(guest);
      searchTerm := guest.apellido;
      showResults := false;
    }

    /** `handleViewInvitation()`: the target path, or none while no guest is selected. */
    method HandleViewInvitation() returns (target: Option<string>)
      ensures selectedGuest == None <==> target == None
      ensures selectedGuest.Some? ==> target == Some(InvitationPath(selectedGuest.value.nombreCompleto))
    {
      match selectedGuest
      case None => target := None;
      case Some(g) => target := Some(InvitationPath(g.nombreCompleto));
    }
  }

  /** The result list and the "no results" message are never shown together. */
  lemma DisplayExclusive(s: Section)
    ensures !(s.ResultListShown() && s.NoResultsShown())
  {
  }

  /** In every reachable state the message is shown exactly when the search found nothing. */
  lemma NoResultsMeansEmptySearch(s: Section)
    requires s.Valid()
    ensures s.NoResultsShown() <==> s.showResults && Filter(GuestList, s.searchTerm) == []
  {
  }
}
