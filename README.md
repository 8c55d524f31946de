# Wedding invitation site: verified model of its logic

The site is a single-page wedding invitation written in React. Almost all of it is markup and
animation. This project models the three places where it makes decisions, and proves what they do:

- **RSVP guest lookup** (`RSVPSection`). A hard-coded guest list is searched by surname,
  case-insensitively, once the query has at least two characters. A guest is selected from the
  results. The path of that guest's personalised invitation is `/invitacion/<slug>`.
  The component's four pieces of state (`searchTerm`, `filteredGuests`, `selectedGuest`,
  `showResults`) are the fields of the class `RsvpSection.Section`. Its three handlers are methods.
  The surname filter and the slug are pure functions.
- **Landing page** (`HomePage`):
  - The countdown splits the milliseconds left before the wedding into days, hours, minutes and
    seconds (`HomePage.CountdownSection`).
  - Each unit is shown with `padStart(2, '0')`.
  - The navbar turns solid past a scroll offset of 50 (`HomePage.Navbar`).
  - The navbar links are anchors built from their labels.
- **Personalised invitation** (`InvitationContent`). The guest name is decoded from the route's
  `guestId`. The four corner ornaments get their placement classes.

The JavaScript string built-ins these use are modelled once, in module `JsString`:
- `toLowerCase` and `includes`;
- `replace` with a global pattern, and with a plain pattern (first occurrence only);
- `padStart` and `String(n)`.

`JsString.IndexOf` is a reference definition of the first occurrence of a character. The site
never calls `indexOf`; the definition names the position that a plain-pattern `replace`
rewrites, and `JsString.ReplaceFirstAtIndexOf` proves that it is that one.

Strings are sequences of Unicode characters.

Two behaviours of the code worth noting:
- A new search does not clear the selected guest. `handleSearch` never touches `selectedGuest`.
- The search is a substring match, not a prefix match.

## Model

| member | source | states |
|---|---|---|
| `RsvpSection.GuestListWellFormed` | src/components/RSVPSection.tsx:5-12 | guest ids are pairwise distinct and every party size is positive |
| `RsvpSection.Matches` | src/components/RSVPSection.tsx:24 | the filter callback: the lower-cased surname includes the lower-cased query. The empty query matches every guest; a query longer than the surname matches none |
| `RsvpSection.Filter` | src/components/RSVPSection.tsx:23-25 | a guest is in the result iff it is in the list and its lower-cased surname includes the lower-cased query |
| `RsvpSection.FilterCount` | src/components/RSVPSection.tsx:23-25 | each matching guest is kept exactly as often as it occurs; non-matching guests never appear |
| `RsvpSection.FilterIsSubsequence` | src/components/RSVPSection.tsx:23-25 | the result is the list with some guests dropped, in the original order |
| `RsvpSection.FilterAppend` | src/components/RSVPSection.tsx:23-25 | filtering a concatenation is the concatenation of the filters (order preserved) |
| `RsvpSection.LacksCharNoMatch` | src/components/RSVPSection.tsx:24 | a surname missing any character of the lower-cased query does not match |
| `RsvpSection.FindsOwnSurname` | src/components/RSVPSection.tsx:24 | searching for a listed guest's own surname finds that guest |
| `RsvpSection.SearchGarIgnoresCase` | src/components/RSVPSection.tsx:6-25 | "GAR" and "gar" both return exactly [García] |
| `RsvpSection.GarMatches` | src/components/RSVPSection.tsx:6-24 | "gar" matches García's surname and none of the other four |
| `RsvpSection.EzMatches` | src/components/RSVPSection.tsx:6-24 | "ez" matches every surname except García's |
| `RsvpSection.SearchEzKeepsOrder` | src/components/RSVPSection.tsx:6-25 | "ez" (or "EZ") returns Rodríguez, Martínez, López, González in list order |
| `RsvpSection.SearchIsAccentSensitive` | src/components/RSVPSection.tsx:6-25 | "garcia" returns nothing: there is no accent folding |
| `RsvpSection.GarciaMatchesNobody` | src/components/RSVPSection.tsx:6-24 | unaccented "garcia" matches no surname |
| `RsvpSection.XyzMatchesNobody` | src/components/RSVPSection.tsx:6-24 | "xyz" matches no surname |
| `RsvpSection.SearchUnknownSurname` | src/components/RSVPSection.tsx:6-25 | "xyz" returns nothing |
| `RsvpSection.SlugSegment` | src/components/RSVPSection.tsx:43 | the slug has the name's length and no space; each character is the lower-cased name character, or '-' where the name has a space |
| `RsvpSection.InvitationPath` | src/components/RSVPSection.tsx:43 | the target starts with "/invitacion/" and contains no space |
| `RsvpSection.GarciaSlug` | src/components/RSVPSection.tsx:43 | García's display name becomes the slug "familia-garcía" |
| `RsvpSection.GarciaInvitationPath` | src/components/RSVPSection.tsx:6-43 | García's target is "/invitacion/familia-garcía" |
| `RsvpSection.PersonLabel` | src/components/RSVPSection.tsx:152 | the label is "persona" iff the party size is 1, else "personas" |
| `RsvpSection.Section.constructor` | src/components/RSVPSection.tsx:15-18 | the initial state is an empty term, no results, no selection, results hidden |
| `RsvpSection.Section.HandleSearch` | src/components/RSVPSection.tsx:20-32 | stores the value and keeps the selection. Below length 2: results hidden and emptied. Otherwise: results shown, equal to the filter. From two characters on, the list shows iff some guest matches and "no results" shows iff none does |
| `RsvpSection.Section.HandleSelectGuest` | src/components/RSVPSection.tsx:34-38 | selects the guest, puts its surname in the search box, hides the results, keeps the filtered list; afterwards neither the list nor the message shows |
| `RsvpSection.Section.HandleViewInvitation` | src/components/RSVPSection.tsx:40-45 | no target iff no guest is selected; otherwise the target is the selected guest's invitation path |
| `RsvpSection.Section.ResultListShown` | src/components/RSVPSection.tsx:97 | the result list is rendered when results are shown and the filtered list is non-empty |
| `RsvpSection.Section.NoResultsShown` | src/components/RSVPSection.tsx:117 | the "no results" message is rendered when results are shown, the filtered list is empty and the term has at least two characters |
| `RsvpSection.DisplayExclusive` | src/components/RSVPSection.tsx:97-117 | the result list and the "no results" message are never shown together |
| `RsvpSection.NoResultsMeansEmptySearch` | src/components/RSVPSection.tsx:117 | in every reachable state the message shows iff results are shown and the search found nobody |
| `HomePage.Decompose` | src/components/HomePage.tsx:179-182 | for a positive difference: days ≥ 0, hours < 24, minutes < 60, seconds < 60. The fields recompose to the difference rounded down to whole seconds, so the recomposed value is ≤ the difference and the difference is below it plus 1000 |
| `HomePage.DecomposeSum` | src/components/HomePage.tsx:179-182 | days·86400000 + hours·3600000 + minutes·60000 + seconds·1000 = (difference div 1000)·1000 |
| `HomePage.DecomposeCompose` | src/components/HomePage.tsx:179-182 | a countdown state within range is recovered from the milliseconds it stands for |
| `HomePage.CountdownSection.constructor` | src/components/HomePage.tsx:163-168 | the countdown starts at all zeros |
| `HomePage.CountdownSection.CalculateTimeLeft` | src/components/HomePage.tsx:171-185 | while the wedding is ahead, the state becomes the decomposition of the difference; otherwise the state is unchanged; units stay in range |
| `HomePage.UnitDisplay` | src/components/HomePage.tsx:243 | the display has at least two digits and denotes the value. It starts with '0' iff the value is below 10, and it is exactly two long iff the value is below 100 |
| `HomePage.Navbar.constructor` | src/components/HomePage.tsx:6 | the navbar starts transparent |
| `HomePage.Navbar.OnScrollChange` | src/components/HomePage.tsx:9-11 | `scrolled` is set iff the offset is strictly above 50 |
| `HomePage.NavHref` | src/components/HomePage.tsx:39 | the href is one longer than the label and starts with '#' |
| `HomePage.NavHrefWithoutSpace` | src/components/HomePage.tsx:39 | a label without a space is only lower-cased |
| `HomePage.NavHrefFirstSpace` | src/components/HomePage.tsx:39 | only the first space becomes '-'; before and after it the label is lower-cased |
| `HomePage.NavHrefKeepsLaterSpaces` | src/components/HomePage.tsx:39 | a label with two spaces still has a space in its href |
| `HomePage.NavHrefsReachStoryAndWedding` | src/components/HomePage.tsx:36-39 | "Nuestra Historia" and "La Boda" link to the section ids "nuestra-historia" and "la-boda" |
| `HomePage.NavHrefMissesGallery` | src/components/HomePage.tsx:36-39 | "Galería" links to "#galería", which differs from the gallery section id "galeria" |
| `HomePage.FoldedNavHref` | src/components/HomePage.tsx:39 | the corrected href has no lower-case á, é, í, ó, ú and no ASCII capital |
| `HomePage.FoldedNavHrefUnaccented` | src/components/HomePage.tsx:39 | on labels without accented vowels the corrected href equals the original one |
| `HomePage.FoldedNavHrefReachesGallery` | src/components/HomePage.tsx:463 | the corrected href of "Galería" is "#galeria", the gallery's id |
| `HomePage.FoldedNavHrefsReachSections` | src/components/HomePage.tsx:36-39 | with the correction every navbar link equals '#' + its section id |
| `InvitationContent.GuestName` | src/components/InvitationContent.tsx:102 | an absent or empty id gives "Invitado". Otherwise the name has the id's length and no '-'; every '-' becomes a space and every other character is kept |
| `InvitationContent.SlugRoundTrip` | src/components/InvitationContent.tsx:102 | for a non-empty display name without '-', decoding the RSVP slug gives the lower-cased display name |
| `InvitationContent.SlugRoundTripNeedsNoHyphen` | src/components/InvitationContent.tsx:102 | a display name containing '-' does not come back from the round trip |
| `InvitationContent.GuestNameNotInjective` | src/components/InvitationContent.tsx:102 | "a-b" and "a b" both decode to "a b" |
| `InvitationContent.PositionClasses` | src/components/InvitationContent.tsx:11-25 | the result is one of the four placement strings. It is the top-left one iff the position is not top-right, bottom-left or bottom-right (a missing position included) |
| `InvitationContent.CornersDistinct` | src/components/InvitationContent.tsx:12-25 | the four corners get pairwise different placement strings |
| `JsString.Lower` | src/components/RSVPSection.tsx:24 | `toLowerCase` keeps the length and lower-cases each character on its own (ASCII capitals only; see Left out) |
| `JsString.Includes` | src/components/RSVPSection.tsx:24 | `includes` holds iff the pattern occurs at some position; the empty pattern is always included, a longer pattern never |
| `JsString.ReplaceFirst` | src/components/HomePage.tsx:39 | `replace(' ', '-')` keeps the length; `JsString.ReplaceFirstAtIndexOf` states which character it rewrites |
| `JsString.IncludesHasChar` | src/components/RSVPSection.tsx:24 | every character of an included pattern occurs in the string |
| `JsString.IndexOf` | src/components/HomePage.tsx:39 | -1 iff the character is absent; otherwise the position of its first occurrence |
| `JsString.ReplaceFirstAtIndexOf` | src/components/HomePage.tsx:39 | `replace` with a plain pattern changes only the first occurrence, the one `JsString.IndexOf` names, and nothing if there is none |
| `JsString.ReplaceAll` | src/components/RSVPSection.tsx:43 | a global replace keeps the length, replaces every occurrence, and leaves none of the pattern behind |
| `JsString.LowerFacts` | src/components/RSVPSection.tsx:24 | lower-casing leaves no capital, changes exactly the capitals, and is idempotent |
| `JsString.PadStart` | src/components/HomePage.tsx:243 | the result is at least the width, ends with the input, and is filled in front |
| `JsString.Decimal` | src/components/HomePage.tsx:243 | `String(n)` is a digit string without leading zeros that denotes n; it has one digit iff n < 10 |
| `JsString.LeadingZerosValue` | src/components/HomePage.tsx:243 | zeros added in front do not change the value of a digit string |

## Findings

| source | as written | input that shows it | evidently intended | confidence | as-written member | corrected member |
|---|---|---|---|---|---|---|
| src/components/HomePage.tsx:36-39 | the href is '#' + lower-cased label with its first space hyphenated, and accents are kept | label "Galería" gives "#galería"; the gallery section's id (line 463) is "galeria", so the link reaches no section | each navbar link equals '#' + the id of the section it names | high (not executed) | `HomePage.NavHrefMissesGallery` | `HomePage.FoldedNavHrefsReachSections` |

## Left out

- Animation (every framer-motion prop, scroll-linked transforms), SVG, images, styling and React
  rendering are not modelled. `Envelope`, `GalleryPage` and `BackgroundGradient` are not part of
  this model: they are markup and animation values only, apart from Envelope's pluralisation at
  `src/components/Envelope.tsx:89` (`guestCount === 1 ? 'persona' : 'personas'`), which is the rule
  `RsvpSection.PersonLabel` models.
- The clock: `new Date()` becomes the parameter `now` of `CalculateTimeLeft`. The one-second
  `setInterval` that calls it, and the 1.5-second `setTimeout` that opens the envelope, are left
  out: they only schedule.
- `HomePage.Decompose`: the source divides floating-point numbers and then takes `Math.floor` of a
  floating-point `%`. For a positive integer number of milliseconds this equals integer division
  and modulo, which is what the model uses. Floating-point rounding is not modelled.
- `HomePage.Navbar.OnScrollChange`: the scroll offset is a real number. The scroll event
  subscription itself is left out.
- `RsvpSection.Section.HandleViewInvitation`: the assignment to `window.location.href` becomes the
  returned target path. The navigation and the router that turns the path back into `guestId` are
  not part of this model.
- `JsString.Lower`: maps only ASCII A–Z to a–z and keeps every other character. JavaScript's full
  Unicode case mapping (for example of an accented capital) is not modelled. This is enough for
  every name and label in the source, but not for the search query, which the guest types: an
  all-caps query with an accented letter, such as "LÓPEZ", finds López on the site (JavaScript
  lower-cases it to "lópez") and finds nobody in `RsvpSection.Filter`, because the model keeps
  "Ó" as it is.
- `RsvpSection.Section.HandleSearch`: the length gate counts characters (code points). JavaScript
  counts UTF-16 code units, which differ only for characters outside the Basic Multilingual Plane.
- `RsvpSection.Section.HandleSelectGuest`: the handler accepts any guest, as the source does. That
  the UI only passes guests from the shown results is not part of its contract.
