/**
 * The logic of the landing page `HomePage`: the countdown to the wedding
 * (`CountdownSection`), the two-digit display of its units, the navbar's
 * scroll threshold and the navbar's anchor links.
 */
module HomePage {
  import opened JsString

  const MsPerSecond := 1000
  const MsPerMinute := 60 * MsPerSecond
  const MsPerHour := 60 * MsPerMinute
  const MsPerDay := 24 * MsPerHour

  /** 2026-10-31T16:00:00-05:00 in milliseconds since the Unix epoch. */
  const WeddingTime := 1793480400000

  /** The countdown state shown on the page. */
  datatype TimeLeft = TimeLeft(days: int, hours: int, minutes: int, seconds: int)

  const NoTimeLeft := TimeLeft(0, 0, 0, 0)

  /** Every unit lies in its clock range; days are unbounded above. */
  predicate InRange(t: TimeLeft)
  {
    t.days >= 0 && 0 <= t.hours < 24 && 0 <= t.minutes < 60 && 0 <= t.seconds < 60
  }

  /** The milliseconds a countdown state stands for. */
  function Compose(t: TimeLeft): int
  {
    t.days * MsPerDay + t.hours * MsPerHour + t.minutes * MsPerMinute + t.seconds * MsPerSecond
  }

  /**
   * The four fields `calculateTimeLeft` stores for a positive difference:
   * whole days, then hours, minutes and seconds within their clock ranges.
   * It accounts for the whole difference except the milliseconds below one second.
   */
  function Decompose(difference: int): (t: TimeLeft)
    requires difference > 0
    ensures InRange(t)
    ensures Compose(t) == difference / MsPerSecond * MsPerSecond
    ensures Compose(t) <= difference < Compose(t) + MsPerSecond
  {
    DecomposeSum(difference);
    TimeLeft(difference / MsPerDay, difference / MsPerHour % 24,
             difference / MsPerMinute % 60, difference / MsPerSecond % 60)
  }

  /** The decomposed fields add back up to the whole seconds of the difference. */
  lemma DecomposeSum(d: int)
    requires d > 0
    ensures (d / MsPerDay) * MsPerDay + (d / MsPerHour % 24) * MsPerHour
          + (d / MsPerMinute % 60) * MsPerMinute + (d / MsPerSecond % 60) * MsPerSecond
          == d / MsPerSecond * MsPerSecond
  {
    var s := d / 1000;
    var m := d / 60000;
    var h := d / 3600000;
    var days := d / 86400000;
    assert m == s / 60;
    assert h == m / 60;
    assert days == h / 24;
  }

  /** A countdown state in range is recovered from the milliseconds it stands for. */
  lemma DecomposeCompose(t: TimeLeft)
    requires InRange(t) && Compose(t) > 0
    ensures Decompose(Compose(t)) == t
  {
    var c := Compose(t);
    var h := t.days * 24 + t.hours;
    var m := h * 60 + t.minutes;
    var s := m * 60 + t.seconds;
    var ms := t.seconds * MsPerSecond;
    QuotientOf(c, t.days, t.hours * MsPerHour + t.minutes * MsPerMinute + ms, MsPerDay);
    QuotientOf(c, h, t.minutes * MsPerMinute + ms, MsPerHour);
    QuotientOf(h, t.days, t.hours, 24);
    QuotientOf(c, m, ms, MsPerMinute);
    QuotientOf(m, h, t.minutes, 60);
    QuotientOf(c, s, 0, MsPerSecond);
    QuotientOf(s, m, t.seconds, 60);
  }

  /** Division by `k` recovers the quotient and the remainder `n` was built from. */
  lemma QuotientOf(n: int, q: int, r: int, k: int)
    requires n == q * k + r && 0 <= r < k
    ensures n / k == q && n % k == r
  {
    var d := n / k - q;
    assert d * k == r - n % k;
    if d >= 1 {
      MulAtLeast(d, k);
      assert false;
    } else if d <= -1 {
      MulAtLeast(-d, k);
      assert false;
    }
  }

  /** A positive multiple of a non-negative `k` is at least `k`. */
  lemma MulAtLeast(a: int, k: int)
    requires a >= 1 && k >= 0
    ensures a * k >= k
  {
    assert a * k == (a - 1) * k + k;
  }

  /** `CountdownSection`'s `timeLeft` state and its once-a-second update. */
  class CountdownSection {
    var timeLeft: TimeLeft

    ghost predicate Valid()
      reads this
    {
      InRange(timeLeft)
    }

    constructor ()
      ensures Valid() && timeLeft == NoTimeLeft
    {
      timeLeft := NoTimeLeft;
    }

    /**
     * `calculateTimeLeft` at clock reading `now` (milliseconds since the
     * epoch): the state is replaced only while the wedding is still ahead.
     */
    method CalculateTimeLeft(now: int)
      requires Valid()
      modifies this
      ensures Valid()
      ensures WeddingTime - now > 0 ==> timeLeft == Decompose(WeddingTime - now)
      ensures WeddingTime - now <= 0 ==> timeLeft == old(timeLeft)
    {
      var difference := WeddingTime - now;
      if difference > 0 {
        timeLeft := Decompose(difference);
      }
    }
  }

  /**
   * `String(value).padStart(2, '0')`: at least two decimal digits denoting
   * `value`; a leading zero exactly for the values below ten.
   */
  function UnitDisplay(value: nat): (r: string)
    ensures IsDigits(r) && DigitsValue(r) == value
    ensures |r| >= 2
    ensures value < 10 <==> r[0] == '0'
    ensures value < 100 <==> |r| == 2
  {
    var s := Decimal(value);
    var k := if |s| >= 2 then 0 else 2 - |s|;
    LeadingZerosValue(k, s);
    assert PadStart(s, 2, '0') == Repeat('0', k) + s;
    PadStart(s, 2, '0')
  }

  /** The navbar turns solid once the page is scrolled past this many pixels. */
  const ScrollThreshold: real := 50.0

  /** `Navbar`'s `scrolled` flag and the scroll handler that sets it. */
  class Navbar {
    var scrolled: bool

    constructor ()
      ensures !scrolled
    {
      scrolled := false;
    }

    /** The `scrollY` change handler, given the new offset. */
    method OnScrollChange(latest: real)
      modifies this
      ensures scrolled <==> latest > ScrollThreshold
    {
      scrolled := latest > ScrollThreshold;
    }
  }

  /** The navbar's link labels, in display order. */
  const NavItems: seq<string> := ["Nuestra Historia", "La Boda", "Galería"]

  /** The ids of the sections those links are meant to reach. */
  const SectionIds: seq<string> := ["nuestra-historia", "la-boda", "galeria"]

  /** A link's `href`: "#", then the lower-cased label with its first space made a hyphen. */
  function NavHref(item: string): (r: string)
    ensures |r| == |item| + 1 && r[0] == '#'
  {
    "#" + ReplaceFirst(Lower(item), ' ', '-')
  }

  /** A label without a space is only lower-cased. */
  lemma NavHrefWithoutSpace(item: string)
    requires ' ' !in item
    ensures NavHref(item) == "#" + Lower(item)
  {
    assert ' ' !in Lower(item);
    ReplaceFirstAtIndexOf(Lower(item), ' ', '-');
  }

  /**
   * Only the first space becomes a hyphen: the part before it and the part
   * after it are lower-cased, and later spaces stay spaces.
   */
  lemma NavHrefFirstSpace(item: string, i: int)
    requires 0 <= i < |item| && item[i] == ' ' && ' ' !in item[..i]
    ensures NavHref(item) == "#" + Lower(item[..i]) + "-" + Lower(item[i + 1..])
  {
    var s := Lower(item);
    assert s[i] == ' ';
    LowerSlice(item, 0, i);
    assert item[0..i] == item[..i];
    IndexOfFirst(s, ' ', i);
    ReplaceFirstAtIndexOf(s, ' ', '-');
    LowerSlice(item, i + 1, |item|);
    assert item[i + 1..|item|] == item[i + 1..];
    assert s[i + 1..|item|] == s[i + 1..];
    assert s[0..i] == s[..i];
  }

  /** A label with two spaces keeps the second one in its `href`. */
  lemma NavHrefKeepsLaterSpaces(item: string, i: int, j: int)
    requires 0 <= i < j < |item| && item[i] == ' ' && item[j] == ' ' && ' ' !in item[..i]
    ensures ' ' in NavHref(item)
  {
    NavHrefFirstSpace(item, i);
    var tail := Lower(item[i + 1..]);
    assert tail[j - i - 1] == ' ';
    assert NavHref(item)[j + 1] == tail[j - i - 1];
  }

  /** A two-word label: the first word, a hyphen, the second word, lower-cased. */
  lemma NavHrefTwoWords(item: string, first: string, second: string)
    requires item == first + " " + second && ' ' !in first
    ensures NavHref(item) == "#" + Lower(first) + "-" + Lower(second)
  {
    assert item[..|first|] == first;
    assert item[|first| + 1..] == second;
    NavHrefFirstSpace(item, |first|);
  }

  /** "Nuestra Historia" is two words whose lower-cased join is its section id. */
  lemma StoryWords()
    ensures NavItems[0] == "Nuestra" + " " + "Historia" && ' ' !in "Nuestra"
    ensures Lower("Nuestra") == "nuestra" && Lower("Historia") == "historia"
    ensures "#" + "nuestra" + "-" + "historia" == "#" + SectionIds[0]
  {
  }

  /** "La Boda" is two words whose lower-cased join is its section id. */
  lemma WeddingWords()
    ensures NavItems[1] == "La" + " " + "Boda" && ' ' !in "La"
    ensures Lower("La") == "la" && Lower("Boda") == "boda"
    ensures "#" + "la" + "-" + "boda" == "#" + SectionIds[1]
  {
  }

  /** "Galería" has no space and lower-cases to "galería". */
  lemma GalleryWord()
    ensures NavItems[2] == "Galería" && ' ' !in NavItems[2] && Lower("Galería") == "galería"
  {
  }

  /** "Nuestra Historia" and "La Boda" link to the ids of their sections. */
  lemma NavHrefsReachStoryAndWedding(i: int)
    requires 0 <= i < 2
    ensures NavHref(NavItems[i]) == "#" + SectionIds[i]
  {
    if i == 0 {
      StoryWords();
      NavHrefTwoWords(NavItems[0], "Nuestra", "Historia");
    } else {
      WeddingWords();
      NavHrefTwoWords(NavItems[1], "La", "Boda");
    }
  }

  /** "Galería" links to "#galería", which is not the id "galeria" of the gallery section. */
  lemma NavHrefMissesGallery()
    ensures NavHref(NavItems[2]) == "#galería"
    ensures NavHref(NavItems[2]) != "#" + SectionIds[2]
  {
    GalleryWord();
    NavHrefWithoutSpace(NavItems[2]);
    GalleryIdDiffers();
  }

  /** "#galería" is not "#" followed by the gallery id "galeria". */
  lemma GalleryIdDiffers()
    ensures "#galería" != "#" + SectionIds[2]
  {
    assert "#galería"[6] != ("#" + SectionIds[2])[6];
  }

  /** The five accented lower-case vowels of Spanish, folded to their base letter. */
  function FoldAccent(c: char): char
  {
    match c
    case 'á' => 'a'
    case 'é' => 'e'
    case 'í' => 'i'
    case 'ó' => 'o'
    case 'ú' => 'u'
    case _ => c
  }

  predicate IsAccentedVowel(c: char) { c == 'á' || c == 'é' || c == 'í' || c == 'ó' || c == 'ú' }

  /** Folds every accented vowel of a string; nothing else changes. */
  function FoldAccents(s: string): (r: string)
    ensures |r| == |s|
    ensures forall i :: 0 <= i < |s| ==> r[i] == FoldAccent(s[i])
  {
    seq(|s|, i requires 0 <= i < |s| => FoldAccent(s[i]))
  }

  /**
   * An anchor that agrees with the section ids: as `NavHref`, but with the
   * accented vowels folded, so that no link carries a character no id has.
   */
  function FoldedNavHref(item: string): (r: string)
    ensures |r| == |item| + 1 && r[0] == '#'
    ensures forall c :: c in r ==> !IsAccentedVowel(c) && !IsAsciiUpper(c)
  {
    var folded := FoldAccents(Lower(item));
    assert forall c :: c in folded ==> !IsAccentedVowel(c) && !IsAsciiUpper(c) by {
      forall c | c in folded ensures !IsAccentedVowel(c) && !IsAsciiUpper(c) {
        var i :| 0 <= i < |folded| && folded[i] == c;
        assert c == FoldAccent(LowerChar(item[i]));
      }
    }
    ReplaceFirstChars(folded, ' ', '-');
    "#" + ReplaceFirst(folded, ' ', '-')
  }

  /** On a label without accented vowels, folding changes nothing. */
  lemma FoldedNavHrefUnaccented(item: string)
    requires forall i :: 0 <= i < |item| ==> !IsAccentedVowel(item[i])
    ensures FoldedNavHref(item) == NavHref(item)
  {
    assert FoldAccents(Lower(item)) == Lower(item);
  }

  /** With folding, "Galería" links to the gallery's id "galeria". */
  lemma FoldedNavHrefReachesGallery()
    ensures FoldedNavHref(NavItems[2]) == "#" + SectionIds[2]
  {
    GalleryWord();
    assert FoldAccents("galería") == "galeria";
    assert IndexOf("galeria", ' ') == -1;
    ReplaceFirstAtIndexOf("galeria", ' ', '-');
  }

  /** "Nuestra Historia" and "La Boda" contain no accented vowel. */
  lemma StoryAndWeddingUnaccented(i: int)
    requires 0 <= i < 2
    ensures forall j :: 0 <= j < |NavItems[i]| ==> !IsAccentedVowel(NavItems[i][j])
  {
  }

  /** With folding, every navbar link reaches the id of its section. */
  lemma FoldedNavHrefsReachSections(i: int)
    requires 0 <= i < |NavItems|
    ensures FoldedNavHref(NavItems[i]) == "#" + SectionIds[i]
  {
    if i < 2 {
      NavHrefsReachStoryAndWedding(i);
      StoryAndWeddingUnaccented(i);
      FoldedNavHrefUnaccented(NavItems[i]);
    } else {
      FoldedNavHrefReachesGallery();
    }
  }
}
