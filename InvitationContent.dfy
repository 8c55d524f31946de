/**
 * The logic of `InvitationContent`: the guest name shown on a personalised
 * invitation, recovered from the route's `guestId`, and the placement classes
 * of the four corner ornaments.
 */
module InvitationContent {
  import opened JsString
  import opened Optional
  import RsvpSection

  /** Shown when the route carries no guest. */
  const DefaultGuestName := "Invitado"

  /**
   * `guestId ? guestId.replace(/-/g, ' ') : 'Invitado'`: an absent or empty id
   * (both falsy) gives the default name; otherwise every hyphen becomes a
   * space and every other character is kept.
   */
  function GuestName(guestId: Option<string>): (r: string)
    ensures guestId == None || guestId == Some("") ==> r == DefaultGuestName
    ensures guestId.Some? && guestId.value != "" ==>
      && |r| == |guestId.value|
      && '-' !in r
      && forall i :: 0 <= i < |r| ==> r[i] == if guestId.value[i] == '-' then ' ' else guestId.value[i]
  {
    match guestId
    case Some(id) => if id == "" then DefaultGuestName else ReplaceAll(id, '-', ' ')
    case None => DefaultGuestName
  }

  /**
   * Decoding undoes the slug of `handleViewInvitation` for a display name
   * without hyphens: decoding gives the lower-cased name.
   */
  lemma {:induction false} SlugRoundTrip(nombreCompleto: string)
    requires nombreCompleto != [] && '-' !in nombreCompleto
    ensures GuestName(Some(RsvpSection.SlugSegment(nombreCompleto))) == Lower(nombreCompleto)
  {
    var segment := RsvpSection.SlugSegment(nombreCompleto);
    var name := GuestName(Some(segment));
    forall i | 0 <= i < |nombreCompleto|
      ensures name[i] == Lower(nombreCompleto)[i]
    {
      assert nombreCompleto[i] != '-';
    }
  }

  /** A display name with a hyphen does not survive the round trip. */
  lemma SlugRoundTripNeedsNoHyphen(nombreCompleto: string)
    requires '-' in nombreCompleto
    ensures GuestName(Some(RsvpSection.SlugSegment(nombreCompleto))) != Lower(nombreCompleto)
  {
    var i :| 0 <= i < |nombreCompleto| && nombreCompleto[i] == '-';
    assert Lower(nombreCompleto)[i] == '-';
  }

  /** Decoding is not injective: "a-b" and "a b" greet the same name. */
  lemma GuestNameNotInjective()
    ensures GuestName(Some("a-b")) == GuestName(Some("a b")) == "a b"
  {
  }

  /** The placement classes of a corner ornament. */
  const TopLeftClasses := "top-4 left-4"
  const TopRightClasses := "top-4 right-4 rotate-90"
  const BottomLeftClasses := "bottom-4 left-4 -rotate-90"
  const BottomRightClasses := "bottom-4 right-4 rotate-180"

  /**
   * `getPositionClasses` of `CornerOrnament`: a missing position defaults to
   * top-left, and so does any position outside the four named ones.
   */
  function PositionClasses(position: Option<string>): (r: string)
    ensures r in [TopLeftClasses, TopRightClasses, BottomLeftClasses, BottomRightClasses]
    ensures r == TopLeftClasses <==>
      position !in [Some("top-right"), Some("bottom-left"), Some("bottom-right")]
  {
    match position
    case None => TopLeftClasses
    case Some(p) =>
      if p == "top-left" then TopLeftClasses
      else if p == "top-right" then TopRightClasses
      else if p == "bottom-left" then BottomLeftClasses
      else if p == "bottom-right" then BottomRightClasses
      else TopLeftClasses
  }

  /** The four corners get four different placements. */
  lemma CornersDistinct()
    ensures PositionClasses(Some("top-left")) != PositionClasses(Some("top-right"))
    ensures PositionClasses(Some("top-left")) != PositionClasses(Some("bottom-left"))
    ensures PositionClasses(Some("top-left")) != PositionClasses(Some("bottom-right"))
    ensures PositionClasses(Some("top-right")) != PositionClasses(Some("bottom-left"))
    ensures PositionClasses(Some("top-right")) != PositionClasses(Some("bottom-right"))
    ensures PositionClasses(Some("bottom-left")) != PositionClasses(Some("bottom-right"))
  {
  }
}
