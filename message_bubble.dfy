/**
 * One chat message as the message list draws it: the "unsent" placeholder
 * for a message unsent for everyone; otherwise the delete button, the
 * sender's name, the product card, the video, the image, a location link or
 * the text, and on the sender's own messages the Read/Sent indicator.
 */
module MessageBubble {
  import opened Wrappers
  import opened Strings
  import opened Store
  import opened Avatars

  function UnsentText(language: string): string {
    if language == "th" then "ข้อความถูกยกเลิก" else "Message unsent"
  }

  function ReadLabel(language: string): string {
    if language == "th" then "อ่านแล้ว" else "Read"
  }

  function SentLabel(language: string): string {
    if language == "th" then "ส่งแล้ว" else "Sent"
  }

  /** A message whose content links to Google Maps is drawn as a location card. */
  predicate IsLocation(content: Option<string>) {
    TruthyStr(content) && (Contains(content.value, "maps.google.com") || Contains(content.value, "google.com/maps"))
  }

  const MapsPrefix := "https://www.google.com/maps?q="

  /** The content the chat page sends for "share my location", with the coordinates as printed. */
  function MapLink(latitude: string, longitude: string): (r: string)
    ensures StartsWith(r, MapsPrefix)
  {
    MapsPrefix + latitude + "," + longitude
  }

  /** Every shared location is recognised as one, whatever the coordinates print as. */
  lemma MapLinkIsLocation(latitude: string, longitude: string)
    ensures IsLocation(Some(MapLink(latitude, longitude)))
  {
    var host := "google.com/maps";
    var tail := "?q=" + latitude + "," + longitude;
    assert StartsWith(host, host);
    PrefixContained(host, host);
    ContainsWithin("https://www.", host, tail, host);
    assert MapsPrefix == "https://www." + host + "?q=";
    assert "https://www." + host + tail == MapLink(latitude, longitude);
  }

  /** The path of the product's cover: the first of a list ("" for an empty list), a lone path as is, "" for none. */
  function ProductImagePath(images: Images): (r: string)
    ensures images.List? && |images.paths| > 0 ==> r == images.paths[0]
    ensures images.List? && |images.paths| == 0 ==> r == ""
    ensures images.Single? ==> r == images.path
    ensures images.NoImages? ==> r == ""
  {
    match images
    case NoImages => ""
    case Single(p) => p
    case List(ps) => if |ps| > 0 then ps[0] else ""
  }

  /** The cover image URL of the product card; `None` draws the package placeholder. */
  function ProductImageUrl(origin: string, path: string): (r: Option<string>)
    ensures r.None? <==> path == ""
    ensures StartsWith(path, "http") ==> r == Some(path)
  {
    if path == "" then None
    else if StartsWith(path, "http") then Some(path)
    else Some(JoinOrigin(origin, path))
  }

  /** The card's URL is the avatar's URL rule minus the `blob:` pass-through. */
  lemma ProductUrlIsSafeSrc(origin: string, path: string)
    requires !StartsWith(path, "blob:")
    ensures ProductImageUrl(origin, path) == GetSafeSrc(origin, Some(path))
  {
  }

  /** Chat image and video URLs: absolute ones as they are, others appended to the backend origin as written. */
  function MediaUrl(base: string, path: string): (r: string)
    ensures StartsWith(path, "http") ==> r == path
    ensures !StartsWith(path, "http") ==> StartsWith(r, base) && EndsWith(r, path)
  {
    if StartsWith(path, "http") then path
    else
      assert (base + path)[..|base|] == base;
      assert (base + path)[|base + path| - |path|..] == path;
      base + path
  }

  /**
   * Unlike the card and the avatar, media URLs are not normalised: an origin
   * with a trailing '/' and a path with a leading '/' give a doubled slash,
   * and a path without one is glued to the origin.
   */
  lemma MediaUrlNotNormalised(o: string, p: string)
    requires !StartsWith(p, "http") && !StartsWith(p, "/") && !EndsWith(o, "/")
    ensures MediaUrl(o + "/", "/" + p) == o + "//" + p
    ensures MediaUrl(o, p) == o + p
    ensures JoinOrigin(o + "/", "/" + p) == o + "/" + p
  {
    assert ("/" + p)[..1] == "/";
    assert ("/" + p)[0] != 'h';
    JoinOriginNormal(o, p);
  }

  /** `status` as the chat page passes it. */
  function StatusOf(isRead: bool): string {
    if isRead then "read" else "sent"
  }

  datatype ProductRef = ProductRef(title: string, images: Images)

  datatype Props = Props(
    content: Option<string>, image: Option<string>, video: Option<string>,
    product: Option<ProductRef>, isOwn: bool, status: string,
    senderName: Option<string>, isDeleted: bool, hasOnDelete: bool)

  datatype ProductCard = ProductCard(title: string, imageUrl: Option<string>)

  datatype Body = NoBody | LocationLink(href: string) | Text(text: string)

  datatype View =
    | Unsent(placeholder: string)
    | Bubble(deleteButton: bool, senderName: Option<string>, card: Option<ProductCard>,
             video: Option<string>, image: Option<string>, body: Body, indicator: Option<string>)

  /** The Read/Sent indicator: only on one's own messages, Read exactly for status "read". */
  function Indicator(isOwn: bool, status: string, language: string): (r: Option<string>)
    ensures r.Some? <==> isOwn
    ensures isOwn ==> (r == Some(ReadLabel(language)) <==> status == "read")
    ensures isOwn ==> (r == Some(SentLabel(language)) <==> status != "read")
  {
    if isOwn then Some(if status == "read" then ReadLabel(language) else SentLabel(language)) else None
  }

  /** What the bubble shows of the content: a location card, the text, or nothing for empty content. */
  function BodyOf(content: Option<string>): (r: Body)
    ensures r.LocationLink? <==> IsLocation(content)
    ensures r.LocationLink? ==> content.Some? && r.href == content.value
    ensures r.Text? ==> content.Some? && r.text == content.value && !IsLocation(content)
    ensures r.NoBody? <==> !TruthyStr(content)
  {
    if IsLocation(content) then LocationLink(content.value)
    else if TruthyStr(content) then Text(content.value)
    else NoBody
  }

  /** The product card, with its cover resolved from the product's image list. */
  function CardOf(origin: string, product: Option<ProductRef>): (r: Option<ProductCard>)
    ensures r.Some? <==> product.Some?
    ensures r.Some? ==> r.value.title == product.value.title
    ensures r.Some? ==> r.value.imageUrl == ProductImageUrl(origin, ProductImagePath(product.value.images))
  {
    match product
    case None => None
    case Some(prod) => Some(ProductCard(prod.title, ProductImageUrl(origin, ProductImagePath(prod.images))))
  }

  /** A media attachment: shown exactly when its path is non-empty. */
  function MediaOf(origin: string, path: Option<string>): (r: Option<string>)
    ensures r.Some? <==> TruthyStr(path)
    ensures r.Some? ==> r.value == MediaUrl(origin, path.value)
  {
    if TruthyStr(path) then Some(MediaUrl(origin, path.value)) else None
  }

  /** The bubble for one message. */
  function Render(p: Props, origin: string, language: string): (r: View)
    ensures p.isDeleted <==> r.Unsent?
    ensures p.isDeleted ==> r == Unsent(UnsentText(language))
    ensures r.Bubble? ==> (r.deleteButton <==> p.hasOnDelete)
    ensures r.Bubble? ==> r.body == BodyOf(p.content) && r.indicator == Indicator(p.isOwn, p.status, language)
    ensures r.Bubble? ==> (r.senderName.Some? <==> !p.isOwn && TruthyStr(p.senderName))
    ensures r.Bubble? ==> r.card == CardOf(origin, p.product)
    ensures r.Bubble? ==> r.image == MediaOf(origin, p.image) && r.video == MediaOf(origin, p.video)
  {
    if p.isDeleted then Unsent(UnsentText(language))
    else
      Bubble(
        p.hasOnDelete,
        if !p.isOwn && TruthyStr(p.senderName) then p.senderName else None,
        CardOf(origin, p.product),
        MediaOf(origin, p.video),
        MediaOf(origin, p.image),
        BodyOf(p.content),
        Indicator(p.isOwn, p.status, language))
  }

  /** On one's own messages the indicator says Read exactly when the message's `isRead` is set. */
  lemma OwnIndicatorFollowsIsRead(p: Props, origin: string, language: string, isRead: bool)
    requires p.isOwn && !p.isDeleted && p.status == StatusOf(isRead)
    ensures Render(p, origin, language).indicator == Some(ReadLabel(language)) <==> isRead
  {
  }
}
