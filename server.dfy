/** The decisions the application entry point (index.js) makes itself: the
    name an uploaded file is stored under, which responses the page cache
    may keep, who the signed-in user of a request is, and the guards of the
    "/" and "/menu" routes. Express, multer, apicache and the static file
    serving are not part of this model. */
module Server {
  import opened Common
  import opened Text
  import UserModel

  predicate IsUploadChar(c: char)
  {
    'a' <= c <= 'z' || 'A' <= c <= 'Z' || '0' <= c <= '9' || c == '.'
  }

  /** `name.replace(/[^a-zA-Z0-9.]/g, '_')`: one character for one. */
  function Sanitise(name: string): (r: string)
    ensures |r| == |name|
    ensures forall i :: 0 <= i < |name| ==> r[i] == if IsUploadChar(name[i]) then name[i] else '_'
  {
    seq(|name|, i requires 0 <= i < |name| => if IsUploadChar(name[i]) then name[i] else '_')
  }

  /** The output uses only [A-Za-z0-9._]: no '/', no '-', no space. */
  lemma SanitisedAlphabet(name: string)
    ensures forall i :: 0 <= i < |Sanitise(name)| ==> IsUploadChar(Sanitise(name)[i]) || Sanitise(name)[i] == '_'
  {
  }

  /** Names already made of allowed characters are kept, and so sanitising
      twice is sanitising once. */
  lemma SanitiseKeepsAllowed(name: string)
    ensures (forall i :: 0 <= i < |name| ==> IsUploadChar(name[i])) ==> Sanitise(name) == name
    ensures Sanitise(Sanitise(name)) == Sanitise(name)
  {
  }

  /** `Date.now() + '-' + sanitised name`. */
  function StoredUploadName(now: nat, originalName: string): (name: string)
    ensures |name| == |NatToString(now)| + 1 + |originalName|
    ensures name[|NatToString(now)|] == '-'
  {
    NatToString(now) + "-" + Sanitise(originalName)
  }

  /** A stored name cuts at its first '-' into the upload time, which reads
      back as the clock value, and the sanitised original name, which has
      the original's length. */
  lemma StoredUploadNameParts(now: nat, originalName: string)
    ensures var name := StoredUploadName(now, originalName);
      var k := IndexOf(name, '-');
      && k < |name|
      && AllDigits(name[..k]) && DigitsValue(name[..k]) == now
      && name[k + 1..] == Sanitise(originalName)
      && |name| == |NatToString(now)| + 1 + |originalName|
  {
    var stamp := NatToString(now);
    var name := StoredUploadName(now, originalName);
    NatToStringValue(now);
    assert name[|stamp|] == '-';
    assert forall i :: 0 <= i < |stamp| ==> name[i] == stamp[i] && IsDigit(stamp[i]);
    assert IndexOf(name, '-') == |stamp|;
    assert name[..|stamp|] == stamp;
    assert name[|stamp| + 1..] == Sanitise(originalName);
  }

  /** `cacheAnonymousOnly`: `signedUserId` is the verified `userId` cookie,
      None when it is absent or its signature does not check. */
  function CacheAnonymousOnly(status: int, signedUserId: Option<string>): (cache: bool)
    ensures cache <==> status == 200 && (signedUserId.None? || signedUserId.value == "")
  {
    status == 200 && !(signedUserId.Some? && signedUserId.value != "")
  }

  /** How the user lookup of `findById` ended. */
  datatype Lookup = Returned(user: Option<User>) | Threw

  /** The middleware's choice of `res.locals.user`. */
  function ResolveUser(signedUserId: Option<string>, lookup: Lookup): (user: Option<User>)
    ensures signedUserId.None? || signedUserId.value == "" ==> user.None?
    ensures signedUserId.Some? && signedUserId.value != "" && lookup.Returned? ==> user == lookup.user
    ensures lookup.Threw? ==> user.None?
  {
    if signedUserId.Some? && signedUserId.value != "" then
      if lookup.Returned? then lookup.user else None
    else None
  }

  /** With a lookup in the users table, a request is signed in exactly when
      its verified cookie names the id of a stored user, and then as that
      user. */
  lemma SignedInIffKnownId(users: seq<User>, id: string)
    requires id != ""
    ensures var user := ResolveUser(Some(id), Returned(UserModel.FindById(users, id)));
      && (user.Some? <==> exists u :: u in users && u.id == id)
      && (user.Some? ==> user.value in users && user.value.id == id)
  {
  }

  datatype Page =
    | RenderHome
    | RenderMenu(message: Option<string>, ownerId: string)
    | RedirectTo(location: string)

  /** `GET /`: a signed-in user goes to the menu. */
  function HomeRoute(user: Option<User>): (p: Page)
    ensures p == RedirectTo("/menu") <==> user.Some?
    ensures p == RenderHome <==> user.None?
  {
    if user.Some? then RedirectTo("/menu") else RenderHome
  }

  datatype MenuReply = MenuReply(cacheControl: string, page: Page)

  /** `GET /menu`: the private, no-cache header is set first, then an
      anonymous request goes back to "/"; a signed-in one sees the menu of
      their own recipes with the `msg` query text. */
  function MenuRoute(user: Option<User>, msg: Option<string>): (r: MenuReply)
    ensures r.cacheControl == "private, no-cache"
    ensures r.page == RedirectTo("/") <==> user.None?
    ensures user.Some? ==> r.page == RenderMenu(msg, user.value.id)
  {
    MenuReply("private, no-cache", if user.None? then RedirectTo("/") else RenderMenu(msg, user.value.id))
  }

  /** The two guards never send a request back where it came from: "/"
      redirects only a signed-in user, "/menu" only an anonymous one. */
  lemma NoRedirectLoop(user: Option<User>, msg: Option<string>)
    ensures HomeRoute(user).RedirectTo? ==> MenuRoute(user, msg).page.RenderMenu?
    ensures MenuRoute(user, msg).page.RedirectTo? ==> HomeRoute(user) == RenderHome
  {
  }
}
