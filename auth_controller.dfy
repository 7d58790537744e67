/** Login and logout (controls/authController.js): the reply to a login is
    chosen by the status `loginOrRegister` resolved to, and a successful
    login or registration sets a signed `userId` cookie for a week. */
module AuthController {
  import opened Common
  import opened UserModel

  datatype Cookie =
    | NoCookie
    | SetSignedUserId(value: string, maxAgeMs: nat)
    | ClearUserId

  datatype Page = RenderHome(message: Option<string>) | RedirectTo(location: string)

  datatype AuthReply = AuthReply(cookie: Cookie, page: Page)

  /** `1000 * 60 * 60 * 24 * 7`: seven days in milliseconds. */
  const CookieMaxAge: nat := 1000 * 60 * 60 * 24 * 7

  /** `login`. `outcome` is what `loginOrRegister` resolved to, or the error
      it threw; `encode` is `encodeURIComponent`. Reading the username of a
      missing user throws inside the same `try`, so it lands on the generic
      server-error page too. */
  function Login(outcome: Result<LoginResult, string>, encode: string -> string): (r: AuthReply)
    ensures r.cookie.SetSignedUserId? <==>
      outcome.Success? && outcome.value.user.Some?
      && (outcome.value.status == "login_success" || outcome.value.status == "user_created")
    ensures r.cookie.SetSignedUserId? ==>
      r.cookie == SetSignedUserId(outcome.value.user.value.id, 604800000)
      && r.page == RedirectTo("/menu?msg=" + encode(
           if outcome.value.status == "login_success"
           then "Welcome back, " + outcome.value.user.value.username + "!"
           else "Account created! Welcome, " + outcome.value.user.value.username + "!"))
    ensures !r.cookie.SetSignedUserId? ==> r.cookie == NoCookie && r.page.RenderHome?
    ensures r.page == RenderHome(Some("Wrong password")) <==>
      outcome.Success? && outcome.value.status == "wrong_password"
    ensures r.page == RenderHome(Some("Server error during login")) <==>
      outcome.Failure? || (outcome.value.user.None?
        && (outcome.value.status == "login_success" || outcome.value.status == "user_created"))
    ensures r.page == RenderHome(Some("An error occurred")) <==>
      outcome.Success? && outcome.value.status !in {"wrong_password", "login_success", "user_created"}
  {
    if outcome.Failure? then AuthReply(NoCookie, RenderHome(Some("Server error during login")))
    else
      var result := outcome.value;
      if result.status == "wrong_password" then AuthReply(NoCookie, RenderHome(Some("Wrong password")))
      else if result.status == "login_success" || result.status == "user_created" then
        if result.user.None? then AuthReply(NoCookie, RenderHome(Some("Server error during login")))
        else
          var msg := if result.status == "login_success"
            then "Welcome back, " + result.user.value.username + "!"
            else "Account created! Welcome, " + result.user.value.username + "!";
          AuthReply(SetSignedUserId(result.user.value.id, CookieMaxAge), RedirectTo("/menu?msg=" + encode(msg)))
      else AuthReply(NoCookie, RenderHome(Some("An error occurred")))
  }

  /** `logout`. */
  function Logout(): (r: AuthReply)
    ensures r.cookie == ClearUserId && r.page == RedirectTo("/")
  {
    AuthReply(ClearUserId, RedirectTo("/"))
  }

  /** Whatever `loginOrRegister` resolves to, the generic "An error occurred"
      branch is never taken: a wrong password sets no cookie, and a login or
      a registration sets the cookie of exactly the user it returned (the
      new user's id for a registration). */
  lemma LoginOfStoreOutcome(users: seq<User>, email: string, password: string, username: Option<string>,
                            newId: string, hash: string -> string, matches: (string, string) -> bool,
                            encode: string -> string)
    ensures var result := LoginOutcome(users, email, password, username, newId, hash, matches);
      var reply := Login(Success(result), encode);
      && reply.page != RenderHome(Some("An error occurred"))
      && reply.page != RenderHome(Some("Server error during login"))
      && (reply.cookie == NoCookie <==> result.status == "wrong_password")
      && (FindByEmail(users, email).None? ==> reply.cookie == SetSignedUserId(newId, CookieMaxAge))
      && (result.status == "login_success" ==> reply.cookie == SetSignedUserId(FindByEmail(users, email).value.id, CookieMaxAge))
  {
  }
}
