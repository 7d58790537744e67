/** The users store (models/userModel.js): `loginOrRegister` logs an
    existing user in, refuses a wrong password, or registers a new user and
    seeds four default recipes for them. The users and recipes tables are
    sequences of rows held by a `UserStore`; the password hasher and checker
    and the id the database assigns are parameters. */
module UserModel {
  import opened Common
  import opened Text

  /** One entry of the default-recipes list. Ingredients and instructions are
      not part of this model. */
  datatype SeedRecipe = SeedRecipe(slug: string, name: string, imagePath: string, animation: string, losingMinute: int)

  const DefaultRecipes: seq<SeedRecipe> := [
    SeedRecipe("boiled", "Boiled Egg", "/boiled.png", "boiling_egg.html", 1),
    SeedRecipe("sunny-side", "Sunny Side Up Egg", "/sunnysideup.jpg", "sunny_side_up_egg.html", 1),
    SeedRecipe("omelet", "Omelet", "/omelete.jpg", "omelet.html", 1),
    SeedRecipe("scrambled", "Scrambled Eggs", "/scrambled.jpg", "scrambled_eggs.html", 1)
  ]

  /** A row of the recipes table as registration writes it. */
  datatype RecipeRow = RecipeRow(userId: string, slug: string, name: string, imagePath: string, animation: string, losingMinute: int)

  /** What `loginOrRegister` resolves to: a status word and, for the two
      successful statuses, the user. */
  datatype LoginResult = LoginResult(status: string, user: Option<User>)

  /** The two columns users are looked up by. */
  datatype Column = EmailColumn | IdColumn

  function ColumnOf(u: User, col: Column): string
  {
    match col
    case EmailColumn => u.email
    case IdColumn => u.id
  }

  /** `SELECT * FROM users WHERE <col> = ?`, first row in table order. */
  function FindBy(users: seq<User>, col: Column, value: string): (found: Option<User>)
    ensures found.None? <==> forall u :: u in users ==> ColumnOf(u, col) != value
    ensures found.Some? ==> found.value in users && ColumnOf(found.value, col) == value
  {
    if users == [] then None
    else if ColumnOf(users[0], col) == value then Some(users[0])
    else FindBy(users[1..], col, value)
  }

  /** The row found is the first one holding the value: when row `k` holds
      it and no row before does, the lookup finds row `k`. */
  lemma {:induction false} FindByIsFirst(users: seq<User>, col: Column, value: string, k: nat)
    requires k < |users| && ColumnOf(users[k], col) == value
    requires forall j :: 0 <= j < k ==> ColumnOf(users[j], col) != value
    ensures FindBy(users, col, value) == Some(users[k])
    decreases k
  {
    if k > 0 {
      assert ColumnOf(users[0], col) != value;
      assert forall j :: 0 <= j < k - 1 ==> users[1..][j] == users[j + 1];
      FindByIsFirst(users[1..], col, value, k - 1);
    }
  }

  /** The lookup by email inside `loginOrRegister`. */
  function FindByEmail(users: seq<User>, email: string): Option<User>
  {
    FindBy(users, EmailColumn, email)
  }

  /** `findById`. */
  function FindById(users: seq<User>, id: string): Option<User>
  {
    FindBy(users, IdColumn, id)
  }

  /** `username || email.split("@")[0]`. */
  function DefaultUsername(email: string, username: Option<string>): (name: string)
    ensures username.Some? && username.value != "" ==> name == username.value
  {
    if username.Some? && username.value != "" then username.value else Split(email, '@')[0]
  }

  /** A given, non-empty username is kept; otherwise the name is the text of
      the email before its first '@' (all of it when there is none). */
  lemma DefaultUsernameIsLocalPart(email: string, username: Option<string>)
    ensures username.Some? && username.value != "" ==> DefaultUsername(email, username) == username.value
    ensures !(username.Some? && username.value != "") ==>
      DefaultUsername(email, username) == email[..IndexOf(email, '@')]
      && '@' !in DefaultUsername(email, username)
  {
    SplitAtFirst(email, '@');
  }

  /** The slug of the `i`th default recipe for user `userId`. */
  function SeedSlug(userId: string, i: nat): string
    requires i < |DefaultRecipes|
  {
    DefaultRecipes[i].slug + "-" + userId
  }

  function SeedRow(userId: string, i: nat): RecipeRow
    requires i < |DefaultRecipes|
  {
    var r := DefaultRecipes[i];
    RecipeRow(userId, SeedSlug(userId, i), r.name, r.imagePath, r.animation, r.losingMinute)
  }

  /** The rows registration inserts for a new user, in list order. */
  function SeedRows(userId: string): (rows: seq<RecipeRow>)
    ensures |rows| == |DefaultRecipes| == 4
    ensures forall i :: 0 <= i < |rows| ==> rows[i] == SeedRow(userId, i)
  {
    seq(|DefaultRecipes|, i requires 0 <= i < |DefaultRecipes| => SeedRow(userId, i))
  }

  /** Seeded slugs are unique across all users: two coincide exactly when
      they are the same default recipe for the same user. So the four rows of
      one user never collide, and rows of distinct users never do either. */
  lemma SeedSlugsUnique(u1: string, u2: string, i: nat, j: nat)
    requires i < |DefaultRecipes| && j < |DefaultRecipes|
    ensures SeedSlug(u1, i) == SeedSlug(u2, j) <==> i == j && u1 == u2
  {
    var s1, s2 := SeedSlug(u1, i), SeedSlug(u2, j);
    if s1 == s2 {
      // the four default slugs already differ in their first two letters
      assert s1[0] == DefaultRecipes[i].slug[0] && s1[1] == DefaultRecipes[i].slug[1];
      assert s2[0] == DefaultRecipes[j].slug[0] && s2[1] == DefaultRecipes[j].slug[1];
      assert i == j;
      var prefix := DefaultRecipes[i].slug + "-";
      assert s1 == prefix + u1 && s2 == prefix + u2;
      assert u1 == s1[|prefix|..] && u2 == s2[|prefix|..];
    }
  }

  /** All email addresses in the users table are different. */
  predicate EmailsUnique(users: seq<User>)
  {
    forall i, j :: 0 <= i < j < |users| ==> users[i].email != users[j].email
  }

  /** What `loginOrRegister` resolves to when the users table is `users`:
      a known email with a password that does not match its hash is refused,
      one that matches is a login of that user, and an unknown email makes a
      new user whose name defaults from the email and whose stored password
      is the hash of the given one. */
  function LoginOutcome(users: seq<User>, email: string, password: string, username: Option<string>,
                        newId: string, hash: string -> string, matches: (string, string) -> bool): (r: LoginResult)
    ensures var found := FindByEmail(users, email);
      && (r.status == "wrong_password" <==> found.Some? && !matches(password, found.value.passwordHash))
      && (r.status == "login_success" <==> found.Some? && matches(password, found.value.passwordHash))
      && (r.status == "user_created" <==> found.None?)
      && (r.user.None? <==> r.status == "wrong_password")
      && (r.status == "login_success" ==> r.user == found)
      && (r.status == "user_created" ==> r.user == Some(User(newId, DefaultUsername(email, username), email, hash(password))))
  {
    var found := FindByEmail(users, email);
    if found.Some? then
      if matches(password, found.value.passwordHash) then LoginResult("login_success", found)
      else LoginResult("wrong_password", None)
    else LoginResult("user_created", Some(User(newId, DefaultUsername(email, username), email, hash(password))))
  }

  class UserStore {
    var users: seq<User>
    var recipes: seq<RecipeRow>

    ghost predicate Valid()
      reads this
    {
      EmailsUnique(users)
    }

    constructor ()
      ensures Valid() && users == [] && recipes == []
    {
      users := [];
      recipes := [];
    }

    /** `loginOrRegister`. `matches(password, stored)` is the password check
        and `hash(password)` the stored hash; `newId` is the id the database
        gives the inserted row. An existing email is a login that writes
        nothing; a new email inserts one user and then the four default
        recipes in list order, each under that user's id. */
    method LoginOrRegister(email: string, password: string, username: Option<string>, newId: string,
                           hash: string -> string, matches: (string, string) -> bool)
      returns (r: LoginResult)
      requires Valid()
      modifies this
      ensures Valid()
      ensures r == LoginOutcome(old(users), email, password, username, newId, hash, matches)
      ensures FindByEmail(old(users), email).Some? ==> users == old(users) && recipes == old(recipes)
      ensures FindByEmail(old(users), email).None? ==>
        users == old(users) + [r.user.value] && recipes == old(recipes) + SeedRows(newId)
    {
      var existing := FindByEmail(users, email);
      if existing.Some? {
        if !matches(password, existing.value.passwordHash) {
          return LoginResult("wrong_password", None);
        }
        return LoginResult("login_success", existing);
      }
      var uname := DefaultUsername(email, username);
      var created := User(newId, uname, email, hash(password));
      NewEmailKeepsUnique(users, created);
      NewEmailFoundLast(users, created);
      users := users + [created];
      var newUser := FindByEmail(users, email).value;
      var userId := newUser.id;
      var i := 0;
      while i < |DefaultRecipes|
        invariant 0 <= i <= |DefaultRecipes|
        invariant recipes == old(recipes) + SeedRows(userId)[..i]
        invariant users == old(users) + [created]
      {
        assert SeedRows(userId)[..i + 1] == SeedRows(userId)[..i] + [SeedRow(userId, i)];
        recipes := recipes + [SeedRow(userId, i)];
        i := i + 1;
      }
      return LoginResult("user_created", Some(newUser));
    }
  }

  /** Appending a user whose email is not yet stored keeps emails unique. */
  lemma NewEmailKeepsUnique(users: seq<User>, u: User)
    requires EmailsUnique(users) && FindByEmail(users, u.email).None?
    ensures EmailsUnique(users + [u])
  {
    var all := users + [u];
    forall i, j | 0 <= i < j < |all| ensures all[i].email != all[j].email {
      assert all[i] == users[i] && users[i] in users;
      if j < |users| {
        assert all[j] == users[j];
      }
    }
  }

  /** Looking up the email of a row appended after rows that do not hold it
      finds that row. */
  lemma {:induction false} NewEmailFoundLast(users: seq<User>, u: User)
    requires FindByEmail(users, u.email).None?
    ensures FindByEmail(users + [u], u.email) == Some(u)
    decreases |users|
  {
    if users != [] {
      assert (users + [u])[1..] == users[1..] + [u];
      NewEmailFoundLast(users[1..], u);
    }
  }

  /** Registration seeds rows that all belong to the new user, four of them,
      with pairwise distinct slugs. */
  lemma SeededRowsBelongToNewUser(userId: string)
    ensures forall k :: 0 <= k < |SeedRows(userId)| ==> SeedRows(userId)[k].userId == userId
    ensures forall k, m :: 0 <= k < m < |SeedRows(userId)| ==> SeedRows(userId)[k].slug != SeedRows(userId)[m].slug
  {
    forall k, m | 0 <= k < m < |SeedRows(userId)|
      ensures SeedRows(userId)[k].slug != SeedRows(userId)[m].slug
    {
      SeedSlugsUnique(userId, userId, k, m);
    }
  }
}
