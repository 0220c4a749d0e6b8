/**
 * Signup and token issuance (UserRegistrationView.post and TokenObtainView.post
 * in api_yamdb/api/views.py), over an abstract user table.
 *
 * The table is a map from username to user; the database's unique constraints
 * on username and email are the store invariant Unique. The confirmation-code
 * generator is a pair of abstract functions fixed for the store: `makeToken`
 * produces the code that is mailed, `checkToken` decides whether a code is
 * accepted for a user.
 */
module Auth {

  datatype Role = UserRole | Moderator | Admin

  datatype User = User(username: string, email: string, role: Role)

  /** A confirmation mail: the address it goes to and the code it carries. */
  datatype Mail = Mail(to: string, code: string)

  /** What signup answers: the validated data echoed back, or which uniqueness check failed. */
  datatype SignupResponse = Echo(username: string, email: string) | EmailExists | UsernameExists

  /** What a token request answers: an access token for a user, not-found, or a validation error. */
  datatype TokenResponse = AccessToken(user: User) | UserNotFound | InvalidCode

  /** The unique constraints of the user table: usernames (the keys) and emails. */
  predicate Unique(users: map<string, User>)
  {
    && (forall n :: n in users ==> users[n].username == n)
    && (forall a, b :: a in users && b in users && users[a].email == users[b].email ==> a == b)
  }

  predicate EmailRegistered(users: map<string, User>, email: string)
  {
    exists n :: n in users && users[n].email == email
  }

  /** The exact (username, email) pair is on file. */
  predicate PairOnFile(users: map<string, User>, username: string, email: string)
  {
    username in users && users[username].email == email
  }

  /**
   * get_or_create on the pair, then, when the insert violates a unique
   * constraint, the email check before the username one.
   */
  function SignupDecision(users: map<string, User>, username: string, email: string): (r: SignupResponse)
    ensures r.Echo? ==> r == Echo(username, email)
    ensures r == EmailExists <==> !PairOnFile(users, username, email) && EmailRegistered(users, email)
    ensures r == UsernameExists <==>
              !PairOnFile(users, username, email) && !EmailRegistered(users, email) && username in users
  {
    if PairOnFile(users, username, email) then Echo(username, email)
    else if username !in users && !EmailRegistered(users, email) then Echo(username, email)
    else if EmailRegistered(users, email) then EmailExists
    else UsernameExists
  }

  /** The user table after signup: a new user with the default role when neither field was taken. */
  function AfterSignup(users: map<string, User>, username: string, email: string): (r: map<string, User>)
    ensures r == users || (username !in users && r == users[username := User(username, email, UserRole)])
    ensures PairOnFile(r, username, email) <==> SignupDecision(users, username, email).Echo?
  {
    if !PairOnFile(users, username, email) && username !in users && !EmailRegistered(users, email)
    then users[username := User(username, email, UserRole)]
    else users
  }

  /** Signup keeps usernames and emails unique. */
  lemma SignupKeepsUnique(users: map<string, User>, username: string, email: string)
    requires Unique(users)
    ensures Unique(AfterSignup(users, username, email))
  {
    var after := AfterSignup(users, username, email);
    if after != users {
      assert forall n :: n in users ==> users[n].email != email;
    }
  }

  /** Signing up with a pair already on file succeeds, echoes the pair and changes nothing. */
  lemma SignupIdempotentOnFile(users: map<string, User>, username: string, email: string)
    requires PairOnFile(users, username, email)
    ensures SignupDecision(users, username, email) == Echo(username, email)
    ensures AfterSignup(users, username, email) == users
  {
  }

  /** After a successful signup the pair is on file, so signing up again echoes and changes nothing. */
  lemma SignupTwice(users: map<string, User>, username: string, email: string)
    requires SignupDecision(users, username, email).Echo?
    ensures PairOnFile(AfterSignup(users, username, email), username, email)
    ensures var after := AfterSignup(users, username, email);
            SignupDecision(after, username, email) == Echo(username, email) &&
            AfterSignup(after, username, email) == after
  {
  }

  /** A collision on a registered email is reported as "email exists", whatever the username. */
  lemma ConflictEmailFirst(users: map<string, User>, username: string, email: string)
    requires !PairOnFile(users, username, email)
    requires EmailRegistered(users, email)
    ensures SignupDecision(users, username, email) == EmailExists
    ensures AfterSignup(users, username, email) == users
  {
  }

  /** A collision with an unregistered email is on the username, and is reported as "username exists". */
  lemma ConflictUsername(users: map<string, User>, username: string, email: string)
    requires !PairOnFile(users, username, email)
    requires !EmailRegistered(users, email)
    requires username in users
    ensures SignupDecision(users, username, email) == UsernameExists
    ensures AfterSignup(users, username, email) == users
  {
  }

  /**
   * Signup succeeds exactly when the pair is on file or both fields are free,
   * and then echoes the pair unchanged; under the invariant a conflict means a
   * different user holds the username or the email.
   */
  lemma SignupOutcome(users: map<string, User>, username: string, email: string)
    requires Unique(users)
    ensures var r := SignupDecision(users, username, email);
            (r.Echo? <==> PairOnFile(users, username, email) || (username !in users && !EmailRegistered(users, email))) &&
            (r.Echo? ==> r == Echo(username, email)) &&
            (!r.Echo? ==> (username in users && users[username].email != email) ||
                          (exists n :: n in users && n != username && users[n].email == email))
  {
    var r := SignupDecision(users, username, email);
    if r == EmailExists {
      var n :| n in users && users[n].email == email;
      assert n != username;
    }
  }

  /** After a successful signup the username resolves to the user holding that email, so a token request finds it. */
  lemma SignupThenLookup(users: map<string, User>, username: string, email: string)
    requires Unique(users)
    requires SignupDecision(users, username, email).Echo?
    ensures var after := AfterSignup(users, username, email);
            username in after && after[username].username == username && after[username].email == email
  {
  }

  /** The user table with the mails the signup view has sent. */
  class UserStore {
    const makeToken: User -> string
    const checkToken: (User, string) -> bool
    var users: map<string, User>
    var outbox: seq<Mail>

    ghost predicate Valid()
      reads this
    {
      Unique(users)
    }

    constructor (makeToken: User -> string, checkToken: (User, string) -> bool, users: map<string, User>)
      requires Unique(users)
      ensures Valid()
      ensures this.makeToken == makeToken && this.checkToken == checkToken
      ensures this.users == users && outbox == []
    {
      this.makeToken := makeToken;
      this.checkToken := checkToken;
      this.users := users;
      outbox := [];
    }

    /**
     * Gets or creates the user for the validated pair; on a conflict reports the
     * email before the username; on success mails a confirmation code and echoes the pair.
     */
    method Signup(username: string, email: string) returns (r: SignupResponse)
      requires Valid()
      modifies this
      ensures Valid()
      ensures r == SignupDecision(old(users), username, email)
      ensures users == AfterSignup(old(users), username, email)
      ensures r.Echo? ==> PairOnFile(users, username, email)
      ensures outbox == if r.Echo? then old(outbox) + [Mail(email, makeToken(users[username]))] else old(outbox)
    {
      SignupKeepsUnique(users, username, email);
      if PairOnFile(users, username, email) {
        // the get of get_or_create
      } else if username in users || EmailRegistered(users, email) {
        // the create of get_or_create violates a unique constraint
        if EmailRegistered(users, email) {
          return EmailExists;
        }
        return UsernameExists;
      } else {
        users := users[username := User(username, email, UserRole)];
      }
      var user := users[username];
      outbox := outbox + [Mail(user.email, makeToken(user))];
      r := Echo(username, email);
    }

    /** Looks the user up by username, then checks the code; only an accepted code yields a token. */
    method ObtainToken(username: string, code: string) returns (r: TokenResponse)
      ensures r == UserNotFound <==> username !in users
      ensures r.AccessToken? <==> username in users && checkToken(users[username], code)
      ensures r == InvalidCode <==> username in users && !checkToken(users[username], code)
      ensures r.AccessToken? ==> r.user == users[username]
    {
      if username !in users {
        return UserNotFound;
      }
      var user := users[username];
      if checkToken(user, code) {
        return AccessToken(user);
      }
      return InvalidCode;
    }
  }
}
