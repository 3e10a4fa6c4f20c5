/**
 * User registration: the request validator, with the email pattern
 * `^[a-zA-Z0-9._%+-]+@[a-zA-Z0-9.-]+\.[a-zA-Z]{2,}$`, and the handler that
 * hashes the password and creates the user.
 */
module UserHandler {
  import opened Wrappers
  import opened Errors
  import opened Crypto
  import opened Database
  import opened Http
  import opened UserStore

  /** registerUserRequest */
  datatype RegisterUserRequest = RegisterUserRequest(username: string, email: string, password: string, bio: string)

  /** What the handler writes for a user: the password hash is tagged `json:"-"` and never leaves. */
  datatype UserJson = UserJson(id: int, username: string, email: string, bio: string, createdAt: int, updatedAt: int)

  const MissingRequiredFields: string := "missing required fields"
  const InvalidEmailFormat: string := "invalid email format"
  const PasswordTooShort: string := "password must be at least 6 characters long"
  const InvalidRequestPayload: string := "invalid request payload"
  const InternalServerError: string := "internal server error"

  predicate IsLetter(c: char)
  {
    'a' <= c <= 'z' || 'A' <= c <= 'Z'
  }

  predicate IsAlnum(c: char)
  {
    IsLetter(c) || '0' <= c <= '9'
  }

  /** The class `[a-zA-Z0-9._%+-]` of the local part. */
  predicate IsLocalChar(c: char)
  {
    IsAlnum(c) || c == '.' || c == '_' || c == '%' || c == '+' || c == '-'
  }

  /** The class `[a-zA-Z0-9.-]` of the domain. */
  predicate IsDomainChar(c: char)
  {
    IsAlnum(c) || c == '.' || c == '-'
  }

  /**
   * `s` splits as local part s[..at], '@', domain s[at+1..dot], '.', and
   * top-level part s[dot+1..], each non-empty and from its class, the last
   * at least two letters long.
   */
  predicate EmailParts(s: string, at: int, dot: int)
  {
    && 0 < at && at + 1 < dot && dot + 2 < |s|
    && s[at] == '@' && s[dot] == '.'
    && (forall i :: 0 <= i < at ==> IsLocalChar(s[i]))
    && (forall i :: at < i < dot ==> IsDomainChar(s[i]))
    && (forall i :: dot < i < |s| ==> IsLetter(s[i]))
  }

  /** The email regular expression matches `s`: some split of `s` fits it. */
  ghost predicate EmailPattern(s: string)
  {
    exists at, dot :: EmailParts(s, at, dot)
  }

  /** The index of the first `c` in `s`, or |s| when there is none. */
  function IndexOf(s: string, c: char): (i: nat)
    ensures i <= |s|
    ensures i < |s| ==> s[i] == c
    ensures forall j :: 0 <= j < i ==> s[j] != c
  {
    if s == [] then 0
    else if s[0] == c then 0
    else 1 + IndexOf(s[1..], c)
  }

  /** The index of the last `c` in `s`, or -1 when there is none. */
  function LastIndexOf(s: string, c: char): (i: int)
    ensures -1 <= i < |s|
    ensures 0 <= i ==> s[i] == c
    ensures forall j :: i < j < |s| ==> s[j] != c
  {
    if s == [] then -1
    else if s[|s| - 1] == c then |s| - 1
    else LastIndexOf(s[..|s| - 1], c)
  }

  /**
   * No class admits '@' and letters admit no '.', so in any split the '@'
   * is the first one and the '.' before the top-level part the last one.
   */
  lemma EmailSplitIsForced(s: string)
    ensures forall at, dot :: EmailParts(s, at, dot) ==> at == IndexOf(s, '@') && dot == LastIndexOf(s, '.')
  {
    forall at, dot | EmailParts(s, at, dot)
      ensures at == IndexOf(s, '@') && dot == LastIndexOf(s, '.')
    {
      assert !IsLocalChar('@');
      assert !IsLetter('.');
    }
  }

  /** The matcher tries the one split that can fit; it matches exactly when the pattern does. */
  function MatchEmail(s: string): (b: bool)
    ensures b <==> EmailPattern(s)
  {
    EmailSplitIsForced(s);
    EmailParts(s, IndexOf(s, '@'), LastIndexOf(s, '.'))
  }

  /**
   * validateRegisterRequest: the checks run in the order required fields,
   * email format, password length (in bytes), and the first that fails
   * gives the message; a request passing all three is valid.
   */
  function ValidateRegisterRequest(req: RegisterUserRequest): (err: Option<string>)
    ensures err == Some(MissingRequiredFields) <==> req.username == "" || req.email == "" || req.password == ""
    ensures err == Some(InvalidEmailFormat) <==>
      req.username != "" && req.email != "" && req.password != "" && !EmailPattern(req.email)
    ensures err == Some(PasswordTooShort) <==>
      req.username != "" && req.password != "" && EmailPattern(req.email) && |req.password| < 6
    ensures err.None? <==> req.username != "" && EmailPattern(req.email) && |req.password| >= 6
  {
    if req.username == "" || req.email == "" || req.password == "" then Some(MissingRequiredFields)
    else if !MatchEmail(req.email) then Some(InvalidEmailFormat)
    else if |req.password| < 6 then Some(PasswordTooShort)
    else None
  }

  /** A concrete address the pattern accepts. */
  lemma EmailAccepted()
    ensures EmailPattern("alice@x.com")
  {
    assert EmailParts("alice@x.com", 5, 7);
  }

  /** An address whose top-level part is a single letter is refused. */
  lemma EmailShortTopLevelRefused()
    ensures !EmailPattern("alice@x.c")
  {
    var s := "alice@x.c";
    forall dot | 0 <= dot < |s| && s[dot] == '.' ensures dot == 7 {
    }
  }

  /** An address without a dot after the '@' is refused. */
  lemma EmailWithoutDotRefused()
    ensures !EmailPattern("alice@com")
  {
    var s := "alice@com";
    forall i | 0 <= i < |s| ensures s[i] != '.' {
    }
  }

  /**
   * HandleRegisterUser: an undecodable body (`payload` None) or an invalid
   * request is 400 with nothing hashed and the store untouched; a hashing
   * failure (`salt` None) or a failed insert is 500; otherwise 201 with the
   * created user, whose row holds the bcrypt hash of the password.
   */
  method HandleRegisterUser(userStore: PostgresUserStore, payload: Option<RegisterUserRequest>, salt: Option<nat>,
                            now: int, dbFails: bool) returns (response: Response<UserJson>)
    requires userStore.db.Valid()
    modifies userStore.db`users, userStore.db`userIdSeq
    ensures userStore.db.Valid()
    ensures payload.None? ==> response == Response(StatusBadRequest, ErrorEnvelope(InvalidRequestPayload))
    ensures payload.Some? && ValidateRegisterRequest(payload.value).Some? ==>
      response == Response(StatusBadRequest, ErrorEnvelope(ValidateRegisterRequest(payload.value).value))
    ensures payload.Some? && ValidateRegisterRequest(payload.value).None? && salt.None? ==>
      response == Response(StatusInternalServerError, ErrorEnvelope(InternalServerError))
    ensures response.status == StatusCreated <==>
      payload.Some? && ValidateRegisterRequest(payload.value).None? && salt.Some?
      && !dbFails && UserByUsername(old(userStore.db.users), payload.value.username).None?
    ensures response.status == StatusCreated ==>
      var req := payload.value;
      var hash := GenerateFromPassword(req.password, DefaultCost, salt).value;
      && hash.Bcrypt? && CompareHashAndPassword(hash, req.password).None?
      && userStore.db.users == old(userStore.db.users)
           + [UserRow(old(userStore.db.userIdSeq), req.username, req.email, hash, req.bio, now, now)]
      && response.body == Envelope(UserJson(old(userStore.db.userIdSeq), req.username, req.email, req.bio, now, now))
    ensures response.status != StatusCreated ==>
      response.status in {StatusBadRequest, StatusInternalServerError} && userStore.db.users == old(userStore.db.users)
    ensures response.status == StatusBadRequest ==> userStore.db.userIdSeq == old(userStore.db.userIdSeq)
    ensures response.status == StatusCreated ==> userStore.db.userIdSeq == old(userStore.db.userIdSeq) + 1
    ensures response.status == StatusInternalServerError ==>
      userStore.db.userIdSeq == old(userStore.db.userIdSeq) + (if salt.Some? && !dbFails then 1 else 0)
  {
    if payload.None? {
      return Response(StatusBadRequest, ErrorEnvelope(InvalidRequestPayload));
    }
    var req := payload.value;
    var invalid := ValidateRegisterRequest(req);
    if invalid.Some? {
      return Response(StatusBadRequest, ErrorEnvelope(invalid.value));
    }
    var user := new User();
    user.username, user.email, user.bio := req.username, req.email, req.bio;
    var err := user.passwordHash.Set(req.password, salt);
    if err.Some? {
      return Response(StatusInternalServerError, ErrorEnvelope(InternalServerError));
    }
    err := userStore.CreateUser(user, now, dbFails);
    if err.Some? {
      return Response(StatusInternalServerError, ErrorEnvelope(InternalServerError));
    }
    return Response(StatusCreated, Envelope(UserJson(user.id, user.username, user.email, user.bio, user.createdAt, user.updatedAt)));
  }
}
