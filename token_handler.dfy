/**
 * Login: a username and password are exchanged for a fresh authentication
 * token valid for 24 hours.
 */
module TokenHandler {
  import opened Wrappers
  import opened Errors
  import opened Crypto
  import opened Tokens
  import opened Http
  import opened UserStore

  /** createTokenRequest */
  datatype CreateTokenRequest = CreateTokenRequest(username: string, password: string)

  /** The body of a successful answer: the plaintext token and its expiry. */
  datatype TokenJson = TokenJson(token: string, expiry: int)

  /** A call the handler makes to a store. */
  datatype StoreCall =
    | GetUserByUsername(username: string)
    | CreateNewToken(userId: int, ttl: int, scope: string)

  datatype Handled = Handled(response: Response<TokenJson>, calls: seq<StoreCall>)

  /** 24*time.Hour, in the seconds of the model clock. */
  const TokenTTL: int := 24 * 60 * 60

  const InvalidRequestPayload: string := "invalid request payload"
  const InternalError: string := "internal error"
  const InvalidCredentials: string := "invalid credentials"

  /** The objects the handler reads when the user lookup returned a user. */
  function LookedUp(lookup: Result<User?>): set<object>
  {
    if lookup.Ok? && lookup.value != null then {lookup.value, lookup.value.passwordHash} else {}
  }

  /** The lookup found a user whose stored hash `password` matches. */
  predicate Verified(lookup: Result<User?>, password: string)
    reads LookedUp(lookup)
  {
    lookup.Ok? && lookup.value != null && lookup.value.passwordHash.Matches(password) == (true, None)
  }

  /**
   * HandleCreateToken. `payload` None is a body that does not decode;
   * `lookup` is what GetUserByUsername answers and `issued` what
   * CreateNewToken answers, if the handler gets that far. A failed lookup
   * and an unknown user are both 401 "internal error"; a hash that cannot
   * be compared and a wrong password are both 401 "invalid credentials";
   * only a verified password reaches the token store.
   */
  function HandleCreateToken(payload: Option<CreateTokenRequest>, lookup: Result<User?>, issued: Result<Token>): (h: Handled)
    reads LookedUp(lookup)
    ensures payload.None? ==> h == Handled(Response(StatusBadRequest, ErrorEnvelope(InvalidRequestPayload)), [])
    ensures payload.Some? && (lookup.Err? || lookup.value == null) ==>
      h == Handled(Response(StatusUnauthorized, ErrorEnvelope(InternalError)), [GetUserByUsername(payload.value.username)])
    ensures payload.Some? && lookup.Ok? && lookup.value != null && !Verified(lookup, payload.value.password) ==>
      h == Handled(Response(StatusUnauthorized, ErrorEnvelope(InvalidCredentials)), [GetUserByUsername(payload.value.username)])
    ensures payload.Some? && Verified(lookup, payload.value.password) ==>
      && h.calls == [GetUserByUsername(payload.value.username), CreateNewToken(lookup.value.id, TokenTTL, ScopeAuth)]
      && h.response == (if issued.Err? then Response(StatusInternalServerError, ErrorEnvelope(InternalError))
                        else Response(StatusCreated, Envelope(TokenJson(issued.value.plaintext, issued.value.expiry))))
    ensures h.response.status == StatusCreated <==> payload.Some? && Verified(lookup, payload.value.password) && issued.Ok?
  {
    if payload.None? then Handled(Response(StatusBadRequest, ErrorEnvelope(InvalidRequestPayload)), [])
    else
      var req := payload.value;
      var calls := [GetUserByUsername(req.username)];
      if lookup.Err? || lookup.value == null then
        Handled(Response(StatusUnauthorized, ErrorEnvelope(InternalError)), calls)
      else
        var user := lookup.value;
        var (passwordsDoMatch, err) := user.passwordHash.Matches(req.password);
        if err.Some? then Handled(Response(StatusUnauthorized, ErrorEnvelope(InvalidCredentials)), calls)
        else if !passwordsDoMatch then Handled(Response(StatusUnauthorized, ErrorEnvelope(InvalidCredentials)), calls)
        else
          var calls' := calls + [CreateNewToken(user.id, TokenTTL, ScopeAuth)];
          match issued
          case Err(_) => Handled(Response(StatusInternalServerError, ErrorEnvelope(InternalError)), calls')
          case Ok(token) => Handled(Response(StatusCreated, Envelope(TokenJson(token.plaintext, token.expiry))), calls')
  }

  /**
   * For a user registered with password `p` (its hash generated from `p`),
   * logging in with `p` asks for a 24-hour authentication token for that
   * user, and with any other password is refused without reaching the
   * token store.
   */
  lemma OnlyTheRegisteredPasswordLogsIn(user: User, p: string, q: string, salt: nat, issued: Result<Token>)
    requires user.passwordHash.hash == GenerateFromPassword(p, DefaultCost, Some(salt)).value
    ensures HandleCreateToken(Some(CreateTokenRequest(user.username, p)), Ok(user), issued).calls
      == [GetUserByUsername(user.username), CreateNewToken(user.id, TokenTTL, ScopeAuth)]
    ensures q != p ==>
      HandleCreateToken(Some(CreateTokenRequest(user.username, q)), Ok(user), issued)
        == Handled(Response(StatusUnauthorized, ErrorEnvelope(InvalidCredentials)), [GetUserByUsername(user.username)])
  {
    SetPasswordMatchesOnlyItself(user.passwordHash, p, q, salt);
  }

  /** A user row read back without a usable hash (never set) can never log in. */
  lemma UnsetHashNeverLogsIn(user: User, q: string, issued: Result<Token>)
    requires user.passwordHash.hash == NilHash
    ensures HandleCreateToken(Some(CreateTokenRequest(user.username, q)), Ok(user), issued).response
      == Response(StatusUnauthorized, ErrorEnvelope(InvalidCredentials))
  {
    UnsetPasswordIsAnError(user.passwordHash, q);
  }
}
