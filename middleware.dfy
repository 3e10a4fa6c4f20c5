/**
 * The authentication middleware: it resolves the bearer token of a request
 * to a user and attaches that user to the request context, and guards the
 * routes that need an identified user.
 */
module Middleware {
  import opened Wrappers
  import opened Errors
  import opened Http
  import opened Tokens
  import opened UserStore

  /**
   * A request as the middleware and the handlers see it: its Authorization
   * header and the user its context carries under the user key (None: no
   * such key; Some(null): a nil *store.User).
   */
  datatype Request = Request(authorization: string, contextUser: Option<User?>)

  /** SetUser: the same request with `user` in its context. */
  function SetUser(r: Request, user: User?): (r': Request)
    ensures r'.authorization == r.authorization && r'.contextUser.Some?
  {
    r.(contextUser := Some(user))
  }

  /** GetUser: the user in the context; Go panics when there is none, hence the precondition. */
  function GetUser(r: Request): (u: User?)
    requires r.contextUser.Some?
    ensures u == r.contextUser.value
  {
    r.contextUser.value
  }

  /** GetUser returns exactly the value SetUser stored, nil included. */
  lemma GetUserAfterSetUser(r: Request, user: User?)
    ensures GetUser(SetUser(r, user)) == user
  {
  }

  /** strings.Split(s, " "): the pieces between single spaces, empty pieces included. */
  function Split(s: string): (parts: seq<string>)
    ensures |parts| >= 1
  {
    if s == [] then [""]
    else
      var rest := Split(s[1..]);
      if s[0] == ' ' then [""] + rest else [[s[0]] + rest[0]] + rest[1..]
  }

  /** strings.Join(parts, " "). */
  function Join(parts: seq<string>): string
    requires |parts| >= 1
  {
    if |parts| == 1 then parts[0] else parts[0] + " " + Join(parts[1..])
  }

  /** Joining the pieces with single spaces gives the string back, and no piece holds a space. */
  lemma {:induction false} SplitJoin(s: string)
    ensures Join(Split(s)) == s
    ensures forall i :: 0 <= i < |Split(s)| ==> ' ' !in Split(s)[i]
  {
    if s != [] {
      SplitJoin(s[1..]);
      var rest := Split(s[1..]);
      if s[0] == ' ' {
        assert Split(s) == [""] + rest;
        assert ([""] + rest)[1..] == rest;
        assert s == [' '] + s[1..];
      } else {
        var parts := [[s[0]] + rest[0]] + rest[1..];
        assert Split(s) == parts;
        if |rest| == 1 {
          assert s == [s[0]] + s[1..];
        } else {
          assert parts[1..] == rest[1..];
          assert Join(rest) == rest[0] + " " + Join(rest[1..]);
          assert s == [s[0]] + s[1..];
        }
        forall i | 0 <= i < |parts| ensures ' ' !in parts[i] {
          if i > 0 {
            assert parts[i] == rest[i];
          }
        }
      }
    }
  }

  /** A piece without spaces followed by a space and the rest splits into that piece and the pieces of the rest. */
  lemma {:induction false} SplitAfterWord(w: string, t: string)
    requires ' ' !in w
    ensures Split(w + " " + t) == [w] + Split(t)
  {
    if w == [] {
      assert w + " " + t == [' '] + t;
    } else {
      assert (w + " " + t)[1..] == w[1..] + " " + t;
      SplitAfterWord(w[1..], t);
      assert [w[0]] + w[1..] == w;
    }
  }

  /** A string without spaces is one piece. */
  lemma {:induction false} SplitWord(w: string)
    requires ' ' !in w
    ensures Split(w) == [w]
  {
    if w != [] {
      SplitWord(w[1..]);
      assert [w[0]] + w[1..] == w;
    }
  }

  /** A well-formed header: "Bearer", one space, and a token without spaces (possibly empty). */
  predicate IsBearer(header: string)
  {
    |header| >= 7 && header[..7] == "Bearer " && ' ' !in header[7..]
  }

  /** Splitting on spaces gives exactly two pieces, the first "Bearer", exactly for a well-formed header; the second is the token. */
  lemma BearerHeader(header: string)
    ensures (|Split(header)| == 2 && Split(header)[0] == "Bearer") <==> IsBearer(header)
    ensures IsBearer(header) ==> Split(header)[1] == header[7..]
  {
    if IsBearer(header) {
      assert header == "Bearer" + " " + header[7..];
      SplitAfterWord("Bearer", header[7..]);
      SplitWord(header[7..]);
    }
    if |Split(header)| == 2 && Split(header)[0] == "Bearer" {
      SplitJoin(header);
      var parts := Split(header);
      assert ' ' !in parts[1];
      assert header == "Bearer" + " " + parts[1];
      assert header[..7] == "Bearer ";
      assert header[7..] == parts[1];
    }
  }

  const InvalidHeaderFormat: string := "Invalid Authorization header format"
  const InvalidToken: string := "Invalid token"
  const UserNotFound: string := "User not found"
  const MustBeAuthenticated: string := "You must be authenticated to access this resource"

  /** What a middleware does with a request: run the next handler on it, or answer itself. */
  datatype Decision = Next(request: Request) | Reject(response: Response<()>)

  /** A call the middleware makes to the user store. */
  datatype TokenLookup = GetUserToken(scope: string, plaintext: string)

  datatype Authenticated = Authenticated(decision: Decision, lookups: seq<TokenLookup>)

  /**
   * Authenticate. `lookup` is what the user store answers to the token
   * lookup, if the middleware makes one: an error, a nil user, or a user.
   * No header runs the next handler as the anonymous user; a header other
   * than "Bearer <token>" is 401; otherwise the token is looked up in the
   * authentication scope, verbatim, and a failed or empty lookup is 401.
   */
  function Authenticate(r: Request, anonymousUser: User, lookup: Result<User?>): (a: Authenticated)
    ensures r.authorization == "" ==> a == Authenticated(Next(SetUser(r, anonymousUser)), [])
    ensures r.authorization != "" && !IsBearer(r.authorization) ==>
      a == Authenticated(Reject(Response(StatusUnauthorized, ErrorEnvelope(InvalidHeaderFormat))), [])
    ensures IsBearer(r.authorization) ==> a.lookups == [GetUserToken(ScopeAuth, r.authorization[7..])]
    ensures IsBearer(r.authorization) && lookup.Err? ==>
      a.decision == Reject(Response(StatusUnauthorized, ErrorEnvelope(InvalidToken)))
    ensures IsBearer(r.authorization) && lookup == Ok(null) ==>
      a.decision == Reject(Response(StatusUnauthorized, ErrorEnvelope(UserNotFound)))
    ensures IsBearer(r.authorization) && lookup.Ok? && lookup.value != null ==>
      a.decision == Next(SetUser(r, lookup.value))
  {
    if r.authorization == "" then Authenticated(Next(SetUser(r, anonymousUser)), [])
    else
      var headerParts := Split(r.authorization);
      BearerHeader(r.authorization);
      if |headerParts| != 2 || headerParts[0] != "Bearer" then
        Authenticated(Reject(Response(StatusUnauthorized, ErrorEnvelope(InvalidHeaderFormat))), [])
      else
        var tokenString := headerParts[1];
        var lookups := [GetUserToken(ScopeAuth, tokenString)];
        match lookup
        case Err(_) => Authenticated(Reject(Response(StatusUnauthorized, ErrorEnvelope(InvalidToken))), lookups)
        case Ok(user) =>
          if user == null then Authenticated(Reject(Response(StatusUnauthorized, ErrorEnvelope(UserNotFound))), lookups)
          else Authenticated(Next(SetUser(r, user)), lookups)
  }

  /**
   * RequireAuthenticatedUser: 401 for the anonymous sentinel, every other
   * user passes. A nil user passes too: IsAnonymous on a nil *User compares
   * the pointer without dereferencing it.
   */
  function RequireAuthenticatedUser(r: Request, anonymousUser: User): (d: Decision)
    requires r.contextUser.Some?
    ensures d.Next? <==> GetUser(r) != anonymousUser
    ensures d.Next? ==> d.request == r
    ensures d.Reject? ==> d.response == Response(StatusUnauthorized, ErrorEnvelope(MustBeAuthenticated))
  {
    var user := GetUser(r);
    if user != null && user.IsAnonymous(anonymousUser) then
      Reject(Response(StatusUnauthorized, ErrorEnvelope(MustBeAuthenticated)))
    else Next(r)
  }

  /**
   * Behind both middlewares, a handler runs exactly when the request carried
   * a well-formed bearer header whose token the store resolved to a user
   * (the store never answers with the sentinel itself), and it sees that user.
   */
  lemma ProtectedHandlerRunsOnlyForTokenUsers(r: Request, anonymousUser: User, lookup: Result<User?>)
    requires lookup.Ok? ==> lookup.value != anonymousUser
    ensures var a := Authenticate(r, anonymousUser, lookup);
      (a.decision.Next? && RequireAuthenticatedUser(a.decision.request, anonymousUser).Next?)
        <==> IsBearer(r.authorization) && lookup.Ok? && lookup.value != null
    ensures var a := Authenticate(r, anonymousUser, lookup);
      a.decision.Next? && RequireAuthenticatedUser(a.decision.request, anonymousUser).Next? ==>
        GetUser(a.decision.request) == lookup.value
  {
    if r.authorization == "" {
      GetUserAfterSetUser(r, anonymousUser);
    } else if IsBearer(r.authorization) && lookup.Ok? && lookup.value != null {
      GetUserAfterSetUser(r, lookup.value);
    }
  }
}
