/**
 * SupabaseAuthService: the checks VerifyToken makes on a Supabase access
 * token, in their order, and SyncUserFromToken, which maps the token's
 * subject to a row of the users table, linking an existing e-mail account
 * or creating a user when needed.
 *
 * Token parsing, signature checking and the call to Supabase's user
 * endpoint are not part of this model; their outcomes are parameters.
 */
module SupabaseAuth {
  import opened Results
  import opened Users

  /** The claims the service reads from a token. */
  datatype Claims = Claims(sub: string, email: string, exp: int)

  /**
   * A token as the unverified parse sees it: the `alg` header when it is a
   * string (None otherwise) and its claims.
   */
  datatype UnverifiedToken = UnverifiedToken(alg: Option<string>, claims: Claims)

  datatype AuthError =
    | SecretNotConfigured           // "JWT secret is not configured"
    | InvalidToken                  // wraps "invalid or expired token"
    | TokenExpired                  // "token has expired"
    | InvalidAlgorithm              // "invalid algorithm in token header"
    | UnsupportedAlgorithm(alg: string)
    | MissingSubject                // "missing user ID in token claims"
    | CreateFailed(cause: RepoError)

  /** The token has an expiry time and the clock is past it; an `exp` of 0 never expires. */
  predicate Expired(claims: Claims, now: int) {
    claims.exp > 0 && now > claims.exp
  }

  /**
   * VerifyToken. `parsed` is the unverified parse (None when it fails),
   * `now` the clock in Unix seconds, `remoteAccepts` the answer of
   * Supabase's user endpoint for an ES256 token, and `signed` the claims of
   * a valid HS256 signature check (None when it fails or is not valid).
   */
  function VerifyToken(jwtSecret: seq<bv8>, parsed: Option<UnverifiedToken>, now: int,
                       remoteAccepts: bool, signed: Option<Claims>): (r: Result<Claims, AuthError>)
    ensures jwtSecret == [] ==> r == Err(SecretNotConfigured)
    ensures jwtSecret != [] && parsed.None? ==> r == Err(InvalidToken)
    ensures jwtSecret != [] && parsed.Some? ==>
              (r == Err(TokenExpired) <==> Expired(parsed.value.claims, now))
    ensures r.Ok? ==>
              jwtSecret != [] && parsed.Some? && !Expired(parsed.value.claims, now) &&
              ((parsed.value.alg == Some("ES256") && remoteAccepts && r.value == parsed.value.claims) ||
               (parsed.value.alg == Some("HS256") && signed == Some(r.value)))
    ensures jwtSecret != [] && parsed.Some? && !Expired(parsed.value.claims, now) ==>
              match parsed.value.alg
              case None => r == Err(InvalidAlgorithm)
              case Some(alg) =>
                if alg == "ES256" then
                  r == (if remoteAccepts then Ok(parsed.value.claims) else Err(InvalidToken))
                else if alg == "HS256" then
                  r == (if signed.Some? then Ok(signed.value) else Err(InvalidToken))
                else r == Err(UnsupportedAlgorithm(alg))
  {
    if |jwtSecret| == 0 then Err(SecretNotConfigured)
    else if parsed.None? then Err(InvalidToken)
    else
      var token := parsed.value;
      if token.claims.exp > 0 && now > token.claims.exp then Err(TokenExpired)
      else if token.alg.None? then Err(InvalidAlgorithm)
      else
        var alg := token.alg.value;
        if alg == "ES256" then
          if remoteAccepts then Ok(token.claims) else Err(InvalidToken)
        else if alg == "HS256" then
          if signed.Some? then Ok(signed.value) else Err(InvalidToken)
        else Err(UnsupportedAlgorithm(alg))
  }

  /**
   * The secret, parse and expiry checks come before any signature or remote
   * check: when one of them fails the outcome is the same whatever the
   * signature check and Supabase would say.
   */
  lemma GuardsPrecedeVerification(jwtSecret: seq<bv8>, parsed: Option<UnverifiedToken>, now: int,
                                  remote1: bool, signed1: Option<Claims>, remote2: bool, signed2: Option<Claims>)
    requires jwtSecret == [] || parsed.None? || Expired(parsed.value.claims, now)
    ensures VerifyToken(jwtSecret, parsed, now, remote1, signed1) == VerifyToken(jwtSecret, parsed, now, remote2, signed2)
    ensures VerifyToken(jwtSecret, parsed, now, remote1, signed1).Err?
  {
  }

  /** min: the smaller of two integers. */
  function Min(a: int, b: int): (r: int)
    ensures r <= a && r <= b
    ensures r == a || r == b
  {
    if a < b then a else b
  }

  /** The row SyncUserFromToken asks CreateOrUpdateFromSupabase to create. */
  function NewUserFor(claims: Claims): User {
    User("", Some(claims.sub), claims.email, None, None, "light", 0, 0)
  }

  /** What SyncUserFromToken returns, and the table afterwards. */
  function Synced(rows: seq<User>, claims: Claims, newId: string, now: int): (Result<Option<User>, AuthError>, seq<User>) {
    if claims.sub == "" then (Err(MissingSubject), rows)
    else
      match Lookup(rows, BySupabaseId(claims.sub))
      case Some(user) => (Ok(Some(user)), rows)
      case None =>
        match Lookup(rows, ByEmail(claims.email))
        case Some(byEmail) =>
          var linked := UpdatedRows(rows, byEmail.id, Changes(Some(Some(claims.sub)), None, None, None), now);
          (Ok(Lookup(linked, ById(byEmail.id))), linked)
        case None =>
          var (created, err) := Upserted(rows, NewUserFor(claims), newId, now);
          if err.Some? then (Err(CreateFailed(err.value)), created)
          else (Ok(Lookup(created, BySupabaseId(claims.sub))), created)
  }

  /**
   * On success SyncUserFromToken returns a user, and that user carries the
   * token's subject as its supabase id; an empty subject fails and writes
   * nothing.
   */
  lemma SyncedUserHasSubject(rows: seq<User>, claims: Claims, newId: string, now: int)
    ensures claims.sub == "" ==> Synced(rows, claims, newId, now) == (Err(MissingSubject), rows)
    ensures Synced(rows, claims, newId, now).0.Ok? ==>
              Synced(rows, claims, newId, now).0.value.Some? &&
              Synced(rows, claims, newId, now).0.value.value.supabaseId == Some(claims.sub)
  {
    if claims.sub != "" && Lookup(rows, BySupabaseId(claims.sub)).None? {
      match Lookup(rows, ByEmail(claims.email))
      case Some(byEmail) =>
        var k := FirstMatch(rows, ByEmail(claims.email)).value;
        var c := Changes(Some(Some(claims.sub)), None, None, None);
        UpdatedRowsEffect(rows, byEmail.id, c, now);
        assert Matches(UpdatedRows(rows, byEmail.id, c, now)[k], ById(byEmail.id));
      case None =>
        var user := NewUserFor(claims);
        if !HasId(rows, newId) {
          assert Matches(Upserted(rows, user, newId, now).0[|rows|], BySupabaseId(claims.sub));
        }
    }
  }

  /** A user already linked to the subject is returned as it is, and nothing is written. */
  lemma SyncedExistingNoWrite(rows: seq<User>, claims: Claims, newId: string, now: int)
    requires claims.sub != "" && Lookup(rows, BySupabaseId(claims.sub)).Some?
    ensures Synced(rows, claims, newId, now) == (Ok(Lookup(rows, BySupabaseId(claims.sub))), rows)
  {
  }

  /**
   * A user found only by e-mail is linked: the table keeps its size, only
   * that user's supabase id and update time change, and the user returned is
   * that same row with the subject filled in, its e-mail and theme kept.
   */
  lemma SyncedLinksByEmail(rows: seq<User>, claims: Claims, newId: string, now: int)
    requires DistinctIds(rows)
    requires claims.sub != "" && Lookup(rows, BySupabaseId(claims.sub)).None?
    requires Lookup(rows, ByEmail(claims.email)).Some?
    ensures var byEmail := Lookup(rows, ByEmail(claims.email)).value;
            var (r, after) := Synced(rows, claims, newId, now);
            |after| == |rows| &&
            (forall k :: 0 <= k < |rows| ==>
               after[k] == if rows[k].id == byEmail.id
                           then rows[k].(supabaseId := Some(claims.sub), updatedAt := now)
                           else rows[k]) &&
            r == Ok(Some(byEmail.(supabaseId := Some(claims.sub), updatedAt := now)))
  {
    var byEmail := Lookup(rows, ByEmail(claims.email)).value;
    var k := FirstMatch(rows, ByEmail(claims.email)).value;
    var c := Changes(Some(Some(claims.sub)), None, None, None);
    var linked := UpdatedRows(rows, byEmail.id, c, now);
    UpdatedRowsEffect(rows, byEmail.id, c, now);
    LookupByIdUnique(linked, byEmail.id, k);
  }

  /**
   * With no user for the subject or the e-mail, a user is created with the
   * subject, the token's e-mail and theme "light", and returned; the only
   * way this can fail is an id already in use.
   */
  lemma SyncedCreates(rows: seq<User>, claims: Claims, newId: string, now: int)
    requires claims.sub != "" && Lookup(rows, BySupabaseId(claims.sub)).None?
    requires Lookup(rows, ByEmail(claims.email)).None?
    ensures var made := User(newId, Some(claims.sub), claims.email, None, None, "light", now, now);
            Synced(rows, claims, newId, now) ==
              if HasId(rows, newId) then (Err(CreateFailed(DuplicateId)), rows)
              else (Ok(Some(made)), rows + [made])
  {
    var made := User(newId, Some(claims.sub), claims.email, None, None, "light", now, now);
    if !HasId(rows, newId) {
      FirstMatchAppended(rows, made, BySupabaseId(claims.sub));
    }
  }

  /**
   * Syncing is idempotent: after a successful sync, syncing the same claims
   * again returns the same user and writes nothing.
   */
  lemma SyncedTwice(rows: seq<User>, claims: Claims, id1: string, id2: string, t1: int, t2: int)
    requires Synced(rows, claims, id1, t1).0.Ok?
    ensures var (r, after) := Synced(rows, claims, id1, t1);
            Synced(after, claims, id2, t2) == (r, after)
  {
    var (r, after) := Synced(rows, claims, id1, t1);
    SyncedUserHasSubject(rows, claims, id1, t1);
    if Lookup(rows, BySupabaseId(claims.sub)).None? {
      match Lookup(rows, ByEmail(claims.email))
      case Some(byEmail) =>
        LinkedFoundBySubject(rows, claims.sub, claims.email, byEmail, t1);
      case None =>
    }
    SyncedExistingNoWrite(after, claims, id2, t2);
  }

  /**
   * After the e-mail's user is linked to the subject, looking the subject up
   * finds the same row as looking that user's id up.
   */
  lemma LinkedFoundBySubject(rows: seq<User>, sub: string, email: string, byEmail: User, now: int)
    requires Lookup(rows, BySupabaseId(sub)).None? && Lookup(rows, ByEmail(email)) == Some(byEmail)
    ensures var linked := UpdatedRows(rows, byEmail.id, Changes(Some(Some(sub)), None, None, None), now);
            Lookup(linked, BySupabaseId(sub)) == Lookup(linked, ById(byEmail.id)) &&
            Lookup(linked, ById(byEmail.id)).Some?
  {
    var c := Changes(Some(Some(sub)), None, None, None);
    var linked := UpdatedRows(rows, byEmail.id, c, now);
    var k := FirstMatch(rows, ByEmail(email)).value;
    assert rows[k].id == byEmail.id;
    assert Matches(linked[k], ById(byEmail.id));
    var i := FirstMatch(linked, ById(byEmail.id)).value;
    assert rows[i].id == byEmail.id;
    forall j | 0 <= j < i ensures !Matches(linked[j], BySupabaseId(sub)) {
      assert linked[j] == rows[j];
      assert !Matches(rows[j], BySupabaseId(sub));
    }
    assert Matches(linked[i], BySupabaseId(sub));
    FirstMatchAt(linked, BySupabaseId(sub), i);
  }

  /**
   * SyncUserFromToken: find the user by subject; else link the user with
   * the token's e-mail and read it back by id; else create one through
   * CreateOrUpdateFromSupabase and read it back by subject.
   */
  method SyncUserFromToken(repo: UserRepository, claims: Claims, newId: string, now: int)
    returns (r: Result<Option<User>, AuthError>)
    requires repo.Valid()
    modifies repo
    ensures repo.Valid()
    ensures (r, repo.rows) == Synced(old(repo.rows), claims, newId, now)
  {
    if claims.sub == "" {
      return Err(MissingSubject);
    }
    var supabaseId := claims.sub;
    var email := claims.email;
    var user := repo.GetBySupabaseID(supabaseId);
    if user.Some? {
      return Ok(user);
    }
    var existingByEmail := repo.GetByEmail(email);
    var newUser := User("", Some(supabaseId), email, None, None, "light", 0, 0);
    if existingByEmail.Some? {
      var updates := Changes(Some(Some(supabaseId)), None, None, None);
      repo.Update(existingByEmail.value.id, updates, now);
      return Ok(repo.GetByID(existingByEmail.value.id));
    }
    var err := repo.CreateOrUpdateFromSupabase(newUser, newId, now);
    if err.Some? {
      return Err(CreateFailed(err.value));
    }
    return Ok(repo.GetBySupabaseID(supabaseId));
  }
}
