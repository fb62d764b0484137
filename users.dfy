/**
 * UserRepository: the `users` table and its operations. The table is held
 * as a sequence of rows in insertion order; a query that selects one row
 * returns the first row that satisfies its WHERE clause. An UPDATE changes
 * every row whose id matches.
 *
 * Fresh ids (uuid.New) and clock readings (time.Now) are parameters.
 */
module Users {
  import opened Results

  datatype User = User(
    id: string,
    supabaseId: Option<string>,
    email: string,
    passwordHash: Option<string>,
    fullName: Option<string>,
    theme: string,
    createdAt: int,
    updatedAt: int)

  /**
   * The columns an UPDATE sets besides `updated_at`: None leaves a column
   * alone, Some(v) writes v (Some(None) writes NULL).
   */
  datatype Changes = Changes(
    supabaseId: Option<Option<string>>,
    email: Option<string>,
    passwordHash: Option<Option<string>>,
    fullName: Option<Option<string>>)

  /** The only database failure modelled: an INSERT whose id is already a primary key. */
  datatype RepoError = MissingSupabaseId | DuplicateId

  /** A query's WHERE clause. A NULL `supabase_id` never equals a value. */
  datatype Key = ById(id: string) | ByEmail(email: string) | BySupabaseId(supabaseId: string)

  predicate Matches(u: User, key: Key) {
    match key
    case ById(id) => u.id == id
    case ByEmail(email) => u.email == email
    case BySupabaseId(s) => u.supabaseId == Some(s)
  }

  /** The index of the first row the key selects, if any. */
  function FirstMatch(rows: seq<User>, key: Key): (r: Option<nat>)
    ensures r.None? <==> forall i :: 0 <= i < |rows| ==> !Matches(rows[i], key)
    ensures r.Some? ==> r.value < |rows| && Matches(rows[r.value], key)
    ensures r.Some? ==> forall i :: 0 <= i < r.value ==> !Matches(rows[i], key)
  {
    if rows == [] then None
    else if Matches(rows[0], key) then Some(0)
    else
      match FirstMatch(rows[1..], key)
      case None => None
      case Some(i) => Some(i + 1)
  }

  /** A QueryRow: the first selected row, or None for sql.ErrNoRows. */
  function Lookup(rows: seq<User>, key: Key): Option<User> {
    match FirstMatch(rows, key)
    case None => None
    case Some(i) => Some(rows[i])
  }

  /**
   * What a lookup promises: nothing is found exactly when no row matches;
   * a found user is a row of the table that matches the key.
   */
  lemma LookupFinds(rows: seq<User>, key: Key)
    ensures Lookup(rows, key).None? <==> forall i :: 0 <= i < |rows| ==> !Matches(rows[i], key)
    ensures Lookup(rows, key).Some? ==> Lookup(rows, key).value in rows && Matches(Lookup(rows, key).value, key)
  {
  }

  /** A row appended after rows that the key does not select is the first row it selects. */
  lemma FirstMatchAppended(rows: seq<User>, u: User, key: Key)
    requires FirstMatch(rows, key).None? && Matches(u, key)
    ensures FirstMatch(rows + [u], key) == Some(|rows|)
  {
    var all := rows + [u];
    assert all[|rows|] == u;
    forall i | 0 <= i < |rows| ensures !Matches(all[i], key) {
      assert all[i] == rows[i];
    }
    FirstMatchAt(all, key, |rows|);
  }

  /** A matching row with no match before it is the first match. */
  lemma FirstMatchAt(rows: seq<User>, key: Key, i: nat)
    requires i < |rows| && Matches(rows[i], key)
    requires forall j :: 0 <= j < i ==> !Matches(rows[j], key)
    ensures FirstMatch(rows, key) == Some(i)
  {
    var r := FirstMatch(rows, key);
    assert r.Some?;
    assert !(r.value < i);
    assert !(i < r.value);
  }

  predicate HasId(rows: seq<User>, id: string) {
    exists i :: 0 <= i < |rows| && rows[i].id == id
  }

  /** The primary key: no two rows share an id. */
  predicate DistinctIds(rows: seq<User>) {
    forall i, j :: 0 <= i < j < |rows| ==> rows[i].id != rows[j].id
  }

  /** With distinct ids, the row found by id is the only row with that id. */
  lemma LookupByIdUnique(rows: seq<User>, id: string, k: nat)
    requires DistinctIds(rows) && k < |rows| && rows[k].id == id
    ensures Lookup(rows, ById(id)) == Some(rows[k])
  {
  }

  /** The row Create inserts: the caller's record with a new id, theme "light" and both timestamps `now`. */
  function Filled(user: User, newId: string, now: int): User {
    user.(id := newId, theme := "light", createdAt := now, updatedAt := now)
  }

  /** The table after an INSERT of the filled row, or the duplicate-key error. */
  function Inserted(rows: seq<User>, user: User, newId: string, now: int): (seq<User>, Option<RepoError>) {
    if HasId(rows, newId) then (rows, Some(DuplicateId))
    else (rows + [Filled(user, newId, now)], None)
  }

  /** One row after an UPDATE: the listed columns and `updated_at` are written. */
  function Applied(u: User, c: Changes, now: int): User {
    u.(supabaseId := if c.supabaseId.Some? then c.supabaseId.value else u.supabaseId,
       email := if c.email.Some? then c.email.value else u.email,
       passwordHash := if c.passwordHash.Some? then c.passwordHash.value else u.passwordHash,
       fullName := if c.fullName.Some? then c.fullName.value else u.fullName,
       updatedAt := now)
  }

  /** The table after `UPDATE users SET … WHERE id = ?`. */
  function UpdatedRows(rows: seq<User>, id: string, c: Changes, now: int): seq<User> {
    seq(|rows|, k requires 0 <= k < |rows| => if rows[k].id == id then Applied(rows[k], c, now) else rows[k])
  }

  /** Create's INSERT keeps the primary key, and a successful one adds exactly the filled row. */
  lemma InsertedEffect(rows: seq<User>, user: User, newId: string, now: int)
    requires DistinctIds(rows)
    ensures DistinctIds(Inserted(rows, user, newId, now).0)
    ensures Inserted(rows, user, newId, now).1.None? <==> !HasId(rows, newId)
    ensures Inserted(rows, user, newId, now).1.None? ==>
              var r := Inserted(rows, user, newId, now).0;
              |r| == |rows| + 1 && r[..|rows|] == rows && r[|rows|].theme == "light" &&
              r[|rows|].id == newId && r[|rows|].email == user.email && r[|rows|].supabaseId == user.supabaseId
    ensures Inserted(rows, user, newId, now).1.Some? ==> Inserted(rows, user, newId, now).0 == rows
  {
  }

  /**
   * Update sets `updated_at` and exactly the listed columns of the rows with
   * the given id; the id, theme and creation time of every row, and every
   * column of every other row, stay as they were.
   */
  lemma UpdatedRowsEffect(rows: seq<User>, id: string, c: Changes, now: int)
    ensures |UpdatedRows(rows, id, c, now)| == |rows|
    ensures forall k :: 0 <= k < |rows| ==>
              var (u, v) := (rows[k], UpdatedRows(rows, id, c, now)[k]);
              v.id == u.id && v.theme == u.theme && v.createdAt == u.createdAt &&
              (u.id != id ==> v == u) &&
              (u.id == id ==>
                 v.updatedAt == now &&
                 (c.email.None? ==> v.email == u.email) && (c.email.Some? ==> v.email == c.email.value) &&
                 (c.supabaseId.None? ==> v.supabaseId == u.supabaseId) &&
                 (c.supabaseId.Some? ==> v.supabaseId == c.supabaseId.value) &&
                 (c.passwordHash.None? ==> v.passwordHash == u.passwordHash) &&
                 (c.passwordHash.Some? ==> v.passwordHash == c.passwordHash.value) &&
                 (c.fullName.None? ==> v.fullName == u.fullName) &&
                 (c.fullName.Some? ==> v.fullName == c.fullName.value))
    ensures DistinctIds(rows) ==> DistinctIds(UpdatedRows(rows, id, c, now))
  {
  }

  /** Applying the same change twice is the same as applying it once, at the later time. */
  lemma {:induction false} UpdateIdempotent(rows: seq<User>, id: string, c: Changes, t1: int, t2: int)
    ensures UpdatedRows(UpdatedRows(rows, id, c, t1), id, c, t2) == UpdatedRows(rows, id, c, t2)
  {
    var once := UpdatedRows(rows, id, c, t1);
    assert |UpdatedRows(once, id, c, t2)| == |rows|;
    forall k | 0 <= k < |rows|
      ensures UpdatedRows(once, id, c, t2)[k] == UpdatedRows(rows, id, c, t2)[k]
    {
      assert once[k].id == rows[k].id;
    }
  }

  /** The columns CreateOrUpdateFromSupabase rewrites for a user already linked to its supabase id. */
  function ProfileChanges(user: User): Changes {
    Changes(None, Some(user.email), if user.passwordHash.Some? then Some(user.passwordHash) else None, Some(user.fullName))
  }

  /** The columns it writes when it links an existing e-mail account to the supabase id. */
  function LinkChanges(user: User): Changes {
    Changes(Some(user.supabaseId), None, None, if user.fullName.Some? then Some(user.fullName) else None)
  }

  /** What CreateOrUpdateFromSupabase does to the table, and its error. */
  function Upserted(rows: seq<User>, user: User, newId: string, now: int): (seq<User>, Option<RepoError>) {
    if user.supabaseId.None? then (rows, Some(MissingSupabaseId))
    else
      match Lookup(rows, BySupabaseId(user.supabaseId.value))
      case Some(existing) => (UpdatedRows(rows, existing.id, ProfileChanges(user), now), None)
      case None =>
        match Lookup(rows, ByEmail(user.email))
        case Some(byEmail) => (UpdatedRows(rows, byEmail.id, LinkChanges(user), now), None)
        case None => Inserted(rows, user, newId, now)
  }

  /**
   * The three ways CreateOrUpdateFromSupabase can go: a missing supabase id
   * fails and writes nothing; a user found by supabase id or by e-mail is
   * updated in place and no row is added; only when both lookups fail is
   * a row inserted. The primary key is kept in every case.
   */
  lemma UpsertedCases(rows: seq<User>, user: User, newId: string, now: int)
    requires DistinctIds(rows)
    ensures user.supabaseId.None? ==> Upserted(rows, user, newId, now) == (rows, Some(MissingSupabaseId))
    ensures user.supabaseId.Some? && Lookup(rows, BySupabaseId(user.supabaseId.value)).Some? ==>
              var existing := Lookup(rows, BySupabaseId(user.supabaseId.value)).value;
              Upserted(rows, user, newId, now) == (UpdatedRows(rows, existing.id, ProfileChanges(user), now), None)
    ensures user.supabaseId.Some? && Lookup(rows, BySupabaseId(user.supabaseId.value)).None? &&
            Lookup(rows, ByEmail(user.email)).Some? ==>
              var byEmail := Lookup(rows, ByEmail(user.email)).value;
              Upserted(rows, user, newId, now) == (UpdatedRows(rows, byEmail.id, LinkChanges(user), now), None)
    ensures |Upserted(rows, user, newId, now).0| > |rows| <==>
              user.supabaseId.Some? && Lookup(rows, BySupabaseId(user.supabaseId.value)).None? &&
              Lookup(rows, ByEmail(user.email)).None? && !HasId(rows, newId)
    ensures |Upserted(rows, user, newId, now).0| <= |rows| + 1
    ensures DistinctIds(Upserted(rows, user, newId, now).0)
  {
    if user.supabaseId.Some? {
      var s := user.supabaseId.value;
      match Lookup(rows, BySupabaseId(s))
      case Some(existing) =>
        UpdatedRowsEffect(rows, existing.id, ProfileChanges(user), now);
      case None =>
        match Lookup(rows, ByEmail(user.email))
        case Some(byEmail) =>
          UpdatedRowsEffect(rows, byEmail.id, LinkChanges(user), now);
        case None =>
          InsertedEffect(rows, user, newId, now);
    }
  }

  /**
   * After a successful CreateOrUpdateFromSupabase some row carries the
   * user's supabase id, so a second call with the same user adds no row:
   * two calls add at most one row between them.
   */
  lemma UpsertTwiceAddsAtMostOne(rows: seq<User>, user: User, id1: string, id2: string, t1: int, t2: int)
    requires user.supabaseId.Some?
    requires Upserted(rows, user, id1, t1).1.None?
    ensures Lookup(Upserted(rows, user, id1, t1).0, BySupabaseId(user.supabaseId.value)).Some?
    ensures |Upserted(Upserted(rows, user, id1, t1).0, user, id2, t2).0| == |Upserted(rows, user, id1, t1).0|
    ensures |Upserted(Upserted(rows, user, id1, t1).0, user, id2, t2).0| <= |rows| + 1
  {
    var s := user.supabaseId.value;
    var once := Upserted(rows, user, id1, t1).0;
    match Lookup(rows, BySupabaseId(s))
    case Some(existing) =>
      var k := FirstMatch(rows, BySupabaseId(s)).value;
      UpdatedRowsEffect(rows, existing.id, ProfileChanges(user), t1);
      assert Matches(once[k], BySupabaseId(s));
    case None =>
      match Lookup(rows, ByEmail(user.email))
      case Some(byEmail) =>
        var k := FirstMatch(rows, ByEmail(user.email)).value;
        UpdatedRowsEffect(rows, byEmail.id, LinkChanges(user), t1);
        assert Matches(once[k], BySupabaseId(s));
      case None =>
        assert Matches(once[|rows|], BySupabaseId(s));
    match Lookup(once, BySupabaseId(s))
    case Some(existing) =>
      UpdatedRowsEffect(once, existing.id, ProfileChanges(user), t2);
  }

  /** The users table. */
  class UserRepository {
    var rows: seq<User>

    ghost predicate Valid()
      reads this
    {
      DistinctIds(rows)
    }

    constructor ()
      ensures Valid() && rows == []
    {
      rows := [];
    }

    /**
     * Create: fills in a new id, theme "light" and both timestamps, then
     * inserts the row; an id already in use fails and inserts nothing.
     */
    method Create(user: User, newId: string, now: int) returns (filled: User, err: Option<RepoError>)
      requires Valid()
      modifies this
      ensures Valid()
      ensures filled == Filled(user, newId, now)
      ensures (rows, err) == Inserted(old(rows), user, newId, now)
    {
      filled := user.(id := newId);
      filled := filled.(theme := "light");
      filled := filled.(createdAt := now);
      filled := filled.(updatedAt := now);
      if HasId(rows, newId) {
        err := Some(DuplicateId);
      } else {
        rows := rows + [filled];
        err := None;
      }
      InsertedEffect(old(rows), user, newId, now);
    }

    /** GetByID: the row with that id, or None; the table is only read. */
    function GetByID(id: string): (r: Option<User>)
      reads this
      ensures r.None? <==> !HasId(rows, id)
      ensures r.Some? ==> r.value in rows && r.value.id == id
      ensures Valid() && r.Some? ==> forall u :: u in rows && u.id == id ==> u == r.value
    {
      Lookup(rows, ById(id))
    }

    /** GetByEmail: the first row with that e-mail, or None. */
    function GetByEmail(email: string): (r: Option<User>)
      reads this
      ensures r.None? <==> forall u :: u in rows ==> u.email != email
      ensures r.Some? ==> r.value in rows && r.value.email == email
    {
      Lookup(rows, ByEmail(email))
    }

    /** GetBySupabaseID: the first row whose supabase id is that value, or None. */
    function GetBySupabaseID(supabaseId: string): (r: Option<User>)
      reads this
      ensures r.None? <==> forall u :: u in rows ==> u.supabaseId != Some(supabaseId)
      ensures r.Some? ==> r.value in rows && r.value.supabaseId == Some(supabaseId)
    {
      Lookup(rows, BySupabaseId(supabaseId))
    }

    /** Update: writes the listed columns and `updated_at` of the rows with that id. */
    method Update(id: string, c: Changes, now: int)
      requires Valid()
      modifies this
      ensures Valid()
      ensures rows == UpdatedRows(old(rows), id, c, now)
    {
      UpdatedRowsEffect(rows, id, c, now);
      rows := UpdatedRows(rows, id, c, now);
    }

    /**
     * CreateOrUpdateFromSupabase: update the user linked to the supabase
     * id, else link the user with the same e-mail, else create one.
     */
    method CreateOrUpdateFromSupabase(user: User, newId: string, now: int) returns (err: Option<RepoError>)
      requires Valid()
      modifies this
      ensures Valid()
      ensures (rows, err) == Upserted(old(rows), user, newId, now)
    {
      if user.supabaseId.None? {
        return Some(MissingSupabaseId);
      }
      var existing := GetBySupabaseID(user.supabaseId.value);
      if existing.Some? {
        var updates := Changes(None, Some(user.email), None, Some(user.fullName));
        if user.passwordHash.Some? {
          updates := updates.(passwordHash := Some(user.passwordHash));
        }
        Update(existing.value.id, updates, now);
        return None;
      }
      var existingByEmail := GetByEmail(user.email);
      if existingByEmail.Some? {
        var updates := Changes(Some(user.supabaseId), None, None, None);
        if user.fullName.Some? {
          updates := updates.(fullName := Some(user.fullName));
        }
        Update(existingByEmail.value.id, updates, now);
        return None;
      }
      var _, e := Create(user, newId, now);
      return e;
    }
  }
}
