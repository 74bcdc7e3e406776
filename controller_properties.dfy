// Properties that relate several requests to the user controller, and the concrete
// request sequences the controller's behaviour is usually explained with.
module ControllerProperties {
  import opened Wrappers
  import opened Validation
  import opened Pagination
  import opened UsersTable
  import opened UserController

  /** A record returned by a successful create reads back unchanged by its identity. */
  lemma CreatedUserReadsBack(t: Table, body: RequestBody, hash: string -> string, now: int)
    requires CreateUserResult(t, body, hash, now, false).response.Created?
    ensures var s := CreateUserResult(t, body, hash, now, false);
            GetUserByIdResult(s.table.rows, Numeric(s.response.user.id), false) == Ok(UserBody(s.response.user))
  {
  }

  /** Once a create succeeded, any valid create with the same email conflicts and changes nothing. */
  lemma SameEmailConflicts(t: Table, first: RequestBody, second: RequestBody,
                           hash1: string -> string, hash2: string -> string, now1: int, now2: int)
    requires CreateUserResult(t, first, hash1, now1, false).response.Created?
    requires second.email == first.email && ValidateCreate(second).None?
    ensures var s1 := CreateUserResult(t, first, hash1, now1, false);
            var s2 := CreateUserResult(s1.table, second, hash2, now2, false);
            s2.response == Conflict && s2.table.rows == s1.table.rows
  {
    var s1 := CreateUserResult(t, first, hash1, now1, false);
    var id := s1.response.user.id;
    assert s1.table.rows[id].email == second.email.value;
    assert EmailTaken(s1.table.rows, second.email.value);
  }

  /**
   * After a successful update, re-fetching the record shows every omitted field as it was
   * and every supplied field as sent, and every other record reads as before.
   */
  lemma UpdateKeepsOmittedFields(t: Table, id: int, body: RequestBody, hash: string -> string)
    requires UpdateUserResult(t, Numeric(id), body, hash, false).response.Ok?
    ensures var s := UpdateUserResult(t, Numeric(id), body, hash, false);
            var before := GetUserByIdResult(t.rows, Numeric(id), false);
            var after := GetUserByIdResult(s.table.rows, Numeric(id), false);
            && before.Ok? && after.Ok? && after == s.response
            && (body.name.None? ==> after.body.user.name == before.body.user.name)
            && (body.email.None? ==> after.body.user.email == before.body.user.email)
            && (body.phone.None? ==> after.body.user.phone == before.body.user.phone)
            && (body.address.None? ==> after.body.user.address == before.body.user.address)
            && (body.country.None? ==> after.body.user.country == before.body.user.country)
            && (body.name.Some? ==> after.body.user.name == body.name.value)
            && (body.email.Some? ==> after.body.user.email == body.email.value)
            && (body.phone.Some? ==> after.body.user.phone == body.phone)
            && (body.address.Some? ==> after.body.user.address == body.address)
            && (body.country.Some? ==> after.body.user.country == body.country)
            && after.body.user.createdAt == before.body.user.createdAt
            && forall j :: j != id ==> GetUserByIdResult(s.table.rows, Numeric(j), false) == GetUserByIdResult(t.rows, Numeric(j), false)
  {
    var s := UpdateUserResult(t, Numeric(id), body, hash, false);
    forall j | j != id
      ensures GetUserByIdResult(s.table.rows, Numeric(j), false) == GetUserByIdResult(t.rows, Numeric(j), false)
    {
      assert j in s.table.rows <==> j in t.rows;
    }
  }

  /**
   * On a table that keeps its invariant (emails unique, every identity below the
   * sequence), a valid, unfaulted create answers 409 exactly when the email is taken:
   * the primary key can then never be the constraint that fires.
   */
  lemma CreateConflictMeansEmailTaken(t: Table, body: RequestBody, hash: string -> string, now: int)
    requires WellFormed(t) && ValidateCreate(body).None?
    ensures CreateUserResult(t, body, hash, now, false).response.Conflict? <==> EmailTaken(t.rows, body.email.value)
  {
    assert !BreaksCreateRule(body, MissingRequired);
    assert t.nextId !in t.rows;
  }

  /** A deleted identity is gone: reading it and deleting it again both give 404. */
  lemma DeletedUserIsGone(t: Table, id: int)
    requires DeleteUserResult(t, Numeric(id), false).response.Ok?
    ensures var s := DeleteUserResult(t, Numeric(id), false);
            && GetUserByIdResult(s.table.rows, Numeric(id), false) == NotFound
            && DeleteUserResult(s.table, Numeric(id), false).response == NotFound
  {
    var s := DeleteUserResult(t, Numeric(id), false);
    assert id !in s.table.rows;
  }

  /**
   * A page past the last one is answered 404 although the table is not empty:
   * the listing fails whenever the window is empty, not only when the table is.
   */
  lemma PastLastPageIsNotFound(rows: map<int, User>, page: int, limit: int)
    requires limit > 0 && page > CeilDiv(|rows.Keys|, limit)
    ensures GetAllUsersResult(rows, Some(page), Some(limit), false) == NotFound
  {
    PastLastPageStartsPastEnd(|rows.Keys|, page, limit);
    assert OrDefault(Some(page), DefaultPage) == page && OrDefault(Some(limit), DefaultLimit) == limit;
  }

  /**
   * An update may store an email that create would refuse: the empty string is not
   * truthy, so it escapes the format check, but COALESCE writes it.
   */
  lemma EmptyEmailIsStoredByUpdate(t: Table, id: int, hash: string -> string)
    requires id in t.rows && !EmailTakenByOther(t.rows, id, "")
    ensures var s := UpdateUserResult(t, Numeric(id), RequestBody(None, Some(""), None, None, None, None), hash, false);
            && s.response.Ok? && s.table.rows[id].email == ""
            && !IsValidEmail("")
  {
    var body := RequestBody(None, Some(""), None, None, None, None);
    assert forall rule :: !BreaksUpdateRule(body, rule);
  }

  /** "a@x.com" has the email shape. */
  lemma SampleEmailIsValid()
    ensures IsValidEmail("a@x.com")
  {
    var e := "a@x.com";
    assert e[1] == '@' && e[3] == '.';
    assert forall i :: 0 <= i < |e| && i != 1 ==> e[i] != '@';
  }

  /**
   * Creating {name: "A", email: "a@x.com", password: "longenough1"} on an empty table
   * answers 201 with identity 1; repeating it with the same email answers 409.
   */
  lemma DuplicateCreateScenario(hash: string -> string, now1: int, now2: int)
    ensures var body := RequestBody(Some("A"), Some("a@x.com"), None, None, None, Some("longenough1"));
            var s1 := CreateUserResult(Table(map[], 1), body, hash, now1, false);
            var s2 := CreateUserResult(s1.table, body, hash, now2, false);
            && s1.response == Created(PublicUser(1, "A", "a@x.com", None, None, None, now1))
            && s2.response == Conflict
            && StatusCode(s1.response) == 201 && StatusCode(s2.response) == 409
  {
    var body := RequestBody(Some("A"), Some("a@x.com"), None, None, None, Some("longenough1"));
    SampleEmailIsValid();
    assert forall rule :: !BreaksCreateRule(body, rule);
    var s1 := CreateUserResult(Table(map[], 1), body, hash, now1, false);
    SameEmailConflicts(Table(map[], 1), body, body, hash, hash, now1, now2);
  }

  /** Creating with password "short" answers 400 for the password length. */
  lemma ShortPasswordScenario(t: Table, hash: string -> string, now: int)
    ensures var body := RequestBody(Some("A"), Some("a@x.com"), None, None, None, Some("short"));
            var s := CreateUserResult(t, body, hash, now, false);
            s.response == BadRequest(ShortPassword) && StatusCode(s.response) == 400 && s.table == t
  {
    SampleEmailIsValid();
  }

  /** Updating identity 7 of a table without it answers 404. */
  lemma UpdateUnknownIdScenario(t: Table, hash: string -> string)
    requires 7 !in t.rows
    ensures var r := UpdateUserResult(t, Numeric(7), RequestBody(Some("B"), None, None, None, None, None), hash, false).response;
            r == NotFound && StatusCode(r) == 404
  {
  }

  /**
   * Listing an empty table is never a 200 with an empty array: with the default page and
   * limit it answers 404.
   */
  lemma EmptyTableListScenario(page: Option<int>, limit: Option<int>, fault: bool)
    ensures !GetAllUsersResult(map[], page, limit, fault).Ok?
    ensures GetAllUsersResult(map[], None, None, false) == NotFound
  {
  }
}
