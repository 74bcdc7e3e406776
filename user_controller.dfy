// The five handlers of the user controller as transitions of the users table, and the
// service object whose methods perform them on its own copy of the table.
//
// Environment choices are inputs: `fault` says whether the database fails with an error
// other than a unique violation, `hash` is the salted bcrypt hasher, `now` the database
// clock that fills created_at.
module UserController {
  import opened Wrappers
  import opened Validation
  import opened Pagination
  import opened UsersTable

  /** The `:id` path segment: an integer literal, or text the integer cast rejects. */
  datatype PathId = Numeric(value: int) | NotNumeric

  datatype Body =
    | UserBody(user: PublicUser)
    | PageBody(data: seq<PublicUser>, pagination: PageInfo)
    | DeletedBody(deletedUser: DeletedUser)

  datatype Response =
    | Ok(body: Body)
    | Created(user: PublicUser)
    | BadRequest(error: ValidationError)
    | NotFound
    | Conflict
    | ServerError

  /** The HTTP status the handler sends with each kind of answer. */
  function StatusCode(r: Response): int {
    match r
    case Ok(_) => 200
    case Created(_) => 201
    case BadRequest(_) => 400
    case NotFound => 404
    case Conflict => 409
    case ServerError => 500
  }

  /** The table after a handler ran, and what it answered. */
  datatype Step = Step(table: Table, response: Response)

  function PublicRows(rows: map<int, User>, ids: seq<int>): seq<PublicUser>
    requires forall i :: 0 <= i < |ids| ==> ids[i] in rows
  {
    seq(|ids|, i requires 0 <= i < |ids| => Public(ids[i], rows[ids[i]]))
  }

  /**
   * A 200 listing of page `page`: a non-empty run of at most `limit` records, the
   * public views of the rows whose identities come at positions offset, offset + 1, ...
   * of the ascending order, with the page among the counted pages.
   */
  ghost predicate ListedPage(rows: map<int, User>, page: int, limit: int, data: seq<PublicUser>, info: PageInfo) {
    var offset := Offset(page, limit);
    var order := SortedIds(rows.Keys);
    && limit > 0 && 0 <= offset < |order|
    && 0 < |data| <= limit
    && |data| == (if offset + limit <= |order| then limit else |order| - offset)
    && (forall i :: 0 <= i < |data| ==> data[i].id == order[offset + i])
    && (forall i :: 0 <= i < |data| ==> data[i].id in rows && data[i] == Public(data[i].id, rows[data[i].id]))
    && (forall i, j :: 0 <= i < j < |data| ==> data[i].id < data[j].id)
    && info == Paginate(|rows.Keys|, page, limit)
    && 1 <= page <= info.totalPages
  }

  /** The rows a window of the ascending order shows, in that order. */
  lemma WindowRows(rows: map<int, User>, offset: nat, limit: nat)
    ensures var order := SortedIds(rows.Keys);
            var ids := Window(order, offset, limit);
            && (forall i :: 0 <= i < |ids| ==> ids[i] in rows)
            && var data := PublicRows(rows, ids);
            && |data| == |ids|
            && (forall i :: 0 <= i < |data| ==> data[i].id == order[offset + i])
            && (forall i :: 0 <= i < |data| ==> data[i].id in rows && data[i] == Public(data[i].id, rows[data[i].id]))
            && (forall i, j :: 0 <= i < j < |data| ==> data[i].id < data[j].id)
  {
    var order := SortedIds(rows.Keys);
    var ids := Window(order, offset, limit);
    forall i | 0 <= i < |ids| ensures ids[i] in rows {
      assert ids[i] == order[offset + i] && order[offset + i] in order;
    }
    var data := PublicRows(rows, ids);
    assert forall i :: 0 <= i < |data| ==> data[i] == Public(ids[i], rows[ids[i]]);
  }

  /** A window that starts inside the table is a valid 200 listing of that page. */
  lemma WindowIsListedPage(rows: map<int, User>, page: int, limit: int)
    requires limit > 0 && 0 <= Offset(page, limit) < |rows.Keys|
    ensures var ids := Window(SortedIds(rows.Keys), Offset(page, limit), limit);
            && (forall i :: 0 <= i < |ids| ==> ids[i] in rows)
            && ListedPage(rows, page, limit, PublicRows(rows, ids), Paginate(|rows.Keys|, page, limit))
  {
    WindowRows(rows, Offset(page, limit), limit);
    ShownPageIsCounted(|rows.Keys|, page, limit, Paginate(|rows.Keys|, page, limit).totalPages);
  }

  /** getAllUsers. */
  function GetAllUsersResult(rows: map<int, User>, pageParam: Option<int>, limitParam: Option<int>, fault: bool): (r: Response)
    ensures var page := OrDefault(pageParam, DefaultPage);
            var limit := OrDefault(limitParam, DefaultLimit);
            var offset := Offset(page, limit);
            && (r.ServerError? <==> fault || limit < 0 || offset < 0)
            && (r.NotFound? <==> !fault && limit > 0 && 0 <= offset && |rows.Keys| <= offset)
            && (r.Ok? || r.NotFound? || r.ServerError?)
            && (r.Ok? ==> r.body.PageBody? && ListedPage(rows, page, limit, r.body.data, r.body.pagination))
  {
    var page := OrDefault(pageParam, DefaultPage);
    var limit := OrDefault(limitParam, DefaultLimit);
    var offset := Offset(page, limit);
    if fault || limit < 0 || offset < 0 then ServerError
    else
      var ids := Window(SortedIds(rows.Keys), offset, limit);
      if |ids| == 0 then NotFound
      else
        WindowIsListedPage(rows, page, limit);
        Ok(PageBody(PublicRows(rows, ids), Paginate(|rows.Keys|, page, limit)))
  }

  /** getUserById. */
  function GetUserByIdResult(rows: map<int, User>, id: PathId, fault: bool): (r: Response)
    ensures r.ServerError? <==> fault || id.NotNumeric?
    ensures r.NotFound? <==> !fault && id.Numeric? && id.value !in rows
    ensures r.Ok? || r.NotFound? || r.ServerError?
    ensures r.Ok? ==> id.Numeric? && id.value in rows && r.body == UserBody(Public(id.value, rows[id.value]))
  {
    if fault || id.NotNumeric? then ServerError
    else if id.value in rows then Ok(UserBody(Public(id.value, rows[id.value])))
    else NotFound
  }

  /** createUser: validation, then one INSERT; a unique violation still uses up an identity. */
  function CreateUserResult(t: Table, body: RequestBody, hash: string -> string, now: int, fault: bool): (r: Step)
    ensures r.response.BadRequest? <==> ValidateCreate(body).Some?
    ensures r.response.BadRequest? ==> r.response.error == ValidateCreate(body).value && r.table == t
    ensures r.response.ServerError? <==> ValidateCreate(body).None? && fault
    ensures r.response.Conflict? <==>
      && ValidateCreate(body).None? && !fault
      && (t.nextId in t.rows || EmailTaken(t.rows, body.email.value))
    ensures r.response.Created? || r.response.BadRequest? || r.response.ServerError? || r.response.Conflict?
    ensures !r.response.Created? ==> r.table.rows == t.rows
    ensures r.response.Created? ==>
      var id := r.response.user.id;
      && id !in t.rows && id in r.table.rows
      && r.table.rows == t.rows[id := r.table.rows[id]]
      && var u := r.table.rows[id];
      && u.name == body.name.value && u.email == body.email.value
      && u.phone == body.phone && u.address == body.address && u.country == body.country
      && u.passwordHash == hash(body.password.value) && u.createdAt == now
      && r.response.user == Public(id, u)
    ensures t.nextId <= r.table.nextId
    ensures WellFormed(t) ==> WellFormed(r.table)
  {
    match ValidateCreate(body)
    case Some(rule) => Step(t, BadRequest(rule))
    case None =>
      assert !BreaksCreateRule(body, MissingRequired);
      if fault then Step(t, ServerError)
      else
        var u := NewUser(body, hash(body.password.value), now);
        if InsertViolatesUnique(t, u) then Step(t.(nextId := t.nextId + 1), Conflict)
        else Step(Table(t.rows[t.nextId := u], t.nextId + 1), Created(Public(t.nextId, u)))
  }

  /** updateUser: validation of the truthy fields, then one UPDATE ... COALESCE. */
  function UpdateUserResult(t: Table, id: PathId, body: RequestBody, hash: string -> string, fault: bool): (r: Step)
    ensures r.response.BadRequest? <==> ValidateUpdate(body).Some?
    ensures r.response.BadRequest? ==> r.response.error == ValidateUpdate(body).value
    ensures r.response.ServerError? <==> ValidateUpdate(body).None? && (fault || id.NotNumeric?)
    ensures r.response.NotFound? <==> ValidateUpdate(body).None? && !fault && id.Numeric? && id.value !in t.rows
    ensures r.response.Conflict? <==>
      && ValidateUpdate(body).None? && !fault && id.Numeric? && id.value in t.rows
      && EmailTakenByOther(t.rows, id.value, body.email.GetOr(t.rows[id.value].email))
    ensures r.response.Ok? || r.response.BadRequest? || r.response.ServerError? || r.response.NotFound? || r.response.Conflict?
    ensures !r.response.Ok? ==> r.table == t
    ensures r.response.Ok? ==>
      && id.Numeric? && id.value in t.rows
      && r.table.nextId == t.nextId && r.table.rows.Keys == t.rows.Keys
      && (forall j :: j in t.rows && j != id.value ==> r.table.rows[j] == t.rows[j])
      && Coalesced(t.rows[id.value], body, hash, r.table.rows[id.value])
      && r.response.body == UserBody(Public(id.value, r.table.rows[id.value]))
    ensures WellFormed(t) ==> WellFormed(r.table)
  {
    match ValidateUpdate(body)
    case Some(rule) => Step(t, BadRequest(rule))
    case None =>
      if fault || id.NotNumeric? then Step(t, ServerError)
      else if id.value !in t.rows then Step(t, NotFound)
      else
        var u := Merge(t.rows[id.value], body, hash);
        if EmailTakenByOther(t.rows, id.value, u.email) then Step(t, Conflict)
        else Step(t.(rows := t.rows[id.value := u]), Ok(UserBody(Public(id.value, u))))
  }

  /** deleteUser: one DELETE ... RETURNING id, name, email. */
  function DeleteUserResult(t: Table, id: PathId, fault: bool): (r: Step)
    ensures r.response.ServerError? <==> fault || id.NotNumeric?
    ensures r.response.NotFound? <==> !fault && id.Numeric? && id.value !in t.rows
    ensures r.response.Ok? || r.response.NotFound? || r.response.ServerError?
    ensures !r.response.Ok? ==> r.table == t
    ensures r.response.Ok? ==>
      && id.Numeric? && id.value in t.rows
      && r.table.nextId == t.nextId
      && r.table.rows.Keys == t.rows.Keys - {id.value}
      && (forall j :: j in r.table.rows ==> r.table.rows[j] == t.rows[j])
      && r.response.body == DeletedBody(DeletedUser(id.value, t.rows[id.value].name, t.rows[id.value].email))
    ensures WellFormed(t) ==> WellFormed(r.table)
  {
    if fault || id.NotNumeric? then Step(t, ServerError)
    else if id.value !in t.rows then Step(t, NotFound)
    else
      var u := t.rows[id.value];
      Step(t.(rows := t.rows - {id.value}), Ok(DeletedBody(DeletedUser(id.value, u.name, u.email))))
  }

  /** The service over one users table; each method is one request. */
  class UserService {
    var rows: map<int, User>
    var nextId: int

    ghost predicate Valid()
      reads this
    {
      WellFormed(Table(rows, nextId))
    }

    function State(): Table
      reads this
    {
      Table(rows, nextId)
    }

    constructor ()
      ensures Valid() && rows == map[] && nextId == 1
    {
      rows := map[];
      nextId := 1;
    }

    method GetAllUsers(page: Option<int>, limit: Option<int>, fault: bool) returns (resp: Response)
      ensures resp == GetAllUsersResult(rows, page, limit, fault)
    {
      var p := OrDefault(page, DefaultPage);
      var l := OrDefault(limit, DefaultLimit);
      var offset := Offset(p, l);
      if fault || l < 0 || offset < 0 {
        return ServerError;
      }
      var totalUsers := |rows.Keys|;
      var ids := Window(SortedIds(rows.Keys), offset, l);
      if |ids| == 0 {
        return NotFound;
      }
      resp := Ok(PageBody(PublicRows(rows, ids), Paginate(totalUsers, p, l)));
    }

    method GetUserById(id: PathId, fault: bool) returns (resp: Response)
      ensures resp == GetUserByIdResult(rows, id, fault)
    {
      if fault || id.NotNumeric? {
        return ServerError;
      }
      if id.value !in rows {
        return NotFound;
      }
      resp := Ok(UserBody(Public(id.value, rows[id.value])));
    }

    method CreateUser(body: RequestBody, hash: string -> string, now: int, fault: bool) returns (resp: Response)
      requires Valid()
      modifies this
      ensures Valid()
      ensures Step(State(), resp) == CreateUserResult(old(State()), body, hash, now, fault)
    {
      var invalid := ValidateCreate(body);
      if invalid.Some? {
        return BadRequest(invalid.value);
      }
      if fault {
        return ServerError;
      }
      assert !BreaksCreateRule(body, MissingRequired);
      var u := NewUser(body, hash(body.password.value), now);
      var id := nextId;
      nextId := nextId + 1;
      if id in rows || EmailTaken(rows, u.email) {
        return Conflict;
      }
      rows := rows[id := u];
      resp := Created(Public(id, u));
    }

    method UpdateUser(id: PathId, body: RequestBody, hash: string -> string, fault: bool) returns (resp: Response)
      requires Valid()
      modifies this
      ensures Valid()
      ensures Step(State(), resp) == UpdateUserResult(old(State()), id, body, hash, fault)
    {
      var invalid := ValidateUpdate(body);
      if invalid.Some? {
        return BadRequest(invalid.value);
      }
      if fault || id.NotNumeric? {
        return ServerError;
      }
      if id.value !in rows {
        return NotFound;
      }
      var u := Merge(rows[id.value], body, hash);
      if EmailTakenByOther(rows, id.value, u.email) {
        return Conflict;
      }
      rows := rows[id.value := u];
      resp := Ok(UserBody(Public(id.value, u)));
    }

    method DeleteUser(id: PathId, fault: bool) returns (resp: Response)
      requires Valid()
      modifies this
      ensures Valid()
      ensures Step(State(), resp) == DeleteUserResult(old(State()), id, fault)
    {
      if fault || id.NotNumeric? {
        return ServerError;
      }
      if id.value !in rows {
        return NotFound;
      }
      var u := rows[id.value];
      rows := rows - {id.value};
      resp := Ok(DeletedBody(DeletedUser(id.value, u.name, u.email)));
    }
  }
}
