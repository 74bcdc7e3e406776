// The users table as the controller sees it through its SQL statements: the stored record,
// the columns a RETURNING clause projects, and the email uniqueness constraint.
module UsersTable {
  import opened Wrappers
  import opened Validation

  /** A stored row, keyed by its identity; phone, address and country are nullable. */
  datatype User = User(
    name: string,
    email: string,
    phone: Option<string>,
    address: Option<string>,
    country: Option<string>,
    passwordHash: string,
    createdAt: int)

  /** `RETURNING id, name, email, phone, address, country, created_at`: no password column. */
  datatype PublicUser = PublicUser(
    id: int,
    name: string,
    email: string,
    phone: Option<string>,
    address: Option<string>,
    country: Option<string>,
    createdAt: int)

  /** `RETURNING id, name, email` of deleteUser. */
  datatype DeletedUser = DeletedUser(id: int, name: string, email: string)

  /** The table together with the identity sequence that numbers new rows. */
  datatype Table = Table(rows: map<int, User>, nextId: int)

  /** `RETURNING id, name, email, phone, address, country, created_at`: every column but the password. */
  function Public(id: int, u: User): (r: PublicUser)
    ensures r.id == id && r.name == u.name && r.email == u.email
    ensures r.phone == u.phone && r.address == u.address && r.country == u.country
    ensures r.createdAt == u.createdAt
  {
    PublicUser(id, u.name, u.email, u.phone, u.address, u.country, u.createdAt)
  }

  /** The projection drops the password hash and nothing else. */
  lemma PublicDropsOnlyPassword(id: int, u: User, v: User)
    ensures Public(id, u) == Public(id, v) <==> u.(passwordHash := v.passwordHash) == v
  {
  }

  /** The unique constraint on email: no two rows share an address. */
  ghost predicate EmailsUnique(rows: map<int, User>) {
    forall i, j :: i in rows && j in rows && rows[i].email == rows[j].email ==> i == j
  }

  /** The constraint holds and every identity was drawn from the sequence already. */
  ghost predicate WellFormed(t: Table) {
    && EmailsUnique(t.rows)
    && forall id :: id in t.rows ==> id < t.nextId
  }

  /** Whether inserting a row with this email violates the unique constraint. */
  predicate EmailTaken(rows: map<int, User>, email: string) {
    exists id :: id in rows && rows[id].email == email
  }

  /**
   * Whether the INSERT of `u` under the next identity violates a unique constraint:
   * the primary key (the identity is already present) or the email.
   */
  predicate InsertViolatesUnique(t: Table, u: User) {
    t.nextId in t.rows || EmailTaken(t.rows, u.email)
  }

  /** Whether giving row `id` this email violates the unique constraint. */
  predicate EmailTakenByOther(rows: map<int, User>, id: int, email: string) {
    exists other :: other in rows && other != id && rows[other].email == email
  }

  /** The row `INSERT ... VALUES (name, email, phone, address, country, hashed)` stores. */
  function NewUser(body: RequestBody, hashed: string, now: int): (r: User)
    requires body.name.Some? && body.email.Some?
    ensures r.name == body.name.value && r.email == body.email.value
    ensures r.phone == body.phone && r.address == body.address && r.country == body.country
    ensures r.passwordHash == hashed && r.createdAt == now
  {
    User(body.name.value, body.email.value, body.phone, body.address, body.country, hashed, now)
  }

  /**
   * `SET column = COALESCE($n, column)` for every column: a field present in the body
   * (even as "") overwrites, an absent one keeps the stored value; the password column
   * receives the new hash only when a truthy password came in.
   */
  function Merge(stored: User, body: RequestBody, hash: string -> string): (r: User)
    ensures Coalesced(stored, body, hash, r)
    ensures forall updated :: Coalesced(stored, body, hash, updated) ==> updated == r
  {
    User(body.name.GetOr(stored.name),
         body.email.GetOr(stored.email),
         if body.phone.Some? then body.phone else stored.phone,
         if body.address.Some? then body.address else stored.address,
         if body.country.Some? then body.country else stored.country,
         if Truthy(body.password) then hash(body.password.value) else stored.passwordHash,
         stored.createdAt)
  }

  /**
   * What the COALESCE update promises field by field: a field present in the body
   * replaces the stored one, an absent field keeps it, the hash changes only for a
   * truthy password, and the creation time never changes.
   */
  ghost predicate Coalesced(stored: User, body: RequestBody, hash: string -> string, updated: User) {
    && (body.name.None? ==> updated.name == stored.name)
    && (body.name.Some? ==> updated.name == body.name.value)
    && (body.email.None? ==> updated.email == stored.email)
    && (body.email.Some? ==> updated.email == body.email.value)
    && (body.phone.None? ==> updated.phone == stored.phone)
    && (body.phone.Some? ==> updated.phone == body.phone)
    && (body.address.None? ==> updated.address == stored.address)
    && (body.address.Some? ==> updated.address == body.address)
    && (body.country.None? ==> updated.country == stored.country)
    && (body.country.Some? ==> updated.country == body.country)
    && (Truthy(body.password) ==> updated.passwordHash == hash(body.password.value))
    && (!Truthy(body.password) ==> updated.passwordHash == stored.passwordHash)
    && updated.createdAt == stored.createdAt
  }
}
