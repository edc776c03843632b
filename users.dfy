/**
 * The `users` table the controller talks to, as an in-memory sequence of
 * rows in table order, and the two statements it issues against it:
 * `SELECT * FROM users WHERE email = ?` and `INSERT INTO users SET ?`.
 */
module Users {

  datatype Option<T> = None | Some(value: T)

  /** A bcrypt hash string (algorithm, cost, salt and digest). */
  type Hash = string

  /** A `new Date()` value, in milliseconds since the epoch. */
  type Timestamp = int

  /** A row of `users`; `id` is assigned by the store, `isActive` is the `is_active` column. */
  datatype User = User(
    id: nat,
    name: string,
    email: string,
    password: Hash,
    isActive: int,
    createdAt: Timestamp,
    updatedAt: Timestamp)

  /** The rows `SELECT * FROM users WHERE email = ?` returns, in table order. */
  function Select(rows: seq<User>, email: string): (r: seq<User>)
    ensures |r| <= |rows|
    ensures forall u :: u in r <==> u in rows && u.email == email
  {
    if rows == [] then []
    else (if rows[0].email == email then [rows[0]] else []) + Select(rows[1..], email)
  }

  /** The earliest row with the given email, if any. */
  function FirstWithEmail(rows: seq<User>, email: string): (r: Option<User>)
    ensures r.None? <==> forall u :: u in rows ==> u.email != email
    ensures r.Some? ==> r.value in rows && r.value.email == email
    ensures r.Some? ==> exists k :: (0 <= k < |rows| && rows[k] == r.value &&
                                     forall j :: 0 <= j < k ==> rows[j].email != email)
  {
    if rows == [] then None
    else if rows[0].email == email then Some(rows[0])
    else FirstWithEmail(rows[1..], email)
  }

  /** `rows[0]` of the query result is the earliest matching row, and the result is empty exactly when none matches. */
  lemma {:induction false} SelectHead(rows: seq<User>, email: string)
    ensures |Select(rows, email)| > 0 <==> FirstWithEmail(rows, email).Some?
    ensures |Select(rows, email)| > 0 ==> Select(rows, email)[0] == FirstWithEmail(rows, email).value
  {
    if rows != [] {
      SelectHead(rows[1..], email);
    }
  }

  /** A row appended under an email no earlier row holds is the first row with that email. */
  lemma {:induction false} FirstWithEmailAppended(rows: seq<User>, u: User)
    requires forall v :: v in rows ==> v.email != u.email
    ensures FirstWithEmail(rows + [u], u.email) == Some(u)
  {
    if rows != [] {
      assert (rows + [u])[1..] == rows[1..] + [u];
      assert rows[0] in rows;
      FirstWithEmailAppended(rows[1..], u);
    }
  }

  /** No two rows share an email. */
  predicate EmailsUnique(rows: seq<User>)
  {
    forall i, j :: 0 <= i < j < |rows| ==> rows[i].email != rows[j].email
  }

  /** With unique emails, a lookup by the email of a stored row returns that row alone. */
  lemma {:induction false} SelectUnique(rows: seq<User>, u: User)
    requires EmailsUnique(rows) && u in rows
    ensures Select(rows, u.email) == [u]
    ensures FirstWithEmail(rows, u.email) == Some(u)
  {
    if rows[0] == u {
      assert forall v :: v in rows[1..] ==> v.email != u.email by {
        forall v | v in rows[1..] ensures v.email != u.email {
          var k :| 0 <= k < |rows[1..]| && rows[1..][k] == v;
          assert rows[k + 1] == v;
        }
      }
      SelectHead(rows[1..], u.email);
    } else {
      assert u in rows[1..];
      assert rows[0].email != u.email by {
        var k :| 0 <= k < |rows| && rows[k] == u;
      }
      assert EmailsUnique(rows[1..]) by {
        forall i, j | 0 <= i < j < |rows[1..]| ensures rows[1..][i].email != rows[1..][j].email {
          assert rows[1..][i] == rows[i + 1] && rows[1..][j] == rows[j + 1];
        }
      }
      SelectUnique(rows[1..], u);
    }
  }

  /** Ids increase strictly in table order and all lie below the next id the store hands out. */
  predicate IdsBelow(rows: seq<User>, nextId: nat)
  {
    && (forall i :: 0 <= i < |rows| ==> rows[i].id < nextId)
    && (forall i, j :: 0 <= i < j < |rows| ==> rows[i].id < rows[j].id)
  }

  /**
   * The store as a value: its rows, the next AUTO_INCREMENT id and the
   * default of the `is_active` column, which the insert does not set.
   */
  datatype TableState = TableState(rows: seq<User>, nextId: nat, activeDefault: int)

  /** The state after `INSERT INTO users SET {name, email, password, createdAt, updatedAt}`. */
  function Inserted(st: TableState, name: string, email: string, password: Hash,
                    createdAt: Timestamp, updatedAt: Timestamp): (st': TableState)
    ensures st'.activeDefault == st.activeDefault
    ensures |st'.rows| == |st.rows| + 1 && st'.rows[..|st.rows|] == st.rows
  {
    var row := User(st.nextId, name, email, password, st.activeDefault, createdAt, updatedAt);
    TableState(st.rows + [row], st.nextId + 1, st.activeDefault)
  }

  /** Inserting keeps ids increasing and below the next id. */
  lemma InsertedKeepsIds(st: TableState, name: string, email: string, password: Hash,
                         createdAt: Timestamp, updatedAt: Timestamp)
    requires IdsBelow(st.rows, st.nextId)
    ensures var st' := Inserted(st, name, email, password, createdAt, updatedAt);
      IdsBelow(st'.rows, st'.nextId)
  {
  }

  /** Inserting a row whose email is not yet stored keeps emails unique. */
  lemma InsertedKeepsEmailsUnique(st: TableState, name: string, email: string, password: Hash,
                                  createdAt: Timestamp, updatedAt: Timestamp)
    requires EmailsUnique(st.rows)
    requires forall u :: u in st.rows ==> u.email != email
    ensures EmailsUnique(Inserted(st, name, email, password, createdAt, updatedAt).rows)
  {
    var rows' := Inserted(st, name, email, password, createdAt, updatedAt).rows;
    forall i, j | 0 <= i < j < |rows'| ensures rows'[i].email != rows'[j].email {
      if j == |st.rows| {
        assert rows'[i] == st.rows[i];
        assert st.rows[i] in st.rows;
      } else {
        assert rows'[i] == st.rows[i] && rows'[j] == st.rows[j];
      }
    }
  }

  /** The `users` table, updated in place by the insert statement. */
  class UsersTable {
    var rows: seq<User>
    var nextId: nat
    const activeDefault: int

    ghost predicate Valid()
      reads this
    {
      IdsBelow(rows, nextId)
    }

    function State(): TableState
      reads this
    {
      TableState(rows, nextId, activeDefault)
    }

    /** An empty table whose `is_active` column defaults to `activeDefault`. */
    constructor (activeDefault: int)
      ensures Valid()
      ensures rows == [] && this.activeDefault == activeDefault
    {
      rows := [];
      nextId := 1;
      this.activeDefault := activeDefault;
    }

    /** `INSERT INTO users SET ?`: appends one row under the next id and changes nothing else. */
    method Insert(name: string, email: string, password: Hash, createdAt: Timestamp, updatedAt: Timestamp)
      requires Valid()
      modifies this
      ensures Valid()
      ensures State() == Inserted(old(State()), name, email, password, createdAt, updatedAt)
      ensures rows == old(rows) + [User(old(nextId), name, email, password, activeDefault, createdAt, updatedAt)]
    {
      rows := rows + [User(nextId, name, email, password, activeDefault, createdAt, updatedAt)];
      nextId := nextId + 1;
    }
  }
}
