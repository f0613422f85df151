/**
 * The user table: rows of (email, bcrypt hash) in file order, the sign-up
 * path that refuses an email already present and otherwise appends a row,
 * and the login check against the first row with that email.
 *
 * bcrypt stays abstract: a hash function of password and salt and a check
 * predicate, given as a value of `Bcrypt`. Its one promise, that a password
 * checks against its own hash, is the precondition `Sound` of the lemmas that
 * rely on it. The random salt is a parameter.
 */
module Credentials {
  import opened Wrappers

  /** One row of the table. */
  datatype Credential = Credential(email: string, hash: string)

  /** The two bcrypt calls the table uses: `hashpw(password, salt)` and `checkpw(password, hash)`. */
  datatype Bcrypt = Bcrypt(hashpw: (string, string) -> string, checkpw: (string, string) -> bool)

  /** bcrypt's promise: a password checks against any hash made from it. */
  ghost predicate Sound(b: Bcrypt) {
    forall p, salt :: b.checkpw(p, b.hashpw(p, salt))
  }

  /** A collision-free bcrypt: a hash accepts only the password it was made from. */
  ghost predicate Exact(b: Bcrypt) {
    forall p, q, salt :: b.checkpw(q, b.hashpw(p, salt)) ==> q == p
  }

  /** Some row has this email (`email in users_df["email"].values`). */
  predicate Registered(rows: seq<Credential>, email: string) {
    exists k :: 0 <= k < |rows| && rows[k].email == email
  }

  /** No email appears in two rows. */
  predicate UniqueEmails(rows: seq<Credential>) {
    forall a, b :: 0 <= a < b < |rows| ==> rows[a].email != rows[b].email
  }

  /** The position of the first row with this email (`user.iloc[0]`), if any. */
  function FirstIndex(rows: seq<Credential>, email: string): (r: Option<nat>)
    ensures r.None? <==> !Registered(rows, email)
    ensures r.Some? ==> r.value < |rows| && rows[r.value].email == email
                        && forall k :: 0 <= k < r.value ==> rows[k].email != email
    decreases |rows|
  {
    if rows == [] then None
    else if rows[0].email == email then Some(0)
    else
      match FirstIndex(rows[1..], email)
      case None =>
        assert forall k :: 1 <= k < |rows| ==> rows[k] == rows[1..][k - 1];
        None
      case Some(i) =>
        assert rows[i + 1] == rows[1..][i];
        assert forall k :: 1 <= k <= i ==> rows[k] == rows[1..][k - 1];
        Some(i + 1)
  }

  /** `verify_user`: an unknown email fails; otherwise the password is checked against the first matching hash. */
  function Verify(rows: seq<Credential>, email: string, password: string, b: Bcrypt): (ok: bool)
    ensures ok <==> exists k :: 0 <= k < |rows| && rows[k].email == email
                               && (forall m :: 0 <= m < k ==> rows[m].email != email)
                               && b.checkpw(password, rows[k].hash)
  {
    match FirstIndex(rows, email)
    case None => false
    case Some(i) => b.checkpw(password, rows[i].hash)
  }

  /** Login with an email that has no row always fails, whatever the password. */
  lemma VerifyUnknown(rows: seq<Credential>, email: string, password: string, b: Bcrypt)
    ensures !Registered(rows, email) ==> !Verify(rows, email, password, b)
  {
  }

  /** Appending a row never moves the first match of an email that already had one. */
  lemma {:induction false} FirstIndexAppend(rows: seq<Credential>, row: Credential, email: string)
    ensures FirstIndex(rows + [row], email)
         == if Registered(rows, email) then FirstIndex(rows, email)
            else if row.email == email then Some(|rows|) else None
    decreases |rows|
  {
    if rows != [] {
      assert (rows + [row])[1..] == rows[1..] + [row];
      FirstIndexAppend(rows[1..], row, email);
    } else {
      assert [] + [row] == [row];
    }
  }

  /**
   * Appending a row leaves every login answer as it was for an email that was
   * already registered, and for every email other than the new row's.
   */
  lemma AppendKeepsVerify(rows: seq<Credential>, row: Credential, email: string, password: string, b: Bcrypt)
    requires Registered(rows, email) || row.email != email
    ensures Verify(rows + [row], email, password, b) == Verify(rows, email, password, b)
  {
    FirstIndexAppend(rows, row, email);
    var i := FirstIndex(rows, email);
    if i.Some? {
      assert (rows + [row])[i.value] == rows[i.value];
    }
  }

  /** After signing up a new email, logging in with the same password succeeds. */
  lemma SignUpThenVerify(rows: seq<Credential>, email: string, password: string, salt: string, b: Bcrypt)
    requires Sound(b)
    requires !Registered(rows, email)
    ensures Verify(rows + [Credential(email, b.hashpw(password, salt))], email, password, b)
  {
    var row := Credential(email, b.hashpw(password, salt));
    FirstIndexAppend(rows, row, email);
    assert (rows + [row])[|rows|] == row;
  }

  /** After signing up a new email, logging in with any other password fails (for a collision-free bcrypt). */
  lemma WrongPasswordRejected(rows: seq<Credential>, email: string, password: string, other: string, salt: string, b: Bcrypt)
    requires Exact(b)
    requires !Registered(rows, email) && other != password
    ensures !Verify(rows + [Credential(email, b.hashpw(password, salt))], email, other, b)
  {
    var row := Credential(email, b.hashpw(password, salt));
    FirstIndexAppend(rows, row, email);
    assert (rows + [row])[|rows|] == row;
  }

  /** Appending a row for an unregistered email keeps every email in at most one row. */
  lemma AppendKeepsUnique(rows: seq<Credential>, row: Credential)
    requires UniqueEmails(rows) && !Registered(rows, row.email)
    ensures UniqueEmails(rows + [row])
  {
    var all := rows + [row];
    forall a, b | 0 <= a < b < |all| ensures all[a].email != all[b].email {
      if b == |rows| {
        assert all[a] == rows[a];
      } else {
        assert all[a] == rows[a] && all[b] == rows[b];
      }
    }
  }

  /** What the sign-up button reports. */
  datatype SignUpOutcome = MissingFields | AlreadyRegistered | Created

  /** The users file, held in memory: its rows in file order. */
  class UserStore {
    var rows: seq<Credential>

    /** The file as `load_users` creates it when it is missing: no rows. */
    constructor ()
      ensures rows == []
    {
      rows := [];
    }

    /** `save_user`: append a row with the password's hash under a fresh salt, without looking for duplicates. */
    method SaveUser(email: string, password: string, salt: string, b: Bcrypt)
      modifies this
      ensures rows == old(rows) + [Credential(email, b.hashpw(password, salt))]
    {
      var hashed := b.hashpw(password, salt);
      rows := rows + [Credential(email, hashed)];
    }

    /**
     * The sign-up button: an empty email or password is refused, an email
     * that already has a row is refused, and otherwise one row is appended.
     * Emails stay unique, and the new user can log in with that password.
     */
    method SignUp(email: string, password: string, salt: string, b: Bcrypt) returns (outcome: SignUpOutcome)
      modifies this
      ensures email == [] || password == [] ==> outcome == MissingFields
      ensures email != [] && password != [] && Registered(old(rows), email) ==> outcome == AlreadyRegistered
      ensures email != [] && password != [] && !Registered(old(rows), email) ==> outcome == Created
      ensures outcome != Created ==> rows == old(rows)
      ensures outcome == Created ==> rows == old(rows) + [Credential(email, b.hashpw(password, salt))]
      ensures UniqueEmails(old(rows)) ==> UniqueEmails(rows)
      ensures outcome == Created && Sound(b) ==> Verify(rows, email, password, b)
    {
      if email == [] || password == [] {
        return MissingFields;
      }
      if Registered(rows, email) {
        return AlreadyRegistered;
      }
      ghost var before := rows;
      SaveUser(email, password, salt, b);
      if UniqueEmails(before) {
        AppendKeepsUnique(before, Credential(email, b.hashpw(password, salt)));
      }
      if Sound(b) {
        SignUpThenVerify(before, email, password, salt, b);
      }
      outcome := Created;
    }

    /** The login button: `verify_user` on the current rows. */
    method Login(email: string, password: string, b: Bcrypt) returns (ok: bool)
      ensures ok == Verify(rows, email, password, b)
      ensures ok ==> Registered(rows, email)
    {
      var i := FirstIndex(rows, email);
      if i.None? {
        return false;
      }
      ok := b.checkpw(password, rows[i.value].hash);
    }
  }
}
