/** The users table behind the Spring Data repository: rows by id, an
    identity counter for new ids, a unique email column, and validation of
    the entity constraints on every write. */
module UserRepository {
  import opened Wrappers
  import UserModel

  const ConstraintViolation: string := "ConstraintViolationException"
  const DuplicateEmail: string := "DataIntegrityViolationException"

  type Rows = map<int, UserModel.User>

  /** The unique constraint on the email column. */
  ghost predicate EmailsUnique(rows: Rows)
  {
    forall i, j :: i in rows && j in rows && rows[i].email.Some? && rows[i].email == rows[j].email ==> i == j
  }

  /** No row other than the one with id except holds email. */
  predicate EmailFree(rows: Rows, email: Option<string>, except: int)
  {
    forall id :: id in rows && id != except ==> rows[id].email != email
  }

  class UserRepository {
    var rows: Rows
    var nextId: int
    /** The @Email format check the validator applies. */
    const emailFormat: string -> bool

    ghost predicate Valid()
      reads this
    {
      && nextId >= 1
      && (forall id :: id in rows ==> rows[id].id == Some(id) && id < nextId)
      && (forall id :: id in rows ==> UserModel.Constraints(rows[id], emailFormat))
      && EmailsUnique(rows)
    }

    constructor (emailFormat: string -> bool)
      ensures rows == map[] && nextId == 1 && this.emailFormat == emailFormat
      ensures Valid()
    {
      rows := map[];
      nextId := 1;
      this.emailFormat := emailFormat;
    }

    /** findById. */
    function FindById(id: int): (r: Option<UserModel.User>)
      reads this
      ensures r.Some? <==> id in rows
      ensures r.Some? ==> r.value == rows[id]
    {
      if id in rows then Some(rows[id]) else None
    }

    /** findByEmail and findUserByEmail: the one row holding the email; a
        null email matches no row, since every stored row has one. */
    function FindByEmail(email: Option<string>): (r: Option<UserModel.User>)
      reads this
      requires Valid()
      ensures r.Some? <==> email.Some? && exists id :: id in rows && rows[id].email == email
      ensures r.Some? ==>
        r.value.email == email && r.value.id.Some? && r.value.id.value in rows && rows[r.value.id.value] == r.value
    {
      if email.Some? && exists id :: id in rows && rows[id].email == email then
        var id :| id in rows && rows[id].email == email;
        Some(rows[id])
      else None
    }

    /** existsByEmail: in a valid table, whether findByEmail finds a row. */
    predicate ExistsByEmail(email: Option<string>): (b: bool)
      reads this
      ensures b ==> email.Some?
      ensures Valid() ==> (b <==> FindByEmail(email).Some?)
    {
      email.Some? && exists id :: id in rows && rows[id].email == email
    }

    /** The id save writes to: the user's own id when it names a row (an
        update), the next identity value otherwise (an insert). */
    function SlotFor(user: UserModel.User): int
      reads this
    {
      if user.id.Some? && user.id.value in rows then user.id.value else nextId
    }

    /** What save does, relating the state before and after. */
    twostate predicate SaveEffect(user: UserModel.User, new r: Result<UserModel.User, string>)
      reads this
    {
      var slot := old(SlotFor(user));
      && (r.Ok? <==> UserModel.Constraints(user, emailFormat) && EmailFree(old(rows), user.email, slot))
      && (r.Err? ==>
            rows == old(rows) && nextId == old(nextId)
            && r.error == if UserModel.Constraints(user, emailFormat) then DuplicateEmail else ConstraintViolation)
      && (r.Ok? ==>
            r.value == user.(id := Some(slot)) && rows == old(rows)[slot := r.value]
            && nextId == if slot == old(nextId) then old(nextId) + 1 else old(nextId))
    }

    /** save(user): validate, check the unique email column, then insert or
        update. */
    method Save(user: UserModel.User) returns (r: Result<UserModel.User, string>)
      requires Valid()
      modifies this
      ensures Valid()
      ensures SaveEffect(user, r)
    {
      var slot := SlotFor(user);
      if !UserModel.Constraints(user, emailFormat) {
        return Err(ConstraintViolation);
      }
      if !EmailFree(rows, user.email, slot) {
        return Err(DuplicateEmail);
      }
      var saved := user.(id := Some(slot));
      rows := rows[slot := saved];
      if slot == nextId {
        nextId := nextId + 1;
      }
      return Ok(saved);
    }
  }

  /** A found user is stored and carries the queried email; finding by the
      email of a stored row finds that row. */
  lemma FindByEmailFindsRow(repo: UserRepository, id: int)
    requires repo.Valid()
    requires id in repo.rows
    ensures repo.FindByEmail(repo.rows[id].email) == Some(repo.rows[id])
  {
    var found := repo.FindByEmail(repo.rows[id].email);
    assert repo.rows[id].email.Some?;
    assert found.Some?;
    assert found.value.id.value == id;
  }
}
