/**
 * The in-memory user store (internal/repository/memory_repo.go): users
 * keyed by email, one entry per email.
 */
module UserStore {
  import opened Domain

  /** The lookup GetByEmail performs on a given map. */
  function Lookup(users: map<string, User>, email: string): (r: Result<User>)
    ensures r.Ok? <==> email in users
    ensures r.Ok? ==> r.value == users[email]
    ensures r.Err? ==> r.error == UserNotFound
  {
    if email in users then Ok(users[email]) else Err(UserNotFound)
  }

  class MemoryUserRepository {
    var users: map<string, User>

    /** NewMemoryUserRepository: an empty map. */
    constructor ()
      ensures users == map[]
    {
      users := map[];
    }

    /** Refuses an email already present; otherwise stores the user under its email. */
    method Create(user: User) returns (r: Outcome)
      modifies this
      ensures user.email in old(users) ==> r == Failure(UserExists) && users == old(users)
      ensures user.email !in old(users) ==> r == Success && users == old(users)[user.email := user]
    {
      if user.email in users {
        return Failure(UserExists);
      }
      users := users[user.email := user];
      r := Success;
    }

    method GetByEmail(email: string) returns (r: Result<User>)
      ensures r == Lookup(users, email)
    {
      if email !in users {
        return Err(UserNotFound);
      }
      r := Ok(users[email]);
    }
  }

  /** After a successful Create(u), looking up u's email gives u back. */
  lemma LookupAfterCreate(users: map<string, User>, u: User)
    requires u.email !in users
    ensures Lookup(users[u.email := u], u.email) == Ok(u)
  {
  }

  /** A Create touches no other email's entry. */
  lemma CreateKeepsOthers(users: map<string, User>, u: User, email: string)
    requires email != u.email
    ensures Lookup(users[u.email := u], email) == Lookup(users, email)
  {
  }

  /**
   * Two users with the same email, whatever their ids: the second is refused
   * and the first stays the one found.
   */
  method SameEmailTwice(first: User, second: User) returns (r1: Outcome, r2: Outcome, found: Result<User>)
    requires first.email == second.email
    ensures r1 == Success
    ensures r2 == Failure(UserExists)
    ensures found == Ok(first)
  {
    var repo := new MemoryUserRepository();
    r1 := repo.Create(first);
    r2 := repo.Create(second);
    found := repo.GetByEmail(second.email);
  }
}
