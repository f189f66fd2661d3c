/** The in-memory user table and the signed-in user: a list and an optional record that
    every operation replaces wholesale. */
module UserRepository {
  import opened Lists
  import opened KotlinLang
  import opened Models

  /** The two accounts the table starts with. Each record reads the clock for its own
      `createdAt`, so each gets its own timestamp. */
  function SeedUsers(t0: int, t1: int): seq<User>
  {
    [ User("admin1", "admin", "admin@snake.com", Admin, 0, 0, t0),
      User("player1", "jugador1", "player@snake.com", Player, 150, 5, t1) ]
  }

  /** login's lookup: the first user with that username. */
  function FindByUsername(users: seq<User>, username: string): Option<User>
  {
    Find(users, (u: User) => u.username == username)
  }

  /** register's lookup: the first user with that username or that email. */
  function FindClash(users: seq<User>, username: string, email: string): Option<User>
  {
    Find(users, (u: User) => u.username == username || u.email == email)
  }

  function FindById(users: seq<User>, userId: string): Option<User>
  {
    Find(users, (u: User) => u.id == userId)
  }

  /** The id register gives a new account: "user_" and the millisecond, which can be
      read back from it. */
  function UserId(millis: nat): (r: string)
    ensures |r| > 5 && r[..5] == "user_" && r[5..] == DecimalString(millis)
    ensures DecimalValue(r[5..]) == millis
  {
    DecimalRoundTrip(millis);
    var r := "user_" + DecimalString(millis);
    assert r[5..] == DecimalString(millis);
    r
  }

  /** Accounts registered at different milliseconds get different ids. */
  lemma UserIdsDiffer(a: nat, b: nat)
    requires a != b
    ensures UserId(a) != UserId(b)
  {
    PrefixedDecimalInjective("user_", a, b);
  }

  /** The account register creates: a PLAYER with no score and no games. */
  function NewPlayer(username: string, email: string, idMillis: nat, createdAt: int): User
  {
    User(UserId(idMillis), username, email, Player, 0, 0, createdAt)
  }

  /** One finished game credited to a user, with Kotlin `Int` wrap-around. */
  function Credit(u: User, newScore: Int32): (r: User)
    ensures r.totalScore == AddInt32(u.totalScore, newScore) && r.gamesPlayed == AddInt32(u.gamesPlayed, 1)
    ensures r.id == u.id && r.username == u.username && r.email == u.email
    ensures r.role == u.role && r.createdAt == u.createdAt
  {
    u.(totalScore := AddInt32(u.totalScore, newScore), gamesPlayed := AddInt32(u.gamesPlayed, 1))
  }

  /** The list after updateUserScore. */
  function CreditScore(users: seq<User>, userId: string, newScore: Int32): seq<User>
  {
    Map(users, (u: User) => if u.id == userId then Credit(u, newScore) else u)
  }

  /** The list after updateUser. */
  function ReplaceUser(users: seq<User>, user: User): seq<User>
  {
    Map(users, (u: User) => if u.id == user.id then user else u)
  }

  /** The list after deleteUser. */
  function WithoutUser(users: seq<User>, userId: string): seq<User>
  {
    Filter(users, (u: User) => u.id != userId)
  }

  /** updateUserScore credits every user with that id, keeps every other user, and keeps
      the length and the position of every id; without overflow the total grows by
      exactly the new score. */
  lemma CreditScoreSpec(users: seq<User>, userId: string, newScore: Int32)
    ensures |CreditScore(users, userId, newScore)| == |users|
    ensures forall i :: 0 <= i < |users| ==> CreditScore(users, userId, newScore)[i].id == users[i].id
    ensures forall i :: 0 <= i < |users| && users[i].id != userId ==>
      CreditScore(users, userId, newScore)[i] == users[i]
    ensures forall i :: 0 <= i < |users| && users[i].id == userId ==>
      CreditScore(users, userId, newScore)[i] == Credit(users[i], newScore)
    ensures forall i ::
      (0 <= i < |users| && users[i].id == userId && INT32_MIN <= users[i].totalScore + newScore <= INT32_MAX)
      ==> CreditScore(users, userId, newScore)[i].totalScore == users[i].totalScore + newScore
  {
  }

  /** updateUser replaces exactly the users with that id and keeps all others. */
  lemma ReplaceUserSpec(users: seq<User>, user: User)
    ensures |ReplaceUser(users, user)| == |users|
    ensures forall i :: 0 <= i < |users| ==>
      ReplaceUser(users, user)[i] == if users[i].id == user.id then user else users[i]
  {
  }

  /** deleteUser removes exactly the users with that id, keeping the others in order. */
  lemma WithoutUserSpec(users: seq<User>, userId: string)
    ensures forall u :: u in WithoutUser(users, userId) <==> u in users && u.id != userId
    ensures IsSubsequence(WithoutUser(users, userId), users)
    ensures FindById(WithoutUser(users, userId), userId) == None
  {
    var r := WithoutUser(users, userId);
    assert forall i :: 0 <= i < |r| ==> r[i] in r;
  }

  /** Finding an id after crediting it gives the credited copy of the first user with that
      id, and nothing if there was none. */
  lemma FindAfterCredit(users: seq<User>, userId: string, newScore: Int32)
    ensures FindById(CreditScore(users, userId, newScore), userId) ==
      match FindById(users, userId)
      case Some(u) => Some(Credit(u, newScore))
      case None => None
  {
    var f := (u: User) => if u.id == userId then Credit(u, newScore) else u;
    var p := (u: User) => u.id == userId;
    FindMap(users, f, p, p);
    var k := FirstIndex(users, p);
    if k >= 0 {
      assert f(users[k]) == Credit(users[k], newScore);
    }
  }

  /** After a successful register the new account is the one login finds under its name. */
  lemma RegisteredUserLogsIn(users: seq<User>, username: string, email: string, idMillis: nat, createdAt: int)
    requires FindClash(users, username, email).None?
    ensures FindByUsername(users + [NewPlayer(username, email, idMillis, createdAt)], username) ==
      Some(NewPlayer(username, email, idMillis, createdAt))
  {
    var nu := NewPlayer(username, email, idMillis, createdAt);
    FindAppend(users, nu, (u: User) => u.username == username);
    assert FindByUsername(users, username).None?;
  }

  /** register keeps usernames and emails unique: a table with no repeated username or
      email keeps that property. */
  lemma RegisterKeepsUnique(users: seq<User>, username: string, email: string, idMillis: nat, createdAt: int)
    requires UniqueLogins(users)
    requires FindClash(users, username, email).None?
    ensures UniqueLogins(users + [NewPlayer(username, email, idMillis, createdAt)])
  {
  }

  ghost predicate UniqueLogins(users: seq<User>)
  {
    forall i, j :: 0 <= i < j < |users| ==>
      users[i].username != users[j].username && users[i].email != users[j].email
  }

  /** The source's `SimpleUserRepository`; `None` stands for a signed-out session. */
  class UserRepo {
    var users: seq<User>
    var currentUser: Option<User>

    constructor (t0: int, t1: int)
      ensures users == SeedUsers(t0, t1) && currentUser == None
    {
      users := SeedUsers(t0, t1);
      currentUser := None;
    }

    /** login: succeeds exactly when an account has that username, whose first such
        account becomes current; the password is never looked at. */
    method Login(username: string, password: string) returns (ok: bool)
      modifies this
      ensures users == old(users)
      ensures ok <==> exists i :: 0 <= i < |users| && users[i].username == username
      ensures ok ==> currentUser == FindByUsername(users, username) && currentUser.Some?
      ensures !ok ==> currentUser == old(currentUser)
    {
      var user := FindByUsername(users, username);
      if user.Some? {
        currentUser := user;
        ok := true;
      } else {
        ok := false;
      }
    }

    /** register: refuses, changing nothing, when an account shares the username or the
        email; otherwise appends a new PLAYER and signs it in. */
    method Register(username: string, email: string, password: string, idMillis: nat, createdAt: int)
      returns (ok: bool)
      modifies this
      ensures ok <==> forall i :: 0 <= i < |old(users)| ==>
        old(users)[i].username != username && old(users)[i].email != email
      ensures ok ==> users == old(users) + [NewPlayer(username, email, idMillis, createdAt)]
      ensures ok ==> currentUser == Some(NewPlayer(username, email, idMillis, createdAt))
      ensures !ok ==> users == old(users) && currentUser == old(currentUser)
    {
      var existingUser := FindClash(users, username, email);
      if existingUser.None? {
        var newUser := NewPlayer(username, email, idMillis, createdAt);
        users := users + [newUser];
        currentUser := Some(newUser);
        ok := true;
      } else {
        ok := false;
      }
    }

    method Logout()
      modifies this
      ensures users == old(users) && currentUser == None
    {
      currentUser := None;
    }

    /** updateUserScore: credits every user with that id; a current user with that id is
        re-read from the new list (and signed out if the list no longer has it). */
    method UpdateUserScore(userId: string, newScore: Int32)
      modifies this
      ensures users == CreditScore(old(users), userId, newScore)
      ensures old(currentUser).Some? && old(currentUser).value.id == userId ==>
        currentUser == FindById(users, userId)
      ensures !(old(currentUser).Some? && old(currentUser).value.id == userId) ==>
        currentUser == old(currentUser)
    {
      users := CreditScore(users, userId, newScore);
      if currentUser.Some? && currentUser.value.id == userId {
        currentUser := FindById(users, userId);
      }
    }

    /** deleteUser: the current user is left as it is, even when it is the one deleted. */
    method DeleteUser(userId: string)
      modifies this
      ensures users == WithoutUser(old(users), userId)
      ensures currentUser == old(currentUser)
    {
      users := WithoutUser(users, userId);
    }

    method UpdateUser(user: User)
      modifies this
      ensures users == ReplaceUser(old(users), user)
      ensures currentUser == if old(currentUser).Some? && old(currentUser).value.id == user.id
                             then Some(user) else old(currentUser)
    {
      users := ReplaceUser(users, user);
      if currentUser.Some? && currentUser.value.id == user.id {
        currentUser := Some(user);
      }
    }
  }

  /** Deleting the signed-in account and then crediting it signs the session out. */
  method DeletedCurrentUserIsSignedOutByCredit(repo: UserRepo, newScore: Int32)
    requires repo.currentUser.Some?
    modifies repo
    ensures repo.currentUser == None
  {
    var id := repo.currentUser.value.id;
    repo.DeleteUser(id);
    WithoutUserSpec(old(repo.users), id);
    repo.UpdateUserScore(id, newScore);
    FindAfterCredit(WithoutUser(old(repo.users), id), id, newScore);
  }
}
