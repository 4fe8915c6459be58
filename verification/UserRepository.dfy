/** The in-memory user store and its e-mail index. */
module UserRepository {
  import opened Common

  datatype Role = RegularUser | Admin | BusinessAdmin

  datatype User = User(
    id: string, email: string, passwordHash: string, createdAt: int, updatedAt: int,
    resetToken: Option<string>, resetTokenExpiry: Option<int>, role: Role)

  /** A field of an update: not mentioned, null, or a value. */
  datatype Change<T> = Keep | Clear | SetTo(value: T)

  datatype UpdateUserData = UpdateUserData(
    email: Option<string>, passwordHash: Option<string>,
    resetToken: Change<string>, resetTokenExpiry: Change<int>, role: Option<Role>)

  datatype PromotionOutcome = Promoted | AlreadyBusinessAdmin | InvalidCurrentRole | NotFound

  /** The two module-level maps. */
  datatype Db = Db(users: map<string, User>, emailIndex: map<string, string>)

  function Changed<T>(current: Option<T>, change: Change<T>): Option<T> {
    match change case Keep => current case Clear => None case SetTo(v) => Some(v)
  }

  function OrElse<T>(o: Option<T>, current: T): T { if o.Some? then o.value else current }

  function Saved(db: Db, user: User): Db {
    Db(db.users[user.id := user], db.emailIndex[user.email := user.id])
  }

  function UpdatedUser(current: User, updates: UpdateUserData, now: int): User {
    current.(email := OrElse(updates.email, current.email),
    passwordHash := OrElse(updates.passwordHash, current.passwordHash),
    resetToken := Changed(current.resetToken, updates.resetToken),
    resetTokenExpiry := Changed(current.resetTokenExpiry, updates.resetTokenExpiry),
    role := OrElse(updates.role, current.role),
    updatedAt := now)
  }

  function FindByEmail(db: Db, email: string): Option<User> {
    if email in db.emailIndex && db.emailIndex[email] != "" && db.emailIndex[email] in db.users
    then Some(db.users[db.emailIndex[email]]) else None
  }

  datatype Op =
    | CreateOp(email: string, passwordHash: string, id: string, now: int)
    | UpdateOp(userId: string, updates: UpdateUserData, now: int)
    | DeleteOp(userId: string)
    | PromoteOp(userId: string, now: int)

  function Step(db: Db, op: Op): Db {
    match op
    case CreateOp(email, passwordHash, id, now) =>
      Saved(db, User(id, email, passwordHash, now, now, None, None, RegularUser))
    case UpdateOp(userId, updates, now) =>
      if userId !in db.users then db
      else
        var current := db.users[userId];
        var next := UpdatedUser(current, updates, now);
        Saved(if current.email != next.email then db.(emailIndex := db.emailIndex - {current.email}) else db, next)
    case DeleteOp(userId) =>
      if userId !in db.users then db
      else Db(db.users - {userId}, db.emailIndex - {db.users[userId].email})
    case PromoteOp(userId, now) =>
      if userId !in db.users || !db.users[userId].role.RegularUser? then db
      else Saved(db, db.users[userId].(role := BusinessAdmin, updatedAt := now))
  }

  class Users {
    var users: map<string, User>
    var emailIndex: map<string, string>

    function View(): Db
      reads this
    {
      Db(users, emailIndex)
    }

    constructor ()
      ensures View() == Db(map[], map[])
    {
      users, emailIndex := map[], map[];
    }

    method SaveUser(user: User)
      modifies this
      ensures View() == Saved(old(View()), user)
      ensures users == old(users)[user.id := user] && emailIndex == old(emailIndex)[user.email := user.id]
    {
      users := users[user.id := user];
      emailIndex := emailIndex[user.email := user.id];
    }

    method CreateUser(email: string, passwordHash: string, id: string, now: int) returns (user: User)
      modifies this
      ensures View() == Step(old(View()), CreateOp(email, passwordHash, id, now))
      ensures user == User(id, email, passwordHash, now, now, None, None, RegularUser)
      ensures users == old(users)[id := user] && emailIndex == old(emailIndex)[email := id]
    {
      user := User(id, email, passwordHash, now, now, None, None, RegularUser);
      SaveUser(user);
    }

    method FindUserByEmail(email: string) returns (user: Option<User>)
      ensures user == FindByEmail(View(), email)
      ensures user.Some? <==> email in emailIndex && emailIndex[email] != "" && emailIndex[email] in users
      ensures user.Some? ==> user.value == users[emailIndex[email]]
    {
      if email !in emailIndex || emailIndex[email] == "" { return None; }
      var userId := emailIndex[email];
      if userId in users { return Some(users[userId]); }
      return None;
    }

    method UpdateUser(userId: string, updates: UpdateUserData, now: int) returns (user: Option<User>)
      requires userId in users ==> users[userId].id == userId
      modifies this
      ensures View() == Step(old(View()), UpdateOp(userId, updates, now))
      ensures user.Some? <==> userId in old(users)
      ensures user.Some? ==> user.value == users[userId] == UpdatedUser(old(users)[userId], updates, now)
      ensures user.Some? ==>
                var was, got := old(users)[userId], user.value;
                && got.id == was.id && got.createdAt == was.createdAt && got.updatedAt == now
                && (got.email == if updates.email.Some? then updates.email.value else was.email)
                && (got.passwordHash ==
                    if updates.passwordHash.Some? then updates.passwordHash.value else was.passwordHash)
                && (got.role == if updates.role.Some? then updates.role.value else was.role)
                && (updates.resetToken.Keep? ==> got.resetToken == was.resetToken)
                && (updates.resetToken.Clear? ==> got.resetToken == None)
                && (updates.resetToken.SetTo? ==> got.resetToken == Some(updates.resetToken.value))
                && (updates.resetTokenExpiry.Keep? ==> got.resetTokenExpiry == was.resetTokenExpiry)
                && (updates.resetTokenExpiry.Clear? ==> got.resetTokenExpiry == None)
                && (updates.resetTokenExpiry.SetTo? ==> got.resetTokenExpiry == Some(updates.resetTokenExpiry.value))
      ensures user.Some? ==> users == old(users)[userId := user.value]
      ensures user.Some? ==>
                && user.value.email in emailIndex && emailIndex[user.value.email] == userId
                && (old(users)[userId].email != user.value.email ==> old(users)[userId].email !in emailIndex)
                && forall e :: e != user.value.email && e != old(users)[userId].email ==>
                     && (e in emailIndex <==> e in old(emailIndex))
                     && (e in emailIndex ==> emailIndex[e] == old(emailIndex)[e])
      ensures user.None? ==> users == old(users) && emailIndex == old(emailIndex)
    {
      if userId !in users { return None; }
      var current := users[userId];
      var next := UpdatedUser(current, updates, now);
      if current.email != next.email {
        emailIndex := emailIndex - {current.email};
      }
      SaveUser(next);
      return Some(next);
    }

    method PromoteUserToBusinessAdmin(userId: string, now: int) returns (outcome: PromotionOutcome, user: Option<User>)
      requires userId in users ==> users[userId].id == userId
      modifies this
      ensures View() == Step(old(View()), PromoteOp(userId, now))
      ensures outcome.NotFound? <==> userId !in old(users)
      ensures userId in old(users) ==>
                && user == Some(users[userId])
                && (outcome.Promoted? <==> old(users)[userId].role.RegularUser?)
                && (outcome.AlreadyBusinessAdmin? <==> old(users)[userId].role.BusinessAdmin?)
                && (old(users)[userId].role.Admin? <==> users[userId].role.Admin?)
                && (outcome.InvalidCurrentRole? <==> old(users)[userId].role.Admin?)
      ensures outcome.Promoted? ==>
                && users == old(users)[userId := old(users)[userId].(role := BusinessAdmin, updatedAt := now)]
                && emailIndex == old(emailIndex)[old(users)[userId].email := userId]
      ensures !outcome.Promoted? ==> users == old(users) && emailIndex == old(emailIndex)
    {
      if userId !in users { return NotFound, None; }
      var current := users[userId];
      if current.role == BusinessAdmin { return AlreadyBusinessAdmin, Some(current); }
      if current.role != RegularUser { return InvalidCurrentRole, Some(current); }
      var stored := current.(role := BusinessAdmin, updatedAt := now);
      SaveUser(stored);
      return Promoted, Some(stored);
    }

    method DeleteUser(userId: string) returns (deleted: bool)
      modifies this
      ensures View() == Step(old(View()), DeleteOp(userId))
      ensures deleted <==> userId in old(users)
      ensures users == old(users) - {userId}
      ensures emailIndex == if deleted then old(emailIndex) - {old(users)[userId].email} else old(emailIndex)
    {
      if userId !in users { return false; }
      var user := users[userId];
      emailIndex := emailIndex - {user.email};
      users := users - {userId};
      return true;
    }
  }

  // ----- what every operation keeps -----

  /** Every index entry leads to a live user with that e-mail, and users are stored under their own id. */
  ghost predicate IndexSound(db: Db) {
    && (forall id :: id in db.users ==> db.users[id].id == id && id != "")
    && (forall email :: email in db.emailIndex ==>
          db.emailIndex[email] in db.users && db.users[db.emailIndex[email]].email == email)
  }

  /** Every live user's e-mail finds somebody, if not always that user. */
  ghost predicate IndexFull(db: Db) {
    forall id :: id in db.users ==> db.users[id].email in db.emailIndex
  }

  ghost predicate UniqueEmails(db: Db) {
    forall id, jd :: id in db.users && jd in db.users && db.users[id].email == db.users[jd].email ==> id == jd
  }

  /** Generated ids are non-empty and new. */
  predicate Legal(db: Db, op: Op) {
    op.CreateOp? ==> op.id !in db.users && op.id != ""
  }

  lemma StepKeepsSound(db: Db, op: Op)
    requires IndexSound(db) && Legal(db, op)
    ensures IndexSound(Step(db, op))
  {
  }

  /** The operation takes user `id` away from its current e-mail. */
  predicate Leaves(db: Db, op: Op, id: string)
    requires id in db.users
  {
    match op
    case DeleteOp(userId) => userId == id
    case UpdateOp(userId, updates, _) =>
      userId == id && updates.email.Some? && updates.email.value != db.users[id].email
    case _ => false
  }

  /** Some other live user shares the e-mail that a user is taken away from. */
  ghost predicate Strands(db: Db, op: Op) {
    exists id, jd :: id in db.users && jd in db.users && id != jd
                     && Leaves(db, op, id) && db.users[jd].email == db.users[id].email
  }

  /**
   * From a full index, an operation leaves some live user whose e-mail finds nobody
   * exactly when it deletes or renames a user whose e-mail another live user shares.
   */
  lemma FullUnlessStranding(db: Db, op: Op)
    requires IndexSound(db) && IndexFull(db) && Legal(db, op)
    ensures IndexFull(Step(db, op)) <==> !Strands(db, op)
  {
    var next := Step(db, op);
    if Strands(db, op) {
      var id, jd :| id in db.users && jd in db.users && id != jd
        && Leaves(db, op, id) && db.users[jd].email == db.users[id].email;
      LeftWithoutEntry(db, op, id, jd);
      assert next.users[jd].email !in next.emailIndex;
    } else {
      forall id | id in next.users ensures next.users[id].email in next.emailIndex {
        if id in db.users && next.users[id].email == db.users[id].email {
          NotTakenAway(db, op, id);
        } else {
          NewEmailIndexed(db, op, id);
        }
      }
    }
  }

  lemma LeftWithoutEntry(db: Db, op: Op, id: string, jd: string)
    requires IndexSound(db) && id in db.users && jd in db.users && id != jd
    requires Leaves(db, op, id) && db.users[jd].email == db.users[id].email
    ensures jd in Step(db, op).users && Step(db, op).users[jd].email !in Step(db, op).emailIndex
  {
  }

  lemma NewEmailIndexed(db: Db, op: Op, id: string)
    requires IndexSound(db) && IndexFull(db) && Legal(db, op) && id in Step(db, op).users
    requires id in db.users ==> Step(db, op).users[id].email != db.users[id].email
    ensures Step(db, op).users[id].email in Step(db, op).emailIndex
  {
  }

  lemma NotTakenAway(db: Db, op: Op, jd: string)
    requires IndexSound(db) && IndexFull(db) && Legal(db, op) && !Strands(db, op)
    requires jd in db.users && jd in Step(db, op).users && Step(db, op).users[jd].email == db.users[jd].email
    ensures db.users[jd].email in Step(db, op).emailIndex
  {
    if (op.DeleteOp? || op.UpdateOp?) && op.userId in db.users && op.userId != jd {
      assert Leaves(db, op, op.userId) ==> db.users[jd].email != db.users[op.userId].email;
    }
  }

  // ----- finding a user by its own e-mail -----

  /** Looking up the live user's e-mail finds that user, not only some user. */
  predicate Finds(db: Db, id: string)
    requires id in db.users
  {
    FindByEmail(db, db.users[id].email) == Some(db.users[id])
  }

  ghost predicate Exact(db: Db) {
    forall id :: id in db.users ==> Finds(db, id)
  }

  /** The user the operation saves, and the e-mail it is saved with. */
  function SavedAs(db: Db, op: Op): Option<(string, string)> {
    match op
    case CreateOp(email, _, id, _) => Some((id, email))
    case UpdateOp(userId, updates, _) =>
      if userId in db.users then Some((userId, OrElse(updates.email, db.users[userId].email))) else None
    case PromoteOp(userId, _) =>
      if userId in db.users && db.users[userId].role.RegularUser? then Some((userId, db.users[userId].email)) else None
    case DeleteOp(_) => None
  }

  /** The operation takes the e-mail away: saves another user with it, or moves or deletes another user that has it. */
  ghost predicate Takes(db: Db, op: Op, id: string)
    requires id in db.users
  {
    || (SavedAs(db, op).Some? && SavedAs(db, op).value.0 != id && SavedAs(db, op).value.1 == db.users[id].email)
    || exists jd :: jd in db.users && jd != id && Leaves(db, op, jd) && db.users[jd].email == db.users[id].email
  }

  /**
   * From any sound index, exactly which users are found by their own e-mail after an
   * operation: the one it saved, and those found before whose e-mail it does not take.
   */
  lemma FindsAfterIff(db: Db, op: Op, id: string)
    requires IndexSound(db) && Legal(db, op) && id in Step(db, op).users
    ensures Finds(Step(db, op), id) <==>
            (SavedAs(db, op).Some? && SavedAs(db, op).value.0 == id)
            || (id in db.users && Finds(db, id) && !Takes(db, op, id))
  {
    StepKeepsSound(db, op);
    var next := Step(db, op);
    if id in db.users && !(SavedAs(db, op).Some? && SavedAs(db, op).value.0 == id) {
      assert next.users[id] == db.users[id];
      TakenIff(db, op, id);
    }
  }

  lemma TakenIff(db: Db, op: Op, id: string)
    requires IndexSound(db) && Legal(db, op) && id in db.users && id in Step(db, op).users
    requires !(SavedAs(db, op).Some? && SavedAs(db, op).value.0 == id)
    ensures Finds(Step(db, op), id) <==> Finds(db, id) && !Takes(db, op, id)
  {
    if op.UpdateOp? || op.DeleteOp? {
      var jd := op.userId;
      assert jd in db.users && jd != id && Leaves(db, op, jd) && db.users[jd].email == db.users[id].email
             ==> Takes(db, op, id);
    }
  }

  /** The operation creates a user with, or renames one to, an e-mail that another live user holds. */
  ghost predicate Duplicates(db: Db, op: Op) {
    (op.CreateOp? || (op.UpdateOp? && op.updates.email.Some?)) && SavedAs(db, op).Some? &&
    exists id :: id in db.users && id != SavedAs(db, op).value.0 && db.users[id].email == SavedAs(db, op).value.1
  }

  /** While every user is found by its own e-mail, an operation keeps it so exactly unless it duplicates an e-mail. */
  lemma ExactUnlessDuplicating(db: Db, op: Op)
    requires IndexSound(db) && Exact(db) && Legal(db, op)
    ensures Exact(Step(db, op)) <==> !Duplicates(db, op)
  {
    var next := Step(db, op);
    ExactMeansUnique(db);
    if Duplicates(db, op) {
      var id :| id in db.users && id != SavedAs(db, op).value.0 && db.users[id].email == SavedAs(db, op).value.1;
      FindsAfterIff(db, op, id);
      assert !Finds(next, id);
    } else {
      forall id | id in next.users ensures Finds(next, id) {
        FindsAfterIff(db, op, id);
        if id in db.users { NothingTaken(db, op, id); }
      }
    }
  }

  lemma NothingTaken(db: Db, op: Op, id: string)
    requires IndexSound(db) && UniqueEmails(db) && id in db.users && !Duplicates(db, op)
    ensures !Takes(db, op, id)
  {
    if op.PromoteOp? || (op.UpdateOp? && op.updates.email.None?) {
      assert SavedAs(db, op).Some? ==> SavedAs(db, op).value.1 == db.users[op.userId].email;
    }
  }

  lemma ExactMeansUnique(db: Db)
    requires IndexSound(db) && Exact(db)
    ensures UniqueEmails(db) && IndexFull(db)
  {
    forall id, jd | id in db.users && jd in db.users && db.users[id].email == db.users[jd].email ensures id == jd {
      assert Finds(db, id) && Finds(db, jd);
    }
    forall id | id in db.users ensures db.users[id].email in db.emailIndex {
      assert Finds(db, id);
    }
  }

  /** The failing input: a second user created with the first one's e-mail hides it, though that finds somebody. */
  lemma SecondUserHidesFirst(email: string, hash: string, now: int)
    ensures var one := Step(Db(map[], map[]), CreateOp(email, hash, "a", now));
            var two := Step(one, CreateOp(email, hash, "b", now));
            && Exact(one) && IndexFull(two) && "a" in two.users && !Finds(two, "a")
            && FindByEmail(two, email) == Some(two.users["b"])
  {
    var one := Step(Db(map[], map[]), CreateOp(email, hash, "a", now));
    assert Finds(one, "a");
  }

  function After(ops: seq<Op>): Db {
    if ops == [] then Db(map[], map[]) else Step(After(ops[..|ops| - 1]), ops[|ops| - 1])
  }

  ghost predicate LegalRun(ops: seq<Op>) {
    forall n :: 0 <= n < |ops| ==> Legal(After(ops[..n]), ops[n])
  }

  /** In every run the index is sound: a lookup only ever returns a live user with the e-mail asked for. */
  lemma {:induction false} LookupsAreSound(ops: seq<Op>, email: string)
    requires LegalRun(ops)
    ensures IndexSound(After(ops))
    ensures FindByEmail(After(ops), email).Some? ==>
              var u := FindByEmail(After(ops), email).value;
              u.email == email && u.id in After(ops).users && After(ops).users[u.id] == u
    decreases |ops|
  {
    if ops != [] {
      var front := ops[..|ops| - 1];
      assert forall n :: 0 <= n < |front| ==> front[..n] == ops[..n];
      LookupsAreSound(front, email);
      StepKeepsSound(After(front), ops[|ops| - 1]);
    }
  }

  /** If e-mails were unique at every point of the run, looking one up is the same as scanning all users. */
  lemma {:induction false} LookupEqualsScan(ops: seq<Op>, email: string, u: User)
    requires LegalRun(ops) && forall n :: 0 <= n <= |ops| ==> UniqueEmails(After(ops[..n]))
    ensures IndexFull(After(ops))
    ensures FindByEmail(After(ops), email) == Some(u)
       <==> u.id in After(ops).users && After(ops).users[u.id] == u && u.email == email
    decreases |ops|
  {
    LookupsAreSound(ops, email);
    assert ops[..|ops|] == ops;
    if ops != [] {
      var front := ops[..|ops| - 1];
      assert forall n :: 0 <= n <= |front| ==> front[..n] == ops[..n];
      LookupEqualsScan(front, email, u);
      LookupsAreSound(front, email);
      assert UniqueEmails(After(front));
      FullUnlessStranding(After(front), ops[|ops| - 1]);
    }
    var db := After(ops);
    if u.id in db.users && db.users[u.id] == u && u.email == email {
      assert email in db.emailIndex && db.users[db.emailIndex[email]].email == email;
    }
  }

  /** Through a whole run every user is found by its own e-mail exactly when no operation of it duplicates an e-mail. */
  lemma {:induction false} ExactRunIff(ops: seq<Op>)
    requires LegalRun(ops)
    ensures (forall n :: 0 <= n <= |ops| ==> Exact(After(ops[..n])))
       <==> (forall n :: 0 <= n < |ops| ==> !Duplicates(After(ops[..n]), ops[n]))
    decreases |ops|
  {
    if ops != [] {
      var front, last := ops[..|ops| - 1], ops[|ops| - 1];
      assert forall n :: 0 <= n <= |front| ==> front[..n] == ops[..n];
      assert ops[..|ops|] == ops && ops[..|front|] == front;
      ExactRunIff(front);
      LookupsAreSound(front, "");
      if Exact(After(front)) { ExactUnlessDuplicating(After(front), last); }
      assert Exact(After(ops[..|front|])) <==> Exact(After(front));
    } else {
      assert ops[..0] == [];
    }
  }
}
