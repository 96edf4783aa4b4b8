/** The account store of index.php: one sequence of user records (what
    `getUsers` loads and `saveUsers` writes back). Password hashing is
    salted and random, so `register` receives the finished hash;
    `password_verify` is passed to `login` as a function. */
module Accounts {
  import opened Options

  datatype User = User(
    id: string,
    username: string,
    email: string,
    passwordHash: string,
    createdAt: int,
    emailNotifications: bool)

  /** The record `register` appends: the given identity and hash, created
      `now`, with notifications switched on. */
  function NewUser(id: string, username: string, email: string, passwordHash: string, now: int): (u: User)
    ensures u.id == id && u.username == username && u.email == email
    ensures u.passwordHash == passwordHash && u.createdAt == now
    ensures u.emailNotifications
  {
    User(id, username, email, passwordHash, now, true)
  }

  /** No two users share an email: the invariant `register` keeps. */
  ghost predicate EmailsDistinct(s: seq<User>)
  {
    forall i, j :: 0 <= i < j < |s| ==> s[i].email != s[j].email
  }

  /** The two tests `login` puts a user to: the stored email equals the given
      one exactly, and the stored hash verifies the password. */
  predicate Accepts(u: User, email: string, password: string, verify: (string, string) -> bool)
  {
    u.email == email && verify(password, u.passwordHash)
  }

  /** Position of the first user with this id, or |s| if none. */
  function FirstWithId(s: seq<User>, id: string): (k: nat)
    ensures k <= |s|
    ensures k < |s| ==> s[k].id == id
    ensures forall j :: 0 <= j < k ==> s[j].id != id
  {
    if s == [] then 0
    else if s[0].id == id then 0
    else 1 + FirstWithId(s[1..], id)
  }

  /** The users after `updateUserSettings`: the first user with this id gets
      the new notification flag; every other user and field stays. */
  function WithNotifications(s: seq<User>, userId: string, enabled: bool): (r: seq<User>)
    ensures |r| == |s|
    ensures forall j :: 0 <= j < |s| ==>
              r[j].id == s[j].id && r[j].username == s[j].username && r[j].email == s[j].email
              && r[j].passwordHash == s[j].passwordHash && r[j].createdAt == s[j].createdAt
    ensures forall j :: 0 <= j < |s| ==>
              r[j].emailNotifications == (if j == FirstWithId(s, userId) then enabled else s[j].emailNotifications)
  {
    var k := FirstWithId(s, userId);
    if k < |s| then s[k := s[k].(emailNotifications := enabled)] else s
  }

  /** Appending a user whose email nobody has keeps emails distinct. */
  lemma RegisterKeepsEmailsDistinct(s: seq<User>, u: User)
    requires EmailsDistinct(s)
    requires forall v :: v in s ==> v.email != u.email
    ensures EmailsDistinct(s + [u])
  {
    var t := s + [u];
    forall i, j | 0 <= i < j < |t|
      ensures t[i].email != t[j].email
    {
      assert t[i] == s[i];
      if j < |s| {
        assert t[j] == s[j];
      }
    }
  }

  /** Changing a preference never touches an email. */
  lemma SettingsKeepEmailsDistinct(s: seq<User>, userId: string, enabled: bool)
    requires EmailsDistinct(s)
    ensures EmailsDistinct(WithNotifications(s, userId, enabled))
  {
  }

  /** With distinct emails, the user `login` accepts is the one user
      holding that email: no other record can be logged into with it. */
  lemma AcceptedUserIsTheEmailOwner(s: seq<User>, email: string, password: string,
                                    verify: (string, string) -> bool, k: nat)
    requires EmailsDistinct(s)
    requires k < |s| && Accepts(s[k], email, password, verify)
    ensures forall j :: 0 <= j < |s| && s[j].email == email ==> j == k
  {
  }

  /** The users collection, updated in place by registration and settings. */
  class AccountStore {
    var users: seq<User>

    /** The store's invariant. */
    ghost predicate Valid()
      reads this
    {
      EmailsDistinct(users)
    }

    /** An empty users file. */
    constructor ()
      ensures users == [] && Valid()
    {
      users := [];
    }

    /** `login`: the first user whose email is exactly `email` and whose
        hash `verify` accepts for `password`, or none. The scan goes on past
        a wrong password, and does not say which of the two tests failed. */
    method Login(email: string, password: string, verify: (string, string) -> bool)
      returns (r: Option<User>)
      ensures r.Some? ==>
                exists k :: (0 <= k < |users| && users[k] == r.value && Accepts(users[k], email, password, verify)
                             && forall j :: 0 <= j < k ==> !Accepts(users[j], email, password, verify))
      ensures r.None? ==> forall u :: u in users ==> !Accepts(u, email, password, verify)
      ensures Valid() && r.Some? ==> forall u :: u in users && u.email == email ==> u == r.value
    {
      var i := 0;
      while i < |users|
        invariant i <= |users|
        invariant forall j :: 0 <= j < i ==> !Accepts(users[j], email, password, verify)
      {
        if users[i].email == email && verify(password, users[i].passwordHash) {
          if Valid() {
            AcceptedUserIsTheEmailOwner(users, email, password, verify, i);
          }
          return Some(users[i]);
        }
        i := i + 1;
      }
      return None;
    }

    /** `register`: refuses an email some user already has, exactly as
        stored; otherwise appends the new user. */
    method Register(freshId: string, now: int, username: string, email: string, passwordHash: string)
      returns (ok: bool)
      modifies this
      ensures ok <==> forall u :: u in old(users) ==> u.email != email
      ensures ok ==> users == old(users) + [NewUser(freshId, username, email, passwordHash, now)]
      ensures !ok ==> users == old(users)
      ensures old(Valid()) ==> Valid()
    {
      var i := 0;
      while i < |users|
        invariant i <= |users|
        invariant forall j :: 0 <= j < i ==> users[j].email != email
      {
        if users[i].email == email {
          return false;
        }
        i := i + 1;
      }
      if Valid() {
        RegisterKeepsEmailsDistinct(users, NewUser(freshId, username, email, passwordHash, now));
      }
      users := users + [NewUser(freshId, username, email, passwordHash, now)];
      ok := true;
    }

    /** `updateUserSettings`: sets the notification flag of the first user
        with this id; always reports success. */
    method UpdateUserSettings(userId: string, emailNotifications: bool) returns (ok: bool)
      modifies this
      ensures ok
      ensures users == WithNotifications(old(users), userId, emailNotifications)
      ensures old(Valid()) ==> Valid()
    {
      var i := 0;
      while i < |users|
        invariant i <= |users| && users == old(users)
        invariant forall j :: 0 <= j < i ==> users[j].id != userId
      {
        if users[i].id == userId {
          assert FirstWithId(users, userId) == i;
          users := users[i := users[i].(emailNotifications := emailNotifications)];
          return true;
        }
        i := i + 1;
      }
      ok := true;
    }
  }
}
