/** Registration, login and the two view guards.

    Registration lists the teams nobody has claimed yet, checks the form,
    adds the user and gives the new user a bid of None on every existing
    nomination, so that every nomination keeps exactly one bid per user.
    Password hashing is a parameter: the hash of the submitted password is
    passed in, and checking a password against a stored hash is a function
    passed in. */
module Auth {
  import opened Wrappers
  import Auction

  const UsernameRequired := "Username is required."
  const PasswordRequired := "Password is required."
  const TeamRequired := "Team is required."
  const NotRegistered := "The username you entered has not been registered."
  const InvalidPassword := "The password you entered is invalid for this username."

  /** The session key that holds the logged-in user's id. */
  const UserIdKey := "user_id"

  // ----- Unclaimed teams -----

  /** r keeps elements of s in the order s has them. */
  predicate IsSubsequence<T(==)>(r: seq<T>, s: seq<T>)
    decreases |s|
  {
    r == [] || (s != [] && if r[0] == s[0] then IsSubsequence(r[1..], s[1..]) else IsSubsequence(r, s[1..]))
  }

  /** The teams offered at registration: those of the team list that no
      user has claimed, in the order of the team list. */
  function UnclaimedTeams(teams: seq<string>, claimed: seq<Option<string>>): (r: seq<string>)
    ensures forall t :: t in r <==> t in teams && Some(t) !in claimed
    ensures IsSubsequence(r, teams)
    decreases |teams|
  {
    if teams == [] then []
    else
      var rest := UnclaimedTeams(teams[1..], claimed);
      assert forall t :: t in teams <==> t == teams[0] || t in teams[1..];
      if Some(teams[0]) !in claimed then [teams[0]] + rest
      else
        SubsequenceOfTail(rest, teams);
        rest
  }

  lemma {:induction false} SubsequenceOfTail<T>(r: seq<T>, s: seq<T>)
    requires s != [] && IsSubsequence(r, s[1..])
    ensures IsSubsequence(r, s)
    decreases |s|, 0
  {
    if r != [] && r[0] == s[0] {
      SubsequenceDropFirst(r, s[1..]);
    }
  }

  lemma {:induction false} SubsequenceDropFirst<T>(r: seq<T>, t: seq<T>)
    requires r != [] && IsSubsequence(r, t)
    ensures IsSubsequence(r[1..], t)
    decreases |t|, 1
  {
    if r[0] != t[0] {
      SubsequenceDropFirst(r, t[1..]);
    }
    SubsequenceOfTail(r[1..], t);
  }

  // ----- Register -----

  /** The register form. An absent checkbox is false. */
  datatype RegisterForm = RegisterForm(
    username: string,
    password: string,
    team: string,
    slackId: string,
    isLeagueManager: bool)

  /** The first missing required field, if any. */
  function RegisterError(form: RegisterForm): (r: Option<string>)
    ensures r.None? <==> form.username != "" && form.password != "" && form.team != ""
    ensures form.username == "" ==> r == Some(UsernameRequired)
    ensures form.username != "" && form.password == "" ==> r == Some(PasswordRequired)
    ensures form.username != "" && form.password != "" && form.team == "" ==> r == Some(TeamRequired)
  {
    if form.username == "" then Some(UsernameRequired)
    else if form.password == "" then Some(PasswordRequired)
    else if form.team == "" then Some(TeamRequired)
    else None
  }

  function AlreadyRegistered(username: string): string {
    "User " + username + " is already registered."
  }

  /** The id the new user row receives: one more than the largest in use. */
  function NextUserId(users: seq<Auction.Account>): (id: nat)
    ensures id > 0 && forall i :: 0 <= i < |users| ==> users[i].id < id
    decreases |users|
  {
    if users == [] then 1
    else
      var rest := NextUserId(users[1..]);
      assert forall i :: 1 <= i < |users| ==> users[i].id == users[1..][i - 1].id;
      if users[0].id >= rest then users[0].id + 1 else rest
  }

  /** The unique username column would reject the new row. */
  predicate UsernameTaken(users: seq<Auction.Account>, username: string) {
    exists i :: 0 <= i < |users| && users[i].username == Some(username)
  }

  function NewAccount(id: nat, form: RegisterForm, hash: string): Auction.Account {
    Auction.Account(id, Some(form.username), Some(hash), Some(form.team),
                    if form.slackId == "" then None else Some(form.slackId), form.isLeagueManager)
  }

  /** Every nomination with one more bid, of None, for the user u. */
  function BackFilled(ns: seq<Auction.Nomination>, u: nat): (r: seq<Auction.Nomination>)
    ensures |r| == |ns|
  {
    seq(|ns|, k requires 0 <= k < |ns| => ns[k].(bids := ns[k].bids + [Auction.Bid(u, None)]))
  }

  /** After the back-fill every nomination has exactly one bid per user,
      the new user's bid is None and no other bid changed. */
  lemma BackFillKeepsInvariant(ns: seq<Auction.Nomination>, users: seq<Auction.Account>, u: Auction.Account)
    requires Auction.AllAligned(ns, users) && Auction.UniqueNominations(ns)
    ensures Auction.AllAligned(BackFilled(ns, u.id), users + [u])
    ensures Auction.UniqueNominations(BackFilled(ns, u.id))
    ensures forall k :: 0 <= k < |ns| ==>
      BackFilled(ns, u.id)[k].bids[..|users|] == ns[k].bids
      && BackFilled(ns, u.id)[k].bids[|users|] == Auction.Bid(u.id, None)
  {
    var r := BackFilled(ns, u.id);
    forall k | 0 <= k < |ns|
      ensures Auction.Aligned(r[k].bids, users + [u])
    {
      assert Auction.Aligned(ns[k].bids, users);
    }
    forall i, j | 0 <= i < j < |r|
      ensures Auction.IdOf(r[i]) != Auction.IdOf(r[j]) && Auction.PlayerOf(r[i]) != Auction.PlayerOf(r[j])
              && Auction.SlotOf(r[i]) != Auction.SlotOf(r[j])
    {
      assert Auction.IdOf(ns[i]) != Auction.IdOf(ns[j]) && Auction.PlayerOf(ns[i]) != Auction.PlayerOf(ns[j]);
      assert Auction.SlotOf(ns[i]) != Auction.SlotOf(ns[j]);
    }
    forall k | 0 <= k < |ns|
      ensures r[k].bids[..|users|] == ns[k].bids && r[k].bids[|users|] == Auction.Bid(u.id, None)
    {
      assert Auction.Aligned(ns[k].bids, users);
    }
  }

  /** The loop that appends the new user's bid to every nomination. */
  method BackFill(ns: seq<Auction.Nomination>, u: nat) returns (r: seq<Auction.Nomination>)
    ensures r == BackFilled(ns, u)
  {
    r := ns;
    var k := 0;
    while k < |ns|
      invariant 0 <= k <= |ns| && |r| == |ns|
      invariant forall j :: 0 <= j < k ==> r[j] == BackFilled(ns, u)[j]
      invariant forall j :: k <= j < |ns| ==> r[j] == ns[j]
    {
      r := r[k := r[k].(bids := r[k].bids + [Auction.Bid(u, None)])];
      k := k + 1;
    }
  }

  /** The POST of the register view. hash is the hash of the submitted
      password. A duplicate username fails the commit and is reported;
      otherwise the user is added and every nomination is back-filled. */
  method Register(store: Auction.Store, form: RegisterForm, hash: string) returns (outcome: Auction.Outcome)
    requires store.Valid()
    modifies store
    ensures store.Valid() && store.notices == old(store.notices)
    ensures RegisterError(form).Some? ==>
      outcome == Auction.Flashed(RegisterError(form).value)
      && store.users == old(store.users) && store.nominations == old(store.nominations)
    ensures RegisterError(form).None? && UsernameTaken(old(store.users), form.username) ==>
      outcome == Auction.Flashed(AlreadyRegistered(form.username))
      && store.users == old(store.users) && store.nominations == old(store.nominations)
    ensures RegisterError(form).None? && !UsernameTaken(old(store.users), form.username) ==>
      var u := NewAccount(NextUserId(old(store.users)), form, hash);
      outcome == Auction.Redirected
      && store.users == old(store.users) + [u]
      && store.nominations == BackFilled(old(store.nominations), u.id)
  {
    var error := RegisterError(form);
    if error.Some? {
      return Auction.Flashed(error.value);
    }
    if exists i :: 0 <= i < |store.users| && store.users[i].username == Some(form.username) {
      // IntegrityError on the unique username
      return Auction.Flashed(AlreadyRegistered(form.username));
    }
    var u := NewAccount(NextUserId(store.users), form, hash);
    var ns := BackFill(store.nominations, u.id);
    BackFillKeepsInvariant(store.nominations, store.users, u);
    store.users := store.users + [u];
    store.nominations := ns;
    outcome := Auction.Redirected;
  }

  // ----- Login -----

  /** The first user whose username is the given one. */
  function FindByUsername(users: seq<Auction.Account>, username: string): (k: Option<nat>)
    ensures k.Some? ==> k.value < |users| && users[k.value].username == Some(username)
    ensures k.None? <==> !UsernameTaken(users, username)
    decreases |users|
  {
    if users == [] then None
    else if users[0].username == Some(username) then Some(0)
    else match FindByUsername(users[1..], username)
      case None =>
        assert forall i :: 1 <= i < |users| ==> users[i] == users[1..][i - 1];
        None
      case Some(j) => Some(j + 1)
  }

  /** What the login view does: log the user in, report an error, or
      raise when the user's password column is NULL, since the hash check
      cannot read a missing hash. */
  datatype LoginResult = LoggedIn(session: map<string, nat>) | LoginFailed(message: string) | LoginCrashed

  /** The POST of the login view. checkPassword stands for comparing a
      stored hash with a submitted password. */
  function Login(users: seq<Auction.Account>, username: string, password: string,
                 checkPassword: (string, string) -> bool): (r: LoginResult)
    ensures r == LoginFailed(NotRegistered) <==> !UsernameTaken(users, username)
    ensures r.LoggedIn? ==> r.session.Keys == {UserIdKey}
    ensures r.LoggedIn? ==> exists i :: 0 <= i < |users| && users[i].username == Some(username)
                                        && users[i].id == r.session[UserIdKey]
                                        && users[i].passwordHash.Some?
                                        && checkPassword(users[i].passwordHash.value, password)
    ensures r == LoginFailed(InvalidPassword) ==>
      exists i :: 0 <= i < |users| && users[i].username == Some(username)
                  && users[i].passwordHash.Some? && !checkPassword(users[i].passwordHash.value, password)
    ensures r.LoginCrashed? ==>
      exists i :: 0 <= i < |users| && users[i].username == Some(username) && users[i].passwordHash.None?
    ensures r.LoginFailed? ==> r.message in {NotRegistered, InvalidPassword}
  {
    match FindByUsername(users, username)
    case None => LoginFailed(NotRegistered)
    case Some(k) =>
      if users[k].passwordHash.None? then LoginCrashed
      else if !checkPassword(users[k].passwordHash.value, password) then LoginFailed(InvalidPassword)
      else LoggedIn(map[UserIdKey := users[k].id])
  }

  predicate UniqueUsernames(users: seq<Auction.Account>) {
    forall i, j :: 0 <= i < j < |users| && users[i].username.Some? ==> users[i].username != users[j].username
  }

  /** With usernames unique, login raises exactly when the one user with
      that name has no stored hash, and succeeds exactly when it has one
      the check accepts; the session then holds that user's id. */
  lemma LoginSucceedsExactly(users: seq<Auction.Account>, username: string, password: string,
                             checkPassword: (string, string) -> bool, i: nat)
    requires UniqueUsernames(users)
    requires i < |users| && users[i].username == Some(username)
    ensures Login(users, username, password, checkPassword).LoginCrashed? <==> users[i].passwordHash.None?
    ensures Login(users, username, password, checkPassword).LoggedIn?
            <==> users[i].passwordHash.Some? && checkPassword(users[i].passwordHash.value, password)
    ensures Login(users, username, password, checkPassword).LoggedIn? ==>
            Login(users, username, password, checkPassword).session[UserIdKey] == users[i].id
  {
    var k := FindByUsername(users, username);
    assert k.Some?;
    assert k.value == i;
  }

  /** The user the session names, looked up before every request; a stale
      id gives no user. */
  function LoggedInUser(session: map<string, nat>, users: seq<Auction.Account>): (r: Option<Auction.Account>)
    ensures r.Some? ==> UserIdKey in session && r.value in users && r.value.id == session[UserIdKey]
    ensures r.None? ==> UserIdKey !in session || forall i :: 0 <= i < |users| ==> users[i].id != session[UserIdKey]
  {
    if UserIdKey !in session then None
    else match Auction.FindUser(users, session[UserIdKey])
      case None => None
      case Some(k) => Some(users[k])
  }

  /** Logging in and then loading the session's user gives the user who
      logged in. */
  lemma LoginThenLoad(users: seq<Auction.Account>, username: string, password: string,
                      checkPassword: (string, string) -> bool)
    requires Auction.DistinctIds(users)
    requires Login(users, username, password, checkPassword).LoggedIn?
    ensures var u := LoggedInUser(Login(users, username, password, checkPassword).session, users);
            u.Some? && u.value.username == Some(username)
            && u.value.passwordHash.Some? && checkPassword(u.value.passwordHash.value, password)
  {
    var k := FindByUsername(users, username).value;
    var j := Auction.FindUser(users, users[k].id);
    assert j.Some?;
    assert j.value == k;
  }

  // ----- Guards -----

  /** What a guard does with a request: let the view run, send the user to
      the login page, abort with a status, or raise. */
  datatype Gate = Proceed | ToLogin | Abort(code: nat) | Raise

  /** login_required: no user means a redirect to the login page. */
  function LoginRequired(user: Option<Auction.Account>): (g: Gate)
    ensures g == Proceed <==> user.Some?
    ensures g != Proceed ==> g == ToLogin
  {
    if user.None? then ToLogin else Proceed
  }

  /** admin_required on its own: a non-manager gets 403; with no user at
      all the attribute access raises. */
  function AdminRequired(user: Option<Auction.Account>): (g: Gate)
    ensures g == Proceed <==> user.Some? && user.value.isLeagueManager
    ensures user.Some? && !user.value.isLeagueManager ==> g == Abort(403)
    ensures user.None? ==> g == Raise
  {
    if user.None? then Raise
    else if !user.value.isLeagueManager then Abort(403)
    else Proceed
  }

  /** The views stack login_required outside admin_required. */
  function Guarded(user: Option<Auction.Account>): Gate {
    match LoginRequired(user)
    case Proceed => AdminRequired(user)
    case g => g
  }

  /** With both guards, the admin guard never sees a missing user: an
      anonymous request goes to the login page, a non-manager gets 403, and
      only a league manager reaches the view. */
  lemma GuardedNeverRaises(user: Option<Auction.Account>)
    ensures Guarded(user) != Raise
    ensures Guarded(user) == Proceed <==> user.Some? && user.value.isLeagueManager
    ensures user.None? ==> Guarded(user) == ToLogin
    ensures user.Some? && !user.value.isLeagueManager ==> Guarded(user) == Abort(403)
  {
  }
}
