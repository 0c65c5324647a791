/** The login gate: a session is either anonymous or admin, according to the
    flag `req.session.isAdmin`. A successful login sets the flag, logout
    destroys the session (clearing it), and every other request leaves it as
    it is. The bcrypt comparison is a parameter `passwordMatches`, applied as
    `passwordMatches(password, hash)`. */
module Session {
  import opened Wrappers
  import opened Content

  /** What a request does to the session flag. */
  datatype Event =
    | LoginAttempt(username: Option<string>, password: Option<string>)
    | Logout
    | ContentRequest

  /** The credential check of the login handler: the submitted username equals
      the stored one exactly, a password was sent, and it matches the stored
      hash. */
  predicate Authenticates(admin: Account, passwordMatches: (string, string) -> bool,
                          username: Option<string>, password: Option<string>)
    ensures Authenticates(admin, passwordMatches, username, password) ==>
              username == Some(admin.username) && password.Some?
    ensures username == Some(admin.username) && password.Some? ==>
              (Authenticates(admin, passwordMatches, username, password)
               <==> passwordMatches(password.value, admin.passwordHash))
  {
    username == Some(admin.username) && password.Some?
    && passwordMatches(password.value, admin.passwordHash)
  }

  /** A wrong or missing username never authenticates, whatever the password
      and whatever the hash comparison says. */
  lemma WrongUsernameRejected(admin: Account, passwordMatches: (string, string) -> bool,
                              username: Option<string>, password: Option<string>)
    requires username != Some(admin.username)
    ensures !Authenticates(admin, passwordMatches, username, password)
  {
  }

  /** The flag after one request. Only a login with valid credentials sets
      it, only a logout clears it, and a failed login leaves it unchanged. */
  function Step(admin: Account, passwordMatches: (string, string) -> bool, isAdmin: bool, e: Event): (r: bool)
    ensures r && !isAdmin ==> e.LoginAttempt? && Authenticates(admin, passwordMatches, e.username, e.password)
    ensures e.LoginAttempt? && Authenticates(admin, passwordMatches, e.username, e.password) ==> r
    ensures !r && isAdmin ==> e.Logout?
    ensures e.Logout? ==> !r
  {
    match e
    case LoginAttempt(u, p) => isAdmin || Authenticates(admin, passwordMatches, u, p)
    case Logout => false
    case ContentRequest => isAdmin
  }

  /** The flag after a sequence of requests. */
  function Run(admin: Account, passwordMatches: (string, string) -> bool, isAdmin: bool, events: seq<Event>): (r: bool)
    ensures events == [] ==> r == isAdmin
    ensures events != [] && events[|events| - 1].Logout? ==> !r
    ensures events != [] && SucceedsAt(admin, passwordMatches, events, |events| - 1) ==> r
  {
    if events == [] then isAdmin
    else Step(admin, passwordMatches, Run(admin, passwordMatches, isAdmin, events[..|events| - 1]), events[|events| - 1])
  }

  /** Request `k` is a login with valid credentials. */
  predicate SucceedsAt(admin: Account, passwordMatches: (string, string) -> bool, events: seq<Event>, k: int)
    requires 0 <= k < |events|
  {
    events[k].LoginAttempt?
    && Authenticates(admin, passwordMatches, events[k].username, events[k].password)
  }

  /** No logout after position `k`. */
  predicate NoLogoutAfter(events: seq<Event>, k: int) {
    forall j :: 0 <= j < |events| && k < j ==> !events[j].Logout?
  }

  /** The session is admin after `events` exactly when it started admin and
      was never logged out, or some login succeeded and no logout followed it. */
  predicate AdminAfter(admin: Account, passwordMatches: (string, string) -> bool, isAdmin: bool, events: seq<Event>) {
    (isAdmin && NoLogoutAfter(events, -1))
    || (exists k :: 0 <= k < |events| && SucceedsAt(admin, passwordMatches, events, k) && NoLogoutAfter(events, k))
  }

  /** `Run` computes exactly `AdminAfter`. */
  lemma {:induction false} RunIsAdmin(admin: Account, passwordMatches: (string, string) -> bool, isAdmin: bool, events: seq<Event>)
    ensures Run(admin, passwordMatches, isAdmin, events) <==> AdminAfter(admin, passwordMatches, isAdmin, events)
  {
    if events != [] {
      var n := |events| - 1;
      RunIsAdmin(admin, passwordMatches, isAdmin, events[..n]);
      if events[n].Logout? {
        AdminAfterLogout(admin, passwordMatches, isAdmin, events);
      } else {
        AdminAfterOther(admin, passwordMatches, isAdmin, events);
      }
    }
  }

  /** A logout as the last request leaves nobody admin. */
  lemma AdminAfterLogout(admin: Account, passwordMatches: (string, string) -> bool, isAdmin: bool, events: seq<Event>)
    requires events != [] && events[|events| - 1].Logout?
    ensures !AdminAfter(admin, passwordMatches, isAdmin, events)
  {
    var n := |events| - 1;
    assert !NoLogoutAfter(events, -1);
    forall k | 0 <= k < |events| && SucceedsAt(admin, passwordMatches, events, k)
      ensures !NoLogoutAfter(events, k)
    {
      assert k < n;
    }
  }

  /** Any other last request keeps the earlier reasons to be admin and adds
      one exactly when it is itself a successful login. */
  lemma AdminAfterOther(admin: Account, passwordMatches: (string, string) -> bool, isAdmin: bool, events: seq<Event>)
    requires events != [] && !events[|events| - 1].Logout?
    ensures var n := |events| - 1;
      AdminAfter(admin, passwordMatches, isAdmin, events) <==>
      AdminAfter(admin, passwordMatches, isAdmin, events[..n]) || SucceedsAt(admin, passwordMatches, events, n)
  {
    var n := |events| - 1;
    var init := events[..n];
    assert forall j :: 0 <= j < n ==> init[j] == events[j];
    if AdminAfter(admin, passwordMatches, isAdmin, init) {
      if isAdmin && NoLogoutAfter(init, -1) {
        assert NoLogoutAfter(events, -1);
      } else {
        var k :| 0 <= k < n && SucceedsAt(admin, passwordMatches, init, k) && NoLogoutAfter(init, k);
        assert SucceedsAt(admin, passwordMatches, events, k) && NoLogoutAfter(events, k);
      }
    }
    if AdminAfter(admin, passwordMatches, isAdmin, events) && !SucceedsAt(admin, passwordMatches, events, n) {
      if isAdmin && NoLogoutAfter(events, -1) {
        assert NoLogoutAfter(init, -1);
      } else {
        var k :| 0 <= k < |events| && SucceedsAt(admin, passwordMatches, events, k) && NoLogoutAfter(events, k);
        assert k < n;
        assert SucceedsAt(admin, passwordMatches, init, k) && NoLogoutAfter(init, k);
      }
    }
    if SucceedsAt(admin, passwordMatches, events, n) {
      assert NoLogoutAfter(events, n);
    }
  }

  /** An anonymous session only becomes admin through a login with valid
      credentials: requests that are not logins never grant access. */
  lemma {:induction false} OnlyLoginGrants(admin: Account, passwordMatches: (string, string) -> bool, events: seq<Event>)
    requires Run(admin, passwordMatches, false, events)
    ensures exists k :: 0 <= k < |events| && SucceedsAt(admin, passwordMatches, events, k)
  {
    RunIsAdmin(admin, passwordMatches, false, events);
    assert AdminAfter(admin, passwordMatches, false, events);
  }
}
