/** The login session of `MainDialog` in ui.py: logging in arms an inactivity
    timeout, mouse activity resets it, and logging out (by the button or by
    the timeout firing) disarms and deletes it. The `Timeout` class is not part
    of this model; a timer is represented by its serial number, its duration
    and the number of resets it received, and "armed" means its `function`
    is still set. */
module UiSession {
  import opened Wrappers

  /** `60*15` seconds. */
  const TimeoutSeconds: int := 60 * 15

  /** The logged-in user as far as the dialog reads it. */
  datatype Account = Account(uid: int, name: string, surname: string, email: string)

  datatype Timer = Timer(serial: nat, duration: int, resets: nat)

  /** The texts of `in_name`, `in_surname`, `in_email`, `in_phone`. */
  datatype UserFields = UserFields(name: string, surname: string, email: string, phone: string)

  const Cleared: UserFields := UserFields("", "", "", "")

  datatype State = State(
    user: Option<Account>,     // `logged_in_user`
    timeout: Option<Timer>,    // the `timeout` attribute, `None` when absent
    armed: set<nat>,           // serials of started timers whose `function` is still set
    started: nat,              // number of timers started so far
    fields: UserFields)

  function Start(phone: string): State {
    State(None, None, {}, 0, UserFields("", "", "", phone))
  }

  /** Every armed timer has been started, and the current one is armed. */
  ghost predicate Valid(s: State) {
    && (forall n :: n in s.armed ==> n < s.started)
    && (s.timeout.Some? ==> s.timeout.value.serial in s.armed)
  }

  /** The result of a handler: it returns, or raises AttributeError at a line
      of ui.py after the effects before that line. */
  datatype Handled = Returned(state: State) | Raised(line: nat, state: State)

  /** How the modal `LoginDialog` ended: closed without pressing the login
      button, or with `logged_in_user` set to what `slots.login` returned. */
  datatype DialogResult = Closed | Submitted(login: Option<Account>)

  /** `b_user_login_click`. A submitted result replaces `logged_in_user` even
      when it is `None`. Whenever a user is logged in afterwards, a new timer
      is started, also when the dialog was only closed; a timer started
      earlier is not disarmed. */
  function Login(s: State, d: DialogResult): (r: State)
    ensures d.Submitted? ==> r.user == d.login
    ensures d.Closed? ==> r.user == s.user
    ensures r.user.Some? ==> r.timeout == Some(Timer(s.started, TimeoutSeconds, 0))
    ensures r.user.Some? ==> r.armed == s.armed + {s.started} && r.started == s.started + 1
    ensures r.user.Some? ==> r.fields == UserFields(r.user.value.name, r.user.value.surname, r.user.value.email, s.fields.phone)
    ensures r.user.None? ==> r == s.(user := None)
    ensures Valid(s) ==> Valid(r)
  {
    var user := if d.Submitted? then d.login else s.user;
    match user
    case None => s.(user := None)
    case Some(a) =>
      State(user, Some(Timer(s.started, TimeoutSeconds, 0)), s.armed + {s.started}, s.started + 1,
            UserFields(a.name, a.surname, a.email, s.fields.phone))
  }

  /** `b_user_logout_click(timed_out)`. With `timed_out`, `timed_out()` first
      reads `logged_in_user.uid` and raises when nobody is logged in (line
      278), and otherwise clears the four text fields (lines 282-285). The user
      is then set to `None` before the timeout is touched, so a logout without
      a timeout raises at line 270 with the user already gone. */
  function Logout(s: State, timedOut: bool): (r: Handled)
    ensures timedOut && s.user.None? ==> r == Raised(278, s)
    ensures !(timedOut && s.user.None?) && s.timeout.None? ==>
              r == Raised(270, s.(user := None, fields := if timedOut then Cleared else s.fields))
    ensures r.Returned? <==> (!timedOut || s.user.Some?) && s.timeout.Some?
    ensures r.Returned? ==>
              && r.state.user.None? && r.state.timeout.None?
              && r.state.armed == s.armed - {s.timeout.value.serial}
              && r.state.started == s.started
              && r.state.fields == Cleared
    ensures Valid(s) ==> Valid(r.state)
  {
    if timedOut && s.user.None? then Raised(278, s)
    else
      var s1 := s.(user := None, fields := if timedOut then Cleared else s.fields);
      match s.timeout
      case None => Raised(270, s1)
      case Some(t) => Returned(s1.(timeout := None, armed := s.armed - {t.serial}, fields := Cleared))
  }

  /** `mousePressEvent` and `mouseMoveEvent`: reset the timeout if there is one. */
  function MouseActivity(s: State): (r: State)
    ensures s.timeout.None? ==> r == s
    ensures s.timeout.Some? ==> r.timeout == Some(s.timeout.value.(resets := s.timeout.value.resets + 1))
    ensures r.user == s.user && r.armed == s.armed && r.started == s.started && r.fields == s.fields
    ensures Valid(s) ==> Valid(r)
  {
    match s.timeout
    case None => s
    case Some(t) => s.(timeout := Some(t.(resets := t.resets + 1)))
  }

  datatype Event =
    | LoginAttempt(dialog: DialogResult)
    | LogoutClick                 // the button: `timed_out` is False
    | TimeoutFired                // the timer emits `clicked` with True
    | Mouse

  function Step(s: State, e: Event): Handled {
    match e
    case LoginAttempt(l) => Returned(Login(s, l))
    case LogoutClick => Logout(s, false)
    case TimeoutFired => Logout(s, true)
    case Mouse => Returned(MouseActivity(s))
  }

  /** The state after a sequence of events, or the first exception. */
  function Run(s: State, events: seq<Event>): Handled
    decreases |events|
  {
    if |events| == 0 then Returned(s)
    else
      match Step(s, events[0])
      case Raised(line, s1) => Raised(line, s1)
      case Returned(s1) => Run(s1, events[1..])
  }

  /** Whatever happens, the armed timers are started ones and the current
      timer is armed. */
  lemma {:induction false} RunValid(s: State, events: seq<Event>)
    requires Valid(s)
    ensures Valid(Run(s, events).state)
    decreases |events|
  {
    if |events| > 0 {
      var h := Step(s, events[0]);
      if h.Returned? {
        RunValid(h.state, events[1..]);
      }
    }
  }

  /** The timeout exists only after the login button was used: a session
      that never opens the login dialog never gets one. */
  lemma {:induction false} NoTimerWithoutLogin(s: State, events: seq<Event>)
    requires s.timeout.None?
    requires forall i :: 0 <= i < |events| ==> !events[i].LoginAttempt?
    ensures Run(s, events).state.timeout.None?
    decreases |events|
  {
    if |events| > 0 {
      var h := Step(s, events[0]);
      assert !events[0].LoginAttempt?;
      assert h.state.timeout.None?;
      if h.Returned? {
        forall i | 0 <= i < |events[1..]|
          ensures !events[1..][i].LoginAttempt?
        {
          assert events[1..][i] == events[i + 1];
        }
        NoTimerWithoutLogin(h.state, events[1..]);
      }
    }
  }

  /** Logging in, then logging out by the button, succeeds and disarms the
      timer; a second logout raises at line 270. */
  lemma LoginLogoutLogout(s: State, a: Account)
    requires Valid(s)
    ensures Run(s, [LoginAttempt(Submitted(Some(a))), LogoutClick]).Returned?
    ensures Run(s, [LoginAttempt(Submitted(Some(a))), LogoutClick]).state.armed == s.armed
    ensures Run(s, [LoginAttempt(Submitted(Some(a))), LogoutClick, LogoutClick]) == Raised(270, Run(s, [LoginAttempt(Submitted(Some(a))), LogoutClick]).state)
  {
    var s1 := Login(s, Submitted(Some(a)));
    var h2 := Logout(s1, false);
    assert s.started !in s.armed;
    assert h2.Returned? && h2.state.armed == s.armed;
    assert Run(h2.state, []) == h2;
    assert [LoginAttempt(Submitted(Some(a))), LogoutClick][1..] == [LogoutClick];
    assert Run(s1, [LogoutClick]) == h2;
    assert Run(s, [LoginAttempt(Submitted(Some(a))), LogoutClick]) == h2;
    assert [LoginAttempt(Submitted(Some(a))), LogoutClick, LogoutClick][1..] == [LogoutClick, LogoutClick];
    assert [LogoutClick, LogoutClick][1..] == [LogoutClick];
    assert Run(h2.state, [LogoutClick]) == Raised(270, h2.state);
  }

  /** Logging in twice leaves the first timer armed: only the second one is
      disarmed by the next logout. */
  lemma SecondLoginKeepsFirstTimerArmed(a: Account, b: Account)
    ensures var h := Run(Start(""), [LoginAttempt(Submitted(Some(a))), LoginAttempt(Submitted(Some(b))), LogoutClick]);
            h.Returned? && h.state.armed == {0}
  {
    var events := [LoginAttempt(Submitted(Some(a))), LoginAttempt(Submitted(Some(b))), LogoutClick];
    var s1 := Login(Start(""), Submitted(Some(a)));
    var s2 := Login(s1, Submitted(Some(b)));
    var h := Logout(s2, false);
    assert s2.armed == {0, 1} && s2.timeout.value.serial == 1;
    assert h.Returned? && h.state.armed == {0};
    assert events[1..] == [LoginAttempt(Submitted(Some(b))), LogoutClick];
    assert events[1..][1..] == [LogoutClick];
    assert Run(s2, [LogoutClick]) == h;
  }

  /** Closing the login dialog while logged in starts one more timer. */
  lemma ClosedDialogWhileLoggedIn(s: State)
    requires Valid(s) && s.user.Some? && s.timeout.Some?
    ensures var r := Login(s, Closed);
            && r.user == s.user
            && r.timeout.value.serial != s.timeout.value.serial
            && s.timeout.value.serial in r.armed && r.timeout.value.serial in r.armed
  {
  }

  /** A timeout firing when nobody is logged in raises before anything changes. */
  lemma TimeoutWithoutUserRaises(s: State)
    requires s.user.None?
    ensures Logout(s, true) == Raised(278, s)
  {
  }
}
