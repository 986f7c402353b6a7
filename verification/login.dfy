/** The login screen's credential check. The entered email is trimmed, the
    password is taken as typed, and both are compared against one fixed
    pair. A failed attempt leaves nothing behind: no counter, no lockout. */
module Login {
  import opened JavaText

  const AdminEmail: string := "admin@mess.com.mx"
  const AdminPassword: string := "1234"

  datatype Credentials = Credentials(email: string, password: string)

  /** LoggedIn: the screen opens the main shell and finishes itself. */
  datatype LoginOutcome = LoggedIn | BadCredentials

  /** One press of the login button. */
  function AttemptLogin(c: Credentials): (r: LoginOutcome)
    // A wrong password is refused whatever the email.
    ensures c.password != AdminPassword ==> r == BadCredentials
    // An accepted email holds the fixed one, so it is at least as long.
    ensures r == LoggedIn ==> |c.email| >= |AdminEmail| && c.password == AdminPassword
  {
    if Trim(c.email) == AdminEmail && c.password == AdminPassword then LoggedIn else BadCredentials
  }

  /** Every login the check accepts has exactly the fixed email surrounded by
      nothing but spaces, and exactly the fixed password. */
  lemma AcceptedShape(c: Credentials) returns (lead: string, tail: string)
    requires AttemptLogin(c) == LoggedIn
    ensures c.email == lead + AdminEmail + tail
    ensures AllSpace(lead) && AllSpace(tail)
    ensures c.password == AdminPassword
  {
    lead, tail := TrimDecomposes(c.email);
  }

  /** And conversely: every such pair is accepted, whatever the spaces around
      the email. */
  lemma PaddedEmailAccepted(lead: string, tail: string)
    requires AllSpace(lead) && AllSpace(tail)
    ensures AttemptLogin(Credentials(lead + AdminEmail + tail, AdminPassword)) == LoggedIn
  {
    TrimUnique(lead, AdminEmail, tail);
  }

  /** Spaces around the email never change the outcome, whether the rest of
      the attempt is right or wrong. */
  lemma EmailPaddingIrrelevant(lead: string, email: string, tail: string, password: string)
    requires AllSpace(lead) && AllSpace(tail)
    ensures AttemptLogin(Credentials(lead + email + tail, password)) == AttemptLogin(Credentials(email, password))
  {
    TrimIgnoresPadding(lead, email, tail);
  }

  /** The password is not trimmed: the fixed password with any space added
      before or after it is refused. */
  lemma PaddedPasswordRefused(email: string, lead: string, tail: string)
    requires AllSpace(lead) && AllSpace(tail)
    requires lead != [] || tail != []
    ensures AttemptLogin(Credentials(email, lead + AdminPassword + tail)) == BadCredentials
  {
    assert |lead + AdminPassword + tail| > |AdminPassword|;
  }

  /** The answers the screen shows for a run of judged attempts: every answer
      up to and including the first success, after which the screen is gone. */
  function UntilLoggedIn(judged: seq<LoginOutcome>): (shown: seq<LoginOutcome>)
    ensures |shown| <= |judged| && shown == judged[..|shown|]
    ensures forall i :: 0 <= i < |shown| - 1 ==> shown[i] == BadCredentials
    ensures |shown| < |judged| ==> shown != [] && shown[|shown| - 1] == LoggedIn
    ensures judged != [] ==> shown != []
  {
    if judged == [] then []
    else if judged[0] == LoggedIn then [LoggedIn]
    else
      var rest := UntilLoggedIn(judged[1..]);
      var shown := [BadCredentials] + rest;
      assert shown == judged[..|shown|] by {
        assert judged[0] == BadCredentials;
        assert rest == judged[1..][..|rest|];
        assert judged[..1 + |rest|] == [judged[0]] + judged[1..][..|rest|];
      }
      assert forall i :: 1 <= i < |shown| ==> shown[i] == rest[i - 1];
      shown
  }

  /** The login screen over a run of button presses: each attempt is judged
      on its own, with no memory of earlier ones, until the first success. */
  function LoginRun(attempts: seq<Credentials>): (outcomes: seq<LoginOutcome>)
    ensures |outcomes| <= |attempts|
    ensures forall i :: 0 <= i < |outcomes| ==> outcomes[i] == AttemptLogin(attempts[i])
    ensures forall i :: 0 <= i < |outcomes| - 1 ==> outcomes[i] == BadCredentials
    ensures |outcomes| < |attempts| ==> outcomes != [] && outcomes[|outcomes| - 1] == LoggedIn
    ensures attempts != [] ==> outcomes != []
  {
    var judged := JudgeEach(attempts);
    var shown := UntilLoggedIn(judged);
    assert forall i :: 0 <= i < |shown| ==> shown[i] == judged[i];
    shown
  }

  /** Each attempt judged on its own. */
  function JudgeEach(attempts: seq<Credentials>): (judged: seq<LoginOutcome>)
    ensures |judged| == |attempts|
    ensures forall i :: 0 <= i < |attempts| ==> judged[i] == AttemptLogin(attempts[i])
  {
    seq(|attempts|, i requires 0 <= i < |attempts| => AttemptLogin(attempts[i]))
  }

  /** No lockout: however many failed attempts come first, the right
      credentials still log in, on the attempt that carries them. */
  lemma {:induction false} NoLockout(failed: seq<Credentials>, good: Credentials)
    requires forall i :: 0 <= i < |failed| ==> AttemptLogin(failed[i]) == BadCredentials
    requires AttemptLogin(good) == LoggedIn
    ensures LoginRun(failed + [good]) == seq(|failed|, _ => BadCredentials) + [LoggedIn]
  {
    var run := LoginRun(failed + [good]);
    var expected := seq(|failed|, _ => BadCredentials) + [LoggedIn];
    assert forall k :: 0 <= k < |failed| ==> (failed + [good])[k] == failed[k];
    assert |run| == |failed| + 1;
    assert (failed + [good])[|failed|] == good;
    assert forall i :: 0 <= i < |run| ==> run[i] == expected[i];
  }
}
