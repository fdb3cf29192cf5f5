/** Email verification by one-time password: a six-digit code is issued to a user, kept both
    on the user record (`email_otp`) and in the in-memory store `EMAIL_OTP_STORE` with the time
    it was sent, and accepted for one minute. */
module EmailOtp {
  import opened Wrappers

  /** `timedelta(minutes=1)` in microseconds, the resolution of `datetime`. */
  const OtpLifetime: int := 60_000_000

  /** The columns of a user record that verification reads and writes. */
  datatype Account = Account(email: Option<string>, emailOtp: Option<string>, verified: bool)

  /** An entry of `EMAIL_OTP_STORE`: the code and its `sent_at` time, in microseconds. */
  datatype OtpEntry = OtpEntry(otp: string, sentAt: Option<int>)

  /** The user table (by username) together with the in-memory OTP store. */
  datatype OtpState = OtpState(users: map<string, Account>, store: map<string, OtpEntry>)

  /** Which page a verification attempt renders. */
  datatype VerifyOutcome = UserNotFound | AlreadyVerified | Expired | InvalidOtp | Verified

  /** What a send-OTP request reports. */
  datatype SendOutcome = EmailNotFound | Sent(username: string) | SendFailed(username: string)

  function DigitChar(d: nat): char
    requires d < 10
  {
    "0123456789"[d]
  }

  function DigitValue(c: char): nat
  {
    if '0' <= c <= '9' then (c - '0') as nat else 0
  }

  /** `str(n)` for a natural number. */
  function NatToString(n: nat): (s: string)
    ensures s != []
    ensures forall i :: 0 <= i < |s| ==> '0' <= s[i] <= '9'
  {
    if n < 10 then [DigitChar(n)] else NatToString(n / 10) + [DigitChar(n % 10)]
  }

  /** The value of a string of decimal digits. */
  function ParseDigits(s: string): nat
  {
    if s == [] then 0 else 10 * ParseDigits(s[..|s| - 1]) + DigitValue(s[|s| - 1])
  }

  /** Reading a code back gives the number it was printed from. */
  lemma {:induction false} ParseNatToString(n: nat)
    ensures ParseDigits(NatToString(n)) == n
  {
    var s := NatToString(n);
    if n >= 10 {
      ParseNatToString(n / 10);
      assert s[..|s| - 1] == NatToString(n / 10);
    }
  }

  lemma {:induction false} NatToStringLength(n: nat, k: nat)
    requires n < Pow10(k + 1)
    requires k == 0 || Pow10(k) <= n
    ensures |NatToString(n)| == k + 1
  {
    if k > 0 {
      NatToStringLength(n / 10, k - 1);
    }
  }

  /** `10^k`, positive. */
  function Pow10(k: nat): (p: nat)
    ensures p >= 1
  {
    if k == 0 then 1 else 10 * Pow10(k - 1)
  }

  /** `str(random.randint(100000, 999999))`: the code is six decimal digits, and distinct
      draws give distinct codes. */
  lemma CodeShape(code: nat, other: nat)
    requires 100000 <= code <= 999999
    ensures |NatToString(code)| == 6
    ensures NatToString(code) == NatToString(other) ==> code == other
  {
    NatToStringLength(code, 5);
    ParseNatToString(code);
    ParseNatToString(other);
  }

  /** Python truthiness of an optional string. */
  predicate Falsy(o: Option<string>)
  {
    o.None? || o.value == ""
  }

  /** The store entry is still valid at `now`: it has a send time no more than a minute ago. */
  predicate Fresh(e: OtpEntry, now: int)
  {
    e.sentAt.Some? && now - e.sentAt.value <= OtpLifetime
  }

  /** The outcome of verifying `otp` for `username` at time `now`: the store entry, when
      there is one, decides expiry and the code; otherwise the code on the user record. */
  function CheckOtp(s: OtpState, username: string, otp: Option<string>, now: int): (r: VerifyOutcome)
    ensures r == UserNotFound <==> username !in s.users
    ensures r == AlreadyVerified <==> username in s.users && s.users[username].verified
    ensures r == Expired <==>
      username in s.users && !s.users[username].verified && username in s.store && !Fresh(s.store[username], now)
    ensures r == Verified ==> otp.Some? && !s.users[username].verified
    ensures r == Verified <==>
      && username in s.users && !s.users[username].verified
      && (if username in s.store then Fresh(s.store[username], now) && otp == Some(s.store[username].otp)
          else !Falsy(s.users[username].emailOtp) && otp == s.users[username].emailOtp)
  {
    if username !in s.users then UserNotFound
    else
      var acct := s.users[username];
      if acct.verified then AlreadyVerified
      else if username in s.store then
        var e := s.store[username];
        if e.sentAt.None? || now - e.sentAt.value > OtpLifetime then Expired
        else if Some(e.otp) != otp then InvalidOtp
        else Verified
      else if Falsy(acct.emailOtp) || acct.emailOtp != otp then InvalidOtp
      else Verified
  }

  /** The state after issuing `code` to `username` at `now`. */
  function AfterIssue(s: OtpState, username: string, code: nat, now: int): (t: OtpState)
    requires username in s.users
    ensures t.users.Keys == s.users.Keys && t.store.Keys == s.store.Keys + {username}
    ensures t.users[username].emailOtp == Some(NatToString(code)) && t.users[username].verified == s.users[username].verified
    ensures t.store[username] == OtpEntry(NatToString(code), Some(now))
    ensures forall u :: u in s.users && u != username ==> t.users[u] == s.users[u]
    ensures forall u :: u in s.store && u != username ==> t.store[u] == s.store[u]
  {
    var code := NatToString(code);
    OtpState(s.users[username := s.users[username].(emailOtp := Some(code))],
             s.store[username := OtpEntry(code, Some(now))])
  }

  /** The state after a successful verification of `username`. */
  function AfterVerify(s: OtpState, username: string): (t: OtpState)
    requires username in s.users
    ensures t.users.Keys == s.users.Keys && username !in t.store && t.store.Keys == s.store.Keys - {username}
    ensures t.users[username].verified && t.users[username].emailOtp.None?
    ensures t.users[username].email == s.users[username].email
    ensures forall u :: u in s.users && u != username ==> t.users[u] == s.users[u]
    ensures forall u :: u in t.store ==> t.store[u] == s.store[u]
  {
    OtpState(s.users[username := s.users[username].(verified := true, emailOtp := None)],
             s.store - {username})
  }

  /** The code just issued verifies the user at any time up to a minute later. */
  lemma IssueThenVerify(s: OtpState, username: string, code: nat, sent: int, now: int)
    requires username in s.users && !s.users[username].verified
    requires sent <= now <= sent + OtpLifetime
    ensures CheckOtp(AfterIssue(s, username, code, sent), username, Some(NatToString(code)), now) == Verified
  {
  }

  /** Any other answer within the minute is rejected as invalid, and after the minute every
      answer is rejected as expired. */
  lemma IssuedCodeOnly(s: OtpState, username: string, code: nat, sent: int, now: int, otp: Option<string>)
    requires username in s.users && !s.users[username].verified
    ensures var t := AfterIssue(s, username, code, sent);
      && (now - sent <= OtpLifetime && otp != Some(NatToString(code)) ==> CheckOtp(t, username, otp, now) == InvalidOtp)
      && (now - sent > OtpLifetime ==> CheckOtp(t, username, otp, now) == Expired)
  {
  }

  /** Once verified, a user is never verified again: every later attempt reports that the
      email is already verified. */
  lemma VerifyIsFinal(s: OtpState, username: string, otp: Option<string>, now: int)
    requires username in s.users
    ensures CheckOtp(AfterVerify(s, username), username, otp, now) == AlreadyVerified
  {
  }

  /** A user with an email whose lookup `User.query.filter_by(email=email).first()` finds. */
  ghost predicate HasEmail(users: map<string, Account>, email: string)
  {
    exists u :: u in users && users[u].email == Some(email)
  }

  /** `EMAIL_OTP_STORE` together with the user table it shadows. */
  class OtpService {
    var users: map<string, Account>
    var store: map<string, OtpEntry>

    function State(): OtpState
      reads this
    {
      OtpState(users, store)
    }

    /** A service that has issued nothing yet. */
    constructor (accounts: map<string, Account>)
      ensures State() == OtpState(accounts, map[])
    {
      users := accounts;
      store := map[];
    }

    /** Issuing a code (at registration and on request): the code goes on the user record
        and into the store with its send time. */
    method Issue(username: string, code: nat, now: int)
      requires username in users
      requires 100000 <= code <= 999999
      modifies this
      ensures State() == AfterIssue(old(State()), username, code, now)
    {
      var otp := NatToString(code);
      users := users[username := users[username].(emailOtp := Some(otp))];
      store := store[username := OtpEntry(otp, Some(now))];
    }

    /** The send-OTP branch of `/verify_email`: an unknown email changes nothing; otherwise
        the code is issued to the user with that email, and whether the mail went out only
        decides the message. */
    method SendOtp(email: string, code: nat, now: int, mailSent: bool) returns (r: SendOutcome)
      requires 100000 <= code <= 999999
      modifies this
      ensures r == EmailNotFound <==> !HasEmail(old(users), email)
      ensures r == EmailNotFound ==> State() == old(State())
      ensures !r.EmailNotFound? ==>
        && r.username in old(users) && old(users)[r.username].email == Some(email)
        && State() == AfterIssue(old(State()), r.username, code, now)
        && (r.Sent? <==> mailSent)
    {
      if !exists u :: u in users && users[u].email == Some(email) {
        return EmailNotFound;
      }
      var u :| u in users && users[u].email == Some(email);
      Issue(u, code, now);
      r := if mailSent then Sent(u) else SendFailed(u);
    }

    /** Both verification routes: on success the user is marked verified, the code is
        cleared from the record and the store entry is deleted; otherwise nothing changes. */
    method Verify(username: string, otp: Option<string>, now: int) returns (r: VerifyOutcome)
      modifies this
      ensures r == CheckOtp(old(State()), username, otp, now)
      ensures State() == if r == Verified then AfterVerify(old(State()), username) else old(State())
    {
      if username !in users {
        return UserNotFound;
      }
      var acct := users[username];
      if acct.verified {
        return AlreadyVerified;
      }
      if username in store {
        var e := store[username];
        if e.sentAt.None? || now - e.sentAt.value > OtpLifetime {
          return Expired;
        }
        if Some(e.otp) != otp {
          return InvalidOtp;
        }
      } else if Falsy(acct.emailOtp) || acct.emailOtp != otp {
        return InvalidOtp;
      }
      users := users[username := acct.(verified := true, emailOtp := None)];
      if username in store {
        store := store - {username};
      }
      r := Verified;
    }
  }
}
