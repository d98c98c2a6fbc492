/** What the reset flow promises across calls: the life of one code from the
    mail to its expiry, what an expired or duplicated code does to later
    checks, and that changing the password never looks at the codes. */
module PasswordResetProperties {
  import opened Common
  import opened PasswordReset

  // ---------------------------------------------------------------------------
  // How the record filters behave on an appended record

  lemma {:induction false} MatchingAppend(a: seq<ForgotPassword>, x: ForgotPassword, otp: int, userId: int)
    ensures Matching(a + [x], otp, userId) ==
            Matching(a, otp, userId) + (if x.otp == otp && x.userId == userId then [x] else [])
  {
    if |a| > 0 {
      assert (a + [x])[1..] == a[1..] + [x];
      MatchingAppend(a[1..], x, otp, userId);
    }
  }

  lemma {:induction false} WithoutFpidAppend(a: seq<ForgotPassword>, x: ForgotPassword, fpid: int)
    ensures WithoutFpid(a + [x], fpid) == WithoutFpid(a, fpid) + (if x.fpid == fpid then [] else [x])
  {
    if |a| > 0 {
      assert (a + [x])[1..] == a[1..] + [x];
      WithoutFpidAppend(a[1..], x, fpid);
    }
  }

  lemma {:induction false} NoMatch(records: seq<ForgotPassword>, otp: int, userId: int)
    requires forall i :: 0 <= i < |records| ==> !(records[i].otp == otp && records[i].userId == userId)
    ensures Matching(records, otp, userId) == []
  {
    if |records| > 0 {
      NoMatch(records[1..], otp, userId);
    }
  }

  /** Deleting a key no record has changes nothing. */
  lemma {:induction false} WithoutAbsentFpid(records: seq<ForgotPassword>, fpid: int)
    requires forall i :: 0 <= i < |records| ==> records[i].fpid != fpid
    ensures WithoutFpid(records, fpid) == records
  {
    if |records| > 0 {
      WithoutAbsentFpid(records[1..], fpid);
    }
  }

  /** Deleting by key keeps the remaining keys distinct and below the next key. */
  lemma {:induction false} WithoutFpidKeepsKeys(records: seq<ForgotPassword>, fpid: int, nextFpid: int)
    requires FpidsBelow(records, nextFpid) && FpidsDistinct(records)
    ensures FpidsBelow(WithoutFpid(records, fpid), nextFpid)
    ensures FpidsDistinct(WithoutFpid(records, fpid))
  {
    if |records| > 0 {
      var tail := records[1..];
      WithoutFpidKeepsKeys(tail, fpid, nextFpid);
      var rest := WithoutFpid(tail, fpid);
      forall i | 0 <= i < |rest| ensures rest[i].fpid != records[0].fpid {
        assert rest[i] in tail;
      }
      forall i | 0 <= i < |rest| ensures rest[i].fpid < nextFpid {
        assert rest[i] in tail;
      }
      var r := WithoutFpid(records, fpid);
      if records[0].fpid != fpid {
        assert r == [records[0]] + rest;
        forall i, j | 0 <= i < j < |r| ensures r[i].fpid != r[j].fpid {
          assert r[j] == rest[j - 1];
          if i > 0 {
            assert r[i] == rest[i - 1];
            assert rest[i - 1].fpid != rest[j - 1].fpid;
          } else {
            assert r[i] == records[0];
            assert rest[j - 1].fpid != records[0].fpid;
          }
        }
      }
    }
  }

  // ---------------------------------------------------------------------------
  // verifyMail

  /** An unknown address is refused and nothing is recorded or sent. A known
      one gets exactly one new record, after all earlier ones, with the code,
      the user and an expiry 70 000 ms after `now`, and exactly one mail to
      that address whose text ends with the code. */
  lemma VerifyMailOutcome(st: LedgerState, email: string, otp: int, now: int)
    ensures var (r, st') := VerifyMailStep(st, email, otp, now);
            && (r.Failure? <==> email !in st.users)
            && (r.Failure? ==> r.error == UsernameNotFound(UnknownEmailMessage) && st' == st)
            && (r.Success? ==>
                  var n := |st.records|;
                  var sent := |st.outbox|;
                  && r.value == Response(Ok, MailSentMessage)
                  && st'.users == st.users
                  && |st'.records| == n + 1
                  && st'.records[..n] == st.records
                  && st'.records[n] == ForgotPassword(st.nextFpid, otp, now + OtpLifetime, st.users[email].userId)
                  && |st'.outbox| == sent + 1
                  && st'.outbox[..sent] == st.outbox
                  && st'.outbox[sent].to == email
                  && st'.outbox[sent].subject == OtpMailSubject
                  && st'.outbox[sent].text == OtpMailText(otp))
  {
    var (r, st') := VerifyMailStep(st, email, otp, now);
    if r.Success? {
      assert st'.records[..|st.records|] == st.records;
      assert st'.outbox[..|st.outbox|] == st.outbox;
    }
  }

  /** The code can be read back off the end of the mail. */
  lemma OtpMailCarriesOtp(otp: int)
    requires OtpLow <= otp < OtpHigh
    ensures var digits := OtpMailText(otp)[|OtpMailPrefix|..];
            AllDigits(digits) && |digits| == 6 && ParseNat(digits) == otp
  {
    var digits := OtpMailText(otp)[|OtpMailPrefix|..];
    IntToStringRoundTrip(otp);
    assert digits == NatToString(otp);
    SixDigits(otp);
  }

  lemma SixDigits(n: nat)
    requires 100000 <= n < 1000000
    ensures |NatToString(n)| == 6
  {
    assert NatToString(n) == NatToString(n / 10) + [DigitChar(n % 10)];
    assert NatToString(n / 10) == NatToString(n / 100) + [DigitChar(n / 10 % 10)];
    assert NatToString(n / 100) == NatToString(n / 1000) + [DigitChar(n / 100 % 10)];
    assert NatToString(n / 1000) == NatToString(n / 10000) + [DigitChar(n / 1000 % 10)];
    assert NatToString(n / 10000) == NatToString(n / 100000) + [DigitChar(n / 10000 % 10)];
  }

  lemma VerifyMailKeepsInvariant(st: LedgerState, email: string, otp: int, now: int)
    requires LedgerInvariant(st)
    ensures LedgerInvariant(VerifyMailStep(st, email, otp, now).1)
  {
  }

  // ---------------------------------------------------------------------------
  // verifyOtp

  /** An unknown address or a code with no record fails and changes nothing;
      two records with the same code for the user fail too. An expired record
      is the only thing removed; a live one leaves the ledger as it was. */
  lemma VerifyOtpOutcome(st: LedgerState, otp: int, email: string, now: int)
    ensures var (r, st') := VerifyOtpStep(st, otp, email, now);
            && st'.users == st.users && st'.outbox == st.outbox && st'.nextFpid == st.nextFpid
            && (email !in st.users ==> r == Failure(UsernameNotFound(UnknownEmailMessage)) && st' == st)
            && (email in st.users ==>
                  var m := Matching(st.records, otp, st.users[email].userId);
                  && (|m| == 0 ==> r == Failure(InvalidOtp(InvalidOtpMessage)) && st' == st)
                  && (|m| > 1 ==> r == Failure(IncorrectResultSize) && st' == st)
                  && (|m| == 1 && m[0].expirationTime < now ==>
                        && r == Success(Response(ExpectationFailed, OtpExpiredMessage))
                        && (forall fp :: fp in st'.records <==> fp in st.records && fp.fpid != m[0].fpid))
                  && (|m| == 1 && now <= m[0].expirationTime ==>
                        r == Success(Response(Ok, OtpValidMessage)) && st' == st))
  {
  }

  lemma VerifyOtpKeepsInvariant(st: LedgerState, otp: int, email: string, now: int)
    requires LedgerInvariant(st)
    ensures LedgerInvariant(VerifyOtpStep(st, otp, email, now).1)
  {
    var st' := VerifyOtpStep(st, otp, email, now).1;
    if email in st.users {
      var m := Matching(st.records, otp, st.users[email].userId);
      if |m| == 1 {
        WithoutFpidKeepsKeys(st.records, m[0].fpid, st.nextFpid);
      }
    }
  }

  /** A successful check changes nothing, so a code that verified keeps
      verifying at every later time up to and including its expiry. */
  lemma LiveOtpVerifiesAgain(st: LedgerState, otp: int, email: string, now: int, later: int)
    requires VerifyOtpStep(st, otp, email, now).0 == Success(Response(Ok, OtpValidMessage))
    requires now <= later <= Matching(st.records, otp, st.users[email].userId)[0].expirationTime
    ensures VerifyOtpStep(st, otp, email, now).1 == st
    ensures VerifyOtpStep(st, otp, email, later) == (Success(Response(Ok, OtpValidMessage)), st)
  {
  }

  /** Once a check has reported a code expired, the code is gone: every later
      check of it is refused as invalid. */
  lemma ExpiredOtpThenInvalid(st: LedgerState, otp: int, email: string, now: int, later: int)
    requires VerifyOtpStep(st, otp, email, now).0 == Success(Response(ExpectationFailed, OtpExpiredMessage))
    ensures var st' := VerifyOtpStep(st, otp, email, now).1;
            VerifyOtpStep(st', otp, email, later) == (Failure(InvalidOtp(InvalidOtpMessage)), st')
  {
    var uid := st.users[email].userId;
    var m := Matching(st.records, otp, uid);
    var st' := VerifyOtpStep(st, otp, email, now).1;
    var m' := Matching(st'.records, otp, uid);
    var expired := m[0].fpid;
    assert m == [m[0]];
    forall i | 0 <= i < |st'.records|
      ensures !(st'.records[i].otp == otp && st'.records[i].userId == uid)
    {
      var fp := st'.records[i];
      assert fp in st.records && fp.fpid != expired;
      assert fp.otp == otp && fp.userId == uid ==> fp in m;
    }
    NoMatch(st'.records, otp, uid);
  }

  /** The life of one code: mailed at `t` to a user with no record of that
      code, it verifies and stays until `t + 70000` inclusive; checked after
      that, it is reported expired and the records are back to what they were
      before the mail. */
  lemma OtpLifecycle(st: LedgerState, email: string, otp: int, t: int, later: int)
    requires LedgerInvariant(st)
    requires email in st.users
    requires Matching(st.records, otp, st.users[email].userId) == []
    ensures var st1 := VerifyMailStep(st, email, otp, t).1;
            var (r, st2) := VerifyOtpStep(st1, otp, email, later);
            && (later <= t + OtpLifetime ==> r == Success(Response(Ok, OtpValidMessage)) && st2 == st1)
            && (later > t + OtpLifetime ==>
                  r == Success(Response(ExpectationFailed, OtpExpiredMessage)) && st2.records == st.records)
  {
    var uid := st.users[email].userId;
    var fp := ForgotPassword(st.nextFpid, otp, t + OtpLifetime, uid);
    MatchingAppend(st.records, fp, otp, uid);
    WithoutFpidAppend(st.records, fp, st.nextFpid);
    WithoutAbsentFpid(st.records, st.nextFpid);
  }

  /** Two mails that happen to draw the same code for the same user leave two
      matching records, and from then on every check of that code fails: the
      single-result lookup finds both, and nothing ever deletes either. */
  lemma DuplicateOtpBlocksVerification(st: LedgerState, email: string, otp: int, t1: int, t2: int, now: int)
    requires email in st.users
    requires Matching(st.records, otp, st.users[email].userId) == []
    ensures var st1 := VerifyMailStep(st, email, otp, t1).1;
            var st2 := VerifyMailStep(st1, email, otp, t2).1;
            VerifyOtpStep(st2, otp, email, now) == (Failure(IncorrectResultSize), st2)
  {
    var uid := st.users[email].userId;
    var st1 := VerifyMailStep(st, email, otp, t1).1;
    MatchingAppend(st.records, ForgotPassword(st.nextFpid, otp, t1 + OtpLifetime, uid), otp, uid);
    MatchingAppend(st1.records, ForgotPassword(st1.nextFpid, otp, t2 + OtpLifetime, uid), otp, uid);
  }

  // ---------------------------------------------------------------------------
  // changePasswordHandler

  /** Different passwords answer 417 and change nothing. Equal ones answer 200
      and store the encoded password for that address only, also when no user
      has it (then nothing changes). The codes and the mails are never touched. */
  lemma ChangePasswordOutcome(st: LedgerState, email: string, cp: ChangePassword, encode: string -> string)
    ensures var (r, st') := ChangePasswordStep(st, email, cp, encode);
            && st'.records == st.records && st'.nextFpid == st.nextFpid && st'.outbox == st.outbox
            && (cp.password != cp.repeatedPassword ==>
                  r == Response(ExpectationFailed, PasswordMismatchMessage) && st' == st)
            && (cp.password == cp.repeatedPassword ==>
                  && r == Response(Ok, PasswordChangedMessage)
                  && st'.users.Keys == st.users.Keys
                  && (email in st.users ==> st'.users[email] == st.users[email].(password := encode(cp.password)))
                  && (forall e :: e in st.users && e != email ==> st'.users[e] == st.users[e]))
  {
  }

  /** The answer and the new user table depend only on the user table: no
      code has to be verified, or even exist, for the password to change. */
  lemma ChangePasswordIgnoresLedger(st1: LedgerState, st2: LedgerState, email: string, cp: ChangePassword, encode: string -> string)
    requires st1.users == st2.users
    ensures ChangePasswordStep(st1, email, cp, encode).0 == ChangePasswordStep(st2, email, cp, encode).0
    ensures ChangePasswordStep(st1, email, cp, encode).1.users == ChangePasswordStep(st2, email, cp, encode).1.users
  {
  }

  lemma ChangePasswordKeepsInvariant(st: LedgerState, email: string, cp: ChangePassword, encode: string -> string)
    requires LedgerInvariant(st)
    ensures LedgerInvariant(ChangePasswordStep(st, email, cp, encode).1)
  {
  }
}
