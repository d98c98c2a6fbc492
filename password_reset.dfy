/** `ForgotPasswordController`: one-time codes for resetting a password. A code
    is mailed to a registered address and recorded with an expiry 70 seconds
    ahead; checking it either confirms it (and leaves it in place) or, once it
    has expired, deletes it. Changing the password needs only the two typed
    passwords to agree. The clock is the `now` parameter (milliseconds since
    the epoch), the random code is any value in its range, and the password
    encoder is a function supplied when the controller is built. */
module PasswordReset {
  import opened Common

  /** The smallest code and the bound the generator stays below (`nextInt(100_000, 999_999)`). */
  const OtpLow: int := 100000
  const OtpHigh: int := 999999

  /** How long a code stays valid: `70 * 1000` milliseconds. */
  const OtpLifetime: int := 70 * 1000

  const UnknownEmailMessage: string := "Không tìm thấy email hợp lệ"
  const InvalidOtpMessage: string := "OTP không hợp lệ "
  const MailSentMessage: string := "Đã gửi mã xác minh"
  const OtpExpiredMessage: string := "OTP đã hết "
  const OtpValidMessage: string := "OTP hợp lệ"
  const PasswordMismatchMessage: string := "Hãy nhập lại mật khẩu cho trùng khớp"
  const PasswordChangedMessage: string := "Đặt lại mật khẩu thành công"
  const OtpMailPrefix: string := "Đây là OTP cho yêu cầu xác thực lại mật khẩu của bạn: "
  const OtpMailSubject: string := "OTP for Forgot Password request"

  /** A registered user: the parts the reset flow reads or writes. */
  datatype User = User(userId: int, email: string, password: string)

  /** A recorded code: its key, the code, when it expires, and whose it is. */
  datatype ForgotPassword = ForgotPassword(fpid: int, otp: int, expirationTime: int, userId: int)

  datatype MailBody = MailBody(to: string, text: string, subject: string)

  /** The request body of `changePasswordHandler`. */
  datatype ChangePassword = ChangePassword(password: string, repeatedPassword: string)

  /** Users by email, the recorded codes in insertion order with the next key
      the store hands out, and the mails sent so far. */
  datatype LedgerState = LedgerState(
    users: map<string, User>,
    records: seq<ForgotPassword>,
    nextFpid: int,
    outbox: seq<MailBody>)

  /** Users are filed under their own address; record keys are distinct and
      below the next key. */
  ghost predicate LedgerInvariant(st: LedgerState) {
    && (forall e :: e in st.users ==> st.users[e].email == e)
    && FpidsBelow(st.records, st.nextFpid)
    && FpidsDistinct(st.records)
  }

  ghost predicate FpidsBelow(records: seq<ForgotPassword>, nextFpid: int) {
    forall i :: 0 <= i < |records| ==> records[i].fpid < nextFpid
  }

  ghost predicate FpidsDistinct(records: seq<ForgotPassword>) {
    forall i, j :: 0 <= i < j < |records| ==> records[i].fpid != records[j].fpid
  }

  /** The text of the mail: the fixed sentence followed by the code. */
  function OtpMailText(otp: int): (text: string)
    ensures |text| > |OtpMailPrefix|
    ensures text[..|OtpMailPrefix|] == OtpMailPrefix
    ensures text[|OtpMailPrefix|..] == IntToString(otp)
  {
    OtpMailPrefix + IntToString(otp)
  }

  /** `findByOtpAndUser`: the records carrying this code for this user, in order. */
  function Matching(records: seq<ForgotPassword>, otp: int, userId: int): (m: seq<ForgotPassword>)
    ensures |m| <= |records|
    ensures forall fp :: fp in m <==> fp in records && fp.otp == otp && fp.userId == userId
  {
    if |records| == 0 then []
    else
      var rest := Matching(records[1..], otp, userId);
      if records[0].otp == otp && records[0].userId == userId then [records[0]] + rest else rest
  }

  /** `deleteById`: every record except the ones with this key, in order. */
  function WithoutFpid(records: seq<ForgotPassword>, fpid: int): (r: seq<ForgotPassword>)
    ensures |r| <= |records|
    ensures forall fp :: fp in r <==> fp in records && fp.fpid != fpid
  {
    if |records| == 0 then []
    else
      var rest := WithoutFpid(records[1..], fpid);
      if records[0].fpid == fpid then rest else [records[0]] + rest
  }

  /** `userRepository.updatePassword(email, hash)`: sets the hash of the user
      with that address; no user has it, no row changes. */
  function WithPassword(users: map<string, User>, email: string, hash: string): map<string, User> {
    if email in users then users[email := users[email].(password := hash)] else users
  }

  /** `verifyMail` with the generated code `otp` and the clock at `now`: look
      the user up, mail the code, then record it. */
  function VerifyMailStep(st: LedgerState, email: string, otp: int, now: int)
    : (Result<Response<string>, Error>, LedgerState)
  {
    if email !in st.users then (Failure(UsernameNotFound(UnknownEmailMessage)), st)
    else
      var mail := MailBody(email, OtpMailText(otp), OtpMailSubject);
      var fp := ForgotPassword(st.nextFpid, otp, now + OtpLifetime, st.users[email].userId);
      (Success(Response(Ok, MailSentMessage)),
       st.(records := st.records + [fp], nextFpid := st.nextFpid + 1, outbox := st.outbox + [mail]))
  }

  /** `verifyOtp` with the clock at `now`: an expired code (expiry strictly
      before now) is deleted and reported with 417; a live one is confirmed
      and left in place. */
  function VerifyOtpStep(st: LedgerState, otp: int, email: string, now: int)
    : (Result<Response<string>, Error>, LedgerState)
  {
    if email !in st.users then (Failure(UsernameNotFound(UnknownEmailMessage)), st)
    else
      var m := Matching(st.records, otp, st.users[email].userId);
      if |m| == 0 then (Failure(InvalidOtp(InvalidOtpMessage)), st)
      else if |m| > 1 then (Failure(IncorrectResultSize), st)
      else if m[0].expirationTime < now then
        (Success(Response(ExpectationFailed, OtpExpiredMessage)), st.(records := WithoutFpid(st.records, m[0].fpid)))
      else (Success(Response(Ok, OtpValidMessage)), st)
  }

  /** `changePasswordHandler`: the two passwords must be equal; then the
      encoded password is stored for the address. */
  function ChangePasswordStep(st: LedgerState, email: string, cp: ChangePassword, encode: string -> string)
    : (Response<string>, LedgerState)
  {
    if cp.password != cp.repeatedPassword then (Response(ExpectationFailed, PasswordMismatchMessage), st)
    else (Response(Ok, PasswordChangedMessage), st.(users := WithPassword(st.users, email, encode(cp.password))))
  }

  // ---------------------------------------------------------------------------
  // The collaborators the controller is wired with

  /** The user table, looked up and updated by email. */
  class UserRepository {
    var users: map<string, User>

    constructor (users: map<string, User>)
      ensures this.users == users
    {
      this.users := users;
    }

    method FindByEmail(email: string) returns (r: Option<User>)
      ensures r.Some? <==> email in users
      ensures r.Some? ==> r.value == users[email]
    {
      if email in users {
        return Some(users[email]);
      }
      return None;
    }

    method UpdatePassword(email: string, hash: string)
      modifies this
      ensures users == WithPassword(old(users), email, hash)
    {
      if email in users {
        users := users[email := users[email].(password := hash)];
      }
    }
  }

  /** The table of recorded codes. */
  class ForgotPasswordRepository {
    var records: seq<ForgotPassword>
    var nextFpid: int

    constructor ()
      ensures records == [] && nextFpid == 1
    {
      records := [];
      nextFpid := 1;
    }

    /** `save` of a new record: it gets the next key and goes at the end. */
    method Save(otp: int, expirationTime: int, userId: int) returns (fp: ForgotPassword)
      modifies this
      ensures fp == ForgotPassword(old(nextFpid), otp, expirationTime, userId)
      ensures records == old(records) + [fp] && nextFpid == old(nextFpid) + 1
    {
      fp := ForgotPassword(nextFpid, otp, expirationTime, userId);
      records := records + [fp];
      nextFpid := nextFpid + 1;
    }

    /** `findByOtpAndUser`: at most one record may match. */
    method FindByOtpAndUser(otp: int, userId: int) returns (r: Result<Option<ForgotPassword>, Error>)
      ensures var m := Matching(records, otp, userId);
              && (r.Failure? <==> |m| > 1)
              && (r.Failure? ==> r.error == IncorrectResultSize)
              && (r.Success? ==> (r.value.None? <==> |m| == 0))
              && (r.Success? && r.value.Some? ==> r.value.value == m[0])
    {
      var m := Matching(records, otp, userId);
      if |m| > 1 {
        return Failure(IncorrectResultSize);
      }
      if |m| == 0 {
        return Success(None);
      }
      return Success(Some(m[0]));
    }

    method DeleteById(fpid: int)
      modifies this
      ensures records == WithoutFpid(old(records), fpid) && nextFpid == old(nextFpid)
    {
      records := WithoutFpid(records, fpid);
    }
  }

  /** Outgoing mail, kept in the order it was sent. */
  class EmailService {
    var outbox: seq<MailBody>

    constructor ()
      ensures outbox == []
    {
      outbox := [];
    }

    method SendSimpleMail(mail: MailBody)
      modifies this
      ensures outbox == old(outbox) + [mail]
    {
      outbox := outbox + [mail];
    }
  }

  // ---------------------------------------------------------------------------
  // The controller

  class ForgotPasswordController {
    const userRepository: UserRepository
    const emailService: EmailService
    const forgotPasswordRepository: ForgotPasswordRepository
    const passwordEncoder: string -> string

    constructor (userRepository: UserRepository, emailService: EmailService,
                 forgotPasswordRepository: ForgotPasswordRepository, passwordEncoder: string -> string)
      ensures this.userRepository == userRepository && this.emailService == emailService
      ensures this.forgotPasswordRepository == forgotPasswordRepository
      ensures this.passwordEncoder == passwordEncoder
    {
      this.userRepository := userRepository;
      this.emailService := emailService;
      this.forgotPasswordRepository := forgotPasswordRepository;
      this.passwordEncoder := passwordEncoder;
    }

    function State(): LedgerState
      reads userRepository, forgotPasswordRepository, emailService
    {
      LedgerState(userRepository.users, forgotPasswordRepository.records,
                  forgotPasswordRepository.nextFpid, emailService.outbox)
    }

    /** `otpGenerator`: some code in the generator's range; which one is not modelled. */
    method OtpGenerator() returns (otp: int)
      ensures OtpLow <= otp < OtpHigh
    {
      assert OtpLow <= OtpLow < OtpHigh;
      otp :| OtpLow <= otp < OtpHigh;
    }

    method VerifyMail(email: string, now: int) returns (r: Result<Response<string>, Error>)
      modifies forgotPasswordRepository, emailService
      ensures exists otp :: OtpLow <= otp < OtpHigh &&
                (r, State()) == VerifyMailStep(old(State()), email, otp, now)
    {
      var user := userRepository.FindByEmail(email);
      if user.None? {
        r := Failure(UsernameNotFound(UnknownEmailMessage));
        assert (r, State()) == VerifyMailStep(old(State()), email, OtpLow, now);
        return;
      }
      var otp := OtpGenerator();
      var mailBody := MailBody(email, OtpMailText(otp), OtpMailSubject);
      emailService.SendSimpleMail(mailBody);
      var _ := forgotPasswordRepository.Save(otp, now + OtpLifetime, user.value.userId);
      r := Success(Response(Ok, MailSentMessage));
      assert (r, State()) == VerifyMailStep(old(State()), email, otp, now);
    }

    method VerifyOtp(otp: int, email: string, now: int) returns (r: Result<Response<string>, Error>)
      modifies forgotPasswordRepository
      ensures (r, State()) == VerifyOtpStep(old(State()), otp, email, now)
    {
      var user := userRepository.FindByEmail(email);
      if user.None? {
        return Failure(UsernameNotFound(UnknownEmailMessage));
      }
      var found := forgotPasswordRepository.FindByOtpAndUser(otp, user.value.userId);
      if found.Failure? {
        return Failure(found.error);
      }
      if found.value.None? {
        return Failure(InvalidOtp(InvalidOtpMessage));
      }
      var fp := found.value.value;
      if fp.expirationTime < now {
        forgotPasswordRepository.DeleteById(fp.fpid);
        return Success(Response(ExpectationFailed, OtpExpiredMessage));
      }
      r := Success(Response(Ok, OtpValidMessage));
    }

    method ChangePasswordHandler(changePassword: ChangePassword, email: string) returns (r: Response<string>)
      modifies userRepository
      ensures (r, State()) == ChangePasswordStep(old(State()), email, changePassword, passwordEncoder)
    {
      if changePassword.password != changePassword.repeatedPassword {
        return Response(ExpectationFailed, PasswordMismatchMessage);
      }
      var encodedPassword := passwordEncoder(changePassword.password);
      userRepository.UpdatePassword(email, encodedPassword);
      r := Response(Ok, PasswordChangedMessage);
    }
  }
}
