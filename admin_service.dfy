/**
 * The back end's mutable state as the route handlers see it: the
 * `verifyEmail` collection of issued codes and the identity store. Each
 * handler is a method whose new state is the matching transition of the
 * pure models in `EmailVerification` and `Identities`.
 */
module AdminService {
  import opened Wrappers
  import opened JsStrings
  import opened Identities
  import opened EmailVerification
  import RandomPassword

  class AdminBackend {
    /** The `verifyEmail` collection, in insertion order. */
    var verifyEmail: seq<Record>
    /** The identity store. */
    var users: Users

    /** Every stored code is 64 lower-case hex digits, as `randomBytes(32).toString('hex')` writes it. */
    predicate CodesWellFormed()
      reads this
    {
      forall i :: 0 <= i < |verifyEmail| ==>
        |verifyEmail[i].verificationCode| == 2 * CodeOctets
        && forall j :: 0 <= j < |verifyEmail[i].verificationCode| ==> verifyEmail[i].verificationCode[j] in HexDigitsLower
    }

    constructor (users0: Users)
      ensures verifyEmail == [] && users == users0
      ensures CodesWellFormed()
    {
      verifyEmail := [];
      users := users0;
    }

    /**
     * `generateVerificationLink(email)`: stores one new record and returns the
     * link carrying its code. When the store refuses the record (`stored` is
     * false) the call throws: nothing is stored and there is no link.
     */
    method GenerateVerificationLink(email: string, random: seq<byte>, stored: bool) returns (link: Option<string>)
      requires |random| == CodeOctets
      requires CodesWellFormed()
      modifies this
      ensures stored ==> link.Some? && (verifyEmail, link.value) == Issue(old(verifyEmail), email, random)
      ensures !stored ==> link.None? && verifyEmail == old(verifyEmail)
      ensures users == old(users)
      ensures CodesWellFormed()
    {
      if !stored {
        return None;
      }
      var code := Hex(random);
      verifyEmail := verifyEmail + [Record(email, code)];
      link := Some(VerificationLink(code, email));
    }

    /**
     * `/email-verification`: issues a code, then mails the link. Either
     * failure is answered with 500; a failed mail leaves the record stored.
     */
    method SendVerificationMail(email: string, random: seq<byte>, stored: bool, mailSent: bool)
      returns (status: nat, link: Option<string>)
      requires |random| == CodeOctets
      requires CodesWellFormed()
      modifies this
      ensures stored ==> link.Some? && (verifyEmail, link.value) == Issue(old(verifyEmail), email, random)
      ensures !stored ==> link.None? && verifyEmail == old(verifyEmail)
      ensures users == old(users)
      ensures status == if stored && mailSent then 200 else 500
      ensures CodesWellFormed()
    {
      link := GenerateVerificationLink(email, random, stored);
      status := if stored && mailSent then 200 else 500;
    }

    /**
     * `/verify-email`: the reply and the new identity store are those of
     * `Redeem`; the records stay, and a code that verifies is one of the
     * 64-digit codes issued. When the store refuses the update
     * (`updated` is false) a redemption that would succeed is answered with
     * 500 instead and the account is left unverified.
     */
    method VerifyEmail(code: Option<string>, email: Option<string>, updated: bool) returns (reply: VerifyReply)
      requires CodesWellFormed()
      modifies this
      ensures updated ==> (reply, users) == Redeem(old(verifyEmail), old(users), code, email)
      ensures !updated ==> users == old(users)
      ensures !updated ==> reply == if Redeem(old(verifyEmail), old(users), code, email).0 == Verified then UpdateFailed
                                    else Redeem(old(verifyEmail), old(users), code, email).0
      ensures reply == Verified ==>
        |code.value| == 2 * CodeOctets && forall j :: 0 <= j < |code.value| ==> code.value[j] in HexDigitsLower
      ensures verifyEmail == old(verifyEmail)
      ensures CodesWellFormed()
    {
      if Missing(code) || Missing(email) {
        return MissingParameter;
      }
      if Record(email.value, code.value) !in verifyEmail {
        return NoSuchCode;
      }
      if email.value !in users {
        return LookupFailed;
      }
      if !updated {
        return UpdateFailed;
      }
      var e := email.value;
      users := users[e := users[e].(emailVerified := true)];
      reply := Verified;
    }

    /**
     * `/create-user`: draws a fresh password, then stores the account as
     * `Identities.CreateUser` says. The password is returned so that a caller
     * can see what was mailed.
     */
    method CreateUser(email: string, uid: string, draws: seq<nat>, accepted: bool, mailSent: bool)
      returns (status: nat, password: string)
      requires RandomPassword.ValidDraws(draws)
      requires CodesWellFormed()
      modifies this
      ensures password == RandomPassword.PasswordFor(draws)
      ensures (status, users) == Identities.CreateUser(old(users), email, uid, password, accepted, mailSent)
      ensures verifyEmail == old(verifyEmail)
      ensures CodesWellFormed()
    {
      password := RandomPassword.GenerateRandomPassword(draws);
      if email in users || !accepted {
        return 400, password;
      }
      users := users[email := Identity(uid, password, false, Some(CreateClaims))];
      status := if mailSent then 200 else 400;
    }

    /** `/update-password-reset`, as `Identities.UpdatePasswordReset`. */
    method UpdatePasswordReset(email: Option<string>, mailSent: bool) returns (status: nat)
      requires CodesWellFormed()
      modifies this
      ensures (status, users) == Identities.UpdatePasswordReset(old(users), email, mailSent)
      ensures verifyEmail == old(verifyEmail)
      ensures CodesWellFormed()
    {
      if email.None? || email.value == "" || !mailSent {
        return 400;
      }
      status := 200;
      var e := email.value;
      if e in users {
        users := users[e := users[e].(claims := Some(ResetClaims), emailVerified := true)];
      }
    }

    /** `/change-admin-role`, as `Identities.ChangeAdminRole`. */
    method ChangeAdminRole(email: Option<string>) returns (status: nat)
      requires CodesWellFormed()
      modifies this
      ensures (status, users) == Identities.ChangeAdminRole(old(users), email)
      ensures verifyEmail == old(verifyEmail)
      ensures CodesWellFormed()
    {
      if email.None? || email.value !in users {
        return 400;
      }
      var e := email.value;
      users := users[e := users[e].(claims := Some(AdminRoleClaims))];
      status := 200;
    }
  }

  /**
   * The life of one account through the handlers: created, its emailed code
   * redeemed, then logged in. The login succeeds with the creation claims
   * and the account is verified.
   */
  method CreateVerifyLogin(users0: Users, email: string, uid: string, draws: seq<nat>, random: seq<byte>, given: string)
    returns (backend: AdminBackend)
    requires email !in users0 && email != ""
    requires RandomPassword.ValidDraws(draws) && |random| == CodeOctets
    ensures email in backend.users && backend.users[email].emailVerified
    ensures backend.users[email].password == RandomPassword.PasswordFor(draws)
    ensures AdminLogin(true, backend.users, email, given) == Authorized(Some(Bool(true)), Some(Str("editor")))
  {
    backend := new AdminBackend(users0);
    var status, password := backend.CreateUser(email, uid, draws, true, true);
    var link := backend.GenerateVerificationLink(email, random, true);
    var reply := backend.VerifyEmail(Some(Hex(random)), Some(email), true);
    assert backend.verifyEmail[|backend.verifyEmail| - 1] == Record(email, Hex(random));
    assert reply == Verified;
    LoginAfterCreate(users0, email, uid, password, true, given);
    var created := Identities.CreateUser(users0, email, uid, password, true, true).1;
    assert backend.users == created[email := created[email].(emailVerified := true)];
  }
}
