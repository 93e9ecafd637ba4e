/**
 * Admin accounts as the identity service holds them, keyed by email: each
 * has a uid, a password, an email-verified flag and a custom-claims object.
 * The service's claims writes each replace the whole claims object with fixed
 * contents, and admin login is a decision over the stored claims alone.
 */
module Identities {
  import opened Wrappers

  /** A custom-claim value; the claims this service writes hold booleans and strings. */
  datatype Value = Bool(b: bool) | Str(s: string)

  type Claims = map<string, Value>

  /** One account. `claims` is `None` until claims are first set. */
  datatype Identity = Identity(uid: string, password: string, emailVerified: bool, claims: Option<Claims>)

  /** The identity store, looked up by email. */
  type Users = map<string, Identity>

  /** Written when an admin account is created: a new editor who must change the generated password. */
  const CreateClaims: Claims := map["admin" := Bool(true), "permissions" := Str("editor"), "forcePasswordReset" := Bool(true)]

  /** Written by the password-reset update: still an editor, no longer forced to reset. */
  const ResetClaims: Claims := map["admin" := Bool(true), "permissions" := Str("editor"), "forcePasswordReset" := Bool(false)]

  /** Written by the role change: `admin` only, every other claim is dropped. */
  const AdminRoleClaims: Claims := map["admin" := Bool(true)]

  /** `claims && claims.admin === true`: strictly the boolean `true`. */
  predicate IsAdmin(claims: Option<Claims>)
  {
    claims.Some? && "admin" in claims.value && claims.value["admin"] == Bool(true)
  }

  /** A claim's value, `None` when absent (JSON leaves an `undefined` field out). */
  function Claim(claims: Claims, name: string): Option<Value>
  {
    if name in claims then Some(claims[name]) else None
  }

  // ---------------------------------------------------------------------
  // Admin login.
  // ---------------------------------------------------------------------

  datatype LoginReply =
    | ValidationFailed
    | InvalidCredentials
    | Authorized(forcePasswordChange: Option<Value>, permissions: Option<Value>)
    | NotAuthorized

  function LoginStatus(r: LoginReply): nat
  {
    match r
    case ValidationFailed => 400
    case InvalidCredentials => 401
    case Authorized(_, _) => 200
    case NotAuthorized => 401
  }

  /**
   * `/admin-login`. `valid` is the outcome of the request validation (email
   * format, password length). The account is found by email; the password is
   * not compared with anything.
   */
  function AdminLogin(valid: bool, users: Users, email: string, password: string): (r: LoginReply)
    ensures LoginStatus(r) == 400 <==> !valid
    ensures LoginStatus(r) == 200 <==> valid && email in users && IsAdmin(users[email].claims)
    ensures r.Authorized? ==>
      && r.forcePasswordChange == Claim(users[email].claims.value, "forcePasswordReset")
      && r.permissions == Claim(users[email].claims.value, "permissions")
    ensures r == InvalidCredentials <==> valid && email !in users
    ensures r == NotAuthorized <==> valid && email in users && !IsAdmin(users[email].claims)
  {
    if !valid then ValidationFailed
    else if email !in users then InvalidCredentials
    else
      var claims := users[email].claims;
      if IsAdmin(claims) then Authorized(Claim(claims.value, "forcePasswordReset"), Claim(claims.value, "permissions"))
      else NotAuthorized
  }

  /** Neither the password given nor the one stored makes any difference to the login decision. */
  lemma LoginIgnoresPasswords(valid: bool, users: Users, email: string, password: string, other: string, stored: string)
    ensures AdminLogin(valid, users, email, password) == AdminLogin(valid, users, email, other)
    ensures email in users ==>
      AdminLogin(valid, users[email := users[email].(password := stored)], email, other) == AdminLogin(valid, users, email, password)
  {
  }

  // ---------------------------------------------------------------------
  // Claims writes: `/create-user`, `/update-password-reset`, `/change-admin-role`.
  // ---------------------------------------------------------------------

  /**
   * `/create-user` after the password is generated. The identity service
   * refuses an email it already holds, and may refuse the request for reasons
   * of its own (`accepted`); then nothing is stored and the reply is 400.
   * Otherwise the account is stored, unverified, with the creation claims;
   * if the mail with the password then fails the reply is 400 but the account stays.
   */
  function CreateUser(users: Users, email: string, uid: string, password: string, accepted: bool, mailSent: bool): (r: (nat, Users))
    ensures email in users || !accepted ==> r == (400, users)
    ensures email !in users && accepted ==>
      && r.1 == users[email := Identity(uid, password, false, Some(CreateClaims))]
      && r.0 == (if mailSent then 200 else 400)
  {
    if email in users || !accepted then (400, users)
    else
      var stored := users[email := Identity(uid, password, false, Some(CreateClaims))];
      (if mailSent then 200 else 400, stored)
  }

  /**
   * `/update-password-reset`. An absent or empty email is refused with 400,
   * and so is a failed notification mail; otherwise the reply is 200, sent
   * before the account is looked up. If there is such an account, its claims
   * become the reset claims and its email is marked verified.
   */
  function UpdatePasswordReset(users: Users, email: Option<string>, mailSent: bool): (r: (nat, Users))
    ensures email.None? || email.value == "" || !mailSent ==> r == (400, users)
    ensures r.0 == 200 <==> email.Some? && email.value != "" && mailSent
    ensures forall e :: e in users && (email.None? || e != email.value) ==> e in r.1 && r.1[e] == users[e]
    ensures r.1.Keys == users.Keys
    ensures r.0 == 200 && email.value !in users ==> r.1 == users
    ensures r.0 == 200 && email.value in users ==>
      r.1 == users[email.value := users[email.value].(claims := Some(ResetClaims), emailVerified := true)]
  {
    if email.None? || email.value == "" || !mailSent then (400, users)
    else if email.value !in users then (200, users)
    else
      var e := email.value;
      (200, users[e := users[e].(claims := Some(ResetClaims), emailVerified := true)])
  }

  /**
   * `/change-admin-role`. Without an email, or without an account for it, the
   * lookup fails and the reply is 400; otherwise the claims become `{admin: true}`.
   */
  function ChangeAdminRole(users: Users, email: Option<string>): (r: (nat, Users))
    ensures r.0 == 200 <==> email.Some? && email.value in users
    ensures r.0 != 200 ==> r == (400, users)
    ensures forall e :: e in users && (email.None? || e != email.value) ==> e in r.1 && r.1[e] == users[e]
    ensures r.1.Keys == users.Keys
    ensures r.0 == 200 ==> r.1 == users[email.value := users[email.value].(claims := Some(AdminRoleClaims))]
  {
    if email.None? || email.value !in users then (400, users)
    else
      var e := email.value;
      (200, users[e := users[e].(claims := Some(AdminRoleClaims))])
  }

  // ---------------------------------------------------------------------
  // What each write means for a later login.
  // ---------------------------------------------------------------------

  /** A new account can log in at once, as an editor who must change the password. */
  lemma LoginAfterCreate(users: Users, email: string, uid: string, password: string, mailSent: bool, given: string)
    requires email !in users
    ensures AdminLogin(true, CreateUser(users, email, uid, password, true, mailSent).1, email, given)
         == Authorized(Some(Bool(true)), Some(Str("editor")))
  {
  }

  /** After the reset update the account is no longer forced to change its password. */
  lemma LoginAfterReset(users: Users, email: string, given: string)
    requires email in users && email != ""
    ensures AdminLogin(true, UpdatePasswordReset(users, Some(email), true).1, email, given)
         == Authorized(Some(Bool(false)), Some(Str("editor")))
    ensures UpdatePasswordReset(users, Some(email), true).1[email].emailVerified
  {
  }

  /**
   * The role change keeps the account an admin but drops whatever else it held:
   * a later login reports neither a forced password change nor permissions.
   */
  lemma LoginAfterRoleChange(users: Users, email: string, given: string)
    requires email in users
    ensures AdminLogin(true, ChangeAdminRole(users, Some(email)).1, email, given) == Authorized(None, None)
  {
  }

  /** Claims writes replace the whole object, so repeating one changes nothing more. */
  lemma ClaimsWritesAreIdempotent(users: Users, email: Option<string>, mailSent: bool)
    ensures ChangeAdminRole(ChangeAdminRole(users, email).1, email).1 == ChangeAdminRole(users, email).1
    ensures UpdatePasswordReset(UpdatePasswordReset(users, email, mailSent).1, email, mailSent).1
         == UpdatePasswordReset(users, email, mailSent).1
  {
  }

  /** Whatever the account held before, each write leaves exactly its own claims. */
  lemma ClaimsWritesOverwrite(users: Users, email: string)
    requires email in users && email != ""
    ensures ChangeAdminRole(users, Some(email)).1[email].claims == Some(AdminRoleClaims)
    ensures UpdatePasswordReset(users, Some(email), true).1[email].claims == Some(ResetClaims)
    ensures ChangeAdminRole(users, Some(email)).1[email].uid == users[email].uid
  {
  }
}
