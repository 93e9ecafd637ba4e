/**
 * Email verification: issuing a random code for an email (stored as a
 * `{email, verificationCode}` record and embedded in a link), and redeeming
 * an `(email, code)` pair against the stored records.
 */
module EmailVerification {
  import opened Wrappers
  import opened JsStrings
  import opened Identities
  import UriEncoding

  type byte = UriEncoding.byte

  /** One document of the `verifyEmail` collection. */
  datatype Record = Record(email: string, verificationCode: string)

  // ---------------------------------------------------------------------
  // The code: `crypto.randomBytes(32).toString('hex')`.
  // ---------------------------------------------------------------------

  const CodeOctets: nat := 32

  /** Base16 with lower-case digits, two per octet, high half first. */
  function Hex(bytes: seq<byte>): (h: string)
    ensures |h| == 2 * |bytes|
    ensures forall i :: 0 <= i < |h| ==> h[i] in HexDigitsLower
  {
    if bytes == [] then []
    else [HexDigitsLower[bytes[0] / 16], HexDigitsLower[bytes[0] % 16]] + Hex(bytes[1..])
  }

  function LowerHexValue(c: char): (r: Option<nat>)
    ensures r.Some? ==> r.value < 16
  {
    if '0' <= c <= '9' then Some(c as int - '0' as int)
    else if 'a' <= c <= 'f' then Some(c as int - 'a' as int + 10)
    else None
  }

  /** Reads lower-case base16 back into octets. */
  function Unhex(h: string): Option<seq<byte>>
  {
    if h == [] then Some([])
    else if |h| < 2 || LowerHexValue(h[0]).None? || LowerHexValue(h[1]).None? then None
    else UriEncoding.Prepend([LowerHexValue(h[0]).value * 16 + LowerHexValue(h[1]).value], Unhex(h[2..]))
  }

  lemma LowerHexValueOfDigit(d: nat)
    requires d < 16
    ensures LowerHexValue(HexDigitsLower[d]) == Some(d)
  {
  }

  lemma SplitOctet(b: byte)
    ensures b / 16 < 16 && b % 16 < 16 && b / 16 * 16 + b % 16 == b
  {
  }

  /** Two digits decode to the octet they were written from. */
  lemma UnhexPair(b: byte, t: string)
    ensures Unhex([HexDigitsLower[b / 16], HexDigitsLower[b % 16]] + t) == UriEncoding.Prepend([b], Unhex(t))
  {
    SplitOctet(b);
    var hi, lo := b / 16, b % 16;
    LowerHexValueOfDigit(hi);
    LowerHexValueOfDigit(lo);
    var h := [HexDigitsLower[hi], HexDigitsLower[lo]] + t;
    assert h[0] == HexDigitsLower[hi] && h[1] == HexDigitsLower[lo] && h[2..] == t;
  }

  /** The code loses nothing: it decodes back to the random octets. */
  lemma {:induction false} UnhexHex(bytes: seq<byte>)
    ensures Unhex(Hex(bytes)) == Some(bytes)
  {
    if bytes != [] {
      UnhexHex(bytes[1..]);
      UnhexPair(bytes[0], Hex(bytes[1..]));
      assert [bytes[0]] + bytes[1..] == bytes;
    }
  }

  /** Different random octets give different codes. */
  lemma HexInjective(a: seq<byte>, b: seq<byte>)
    requires Hex(a) == Hex(b)
    ensures a == b
  {
    UnhexHex(a);
    UnhexHex(b);
  }

  // ---------------------------------------------------------------------
  // The link sent by mail.
  // ---------------------------------------------------------------------

  const LinkPrefix: string := "https://edutech-app-eecfd.web.app/verify-email/?code="

  /** The link built from the code and the raw (unencoded) email. */
  function VerificationLink(code: string, email: string): string
  {
    LinkPrefix + code + "&email=" + email
  }

  /** Reads a link back: the code runs up to the first `&`, the email is everything after `&email=`. */
  function ParseLink(link: string): Option<(string, string)>
  {
    if |link| < |LinkPrefix| || link[..|LinkPrefix|] != LinkPrefix then None
    else CodeAndEmail(link[|LinkPrefix|..])
  }

  function CodeAndEmail(s: string): Option<(string, string)>
  {
    if s == [] then None
    else if s[0] == '&' then
      if |s| >= 7 && s[1..7] == "email=" then Some(([], s[7..])) else None
    else
      match CodeAndEmail(s[1..])
      case None => None
      case Some((code, email)) => Some(([s[0]] + code, email))
  }

  lemma {:induction false} CodeAndEmailOf(code: string, email: string)
    requires '&' !in code
    ensures CodeAndEmail(code + "&email=" + email) == Some((code, email))
  {
    var s := code + "&email=" + email;
    if code == [] {
      assert s == "&email=" + email;
      assert s[1..7] == "email=" && s[7..] == email;
    } else {
      assert s[1..] == code[1..] + "&email=" + email;
      CodeAndEmailOf(code[1..], email);
      assert [code[0]] + code[1..] == code;
    }
  }

  /** A hex code holds no `&`, so the link gives back both the code and the email, whatever the email holds. */
  lemma LinkRoundTrip(bytes: seq<byte>, email: string)
    ensures ParseLink(VerificationLink(Hex(bytes), email)) == Some((Hex(bytes), email))
  {
    var code := Hex(bytes);
    assert '&' !in HexDigitsLower;
    assert forall i :: 0 <= i < |code| ==> code[i] != '&';
    var link := VerificationLink(code, email);
    assert link == LinkPrefix + (code + "&email=" + email);
    assert link[..|LinkPrefix|] == LinkPrefix;
    assert link[|LinkPrefix|..] == code + "&email=" + email;
    CodeAndEmailOf(code, email);
  }

  // ---------------------------------------------------------------------
  // Issue and redeem, as transitions of the record list and the identity store.
  // ---------------------------------------------------------------------

  /** `generateVerificationLink(email)`: one new record, and the link that carries its code. */
  function Issue(tokens: seq<Record>, email: string, random: seq<byte>): (r: (seq<Record>, string))
    requires |random| == CodeOctets
    ensures r.0 == tokens + [Record(email, Hex(random))]
    ensures |r.0[|tokens|].verificationCode| == 64
    ensures r.1 == VerificationLink(r.0[|tokens|].verificationCode, email)
  {
    var code := Hex(random);
    (tokens + [Record(email, code)], VerificationLink(code, email))
  }

  datatype VerifyReply =
    | MissingParameter   // 400: code or email absent or empty
    | NoSuchCode         // 404: no record holds this email and this code
    | LookupFailed       // 500: the account lookup threw
    | UpdateFailed       // 500: the account exists but marking it verified threw
    | Verified           // 200

  function VerifyStatus(r: VerifyReply): nat
  {
    match r
    case MissingParameter => 400
    case NoSuchCode => 404
    case LookupFailed => 500
    case UpdateFailed => 500
    case Verified => 200
  }

  /** `!x` on an optional string parameter: absent or empty. */
  predicate Missing(x: Option<string>)
  {
    x.None? || x.value == ""
  }

  /**
   * `/verify-email`. Both parameters must be present and non-empty; some
   * record must hold this email AND this code; the account lookup for an
   * unknown email throws, which the handler reports as 500. On success the
   * account is marked verified. The records are never touched.
   */
  function Redeem(tokens: seq<Record>, users: Users, code: Option<string>, email: Option<string>): (r: (VerifyReply, Users))
    ensures VerifyStatus(r.0) == 400 <==> Missing(code) || Missing(email)
    ensures VerifyStatus(r.0) == 404 <==> !Missing(code) && !Missing(email) && Record(email.value, code.value) !in tokens
    ensures VerifyStatus(r.0) == 500 <==> !Missing(code) && !Missing(email) && Record(email.value, code.value) in tokens && email.value !in users
    ensures r.0 == Verified <==> !Missing(code) && !Missing(email) && Record(email.value, code.value) in tokens && email.value in users
    ensures r.0 != Verified ==> r.1 == users
    ensures r.0 == Verified ==> r.1 == users[email.value := users[email.value].(emailVerified := true)]
  {
    if Missing(code) || Missing(email) then (MissingParameter, users)
    else if Record(email.value, code.value) !in tokens then (NoSuchCode, users)
    else if email.value !in users then (LookupFailed, users)
    else
      var e := email.value;
      (Verified, users[e := users[e].(emailVerified := true)])
  }

  /** A missing parameter is answered with 400 before the records or the accounts are consulted. */
  lemma MissingParameterIgnoresStore(t1: seq<Record>, u1: Users, t2: seq<Record>, u2: Users, code: Option<string>, email: Option<string>)
    requires Missing(code) || Missing(email)
    ensures Redeem(t1, u1, code, email).0 == Redeem(t2, u2, code, email).0 == MissingParameter
    ensures Redeem(t1, u1, code, email).1 == u1
  {
  }

  /** A code issued only for one email never verifies another. */
  lemma CodeIsBoundToItsEmail(tokens: seq<Record>, users: Users, code: string, owner: string, other: string)
    requires forall i :: 0 <= i < |tokens| && tokens[i].verificationCode == code ==> tokens[i].email == owner
    requires other != owner && other != "" && code != ""
    ensures Redeem(tokens, users, Some(code), Some(other)) == (NoSuchCode, users)
  {
  }

  /** Redeeming the code just issued for an account succeeds. */
  lemma IssueThenRedeem(tokens: seq<Record>, users: Users, email: string, random: seq<byte>)
    requires |random| == CodeOctets && email != "" && email in users
    ensures var (tokens', _) := Issue(tokens, email, random);
      Redeem(tokens', users, Some(Hex(random)), Some(email)).0 == Verified
  {
  }

  /** The records stay, so redeeming the same pair again succeeds again and changes nothing more. */
  lemma RedeemIsRepeatable(tokens: seq<Record>, users: Users, code: Option<string>, email: Option<string>)
    ensures var (reply, users') := Redeem(tokens, users, code, email);
      && Redeem(tokens, users', code, email).0 == reply
      && Redeem(tokens, users', code, email).1 == users'
  {
  }

  /** Only the redeeming email's account changes, and only its verified flag. */
  lemma RedeemChangesOnlyThatAccount(tokens: seq<Record>, users: Users, code: Option<string>, email: Option<string>)
    ensures var users' := Redeem(tokens, users, code, email).1;
      && users'.Keys == users.Keys
      && (forall e :: e in users && (email.None? || e != email.value) ==> users'[e] == users[e])
      && (forall e :: e in users ==> users'[e] == users[e].(emailVerified := users'[e].emailVerified))
  {
  }
}
