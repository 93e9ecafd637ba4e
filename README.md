# Ezamazwe Edutech admin back end, modelled in Dafny

The back end is an Express server in `index.js`. This project models four parts of it.

- **The PayFast request signature** (`generateAPISignature`). The parameters are copied into a new object in sorted-key order. That object is walked with `for…in`, and `key=value&` is written for each key, the value passed through `encodeURIComponent(…).replace(/%20/g, '+')`. The last character is cut off. An optional `&passphrase=…` is appended, holding the trimmed, encoded passphrase. The MD5 of the UTF-8 octets is the signature. JavaScript semantics are modelled explicitly:
  - the sort's UTF-16 code-unit order;
  - the own-property order of objects, where array-index keys come first, in numeric order, even after a sorted copy;
  - `encodeURIComponent`, which percent-encodes UTF-8 with upper-case hex digits;
  - the global `%20` replacement;
  - `String.prototype.trim`;
  - `substring(0, -1)` on an empty string;
  - the inherited `__proto__` setter: `ordered_data["__proto__"] = "x"` creates no property, so a `__proto__` parameter is silently dropped from the signed string.
- **Email verification.** `generateVerificationLink` stores a `{email, verificationCode}` record and returns a link, where the code is 32 random octets written as lower-case hex. `/email-verification` mails that link. `/verify-email` looks for a record with both the email and the code, and marks the account verified. Records are never deleted, so redemption can be repeated.
- **Admin accounts and their custom claims.**
  - `/create-user`, `/update-password-reset` and `/change-admin-role` each replace the whole claims object with fixed contents.
  - `/admin-login` decides only from those claims. The password is never compared.
- **`generateRandomPassword`.** Twelve draws from a 62-character alphabet.

Two parts are imperative and are proved against pure specification functions:
- The loops are methods with invariants: the two loops of the signature builder and the password loop.
- The mutable state (the `verifyEmail` collection and the identity store) is the class `AdminService.AdminBackend`. Each route handler is a method whose new state is the matching pure transition.

MD5, `crypto.randomBytes`, `Math.random`, the mailer, Firestore and Firebase Authentication are outside the model:
- The random octets, the draws and the MD5 function are parameters.
- Mail delivery and the identity service's own refusals are boolean parameters.
- Firestore and Firebase Authentication become the `seq` of records and the `map` of accounts.

## Model

| member | source | states |
|---|---|---|
| PayFastSignature.GenerateApiSignature | index.js:581-601 | The string hashed is exactly `PreHash(data, passPhrase)`, and the signature is the MD5 (a parameter) of that string's UTF-8 octets. Every key of `data` except `__proto__` is written once, with its value (see the `PayFastProperties` lemmas). |
| PayFastSignature.OrderedData | index.js:583-587 | The first loop builds an object whose keys were created in `Object.keys(data).sort()` order, with `__proto__` missing because its assignment hits the inherited setter; every key it holds reads back `data[key]`. |
| PayFastSignature.QueryString | index.js:590-596 | The second loop plus the cut of the last character gives the `&`-join of the `key=value` pairs, in the order `for…in` visits the sorted copy. |
| PayFastSignature.CopyStep | index.js:584-586 | One copy step appends a new key at the end of the creation order and keeps every earlier lookup. |
| PayFastSignature.OrderedMatchesArranged | index.js:587-591 | Walking the sorted copy's keys and reading its values gives exactly the arranged parameters of `data`. |
| PayFastSignature.WriteStep | index.js:591-593 | One write step appends the next pair and an `&`. |
| PayFastSignature.DropLastOfTerminated | index.js:595-596 | Cutting the last character off the `&`-terminated pairs leaves the `&`-joined pairs, and an empty string stays empty. |
| PayFastSignature.SortedKeysFacts | index.js:584 | The sorted keys hold no repeats, and they are exactly the object's keys. |
| PayFastSignature.ParameterOrderIsPermutation | index.js:584-591 | The visiting order holds each key of `data` exactly as often as `data` does, except `__proto__`, which it never holds. |
| PayFastSignature.SortedKeys | index.js:584 | `Object.keys(data).sort()`: the own keys sorted by UTF-16 code units (facts in `SortedKeysFacts`). |
| PayFastSignature.CopiedKeys | index.js:584-586 | The keys the copying loop creates: the sorted keys without `__proto__`. |
| PayFastSignature.ParameterOrder | index.js:587-591 | The order `for…in` visits the sorted copy: its own-property order. |
| PayFastSignature.Arranged | index.js:587-592 | The parameters in visiting order, each with its value from `data`. |
| PayFastSignature.QueryPair | index.js:592 | One field: the key, `=`, and the value through `encodeURIComponent` and the `%20` replacement. |
| PayFastSignature.Join | index.js:591-596 | Fields with the separator only between neighbours, which is what the loop plus the cut produce. |
| PayFastSignature.DropLast | index.js:596 | `substring(0, length - 1)`: the last character cut off, and the empty string left empty. |
| PayFastSignature.PassphraseSuffix | index.js:597 | Nothing without a passphrase; otherwise `&passphrase=` and the trimmed, encoded passphrase (a pair by `PassphraseSuffixIsPair`). |
| PayFastSignature.PreHash | index.js:590-597 | The hashed string: the joined fields followed by the passphrase suffix (its properties in `PayFastProperties`). |
| PayFastSignature.WithValues | index.js:585 | Each key is paired with its value in the object, position by position. |
| PayFastSignature.Pairs | index.js:592 | Each written field is `key=` followed by the form-encoded value, position by position. |
| PayFastSignature.DistinctPermutation | index.js:584 | A rearrangement of a list without repeats has no repeats. |
| PayFastProperties.CodeUnitLeIsTotalPreorder | index.js:584 | The default sort comparison is total and transitive, so `sort()` is well defined. |
| PayFastProperties.ParameterOrderListsEveryKeyOnce | index.js:584-591 | The loop visits every key of `data` other than `__proto__` exactly once and no other key; it visits one key fewer than `data` has exactly when `data` has a `__proto__` key. |
| PayFastProperties.ArrangedListsEveryKeyOnce | index.js:584-593 | Every parameter other than `__proto__` is written exactly once, with its own value. |
| PayFastProperties.ProtoKeyIsNeverWritten | index.js:585 | No written parameter is named `__proto__`, whatever `data` holds. |
| PayFastProperties.ProtoKeyAloneGivesEmptyString | index.js:585-596 | For `{"__proto__": v}` nothing is written and the string hashed without a passphrase is empty. |
| PayFastProperties.SortedKeysWithoutIndexKeys | index.js:584 | Without array-index keys, `Object.keys(data).sort()` is the sorted creation order. |
| PayFastProperties.ArrangedSortedWithoutIndexKeys | index.js:583-593 | Without array-index keys, the written keys are the sorted creation order with `__proto__` taken out, in strictly ascending code-unit order. |
| PayFastProperties.ArrangedKeepsSortedInput | index.js:583-593 | Parameters created in ascending key order, with no array-index key and no `__proto__`, are written exactly as given, values included. |
| PayFastProperties.SortedInputOrder | index.js:584-591 | For such parameters the sort, the copy and the `for…in` walk all keep the creation order. |
| PayFastProperties.WithValuesInCreationOrder | index.js:585 | Reading every key of an object back in creation order rebuilds the object. |
| PayFastProperties.StrictlyAscendingWithoutProtoKey | index.js:584-586 | Taking `__proto__` out of a strictly ascending list leaves it strictly ascending. |
| PayFastProperties.ArrangedIndexKeysFirst | index.js:583-591 | Whatever the sort did, an array-index key such as `"10"` is written before every other key (the object's own-property order). |
| PayFastProperties.QueryParsesBack | index.js:591-596 | For keys without `&` or `=` (keys are written unencoded), splitting the joined pairs at `&` and each field at its first `=`, then decoding, gives back every key with its value's UTF-8 octets. |
| PayFastProperties.PreHashParsesBack | index.js:581-596 | For keys without `&` or `=`: without a passphrase, the pre-hash string reads back as exactly the written parameters, in order; with none written it is the empty string, read as one empty field. |
| PayFastProperties.EmptyQuery | index.js:596 | The empty string reads back as one empty field. |
| PayFastProperties.PreHashWithPassphraseParsesBack | index.js:581-597 | For keys without `&` or `=`: with a passphrase, the string reads back as the parameters followed by one `passphrase` parameter holding the trimmed passphrase; with no parameters written, an empty field comes first. |
| PayFastProperties.PassphraseAfterParameters | index.js:590-597 | For keys without `&` or `=`, when some parameter is written, the passphrase field reads back right after them. |
| PayFastProperties.QueryWithOneMoreParsesBack | index.js:591-597 | For keys without `&` or `=`, one more `&key=value` after the joined pairs reads back as one more parameter. |
| PayFastProperties.PassphraseSuffixIsPair | index.js:597 | The passphrase suffix is one more `&key=value` field whose key is `passphrase` and whose value is the trimmed passphrase. |
| PayFastProperties.PassphraseOnly | index.js:590-597 | When no parameter is written, the string starts with `&`, and reading it back gives an empty first field and then the passphrase. |
| PayFastProperties.OnlyOneMore | index.js:597 | A lone `&key=value` reads back as an empty field and then that parameter. |
| PayFastProperties.PreHashHasNoTrailingAmpersand | index.js:595-597 | The pre-hash string never ends in `&`, with or without a passphrase. |
| PayFastProperties.PassphraseSuffixEnd | index.js:597 | The passphrase suffix is never empty and never ends in `&`. |
| PayFastProperties.SplitJoin | index.js:591-596 | Splitting the `&`-join of `&`-free pieces gives the pieces back. |
| PayFastProperties.SplitAtSeparator | index.js:591-596 | Splitting at a separator splits the two sides independently. |
| PayFastProperties.CutAt | index.js:592 | The first `=` divides a field into a key without `=` and the rest. |
| PayFastProperties.CutAtFirst | index.js:592 | A key without `=` is recovered from `key=value` whatever the value holds. |
| PayFastProperties.ParsePair | index.js:592 | For a key without `=`, one written pair decodes to its key and its value's UTF-8 octets, and holds no `&` when the key holds none. |
| PayFastProperties.ParseFieldsOfPairs | index.js:591-593 | For keys without `&` or `=`, the written pairs decode field by field to the parameters, and no field holds `&`. |
| PayFastProperties.JoinedPairsEnd | index.js:591-596 | The joined pairs never end in `&`. |
| PayFastProperties.QueryPairEnd | index.js:592 | A pair ends in its encoded value or in `=`, never in `&`. |
| UriEncoding.FormEncodeIsPerCharacter | index.js:592 | `encodeURIComponent(v).replace(/%20/g, '+')` is the same as encoding character by character, with a space becoming `+`: no `%20` is ever formed across two escapes. |
| UriEncoding.ReplaceSkipsOctets | index.js:592 | An escape of an octet other than 0x20 passes through the global replacement unchanged. |
| UriEncoding.ReplaceSkipsEscape | index.js:592 | An escape other than `%20` passes through the replacement unchanged. |
| UriEncoding.ReplaceOneChar | index.js:592 | After the replacement, one encoded character reads exactly as its per-character form. |
| UriEncoding.FormEncodeAlphabet | index.js:592 | An encoded value holds only unreserved characters, `%`, upper-case hex digits and `+`, and never a space, `&` or `=`. |
| UriEncoding.FormDecodeOfEncode | index.js:592 | Decoding an encoded value gives back its UTF-8 octets. |
| UriEncoding.DecodePercentOctets | index.js:592 | The escapes of a run of octets decode to those octets. |
| UriEncoding.Utf8RoundTrip | index.js:600 | Strict UTF-8 decoding undoes the UTF-8 encoding of the hashed string. |
| UriEncoding.FormEncodeInjective | index.js:592 | Two values with the same encoding are the same value. |
| UriEncoding.Utf8 | index.js:592 | A character takes one to four octets, and one octet exactly when it is ASCII. |
| UriEncoding.PercentOctet | index.js:592 | An escape is three characters beginning with `%`. |
| UriEncoding.IsUnescaped | index.js:592 | The characters `encodeURIComponent` leaves alone: ASCII letters, digits and `-_.!~*'()`. |
| UriEncoding.EncodeChar | index.js:592 | One character: itself when unescaped, otherwise `%HH` for each of its UTF-8 octets. |
| UriEncoding.EncodeUriComponent | index.js:592 | `encodeURIComponent`, character by character. |
| UriEncoding.ReplacePct20 | index.js:592 | `replace(/%20/g, '+')`: each `%20`, scanning left to right, becomes `+`. |
| UriEncoding.FormEncode | index.js:592 | The value encoding of a field: the two steps above in turn (shown per character by `FormEncodeIsPerCharacter`). |
| UriEncoding.Utf8String | index.js:600 | The UTF-8 octets MD5 hashes, character by character (undone by `Utf8RoundTrip`). |
| JsStrings.CodeUnits | index.js:584 | A character's UTF-16 code units: one unit below U+10000, otherwise a surrogate pair that encodes it. |
| JsStrings.Utf16Injective | index.js:584 | Different strings have different code-unit sequences. |
| JsStrings.CodeUnitOrderIsTotal | index.js:584 | The default sort order is total, transitive and antisymmetric on strings. |
| JsStrings.CodeUnitLe | index.js:584 | The default `sort()` comparison: lexicographic on UTF-16 code units. |
| JsStrings.IsJsWhitespace | index.js:597 | The characters `trim()` removes: the ECMAScript white space and line terminators. |
| JsStrings.Trim | index.js:597 | `trim()`: the passphrase without its leading and trailing whitespace runs. |
| JsStrings.TrimIsInnerSlice | index.js:597 | `trim()` gives a slice of the passphrase with only whitespace before and after it. |
| JsStrings.TrimIsIdempotent | index.js:597 | The trimmed passphrase neither starts nor ends with whitespace, and trimming it again changes nothing. |
| JsStrings.WhitespaceFrom | index.js:597 | The leading whitespace run ends at the first non-whitespace character. |
| JsStrings.WhitespaceBefore | index.js:597 | The trailing whitespace run starts just after the last non-whitespace character. |
| JsObjects.Get | index.js:585 | A property read is defined exactly for the object's own keys. |
| JsObjects.CreationOrder | index.js:584-585 | The keys in the order they were created, one entry per property. |
| JsObjects.Put | index.js:585 | An assignment. A key the object already holds keeps its place and now reads the new value. `__proto__` without an own property changes nothing. Any other key is appended with its value. Every other key reads as before, and the object grows by one exactly in the append case. |
| JsObjects.PutKeepsWellFormed | index.js:585 | An assignment never gives an object two properties with the same key. |
| JsObjects.GetAt | index.js:585 | In an object without repeated keys, each property's key reads back its own value. |
| JsObjects.PutNewKey | index.js:585 | Assigning a new key other than `__proto__` appends it at the end of the creation order. |
| JsObjects.GetAfterAppend | index.js:585 | Appending a property leaves the lookups of the other keys unchanged. |
| JsObjects.PropertyOrderIsPermutation | index.js:591 | `for…in` visits each own key once. |
| JsObjects.PropertyOrderFacts | index.js:591 | `for…in` visits array-index keys before every other key. |
| JsObjects.PropertyOrderWithoutIndexKeys | index.js:591 | Without array-index keys, `for…in` visits keys in creation order. |
| JsObjects.IsArrayIndex | index.js:591 | A canonical decimal numeral below 2^32 - 1, the keys `for…in` visits first. |
| JsObjects.PropertyOrder | index.js:591 | Own-property order: array-index keys in numeric order, then the rest in creation order. |
| JsObjects.OwnKeys | index.js:584 | `Object.keys`: the own keys in own-property order. |
| JsObjects.WithoutProtoKey | index.js:585 | A key list with `__proto__` taken out; every other key stays. |
| JsObjects.WithoutProtoKeyCount | index.js:585 | Taking out `__proto__` keeps every other key as often as it was there. |
| JsObjects.WithoutProtoKeyDistinct | index.js:585 | Taking `__proto__` out of a list without repeats keeps it without repeats, one shorter exactly when `__proto__` was there. |
| JsObjects.WithoutProtoKeyNone | index.js:585 | A list without `__proto__` is unchanged. |
| JsObjects.WithoutProtoKeyStep | index.js:584-586 | One more key extends the filtered list by that key, or by nothing when it is `__proto__`. |
| JsObjects.SplitIsPermutation | index.js:591 | Array-index keys and other keys together are exactly the object's keys. |
| JsObjects.IndexLeIsTotalPreorder | index.js:591 | Numeric order on array-index keys is total and transitive. |
| Sorting.SortIsSortedPermutation | index.js:584 | `sort()` returns its input rearranged into order. |
| Sorting.Sort | index.js:584 | An insertion sort whose result is a permutation of its input. |
| Sorting.SortOfSorted | index.js:584 | Sorting a list that is already in order leaves it unchanged. |
| Sorting.InsertSorted | index.js:584 | Inserting into a sorted list keeps it sorted. |
| RandomPassword.GenerateRandomPassword | index.js:455-466 | The password has twelve characters, and the i-th is the alphabet character at the i-th draw. |
| RandomPassword.CharactersAreAlphanumeric | index.js:457 | The alphabet has 62 characters and is exactly the ASCII letters and digits. |
| RandomPassword.CharacterAt | index.js:457 | The alphabet is `a`–`z`, then `A`–`Z`, then `0`–`9`, each in code-point order. |
| RandomPassword.CharactersAreDistinct | index.js:457 | No character appears twice in the alphabet. |
| RandomPassword.EveryAlphanumericPasswordIsReachable | index.js:455-466 | Every twelve-character alphanumeric string is a possible password. |
| RandomPassword.PasswordForDrawsFor | index.js:459-464 | Reading a password's characters back as draws reproduces it. |
| RandomPassword.PasswordForIsInjective | index.js:459-464 | Different draws give different passwords. |
| RandomPassword.PasswordForAt | index.js:462-463 | The i-th character is `characters.charAt` of the i-th draw. |
| RandomPassword.PasswordFor | index.js:459-464 | The password the draws select: twelve `charAt` reads of the 62-character alphabet `characters`. |
| RandomPassword.IndexOf | index.js:457 | Every alphanumeric character has a position in the alphabet. |
| RandomPassword.DrawsFor | index.js:457-463 | For any alphanumeric string there are draws that select its characters. |
| Identities.AdminLogin | index.js:180-219 | 400 exactly when validation failed. 200 exactly when validation passed, the account exists and `claims.admin === true`; the reply then echoes `forcePasswordReset` as `forcePasswordChange`, and `permissions`. An unknown email is 401 "Invalid credentials" and a known account without admin claims is 401 "Not authorized", each exactly in its case. |
| Identities.IsAdmin | index.js:204 | `userClaims && userClaims.admin === true`. |
| Identities.LoginIgnoresPasswords | index.js:193-213 | Neither the password given nor the stored one changes the login decision. |
| Identities.CreateUser | index.js:61-98 | A known email or a refused creation gives 400 and stores nothing. Otherwise the account is stored unverified with the creation claims `{admin: true, permissions: "editor", forcePasswordReset: true}` (index.js:86), with status 200 or 400 depending on the mail. |
| Identities.UpdatePasswordReset | index.js:136-172 | A missing or empty email, or a failed mail, gives 400 and changes nothing. Otherwise the reply is 200; an unknown account changes nothing, and an existing one becomes exactly its old record with the reset claims `{admin: true, permissions: "editor", forcePasswordReset: false}` (index.js:160) and marked verified. |
| Identities.ChangeAdminRole | index.js:504-520 | Status 200 exactly when the account exists, and then the account becomes exactly its old record with claims `{admin: true}` (index.js:512). Otherwise the reply is 400 with nothing changed. |
| Identities.LoginAfterCreate | index.js:86 | A new account logs in at once, as an editor who must change the password. |
| Identities.LoginAfterReset | index.js:160-162 | After the reset update, login no longer asks for a password change, and the account is verified. |
| Identities.LoginAfterRoleChange | index.js:512 | After the role change the account is still an admin, but login reports neither a forced change nor permissions. |
| Identities.ClaimsWritesAreIdempotent | index.js:160 | Repeating a claims write changes nothing more. |
| Identities.ClaimsWritesOverwrite | index.js:160 | Whatever claims the account held, each write leaves exactly its own claims. |
| EmailVerification.Hex | index.js:273 | The code has two lower-case hex digits per random octet. |
| EmailVerification.UnhexHex | index.js:273 | The code decodes back to the random octets. |
| EmailVerification.HexInjective | index.js:273 | Different random octets give different codes. |
| EmailVerification.UnhexPair | index.js:273 | Two hex digits decode to the octet they were written from. |
| EmailVerification.LinkRoundTrip | index.js:276 | The link gives back both the code and the raw email, whatever the email holds, because the code holds no `&`. |
| EmailVerification.VerificationLink | index.js:276 | The link: the fixed page address, `?code=`, the code, `&email=` and the raw email (read back by `LinkRoundTrip`). |
| EmailVerification.CodeAndEmailOf | index.js:276 | The text after the code prefix splits into the code and the email at the first `&email=`. |
| EmailVerification.Issue | index.js:270-291 | Issuing appends exactly one record `{email, code}` with a 64-digit code, and returns the link that carries that code and the email. |
| EmailVerification.Redeem | index.js:330-370 | 400 exactly when the code or the email is missing or empty; 404 exactly when both are given but no record holds this email and this code; 500 exactly when a record matches but the account lookup fails; 200 (verified) exactly in the remaining case. Only then is the account marked verified; every other reply leaves the accounts alone. |
| EmailVerification.MissingParameterIgnoresStore | index.js:337-338 | A missing code or email gives 400 whatever the records and accounts hold. |
| EmailVerification.CodeIsBoundToItsEmail | index.js:340-347 | A code issued only for one email never verifies another email. |
| EmailVerification.IssueThenRedeem | index.js:270-364 | Redeeming a code just issued for an existing account succeeds. |
| EmailVerification.RedeemIsRepeatable | index.js:330-364 | Records are never consumed, so redeeming the same pair again gives the same reply and changes nothing more. |
| EmailVerification.RedeemChangesOnlyThatAccount | index.js:351-359 | Redeeming changes only the redeeming account's verified flag. |
| AdminService.AdminBackend.constructor | index.js:279 | The collection of records starts empty, beside a given identity store. |
| AdminService.AdminBackend.GenerateVerificationLink | index.js:270-291 | When the store accepts the record, appends exactly the issued record and returns its link; when it refuses, stores nothing and returns no link. Every stored code stays 64 lower-case hex digits. |
| AdminService.AdminBackend.SendVerificationMail | index.js:298-322 | Issues a code as above. The reply is 200 when the record is stored and the mail sent, and 500 otherwise; a failed mail leaves the record stored, a refused store leaves nothing. |
| AdminService.AdminBackend.VerifyEmail | index.js:330-370 | The reply and new accounts are those of `Redeem`, except that a failed update turns a would-be success into 500 with the accounts unchanged; the records are untouched. A code that verifies is 64 lower-case hex digits, because every stored code is (the invariant every handler keeps). |
| AdminService.AdminBackend.CreateUser | index.js:61-98 | The password is the one the draws select, and the new state and status are those of `Identities.CreateUser`. |
| AdminService.AdminBackend.UpdatePasswordReset | index.js:136-172 | The new state and status are those of `Identities.UpdatePasswordReset`; the records are untouched. |
| AdminService.AdminBackend.ChangeAdminRole | index.js:504-520 | The new state and status are those of `Identities.ChangeAdminRole`; the records are untouched. |
| AdminService.CreateVerifyLogin | index.js:61-219 | An account that is created and redeems its emailed code ends verified, keeps the generated password, and logs in as an editor who must change that password. |

## Left out

- HTTP and Express are not modelled: request parsing, JSON bodies and response objects. A handler's reply is its status code or a reply datatype.
- express-validator is reduced to its outcome. `/admin-login` takes a boolean `valid`. `/create-user` and `/email-verification` declare checks but never read `validationResult`, so those handlers do not depend on them.
- MD5, `crypto.randomBytes` and `Math.random` are parameters: a function from octets to hex, 32 octets, and twelve draws below 62.
- Firestore and Firebase Authentication are a `seq` of records and a `map` of accounts keyed by email. Lookups are exact string matches. Firebase's case normalisation of emails, and any concurrent writes, are not modelled.
- Nodemailer is a boolean `mailSent`. Mail contents, such as the password mail and the link text, are not modelled.
- The identity service's own refusals in `/create-user` (an invalid phone number, a weak password, quota) are one boolean `accepted`. `displayName` and `phoneNumber` are not stored.
- `Identities.UpdatePasswordReset`: the handler answers 200 after the mail and then calls `res` again. That second reply and the error it raises are not modelled. The state changes after the 200 are modelled, as is the case of an unknown account.
- `Identities.CreateUser`: a failure between storing the account and setting its claims is not modelled. The account is stored with its claims in one step.
- UriEncoding.EncodeUriComponent: a Dafny string holds only Unicode scalar values, so a parameter value or passphrase with a lone surrogate, on which `encodeURIComponent` throws a `URIError` (index.js:592, 597) and no signature is made, cannot be expressed.
- EmailVerification.Redeem: the second `getUserByEmail` after the update (index.js:361) is not modelled; it can only fail if the account is deleted concurrently. A failed `updateUser` (index.js:359) is modelled in `AdminService.AdminBackend.VerifyEmail`, not in `Redeem`.
- `EmailVerification.Issue`: an `undefined` email, which would be written into the link as the text `undefined`, is not modelled. The email is always a string.
- `EmailVerification.ParseLink` reads the email raw. How the verification page decodes the query string is outside this repository.
- `PayFastSignature.GenerateApiSignature`: parameter values are strings. Numbers, booleans and nested objects, which `encodeURIComponent` would first convert to strings, are not modelled.
- `/payment` is not modelled. It calls the signature builder with the passphrase as its only argument, so the passphrase is used as the parameter object and no passphrase is appended.
- `/payfast/callback` is not modelled. It would check an HMAC-MD5 over the JSON body, but its key `secureKey` (index.js:564) is declared nowhere in `index.js`, so every call throws and is answered with 500. It does not use the signature builder. `/notify_url` is not modelled either.
- `/`, `/admin-update`, `/reset-password`, `/send-contactus-email`, `/check-email-verification`, `/view-users` and `/delete-user` are not modelled. They only pass requests to Firebase or the mailer.
