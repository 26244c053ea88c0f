# Signed-cookie sessions of fastapi_simple_auth

This project models the session logic of `server.py`, a small FastAPI service with a
fixed user table. Logging in with a correct username and password sets a
`username` cookie. Its value is the base 64 encoding of the username, a `.`, and
an upper-case hexadecimal HMAC-SHA256 signature of the username under a secret
key. The home page reads that cookie back. It verifies the signature and greets
the user with their name and balance. If the signature does not match, it
shows the login form and deletes the cookie.

The model has these modules:

- `Basics` (basics.dfy): bytes, `Option` and the ASCII predicate.
- `Base64` (base64.dfy): the encoder of section 4 of RFC 4648, and a strict
  decoder that is its exact inverse.
- `Utf8` (utf8.dfy): well-formed UTF-8 as defined in section 4 of RFC 3629.
  This is the condition under which `bytes.decode()` succeeds.
- `Text` (text.dfy): `str.count`, `str.split` and `str.join` for one character,
  and decimal formatting of integers.
- `Signer` (signer.dfy): `sign_data`. The HMAC is a function parameter `mac`.
- `Session` (session.dfy): the token the login handler mints, and
  `extract_username_from_signed_string` as `Verify`. `Verify` returns one of
  three verdicts: rejected, accepted with a username, or an exception it raised.
- `Server` (server.dfy): the two handlers `index_page` and
  `process_login` over a configuration. The configuration holds the HMAC, the
  key and the user table. Responses are values; an exception that escapes a
  handler is a separate outcome.

Usernames are the UTF-8 bytes of the Python strings. The one thing assumed of
the HMAC is `Signer.IsHexDigestMac`: every result is 64 lower-case hexadecimal
digits, the shape `hexdigest()` gives for SHA-256. It appears as a
precondition of the lemmas that need it, and as the hypothesis of the
`Session.Mint` clause that the token holds exactly one separator.

Where the service's documented intent and its code differ, the model follows
the code:

- A cookie with one `.` whose first part is not valid base 64, or whose bytes
  are not UTF-8, makes `extract_username_from_signed_string` raise. It does not
  return `None`. This is `Session.Fault`, and the home page lets it escape
  (see Findings).
- `hmac.compare_digest` raises `TypeError` when handed a string with a
  non-ASCII character. A cookie whose signature part holds one therefore makes
  the home page raise, not reject.
- A cookie that verifies to the empty username is falsy in `index_page`. It is
  handled like a rejected cookie: login form, cookie deleted.
- A verified username missing from `users` raises `KeyError` (`UnknownUser`).

## Model

| member | source | states |
|---|---|---|
| Base64.CharOf | server.py:104 | each sextet maps to a character of the base 64 alphabet whose index is that sextet |
| Base64.Encode | server.py:104 | the encoding uses only alphabet characters and `=` padding |
| Base64.EncodedLength | server.py:104 | the encoding of n bytes has 4·⌈n/3⌉ characters |
| Base64.EncodeHasNoDot | server.py:104-105 | an encoded username never contains the `.` separator, so the minted token has exactly one |
| Base64.Decode | server.py:69 | the strict decoder accepts only whole quanta over the alphabet and `=`, and gives no bytes only for the empty string; Base64.DecodeIffEncode gives its meaning |
| Base64.DecodeEncode | server.py:69 | decoding the encoding of any bytes gives those bytes back |
| Base64.EncodeDecode | server.py:69 | whatever the strict decoder accepts is the encoding of what it returns, so the encoding is unique |
| Base64.DecodeIffEncode | server.py:69 | a string decodes to some bytes exactly when it is their encoding |
| Utf8.LeadingCharLength | server.py:69 | a well-formed character is 1 to 4 bytes long, and is one byte exactly when it is ASCII |
| Utf8.WellFormed | server.py:69 | `.decode()` succeeds only on bytes that hold none of the bytes UTF-8 never uses (0xC0, 0xC1, 0xF5 and up) and that do not start with a continuation byte; Utf8.LeadingCharLength and Utf8.AsciiIsWellFormed pin it down further |
| Utf8.AsciiIsWellFormed | server.py:18-29 | ASCII usernames such as `balancy` decode as UTF-8 without error |
| Text.Count | server.py:65 | the count of the separator is its multiplicity in the cookie |
| Text.Split | server.py:68 | splitting gives one more piece than there are separators, and no piece contains the separator |
| Text.JoinSplit | server.py:68 | joining the pieces of a split with the separator gives the cookie back |
| Text.SplitJoin | server.py:68 | splitting a non-empty list of separator-free pieces (each possibly empty) joined by the separator gives the list back |
| Text.Decimal | server.py:50 | `str(n)` has a minus sign exactly for negatives, then non-empty digits with no leading zero except for 0; Text.ParseDecimal gives its value |
| Text.ParseDecimal | server.py:50 | the decimal text of a balance, negatives included, reads back as that balance |
| Signer.Upper | server.py:45 | upper-casing keeps the length, leaves no lower-case ASCII letter, turns each lower-case letter into its capital and leaves every other character alone; a lower-case hex digest becomes an upper-case one |
| Signer.UpperIdempotent | server.py:45 | upper-casing an already upper-cased string changes nothing |
| Signer.SignData | server.py:38-45 | given the HMAC assumption, the signature is 64 upper-case hex digits, is ASCII and has no `.` |
| Session.Mint | server.py:104-105 | the login token holds exactly one separator |
| Session.CheckSignature | server.py:69-72 | a first part that does not decode raises `binascii.Error`; one that decodes to bytes that are not UTF-8 raises `UnicodeDecodeError`; only the encoding of a UTF-8 username, together with that username's signature, is accepted |
| Session.Verify | server.py:62-72 | a cookie without exactly one `.` is rejected; the two-part unpacking never fails; an accepted cookie is the token minted for the username returned |
| Session.VerifyTwoParts | server.py:65-72 | a cookie of two separator-free parts is judged on those two parts |
| Session.SplitTwoParts | server.py:68 | a two-part token splits into exactly its encoded username and its signature |
| Session.VerifyMinted | server.py:104-105 | round trip: the token minted for a UTF-8 username verifies to that username |
| Session.AcceptedParts | server.py:68-72 | an accepted cookie splits in two, its first part decodes to the username, and its second is that username's signature |
| Session.AcceptsExactlyMinted | server.py:62-72 | a cookie is accepted for a username if and only if it is the token minted for it |
| Session.TamperedSignatureRejected | server.py:70-72 | a changed signature is never accepted: it is rejected when ASCII, and `compare_digest` raises otherwise |
| Server.IndexPage | server.py:75-89 | no cookie or an empty one shows the form and keeps cookies; a non-empty cookie without exactly one `.`, one the verifier rejects, or one that verifies to the empty username gets the form and the cookie deleted; a non-empty cookie whose verification raises lets that exception escape, and a token exception escapes only that way; a greeting is shown only for the minted token of a non-empty username in the table; a missing user raises only for a minted token; deleting the cookie always comes with the form |
| Server.Greeting | server.py:48-52 | the greeting is `Привет, ` and the name, then `. Баланс: `, then the balance in the canonical decimal form of Text.Decimal, which reads back as the balance |
| Server.Login | server.py:92-108 | the cookie is set if and only if the username is known and the password matches; failure gives the same text and no cookie; success sets the minted token and shows the greeting |
| Server.LoginThenIndex | server.py:101-106 | the cookie set by a login brings the home page to the same greeting, except that the empty username gets the form with the cookie deleted |
| Server.AcceptedVerdict | server.py:83-89 | a non-empty cookie the verifier accepts gets the form and the cookie deleted for the empty username, raises the `users[...]` lookup for a username missing from the table, and greets every other user |
| Server.MintedTokenVerdict | server.py:80-89 | the token minted for a UTF-8 username gets the form and the cookie deleted for the empty username, raises the `users[...]` lookup for a username missing from the table, and greets every other user |
| Server.UnknownUserRaises | server.py:89 | the minted token of a non-empty UTF-8 username that is not in the table makes the `users[...]` lookup raise |
| Server.GreetsMintedToken | server.py:83-89 | the minted token of a non-empty username in the table gets that user's greeting |
| Server.ForgedSignatureClearsCookie | server.py:84-87 | a correctly encoded username with a wrong ASCII signature gets the form and the cookie deleted |
| Server.IndexPageIntended | server.py:83-87 | the home page with token exceptions handled: it never raises a token fault, gives the form and deletes any non-empty cookie that is not a minted token, and agrees with `index_page` wherever that responds |
| Server.MalformedTokenFaults | server.py:69 | a one-dot cookie whose first part is not base 64 makes the home page raise; the intended page rejects it |
| Server.MalformedUtf8Faults | server.py:69 | a one-dot cookie whose first part correctly encodes bytes that are not UTF-8 makes the home page raise; the intended page rejects it |
| Server.MalformedUtf8Example | server.py:69 | the cookie `gA==.X` (the lone byte 0x80) makes the home page raise; the intended page rejects it |
| Server.MalformedTokenExample | server.py:69 | the cookie `A.B` makes the home page raise; the intended page rejects it |
| Server.NonAsciiSignatureFaults | server.py:71 | a correctly encoded username with a non-ASCII signature makes the home page raise; the intended page rejects it |
| Server.NonAsciiSignatureExample | server.py:71 | the cookie `QQ==.é` makes the home page raise; the intended page rejects it |
| Server.BalancyGreeting | server.py:48-52 | the greeting of `balancy` is `Привет, Павел. Баланс: 100000` |
| Server.BalancyLogsIn | server.py:97-106 | `balancy` with password `balancy` gets that greeting and a `username` cookie that verifies to `balancy` |
| Server.LoginFailures | server.py:97-99 | a wrong password and an unknown username both get `Я вас не знаю` and no cookie |

## Left out

- FastAPI routing, the Jinja2 login template, `Response` objects and static files are not modelled. A response is its body and what it does to the `username` cookie.
- HMAC-SHA256 and the loading of `SECRET_KEY` from the environment are not modelled. The HMAC is a parameter, and a missing key is outside the model.
- The constant-time behaviour of `hmac.compare_digest` is not modelled. Only its result and its `TypeError` on non-ASCII strings are.
- Base64.Decode: Python's `b64decode` is more lenient than this decoder. It drops characters outside the alphabet, accepts non-zero padding bits, and stops at the first complete padding, ignoring what follows. On such a cookie the model raises `MalformedBase64`, where Python would decode and go on to compare signatures. The strict decoder is used because it is exactly the inverse of the encoder.
- Session.Verify: "an accepted cookie is the minted token" holds for the strict decoder only. Python also accepts non-canonical spellings of the first part with the right signature, such as `QR==.` or `QQ==zz.` followed by the signature of `A`, as the username `A`.
- Session.AcceptsExactlyMinted: the "only if" direction holds for the strict decoder only, for the same non-canonical spellings.
- Session.CheckSignature: accepts only the canonical encoding; Python's decoder also accepts the lenient spellings above.
- Server.MalformedTokenFaults: "not base 64" means rejected by the strict decoder; a first part that is only non-canonical, such as `QR==`, decodes in Python and reaches the signature comparison instead of raising.
- Server.IndexPage: greets (or fails the lookup for) minted tokens only, as the strict decoder gives; Python would also greet the non-canonical spellings above.
- Utf8.WellFormed: only says whether `bytes.decode()` fails. The decoded `str` is represented by its UTF-8 bytes, which determine it uniquely: the table is keyed by those bytes, the username returned and looked up is those bytes, and the empty text is the empty byte string.
- Signer.Upper: upper-cases ASCII letters only. A hex digest has no other letters.
- Server.Login: form fields that are not valid Unicode text (lone surrogates) are not modelled. A username arrives as its UTF-8 bytes.
- Logout and salted password hashing are not part of this source. `static/script.js` is client-side and not modelled.
- Idempotence of the handlers is not stated. They are pure functions of the configuration and the request, so it holds trivially.

## Findings

| source | as written | input that shows it | evidently intended | confidence | as-written member | corrected member |
|---|---|---|---|---|---|---|
| server.py:69 | `extract_username_from_signed_string` calls `b64decode` unguarded, so a one-dot cookie whose first part is not base 64 raises `binascii.Error` out of `index_page` (HTTP 500) | cookie `A.B` | treat it as an invalid cookie: login form, cookie deleted (server.py:84-87) | medium, not executed | Server.MalformedTokenExample | Server.IndexPageIntended |
| server.py:69 | the `.decode()` of the decoded bytes is unguarded too, so a one-dot cookie whose first part encodes bytes that are not UTF-8 raises `UnicodeDecodeError` out of `index_page` | cookie `gA==.X` | treat it as an invalid cookie: login form, cookie deleted | medium, not executed | Server.MalformedUtf8Example | Server.IndexPageIntended |
| server.py:71 | `compare_digest` raises `TypeError` on a non-ASCII signature part, which escapes `index_page` | cookie `QQ==.é` | treat it as a signature mismatch: login form, cookie deleted | medium, not executed | Server.NonAsciiSignatureExample | Server.IndexPageIntended |

`Server.IndexPageIntended` is equal to `Server.IndexPage` wherever the latter responds. So the greeting and round-trip lemmas about the home page hold for the corrected page as well.
