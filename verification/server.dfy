/**
  The two request handlers of server.py, with the credential table they read:
  `index_page` (GET /, lines 75-89) decides from the `username` cookie what to
  show, and `process_login` (POST /login, lines 92-108) checks a username and
  password and, on success, sets the signed cookie.

  Responses are values: a body (the login form template or an HTML text) and
  what happens to the `username` cookie.  An exception that escapes a handler
  is an `Outcome` of its own.
*/
module Server {
  import opened Basics
  import Base64
  import Utf8
  import Text
  import Signer
  import Session

  /** One entry of the `users` table. */
  datatype User = User(name: string, password: string, balance: int)

  /** The `users` table: the UTF-8 bytes of a username to that user's record. */
  type Users = map<seq<byte>, User>

  /**
    What the process fixes at start-up: the HMAC, the secret key read from the
    environment, and the user table.
  */
  datatype Config = Config(mac: Signer.HexMac, secretKey: seq<byte>, users: Users)

  /** The UTF-8 bytes of the username "balancy". */
  const Balancy: seq<byte> := [0x62, 0x61, 0x6C, 0x61, 0x6E, 0x63, 0x79]

  /** The UTF-8 bytes of the username "random_user". */
  const RandomUser: seq<byte> := [0x72, 0x61, 0x6E, 0x64, 0x6F, 0x6D, 0x5F, 0x75, 0x73, 0x65, 0x72]

  /** The `users` table written into server.py. */
  const DefaultUsers: Users := map[
    Balancy := User("Павел", "balancy", 100000),
    RandomUser := User("Василий", "random_user", 200000)
  ]

  /** The username "balancy" is UTF-8 text, as every Python str encodes to. */
  lemma BalancyWellFormed()
    ensures Utf8.WellFormed(Balancy)
  {
    Utf8.AsciiIsWellFormed(Balancy);
  }

  /** The name of the session cookie. */
  const CookieName := "username"

  /** The body of every failed login. */
  const LoginFailureText := "Я вас не знаю"

  datatype Body = LoginForm | Html(text: string)

  datatype CookieAction = KeepCookie | SetCookie(name: string, value: string) | DeleteCookie(name: string)

  datatype Response = Response(body: Body, cookie: CookieAction)

  /** An exception escaping a handler: from the token code, or a `users[...]` miss (KeyError). */
  datatype Fault = TokenFault(cause: Session.Fault) | UnknownUser(username: seq<byte>)

  datatype Outcome = Respond(response: Response) | Raise(fault: Fault)

  /** `fetch_user_greetings(user)`: the greeting text with the user's name and balance. */
  function Greeting(user: User): (text: string)
    ensures var prefix := "Привет, " + user.name + ". Баланс: ";
      |prefix| <= |text| && text[..|prefix|] == prefix
      && text[|prefix|..] == Text.Decimal(user.balance)
      && Text.ParseInt(text[|prefix|..]) == Some(user.balance)
  {
    var prefix, balance := "Привет, " + user.name + ". Баланс: ", Text.Decimal(user.balance);
    Text.ParseDecimal(user.balance);
    assert (prefix + balance)[|prefix|..] == balance;
    prefix + balance
  }

  /**
    `index_page(cookie)`.  No cookie (or an empty one) shows the login form;
    a cookie that the verifier rejects, or that names the empty username, shows
    the login form and deletes the cookie; a verified username is greeted.
  */
  function IndexPage(cfg: Config, cookie: Option<string>): (r: Outcome)
    ensures r == Respond(Response(LoginForm, KeepCookie)) <==> cookie == None || cookie == Some("")
    ensures r.Respond? && r.response.body.Html? ==>
      exists u :: u in cfg.users && u != [] && Utf8.WellFormed(u)
        && cookie == Some(Session.Mint(cfg.mac, cfg.secretKey, u))
        && r.response == Response(Html(Greeting(cfg.users[u])), KeepCookie)
    ensures r.Raise? && r.fault.UnknownUser? ==>
      r.fault.username !in cfg.users && cookie == Some(Session.Mint(cfg.mac, cfg.secretKey, r.fault.username))
    ensures r.Respond? && r.response.cookie.DeleteCookie? ==>
      r.response == Response(LoginForm, DeleteCookie(CookieName)) && cookie.Some? && cookie.value != ""
    ensures cookie.Some? && cookie.value != "" && multiset(cookie.value)[Session.Separator] != 1 ==>
      r == Respond(Response(LoginForm, DeleteCookie(CookieName)))
    ensures cookie.Some? && cookie.value != "" ==>
      var v := Session.Verify(cfg.mac, cfg.secretKey, cookie.value);
      (v == Session.Rejected || v == Session.Accepted([])) ==>
        r == Respond(Response(LoginForm, DeleteCookie(CookieName)))
    ensures cookie.Some? && cookie.value != "" ==>
      var v := Session.Verify(cfg.mac, cfg.secretKey, cookie.value);
      v.Raised? ==> r == Raise(TokenFault(v.fault))
    ensures r.Raise? && r.fault.TokenFault? ==>
      cookie.Some? && multiset(cookie.value)[Session.Separator] == 1
      && Session.Verify(cfg.mac, cfg.secretKey, cookie.value) == Session.Raised(r.fault.cause)
  {
    if cookie.None? || cookie.value == "" then Respond(Response(LoginForm, KeepCookie))
    else
      match Session.Verify(cfg.mac, cfg.secretKey, cookie.value)
      case Raised(f) => Raise(TokenFault(f))
      case Rejected => Respond(Response(LoginForm, DeleteCookie(CookieName)))
      case Accepted(u) =>
        if u == [] then Respond(Response(LoginForm, DeleteCookie(CookieName)))
        else if u !in cfg.users then Raise(UnknownUser(u))
        else Respond(Response(Html(Greeting(cfg.users[u])), KeepCookie))
  }

  /**
    `process_login(username, password)`.  The login succeeds exactly when the
    username is in the table and the password matches its stored one; a
    failure gives the same text whichever of the two was wrong, and no cookie.
  */
  function Login(cfg: Config, username: seq<byte>, password: string): (r: Response)
    ensures r.cookie.SetCookie? <==> username in cfg.users && cfg.users[username].password == password
    ensures !r.cookie.SetCookie? ==> r == Response(Html(LoginFailureText), KeepCookie)
    ensures r.cookie.SetCookie? ==>
      r.cookie == SetCookie(CookieName, Session.Mint(cfg.mac, cfg.secretKey, username))
      && r.body == Html(Greeting(cfg.users[username]))
  {
    if username !in cfg.users || cfg.users[username].password != password then
      Response(Html(LoginFailureText), KeepCookie)
    else
      Response(Html(Greeting(cfg.users[username])), SetCookie(CookieName, Session.Mint(cfg.mac, cfg.secretKey, username)))
  }

  /**
    The cookie a successful login sets, sent back to the home page, brings the
    same greeting the login showed, and never a fault; the one exception is
    the empty username, which the home page treats as no login.
  */
  lemma LoginThenIndex(cfg: Config, username: seq<byte>, password: string)
    requires Signer.IsHexDigestMac(cfg.mac)
    requires Utf8.WellFormed(username)
    requires Login(cfg, username, password).cookie.SetCookie?
    ensures var login := Login(cfg, username, password);
      IndexPage(cfg, Some(login.cookie.value))
      == if username == [] then Respond(Response(LoginForm, DeleteCookie(CookieName)))
         else Respond(Response(login.body, KeepCookie))
  {
    MintedTokenVerdict(cfg, username);
  }

  /**
    The home page greets the token minted for a non-empty username in the
    table with that user's greeting.  The converse, that only such tokens are
    greeted, is a postcondition of `IndexPage`.
  */
  lemma GreetsMintedToken(cfg: Config, u: seq<byte>)
    requires Signer.IsHexDigestMac(cfg.mac)
    requires u in cfg.users && u != [] && Utf8.WellFormed(u)
    ensures IndexPage(cfg, Some(Session.Mint(cfg.mac, cfg.secretKey, u)))
         == Respond(Response(Html(Greeting(cfg.users[u])), KeepCookie))
  {
    MintedTokenVerdict(cfg, u);
  }

  /** The home page's decision on the token minted for a UTF-8 username. */
  lemma MintedTokenVerdict(cfg: Config, u: seq<byte>)
    requires Signer.IsHexDigestMac(cfg.mac)
    requires Utf8.WellFormed(u)
    ensures IndexPage(cfg, Some(Session.Mint(cfg.mac, cfg.secretKey, u)))
         == if u == [] then Respond(Response(LoginForm, DeleteCookie(CookieName)))
            else if u !in cfg.users then Raise(UnknownUser(u))
            else Respond(Response(Html(Greeting(cfg.users[u])), KeepCookie))
  {
    var token := Session.Mint(cfg.mac, cfg.secretKey, u);
    Session.VerifyMinted(cfg.mac, cfg.secretKey, u);
    assert token != "" by {
      assert multiset(token)[Session.Separator] == 1;
    }
    AcceptedVerdict(cfg, token, u);
  }

  /** The home page's decision on a non-empty cookie the verifier accepts. */
  lemma AcceptedVerdict(cfg: Config, cookie: string, u: seq<byte>)
    requires cookie != "" && Session.Verify(cfg.mac, cfg.secretKey, cookie) == Session.Accepted(u)
    ensures IndexPage(cfg, Some(cookie))
         == if u == [] then Respond(Response(LoginForm, DeleteCookie(CookieName)))
            else if u !in cfg.users then Raise(UnknownUser(u))
            else Respond(Response(Html(Greeting(cfg.users[u])), KeepCookie))
  {
  }

  /**
    The minted token of a username that is not in the table passes
    verification and then fails the table lookup: `users[...]` raises.
  */
  lemma UnknownUserRaises(cfg: Config, u: seq<byte>)
    requires Signer.IsHexDigestMac(cfg.mac)
    requires u !in cfg.users && u != [] && Utf8.WellFormed(u)
    ensures IndexPage(cfg, Some(Session.Mint(cfg.mac, cfg.secretKey, u))) == Raise(UnknownUser(u))
  {
    MintedTokenVerdict(cfg, u);
  }

  /**
    A cookie with a username's correct encoding but a forged ASCII signature
    shows the login form and deletes the cookie.
  */
  lemma ForgedSignatureClearsCookie(cfg: Config, u: seq<byte>, forged: string)
    requires Signer.IsHexDigestMac(cfg.mac)
    requires Utf8.WellFormed(u)
    requires Session.Separator !in forged && IsAscii(forged)
    requires forged != Signer.SignData(cfg.mac, cfg.secretKey, u)
    ensures IndexPage(cfg, Some(Base64.Encode(u) + [Session.Separator] + forged))
         == Respond(Response(LoginForm, DeleteCookie(CookieName)))
  {
    Session.TamperedSignatureRejected(cfg.mac, cfg.secretKey, u, forged);
  }

  /**
    The home page with token errors handled: a cookie whose verification
    raises is treated like one whose signature does not match.  This is the
    behaviour the rejection branch of `index_page` is evidently meant to give
    every bad cookie; the code as written lets the exception escape.
  */
  function IndexPageIntended(cfg: Config, cookie: Option<string>): (r: Outcome)
    ensures !(r.Raise? && r.fault.TokenFault?)
    ensures cookie.Some? && cookie.value != ""
      && (forall u :: Utf8.WellFormed(u) ==> cookie.value != Session.Mint(cfg.mac, cfg.secretKey, u))
      ==> r == Respond(Response(LoginForm, DeleteCookie(CookieName)))
    ensures IndexPage(cfg, cookie).Respond? ==> r == IndexPage(cfg, cookie)
  {
    match IndexPage(cfg, cookie)
    case Raise(TokenFault(_)) => Respond(Response(LoginForm, DeleteCookie(CookieName)))
    case other => other
  }

  /**
    A cookie with one separator whose first part is not base 64 makes the
    home page raise, where the intended handling shows the login form and
    deletes the cookie.
  */
  lemma MalformedTokenFaults(cfg: Config, encoded: string, sig: string)
    requires Session.Separator !in encoded && Session.Separator !in sig
    requires Base64.Decode(encoded) == None
    ensures IndexPage(cfg, Some(encoded + [Session.Separator] + sig)) == Raise(TokenFault(Session.MalformedBase64))
    ensures IndexPageIntended(cfg, Some(encoded + [Session.Separator] + sig))
         == Respond(Response(LoginForm, DeleteCookie(CookieName)))
  {
    Session.VerifyTwoParts(cfg.mac, cfg.secretKey, encoded, sig);
  }

  /** The cookie "A.B" is such a cookie. */
  lemma MalformedTokenExample(cfg: Config)
    ensures IndexPage(cfg, Some("A.B")) == Raise(TokenFault(Session.MalformedBase64))
    ensures IndexPageIntended(cfg, Some("A.B")) == Respond(Response(LoginForm, DeleteCookie(CookieName)))
  {
    assert "A" + [Session.Separator] + "B" == "A.B";
    MalformedTokenFaults(cfg, "A", "B");
  }

  /**
    A cookie whose first part is a correct encoding of bytes that are not
    UTF-8 makes the home page raise (`.decode()` fails), where the intended
    handling shows the login form and deletes the cookie.
  */
  lemma MalformedUtf8Faults(cfg: Config, u: seq<byte>, sig: string)
    requires !Utf8.WellFormed(u)
    requires Session.Separator !in sig
    ensures IndexPage(cfg, Some(Base64.Encode(u) + [Session.Separator] + sig))
         == Raise(TokenFault(Session.MalformedUtf8))
    ensures IndexPageIntended(cfg, Some(Base64.Encode(u) + [Session.Separator] + sig))
         == Respond(Response(LoginForm, DeleteCookie(CookieName)))
  {
    var encoded := Base64.Encode(u);
    var cookie := encoded + [Session.Separator] + sig;
    Base64.EncodeHasNoDot(u);
    Base64.DecodeEncode(u);
    Session.VerifyTwoParts(cfg.mac, cfg.secretKey, encoded, sig);
    assert Session.Verify(cfg.mac, cfg.secretKey, cookie) == Session.Raised(Session.MalformedUtf8);
    assert cookie[|encoded|] == Session.Separator;
  }

  /** The cookie "gA==.X" is such a cookie: "gA==" encodes the lone byte 0x80, a continuation byte. */
  lemma MalformedUtf8Example(cfg: Config)
    ensures Base64.Encode([0x80]) == "gA=="
    ensures IndexPage(cfg, Some(Base64.Encode([0x80]) + [Session.Separator] + "X"))
         == Raise(TokenFault(Session.MalformedUtf8))
    ensures IndexPageIntended(cfg, Some(Base64.Encode([0x80]) + [Session.Separator] + "X"))
         == Respond(Response(LoginForm, DeleteCookie(CookieName)))
  {
    EncodeHighByte();
    MalformedUtf8Faults(cfg, [0x80], "X");
  }

  /** The lone byte 0x80 is a continuation byte, not UTF-8 text, and encodes as "gA==". */
  lemma EncodeHighByte()
    ensures Base64.Encode([0x80]) == "gA=="
    ensures !Utf8.WellFormed([0x80])
  {
    assert Base64.CharOf(32) == 'g' && Base64.CharOf(0) == 'A';
    assert Utf8.IsTail([0x80 as byte][0]);
  }

  /** The byte string of "A" is UTF-8 text and encodes as "QQ==". */
  lemma EncodeA()
    ensures Base64.Encode([65]) == "QQ=="
    ensures Utf8.WellFormed([65])
  {
    assert Base64.CharOf(16) == 'Q';
    Utf8.AsciiIsWellFormed([65]);
  }

  /**
    A cookie whose signature part holds a non-ASCII character makes the home
    page raise, because `compare_digest` refuses such strings; this happens
    even when the first part is a correct encoding, such as "QQ==.é".
  */
  lemma NonAsciiSignatureFaults(cfg: Config, u: seq<byte>, forged: string)
    requires Signer.IsHexDigestMac(cfg.mac)
    requires Utf8.WellFormed(u)
    requires Session.Separator !in forged && !IsAscii(forged)
    ensures IndexPage(cfg, Some(Base64.Encode(u) + [Session.Separator] + forged))
         == Raise(TokenFault(Session.NonAsciiComparison))
    ensures IndexPageIntended(cfg, Some(Base64.Encode(u) + [Session.Separator] + forged))
         == Respond(Response(LoginForm, DeleteCookie(CookieName)))
  {
    var cookie := Base64.Encode(u) + [Session.Separator] + forged;
    assert Signer.IsUpperHexDigest(Signer.SignData(cfg.mac, cfg.secretKey, u));
    Session.TamperedSignatureRejected(cfg.mac, cfg.secretKey, u, forged);
    assert Session.Verify(cfg.mac, cfg.secretKey, cookie) == Session.Raised(Session.NonAsciiComparison);
    assert cookie[|Base64.Encode(u)|] == Session.Separator;
  }

  /** The cookie "QQ==.é", the encoding of "A" followed by a non-ASCII signature, is such a cookie. */
  lemma NonAsciiSignatureExample(cfg: Config)
    requires Signer.IsHexDigestMac(cfg.mac)
    ensures Base64.Encode([65]) == "QQ=="
    ensures IndexPage(cfg, Some(Base64.Encode([65]) + [Session.Separator] + "é"))
         == Raise(TokenFault(Session.NonAsciiComparison))
    ensures IndexPageIntended(cfg, Some(Base64.Encode([65]) + [Session.Separator] + "é"))
         == Respond(Response(LoginForm, DeleteCookie(CookieName)))
  {
    EncodeA();
    assert "é"[0] as int == 0xE9;
    NonAsciiSignatureFaults(cfg, [65], "é");
  }

  /** The balance of the first user in the table, as the greeting prints it. */
  lemma BalancyBalanceText()
    ensures Text.Decimal(100000) == "100000"
  {
    assert Text.NatDigits(1) == "1";
    assert Text.NatDigits(10) == "10";
    assert Text.NatDigits(100) == "100";
    assert Text.NatDigits(1000) == "1000";
    assert Text.NatDigits(10000) == "10000";
  }

  /** The greeting of the first user in the table. */
  lemma BalancyGreeting()
    ensures Balancy in DefaultUsers
    ensures Greeting(DefaultUsers[Balancy]) == "Привет, Павел. Баланс: 100000"
  {
    var user := User("Павел", "balancy", 100000);
    assert DefaultUsers[Balancy] == user;
    BalancyBalanceText();
    var prefix, text := "Привет, " + "Павел" + ". Баланс: ", Greeting(user);
    assert text == text[..|prefix|] + text[|prefix|..];
    assert prefix + "100000" == "Привет, Павел. Баланс: 100000";
  }

  /** The first end-to-end scenario: `balancy` logs in with the right password. */
  lemma BalancyLogsIn(mac: Signer.HexMac, key: seq<byte>)
    requires Signer.IsHexDigestMac(mac)
    ensures var cfg := Config(mac, key, DefaultUsers);
      var r := Login(cfg, Balancy, "balancy");
      && r.body == Html("Привет, Павел. Баланс: 100000")
      && r.cookie.SetCookie? && r.cookie.name == CookieName
      && Session.Verify(mac, key, r.cookie.value) == Session.Accepted(Balancy)
  {
    var cfg := Config(mac, key, DefaultUsers);
    BalancyGreeting();
    assert DefaultUsers[Balancy].password == "balancy";
    var token := Session.Mint(mac, key, Balancy);
    assert Login(cfg, Balancy, "balancy") == Response(Html(Greeting(DefaultUsers[Balancy])), SetCookie(CookieName, token));
    BalancyWellFormed();
    Session.VerifyMinted(mac, key, Balancy);
  }

  /** A wrong password and an unknown username give the same failure and no cookie. */
  lemma LoginFailures(mac: Signer.HexMac, key: seq<byte>)
    ensures var cfg := Config(mac, key, DefaultUsers);
      && Login(cfg, Balancy, "wrong") == Response(Html(LoginFailureText), KeepCookie)
      && Login(cfg, [0x6E, 0x6F, 0x62, 0x6F, 0x64, 0x79], "x") == Response(Html(LoginFailureText), KeepCookie)
  {
  }
}
