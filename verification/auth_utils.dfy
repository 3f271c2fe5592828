/** Request authentication helpers of app/auth/utils.py: the e-mail format
    check, the bearer-token checks of `get_request_user` and
    `get_request_active_user`, and the challenge-code generator. JWT
    decoding, UUID parsing and randomness are library calls and arrive as
    parameters. */
module AuthUtils {
  import opened Types
  import opened Users

  // email_format_check

  predicate IsAsciiAlnum(c: char)
  {
    'a' <= c <= 'z' || 'A' <= c <= 'Z' || '0' <= c <= '9'
  }

  /** `[a-zA-Z0-9_.+-]`, the local part. */
  predicate LocalChar(c: char) { IsAsciiAlnum(c) || c == '_' || c == '.' || c == '+' || c == '-' }

  /** `[a-zA-Z0-9-]`, the first domain label. */
  predicate LabelChar(c: char) { IsAsciiAlnum(c) || c == '-' }

  /** `[a-zA-Z0-9-.]`, the rest of the domain. */
  predicate TailChar(c: char) { IsAsciiAlnum(c) || c == '-' || c == '.' }

  predicate AllLocal(s: string) { forall i :: 0 <= i < |s| ==> LocalChar(s[i]) }
  predicate AllLabel(s: string) { forall i :: 0 <= i < |s| ==> LabelChar(s[i]) }
  predicate AllTail(s: string) { forall i :: 0 <= i < |s| ==> TailChar(s[i]) }

  /** The index of the first `c` in `s`, if any. */
  function IndexOf(s: string, c: char): (r: Option<nat>)
    ensures r.None? <==> c !in s
    ensures r.Some? ==> r.value < |s| && s[r.value] == c && c !in s[..r.value]
  {
    if |s| == 0 then None
    else if s[0] == c then Some(0)
    else
      var r := IndexOf(s[1..], c);
      if r.None? then None
      else
        assert s[..r.value + 1] == [s[0]] + s[1..][..r.value];
        Some(r.value + 1)
  }

  /** The three parts of the pattern, split at the `@` at position `a` and
      the `.` at position `b`. */
  predicate EmailSplit(t: string, a: int, b: int)
  {
    && 0 < a && a + 1 < b && b + 1 < |t|
    && t[a] == '@' && t[b] == '.'
    && AllLocal(t[..a]) && AllLabel(t[a + 1..b]) && AllTail(t[b + 1..])
  }

  /** The reference reading of `^[a-zA-Z0-9_.+-]+@[a-zA-Z0-9-]+\.[a-zA-Z0-9-.]+$`
      under `re.match`: some split matches the whole string, or the whole
      string less one final newline (Python's `$` also matches there). */
  ghost predicate MatchesEmailPattern(s: string)
  {
    || HasSplit(s)
    || (|s| > 0 && s[|s| - 1] == '\n' && HasSplit(s[..|s| - 1]))
  }

  ghost predicate HasSplit(t: string)
  {
    exists a, b :: EmailSplit(t, a, b)
  }

  /** The split the regex engine finds: the local part runs to the first
      `@` (it cannot hold one) and the label to the next `.`. */
  function Shape(t: string): bool
  {
    match IndexOf(t, '@')
    case None => false
    case Some(a) =>
      match IndexOf(t[a + 1..], '.')
      case None => false
      case Some(k) => EmailSplit(t, a, a + 1 + k)
  }

  /** `email_format_check(email)`. */
  function EmailFormatCheck(s: string): (ok: bool)
    ensures ok ==> MatchesEmailPattern(s)
  {
    if |s| > 0 && s[|s| - 1] == '\n' then Shape(s[..|s| - 1]) else Shape(s)
  }

  /** The first occurrence is where `IndexOf` stops. */
  lemma {:induction false} IndexOfFirst(s: string, c: char, k: nat)
    requires k < |s| && s[k] == c
    requires forall i :: 0 <= i < k ==> s[i] != c
    ensures IndexOf(s, c) == Some(k)
  {
    if k > 0 {
      IndexOfFirst(s[1..], c, k - 1);
    }
  }

  /** Any matching split is the one `Shape` finds. */
  lemma ShapeComplete(t: string, a: int, b: int)
    requires EmailSplit(t, a, b)
    ensures Shape(t)
  {
    SplitAtFirstAt(t, a, b);
    SplitAtFirstDot(t, a, b);
  }

  /** The local part holds no `@`, so the split's `@` is the first. */
  lemma SplitAtFirstAt(t: string, a: int, b: int)
    requires EmailSplit(t, a, b)
    ensures IndexOf(t, '@') == Some(a)
  {
    forall i | 0 <= i < a ensures t[i] != '@' {
      assert LocalChar(t[..a][i]);
    }
    IndexOfFirst(t, '@', a);
  }

  /** The label holds no `.`, so the split's `.` is the first after `@`. */
  lemma SplitAtFirstDot(t: string, a: int, b: int)
    requires EmailSplit(t, a, b)
    ensures IndexOf(t[a + 1..], '.') == Some(b - a - 1)
  {
    var u := t[a + 1..];
    forall i | 0 <= i < b - a - 1 ensures u[i] != '.' {
      assert LabelChar(t[a + 1..b][i]);
    }
    IndexOfFirst(u, '.', b - a - 1);
  }

  /** A string with a trailing newline never matches as a whole. */
  lemma NoSplitWithNewline(s: string, a: int, b: int)
    requires |s| > 0 && s[|s| - 1] == '\n'
    ensures !EmailSplit(s, a, b)
  {
  }

  /** The check accepts exactly the strings the pattern matches, including
      a valid address followed by one newline. */
  lemma EmailCheckMatchesPattern(s: string)
    ensures EmailFormatCheck(s) <==> MatchesEmailPattern(s)
  {
    if |s| > 0 && s[|s| - 1] == '\n' {
      forall a, b ensures !EmailSplit(s, a, b) {
        NoSplitWithNewline(s, a, b);
      }
      if MatchesEmailPattern(s) {
        var a, b :| EmailSplit(s[..|s| - 1], a, b);
        ShapeComplete(s[..|s| - 1], a, b);
      }
    } else if MatchesEmailPattern(s) {
      var a, b :| EmailSplit(s, a, b);
      ShapeComplete(s, a, b);
    }
  }

  // get_request_user / get_request_active_user

  /** The claims of a decoded token: `sub` and `scopes` (absent scopes read
      as the empty list). */
  datatype Claims = Claims(sub: Option<string>, scopes: seq<string>)

  /** `jwt.decode`: the claims, or `None` where it raises `InvalidTokenError`
      (bad signature, expired). */
  type Decoder = string -> Option<Claims>

  /** `UUID(s)`: the canonical id, or `None` where it raises `ValueError`. */
  type UuidParser = string -> Option<string>

  /** `session.get(User, id)`. */
  function FindUser(users: seq<User>, id: string): (r: Option<User>)
    ensures r.None? <==> forall u :: u in users ==> u.id != id
    ensures r.Some? ==> r.value in users && r.value.id == id
  {
    if |users| == 0 then None
    else if users[0].id == id then Some(users[0])
    else FindUser(users[1..], id)
  }

  /** A non-empty token that decodes, carries a `sub` that parses as a
      UUID, and names an existing user: everything `get_request_user`
      checks before the scopes. */
  predicate Identified(token: Option<string>, decode: Decoder, parseUuid: UuidParser, users: seq<User>)
  {
    && token.Some? && token.value != ""
    && decode(token.value).Some?
    && decode(token.value).value.sub.Some?
    && parseUuid(decode(token.value).value.sub.value).Some?
    && FindUser(users, parseUuid(decode(token.value).value.sub.value).value).Some?
  }

  /** The scopes the token grants, as a set. */
  function Granted(token: string, decode: Decoder): set<string>
    requires decode(token).Some?
  {
    set s | s in decode(token).value.scopes
  }

  /** `get_request_user`: no token (absent or empty) means no user; a
      token that does not decode, lacks `sub`, has a `sub` that is not a
      UUID or names no user is a 401; a token missing one of the `required`
      scopes is a 403. */
  function GetRequestUser(token: Option<string>, required: set<string>, decode: Decoder,
                          parseUuid: UuidParser, users: seq<User>): (r: Result<Option<User>>)
    ensures token.None? || token.value == "" ==> r == Ok(None)
    ensures r == Ok(None) ==> token.None? || token.value == ""
    ensures r.Err? ==> r.error == Http(401) || r.error == Http(403)
    ensures r == Err(Http(401)) <==>
      token.Some? && token.value != "" && !Identified(token, decode, parseUuid, users)
    ensures r == Err(Http(403)) <==>
      Identified(token, decode, parseUuid, users) && !(required <= Granted(token.value, decode))
    ensures r.Ok? && r.value.Some? ==>
      && token.Some? && decode(token.value).Some?
      && decode(token.value).value.sub.Some?
      && parseUuid(decode(token.value).value.sub.value) == Some(r.value.value.id)
      && r.value.value in users
      && (forall s :: s in required ==> s in decode(token.value).value.scopes)
  {
    if token.None? || token.value == "" then Ok(None)
    else
      match decode(token.value)
      case None => Err(Http(401))
      case Some(claims) =>
        if claims.sub.None? then Err(Http(401))
        else
          match parseUuid(claims.sub.value)
          case None => Err(Http(401))
          case Some(id) =>
            match FindUser(users, id)
            case None => Err(Http(401))
            case Some(user) =>
              if exists s :: s in required && s !in claims.scopes then Err(Http(403))
              else Ok(Some(user))
  }

  /** `get_request_active_user`: no user is a 401, an inactive one a 403. */
  function GetRequestActiveUser(token: Option<string>, required: set<string>, decode: Decoder,
                                parseUuid: UuidParser, users: seq<User>): (r: Result<User>)
    ensures r.Ok? ==> r.value.isActive && r.value in users
    ensures GetRequestUser(token, required, decode, parseUuid, users) == Ok(None) ==> r == Err(Http(401))
    ensures GetRequestUser(token, required, decode, parseUuid, users).Err? ==>
      r == Err(GetRequestUser(token, required, decode, parseUuid, users).error)
    ensures GetRequestUser(token, required, decode, parseUuid, users).Ok? ==>
      var found := GetRequestUser(token, required, decode, parseUuid, users).value;
      found.Some? ==> (if found.value.isActive then r == Ok(found.value) else r == Err(Http(403)))
  {
    match GetRequestUser(token, required, decode, parseUuid, users)
    case Err(e) => Err(e)
    case Ok(None) => Err(Http(401))
    case Ok(Some(user)) => if !user.isActive then Err(Http(403)) else Ok(user)
  }

  /** Every condition the two dependencies check, in one place. */
  predicate Authorised(token: Option<string>, required: set<string>, decode: Decoder,
                       parseUuid: UuidParser, users: seq<User>, u: User)
  {
    && token.Some? && token.value != ""
    && decode(token.value).Some?
    && var c := decode(token.value).value;
    && c.sub.Some?
    && parseUuid(c.sub.value).Some?
    && FindUser(users, parseUuid(c.sub.value).value) == Some(u)
    && (forall s :: s in required ==> s in c.scopes)
    && u.isActive
  }

  /** A route guarded by `get_request_active_user` runs for `u` exactly
      when every check passes for `u`. */
  lemma ActiveUserIffAuthorised(token: Option<string>, required: set<string>, decode: Decoder,
                                parseUuid: UuidParser, users: seq<User>, u: User)
    ensures GetRequestActiveUser(token, required, decode, parseUuid, users) == Ok(u)
            <==> Authorised(token, required, decode, parseUuid, users, u)
  {
  }

  /** With a valid token for an existing user, the 403 is raised exactly
      when a required scope is missing from the token. */
  lemma ScopeCheckIsSubset(token: string, required: set<string>, decode: Decoder,
                           parseUuid: UuidParser, users: seq<User>)
    requires token != "" && decode(token).Some? && decode(token).value.sub.Some?
    requires parseUuid(decode(token).value.sub.value).Some?
    requires FindUser(users, parseUuid(decode(token).value.sub.value).value).Some?
    ensures GetRequestUser(Some(token), required, decode, parseUuid, users) == Err(Http(403))
            <==> !(required <= set s | s in decode(token).value.scopes)
  {
  }

  // random_code_generator

  /** `string.ascii_letters + string.digits`. */
  const CodeAlphabet: string := CharRange('a', 26) + CharRange('A', 26) + CharRange('0', 10)

  /** The `n` consecutive ASCII characters starting at `first`. */
  function CharRange(first: char, n: nat): (r: string)
    requires first as int + n <= 128
    ensures |r| == n
    ensures forall i :: 0 <= i < n ==> r[i] as int == first as int + i
  {
    if n == 0 then "" else CharRange(first, n - 1) + [(first as int + n - 1) as char]
  }

  /** Where each class of character sits in the alphabet. */
  lemma AlphabetLayout()
    ensures |CodeAlphabet| == 62
    ensures forall k :: 0 <= k < 26 ==> CodeAlphabet[k] as int == 'a' as int + k
    ensures forall k :: 26 <= k < 52 ==> CodeAlphabet[k] as int == 'A' as int + k - 26
    ensures forall k :: 52 <= k < 62 ==> CodeAlphabet[k] as int == '0' as int + k - 52
  {
    var lower, upper, digits := CharRange('a', 26), CharRange('A', 26), CharRange('0', 10);
    assert CodeAlphabet == lower + upper + digits;
    forall k | 26 <= k < 52 ensures CodeAlphabet[k] == upper[k - 26] { }
    forall k | 52 <= k < 62 ensures CodeAlphabet[k] == digits[k - 52] { }
  }

  /** `random_code_generator(length)`, with `picks` the positions
      `random.choice` drew from the alphabet, one per character. A negative
      length gives the empty code, as `range` does. */
  function RandomCode(length: int, picks: seq<nat>): (code: string)
    requires |picks| >= length
    requires forall i :: 0 <= i < |picks| ==> picks[i] < |CodeAlphabet|
    ensures |code| == if length > 0 then length else 0
    ensures forall i :: 0 <= i < |code| ==> IsAsciiAlnum(code[i]) && code[i] == CodeAlphabet[picks[i]]
  {
    AlphabetLayout();
    if length <= 0 then ""
    else [CodeAlphabet[picks[0]]] + RandomCode(length - 1, picks[1..])
  }

  /** Every letter and digit can be drawn: the alphabet is exactly the
      ASCII alphanumerics. */
  lemma AlphabetIsAlnum(c: char)
    ensures c in CodeAlphabet <==> IsAsciiAlnum(c)
  {
    AlphabetLayout();
    if IsAsciiAlnum(c) {
      var k := if 'a' <= c <= 'z' then c as int - 'a' as int
               else if 'A' <= c <= 'Z' then 26 + c as int - 'A' as int
               else 52 + c as int - '0' as int;
      assert CodeAlphabet[k] == c;
    }
  }
}
