/**
 * The pure guards of the credential and session helpers: the validation that
 * `registerUser` runs before touching the user store, the blank-field guard of
 * `authenticateUser`, the `salt:hash` split guard of `verifyPassword`, and the
 * expiry arithmetic of the session token. Hashing, the store and the
 * base64/JSON encoding of the token are not modelled; the clock is a parameter
 * (milliseconds, as `Date.now()` gives them).
 */
module Auth {
  import opened Strings

  /** `!s.trim()`: the field is empty once its white space is removed. */
  predicate IsBlank(s: string) {
    Trim(s) == ""
  }

  /** A field is blank exactly when it is made of white space only. */
  lemma BlankIffAllSpaces(s: string)
    ensures IsBlank(s) <==> AllSpaces(s)
  {
    TrimEmptyIffAllSpaces(s);
  }

  /** `s.length`: JavaScript counts UTF-16 code units, so a character outside
      the Basic Multilingual Plane counts twice. */
  function Utf16Length(s: string): nat
    decreases |s|
  {
    if s == [] then 0 else Utf16Length(s[..|s| - 1]) + (if s[|s| - 1] as int > 0xFFFF then 2 else 1)
  }

  lemma {:induction false} Utf16LengthBounds(s: string)
    ensures |s| <= Utf16Length(s) <= 2 * |s|
    decreases |s|
  {
    if s != [] {
      Utf16LengthBounds(s[..|s| - 1]);
    }
  }

  const MinPasswordLength: nat := 8

  /** No white space (`\s`) and no '@': the class `[^\s@]` of the e-mail pattern. */
  predicate IsEmailWordChar(c: char) {
    !IsSpace(c) && c != '@'
  }

  predicate IsEmailWord(s: string) {
    s != [] && forall i :: 0 <= i < |s| ==> IsEmailWordChar(s[i])
  }

  /** `email` reads `local@head.tail` with each of the three parts made of
      `[^\s@]+`: a match of `^[^\s@]+@[^\s@]+\.[^\s@]+$`. */
  ghost predicate EmailSplitsAs(email: string, local: string, head: string, tail: string) {
    && IsEmailWord(local) && IsEmailWord(head) && IsEmailWord(tail)
    && email == local + "@" + head + "." + tail
  }

  ghost predicate MatchesEmailPattern(email: string) {
    exists local, head, tail :: EmailSplitsAs(email, local, head, tail)
  }

  /** The e-mail test as the validator computes it: no white space, the text
      splits into exactly two pieces at '@', the first is not empty, and the
      domain holds a '.' with text on both sides. */
  predicate IsEmailShaped(email: string) {
    var parts := Split(email, '@');
    && (forall i :: 0 <= i < |email| ==> !IsSpace(email[i]))
    && |parts| == 2 && parts[0] != ""
    && |parts[1]| >= 3 && '.' in parts[1][1..|parts[1]| - 1]
  }

  /** The computed e-mail test agrees with the regular expression, both ways. */
  lemma EmailShapeIffPattern(email: string)
    ensures IsEmailShaped(email) <==> MatchesEmailPattern(email)
  {
    if IsEmailShaped(email) {
      ShapedEmailMatches(email);
    }
    if MatchesEmailPattern(email) {
      var local, head, tail :| EmailSplitsAs(email, local, head, tail);
      MatchingEmailIsShaped(email, local, head, tail);
    }
  }

  lemma ShapedEmailMatches(email: string)
    requires IsEmailShaped(email)
    ensures MatchesEmailPattern(email)
  {
    var parts := Split(email, '@');
    var d := parts[1];
    var k :| 0 <= k < |d[1..|d| - 1]| && d[1..|d| - 1][k] == '.';
    var head, tail := d[..k + 1], d[k + 2..];
    assert d == head + "." + tail;
    JoinSplit(email, '@');
    assert Join(parts, "@") == parts[0] + "@" + Join(parts[1..], "@");
    assert email == parts[0] + "@" + head + "." + tail;
    CharsOfEmail(email, parts[0], head, tail);
    assert EmailSplitsAs(email, parts[0], head, tail);
  }

  lemma MatchingEmailIsShaped(email: string, local: string, head: string, tail: string)
    requires EmailSplitsAs(email, local, head, tail)
    ensures IsEmailShaped(email)
  {
    var d := head + "." + tail;
    assert email == local + ['@'] + d;
    SplitAround(local, '@', d);
    SplitWithoutSeparator(local, '@');
    NoAtInDomain(head, tail);
    SplitWithoutSeparator(d, '@');
    assert Split(email, '@') == [local, d];
    assert d[1..|d| - 1][|head| - 1] == '.';
    NoSpaceInSplitEmail(email, local, head, tail);
  }

  lemma NoAtInDomain(head: string, tail: string)
    requires IsEmailWord(head) && IsEmailWord(tail)
    ensures '@' !in head + "." + tail
  {
    var d := head + "." + tail;
    forall i | 0 <= i < |d| ensures d[i] != '@' {
      if i < |head| { assert d[i] == head[i]; }
      else if i > |head| { assert d[i] == tail[i - |head| - 1]; }
    }
  }

  /** A matching e-mail has no white space in any of its pieces. */
  lemma NoSpaceInSplitEmail(email: string, local: string, head: string, tail: string)
    requires EmailSplitsAs(email, local, head, tail)
    ensures forall i :: 0 <= i < |email| ==> !IsSpace(email[i])
  {
    forall i | 0 <= i < |email| ensures !IsSpace(email[i]) {
      if i < |local| { assert email[i] == local[i]; }
      else if i == |local| { }
      else if i < |local| + 1 + |head| { assert email[i] == head[i - |local| - 1]; }
      else if i == |local| + 1 + |head| { }
      else { assert email[i] == tail[i - |local| - |head| - 2]; }
    }
  }

  /** The characters of `local@head.tail`, used in the forward direction above. */
  lemma CharsOfEmail(email: string, local: string, head: string, tail: string)
    requires email == local + "@" + head + "." + tail
    requires local != [] && head != [] && tail != []
    requires forall i :: 0 <= i < |email| ==> !IsSpace(email[i])
    requires '@' !in local && '@' !in head + "." + tail
    ensures IsEmailWord(local) && IsEmailWord(head) && IsEmailWord(tail)
  {
    forall i | 0 <= i < |local| ensures IsEmailWordChar(local[i]) {
      assert local[i] == email[i];
    }
    forall i | 0 <= i < |head| ensures IsEmailWordChar(head[i]) {
      assert head[i] == email[|local| + 1 + i];
      assert head[i] == (head + "." + tail)[i];
    }
    forall i | 0 <= i < |tail| ensures IsEmailWordChar(tail[i]) {
      assert tail[i] == email[|local| + |head| + 2 + i];
      assert tail[i] == (head + "." + tail)[|head| + 1 + i];
    }
  }

  datatype RegistrationError = MissingField | PasswordTooShort | InvalidEmail

  /** The message of the error `registerUser` throws for each failed check. */
  function RegistrationErrorMessage(e: RegistrationError): (m: string)
    ensures m != []
  {
    match e
    case MissingField => "Tous les champs sont obligatoires"
    case PasswordTooShort => "Le mot de passe doit contenir au minimum 8 caractères"
    case InvalidEmail => "Email invalide"
  }

  /** The three failed checks throw three different messages. */
  lemma RegistrationMessagesDiffer(e: RegistrationError, f: RegistrationError)
    ensures RegistrationErrorMessage(e) == RegistrationErrorMessage(f) <==> e == f
  {
    if e != f {
      assert |RegistrationErrorMessage(MissingField)| == 33;
      assert |RegistrationErrorMessage(PasswordTooShort)| == 53;
      assert |RegistrationErrorMessage(InvalidEmail)| == 14;
    }
  }

  /** The checks `registerUser` runs before any store access, in their order:
      the first failing rule decides the error; `None` lets registration go on. */
  function ValidateRegistration(fullName: string, email: string, password: string): (r: Option<RegistrationError>)
    ensures r == Some(MissingField) <==> AllSpaces(fullName) || AllSpaces(email) || AllSpaces(password)
    ensures r == Some(PasswordTooShort) <==>
      !AllSpaces(fullName) && !AllSpaces(email) && !AllSpaces(password) && Utf16Length(password) < MinPasswordLength
    ensures r == None ==> !AllSpaces(fullName) && !AllSpaces(password) && Utf16Length(password) >= MinPasswordLength
  {
    BlankIffAllSpaces(fullName);
    BlankIffAllSpaces(email);
    BlankIffAllSpaces(password);
    if IsBlank(fullName) || IsBlank(email) || IsBlank(password) then Some(MissingField)
    else if Utf16Length(password) < MinPasswordLength then Some(PasswordTooShort)
    else if !IsEmailShaped(email) then Some(InvalidEmail)
    else None
  }

  /** Registration passes validation exactly when the name is not blank, the
      password has at least 8 UTF-16 units, and the e-mail matches the pattern. */
  lemma RegistrationAccepted(fullName: string, email: string, password: string)
    ensures ValidateRegistration(fullName, email, password) == None <==>
      && !AllSpaces(fullName) && !AllSpaces(password)
      && Utf16Length(password) >= MinPasswordLength
      && MatchesEmailPattern(email)
  {
    EmailShapeIffPattern(email);
    if MatchesEmailPattern(email) && Utf16Length(password) >= MinPasswordLength {
      var local, head, tail :| EmailSplitsAs(email, local, head, tail);
      assert !IsSpace(email[0]) by { assert email[0] == local[0]; }
    }
  }

  /** Eight characters that are all white space pass the length rule but are
      refused as a blank field: the blank check comes first. */
  lemma BlankPasswordIsMissingField(fullName: string, email: string)
    ensures ValidateRegistration(fullName, email, "        ") == Some(MissingField)
  {
    assert AllSpaces("        ");
  }

  datatype LoginError = MissingCredentials

  /** The guard of `authenticateUser`, run before the user lookup. */
  function LoginGuard(email: string, password: string): (r: Option<LoginError>)
    ensures r.Some? <==> AllSpaces(email) || AllSpaces(password)
  {
    BlankIffAllSpaces(email);
    BlankIffAllSpaces(password);
    if IsBlank(email) || IsBlank(password) then Some(MissingCredentials) else None
  }

  /** Credentials that registration accepts also pass the login guard. */
  lemma RegisteredCredentialsPassLoginGuard(fullName: string, email: string, password: string)
    requires ValidateRegistration(fullName, email, password) == None
    ensures LoginGuard(email, password) == None
  {
  }

  /** The stored form `${salt}:${hash}` that `hashPassword` writes. */
  function StoredPasswordHash(salt: string, hash: string): string {
    salt + ":" + hash
  }

  datatype SaltAndHash = SaltAndHash(salt: string, hash: string)

  /** `const [salt, hash] = passwordHash.split(':')` and the guard
      `if (!salt || !hash) return false`: the first two pieces, both non-empty. */
  function SplitStoredHash(stored: string): (r: Option<SaltAndHash>)
    ensures r.Some? ==> r.value.salt != "" && r.value.hash != ""
    ensures r.Some? ==> ':' !in r.value.salt && ':' !in r.value.hash
    ensures ':' !in stored ==> r == None
    ensures r.Some? ==> StartsWith(stored, StoredPasswordHash(r.value.salt, r.value.hash))
  {
    var parts := Split(stored, ':');
    if ':' !in stored then
      SplitWithoutSeparator(stored, ':');
      None
    else if |parts| >= 2 && parts[0] != "" && parts[1] != "" then
      SplitPrefix(stored, ':');
      Some(SaltAndHash(parts[0], parts[1]))
    else None
  }

  /** When there are two or more pieces, the text starts with the first two joined by the separator. */
  lemma SplitPrefix(s: string, sep: char)
    requires |Split(s, sep)| >= 2
    ensures StartsWith(s, Split(s, sep)[0] + [sep] + Split(s, sep)[1])
  {
    var parts := Split(s, sep);
    JoinSplit(s, sep);
    assert Join(parts, [sep]) == parts[0] + [sep] + Join(parts[1..], [sep]);
    if |parts| > 2 {
      assert Join(parts[1..], [sep]) == parts[1] + [sep] + Join(parts[2..], [sep]);
    }
    var w := parts[0] + [sep] + parts[1];
    assert s[..|w|] == w;
  }

  /** What `hashPassword` stores is split back into its salt and hash. */
  lemma {:induction false} SplitStoredHashRoundTrip(salt: string, hash: string)
    requires salt != "" && hash != ""
    requires ':' !in salt && ':' !in hash
    ensures SplitStoredHash(StoredPasswordHash(salt, hash)) == Some(SaltAndHash(salt, hash))
  {
    var stored := StoredPasswordHash(salt, hash);
    assert stored == salt + [':'] + hash;
    SplitAround(salt, ':', hash);
    SplitWithoutSeparator(salt, ':');
    SplitWithoutSeparator(hash, ':');
    assert stored[|salt|] == ':';
  }

  /** `verifyPassword`: false without a usable salt and hash; otherwise the
      answer of `matches`, which stands for the PBKDF2 derivation and the
      constant-time comparison. */
  function VerifyPassword(password: string, stored: string, matches: (string, string, string) -> bool): (ok: bool)
    ensures ok <==> (SplitStoredHash(stored).Some? &&
      matches(password, SplitStoredHash(stored).value.salt, SplitStoredHash(stored).value.hash))
  {
    match SplitStoredHash(stored)
    case None => false
    case Some(p) => matches(password, p.salt, p.hash)
  }

  /** For what `hashPassword` stores (a non-empty salt and hash without ':',
      as its hexadecimal text is), verification is the derivation's answer. */
  lemma VerifyStoredPassword(password: string, salt: string, hash: string, matches: (string, string, string) -> bool)
    requires salt != "" && hash != "" && ':' !in salt && ':' !in hash
    ensures VerifyPassword(password, StoredPasswordHash(salt, hash), matches) == matches(password, salt, hash)
  {
    SplitStoredHashRoundTrip(salt, hash);
  }

  /** A stored value with an empty salt is refused whatever the password. */
  lemma EmptySaltRefused(password: string, rest: string, matches: (string, string, string) -> bool)
    ensures !VerifyPassword(password, ":" + rest, matches)
  {
    var s := ":" + rest;
    assert s == [] + [':'] + rest;
    SplitAround([], ':', rest);
  }

  /** 7 days, in seconds. */
  const SessionLifetime: int := 7 * 24 * 60 * 60

  /** The fields of a session token payload; `None` is a field that is absent. */
  datatype Token = Token(userId: string, iat: Option<int>, exp: Option<int>)

  /** `Math.floor(ms / 1000)`; Dafny's division by a positive number rounds down. */
  function Seconds(ms: int): int {
    ms / 1000
  }

  /** `generateSessionToken` as written: it reads `Date.now()` once for `iat`
      and again for `exp`. */
  function GenerateSessionTokenAsWritten(userId: string, iatReadMs: int, expReadMs: int): (t: Token)
    ensures t.userId == userId && t.iat.Some? && t.exp.Some?
    ensures t.exp.value - t.iat.value == SessionLifetime + Seconds(expReadMs) - Seconds(iatReadMs)
    ensures iatReadMs <= expReadMs ==> t.exp.value - t.iat.value >= SessionLifetime
    ensures expReadMs < iatReadMs ==> t.exp.value - t.iat.value <= SessionLifetime
    ensures Seconds(iatReadMs) == Seconds(expReadMs) ==> t.exp.value == t.iat.value + SessionLifetime
  {
    Token(userId, Some(Seconds(iatReadMs)), Some(Seconds(expReadMs) + SessionLifetime))
  }

  /** When the clock crosses a second between the two reads, the token lives
      one second longer than 7 days after its issue time. */
  lemma TwoClockReadsDrift()
    ensures var t := GenerateSessionTokenAsWritten("u", 999, 1000);
      t.exp.value - t.iat.value == SessionLifetime + 1
  {
  }

  /** When the wall clock is set back across a second between the two reads,
      the token lives one second less than 7 days after its issue time. */
  lemma ClockSetBackShortens()
    ensures var t := GenerateSessionTokenAsWritten("u", 1000, 999);
      t.exp.value - t.iat.value == SessionLifetime - 1
  {
  }

  /** `generateSessionToken` with one clock read for both fields. */
  function GenerateSessionToken(userId: string, nowMs: int): (t: Token)
    ensures t.userId == userId
    ensures t.iat == Some(Seconds(nowMs))
    ensures t.exp.Some? && t.exp.value - t.iat.value == SessionLifetime
  {
    var now := Seconds(nowMs);
    Token(userId, Some(now), Some(now + SessionLifetime))
  }

  /** JavaScript truthiness of an optional number: present and not zero. */
  predicate IsTruthy(x: Option<int>) {
    x.Some? && x.value != 0
  }

  /** `decodeSessionToken`: `decoded` is the result of the base64 and JSON
      decoding (`None` when it throws). The token is refused when `exp` is
      truthy and lies before the current second. */
  function DecodeSessionToken(decoded: Option<Token>, nowMs: int): (r: Option<Token>)
    ensures r.Some? ==> r == decoded
    ensures r == None <==>
      decoded == None || (decoded.value.exp.Some? && decoded.value.exp.value != 0 && decoded.value.exp.value < Seconds(nowMs))
  {
    match decoded
    case None => None
    case Some(t) => if IsTruthy(t.exp) && t.exp.value < Seconds(nowMs) then None else decoded
  }

  /** Expiry is inclusive: a token whose `exp` is the current second is accepted. */
  lemma ExpiresAfterItsLastSecond(t: Token, nowMs: int)
    requires t.exp == Some(Seconds(nowMs))
    ensures DecodeSessionToken(Some(t), nowMs) == Some(t)
  {
  }

  /** A token issued at a non-negative time is accepted exactly until 7 days
      after its issue second, and refused from then on. */
  lemma FreshTokenLifetime(userId: string, issuedMs: int, nowMs: int)
    requires issuedMs >= 0
    ensures var t := GenerateSessionToken(userId, issuedMs);
      DecodeSessionToken(Some(t), nowMs) == (if Seconds(nowMs) <= Seconds(issuedMs) + SessionLifetime then Some(t) else None)
  {
  }
}
