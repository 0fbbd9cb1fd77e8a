/** Stand-ins for the two libraries the user routes call: bcryptjs for
    password hashing and jsonwebtoken for signing identity claims.
    Neither stand-in has any cryptographic strength; they only fix the
    shape of what the routes store and emit. */
module Crypto {

  /** Cost factor the routes pass to `bcrypt.hashSync`. */
  const BcryptCost: nat := 7

  /** Lifetime of every issued token (`expiresIn: '1h'`), in seconds. */
  const TokenLifetime: nat := 3600

  /** Scheme label written in front of every issued token. */
  const Scheme: string := "Bearer "

  /** The random salt bcrypt draws for each hash; a parameter here. */
  type Salt = string

  /** A stored bcrypt hash: the cost, salt and digest that the
      `$2a$07$...` string carries. */
  datatype PasswordHash = PasswordHash(cost: nat, salt: Salt, digest: string)

  /** Stand-in for bcrypt's key derivation. */
  function Digest(salt: Salt, password: string): string
  {
    salt + "$" + password
  }

  /** `bcrypt.hashSync(password, 7)` with the salt it would draw. The
      password verifies against its own hash, whatever salt was drawn. */
  function Hash(password: string, salt: Salt): (h: PasswordHash)
    ensures Verify(password, h)
    ensures h.cost == BcryptCost && h.salt == salt
  {
    PasswordHash(BcryptCost, salt, Digest(salt, password))
  }

  /** `bcrypt.compareSync(password, hash)`: re-derives the digest with
      the salt stored in the hash. */
  predicate Verify(password: string, hash: PasswordHash)
  {
    hash.digest == Digest(hash.salt, password)
  }

  /** Of the stand-in only: no other password verifies against a hash. */
  lemma VerifyOnlyHashedPassword(password: string, other: string, salt: Salt)
    ensures Verify(other, Hash(password, salt)) <==> other == password
  {
    if Verify(other, Hash(password, salt)) {
      var n := |salt| + 1;
      assert other == Digest(salt, other)[n..];
      assert password == Digest(salt, password)[n..];
    }
  }

  predicate IsDigit(c: char)
  {
    '0' <= c <= '9'
  }

  function DigitChar(d: nat): (c: char)
    requires d < 10
    ensures IsDigit(c)
  {
    ('0' as int + d) as char
  }

  /** Decimal digits of `n`, most significant first. */
  function Decimal(n: nat): (s: string)
    ensures forall i :: 0 <= i < |s| ==> IsDigit(s[i])
  {
    if n < 10 then [DigitChar(n)] else Decimal(n / 10) + [DigitChar(n % 10)]
  }

  /** The number a string of decimal digits denotes. */
  function DecimalValue(s: string): nat
    requires forall i :: 0 <= i < |s| ==> IsDigit(s[i])
  {
    if s == [] then 0
    else
      assert IsDigit(s[|s| - 1]);
      DecimalValue(s[..|s| - 1]) * 10 + (s[|s| - 1] as int - '0' as int)
  }

  /** Reading back the digits `Decimal` writes gives the number. */
  lemma {:induction false} DecimalRoundTrip(n: nat)
    ensures DecimalValue(Decimal(n)) == n
  {
    if n >= 10 {
      var s := Decimal(n);
      assert s[..|s| - 1] == Decimal(n / 10);
      DecimalRoundTrip(n / 10);
    }
  }

  /** Length of the run of digits `s` starts with. */
  function DigitRun(s: string): (k: nat)
    ensures k <= |s|
  {
    if s == [] || !IsDigit(s[0]) then 0 else 1 + DigitRun(s[1..])
  }

  /** The digits in front of a non-digit are the run `DigitRun` measures. */
  lemma {:induction false} DigitRunBeforeSeparator(x: string, c: char, rest: string)
    requires forall i :: 0 <= i < |x| ==> IsDigit(x[i])
    requires !IsDigit(c)
    ensures DigitRun(x + ([c] + rest)) == |x|
  {
    if x != [] {
      assert (x + ([c] + rest))[1..] == x[1..] + ([c] + rest);
      DigitRunBeforeSeparator(x[1..], c, rest);
    }
  }

  /** A number written in front of a separator can be read back from the
      text it starts: equal texts give equal numbers and equal remainders. */
  lemma NumberBeforeSeparator(m: nat, n: nat, c: char, restM: string, restN: string)
    requires !IsDigit(c)
    requires Decimal(m) + ([c] + restM) == Decimal(n) + ([c] + restN)
    ensures m == n && restM == restN
  {
    var l := Decimal(m) + ([c] + restM);
    DigitRunBeforeSeparator(Decimal(m), c, restM);
    DigitRunBeforeSeparator(Decimal(n), c, restN);
    assert Decimal(m) == l[..|Decimal(m)|] && Decimal(n) == l[..|Decimal(n)|];
    DecimalRoundTrip(m);
    DecimalRoundTrip(n);
    assert restM == l[|Decimal(m)| + 1..] && restN == l[|Decimal(n)| + 1..];
  }

  /** Stand-in for `jwt.sign({ id, login }, JWT_KEY, { expiresIn: '1h' })`
      at clock time `issuedAt`: the payload the library would sign, with
      the `iat` and `exp` claims it adds, written field by field as
      `{"id":…,"login":"…","iat":…,"exp":…}`. */
  function Sign(id: nat, login: string, issuedAt: nat): string
  {
    "{\"id\":" + IdField(id, login, issuedAt)
  }

  function IdField(id: nat, login: string, issuedAt: nat): string
  {
    Decimal(id) + ("," + LoginField(login, issuedAt))
  }

  function LoginField(login: string, issuedAt: nat): string
  {
    "\"login\":\"" + login + "\",\"iat\":" + IatField(issuedAt)
  }

  function IatField(issuedAt: nat): string
  {
    Decimal(issuedAt) + ("," + ExpField(issuedAt))
  }

  function ExpField(issuedAt: nat): string
  {
    "\"exp\":" + Decimal(issuedAt + TokenLifetime) + "}"
  }

  /** The token every route emits: the scheme label, then the signed claim. */
  function BearerToken(id: nat, login: string, issuedAt: nat): string
  {
    Scheme + Sign(id, login, issuedAt)
  }

  /** A token names the id it was issued for, and two tokens for the same
      claim issued at different times differ: each `/login` or `/auth` a
      second later hands out a new token. */
  lemma TokenIdentifiesClaim(id1: nat, login1: string, t1: nat, id2: nat, login2: string, t2: nat)
    requires BearerToken(id1, login1, t1) == BearerToken(id2, login2, t2)
    ensures id1 == id2
    ensures login1 == login2 ==> t1 == t2
  {
    var open := "{\"id\":";
    var b1, b2 := BearerToken(id1, login1, t1), BearerToken(id2, login2, t2);
    assert IdField(id1, login1, t1) == b1[|Scheme| + |open|..];
    assert IdField(id2, login2, t2) == b2[|Scheme| + |open|..];
    NumberBeforeSeparator(id1, id2, ',', LoginField(login1, t1), LoginField(login2, t2));
    if login1 == login2 {
      var head := "\"login\":\"" + login1 + "\",\"iat\":";
      assert IatField(t1) == LoginField(login1, t1)[|head|..];
      assert IatField(t2) == LoginField(login1, t2)[|head|..];
      NumberBeforeSeparator(t1, t2, ',', ExpField(t1), ExpField(t2));
    }
  }
}
