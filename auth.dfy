/** Password hashing and access tokens, as the routes use them.

    The hashing library is not part of this model: a `Hasher` is a pair of
    functions with one stated assumption (`Sound`). Token signing is not
    modelled cryptographically: a token is either the claim set the server
    signed, or something that does not pass signature verification. */
module Auth {
  import opened Wrappers

  /** `hash` computes the stored hash of a password, `verify` checks a
      password against a stored hash. */
  datatype Hasher = Hasher(hash: string -> string, verify: (string, string) -> bool)
  {
    /** The one property assumed of the library: a password verifies
        against its own hash. */
    ghost predicate Sound()
    {
      forall p :: verify(p, hash(p))
    }
  }

  /** Lifetime of an access token, in minutes, and in seconds of the
      application clock. */
  const AccessTokenExpireMinutes: int := 60
  const AccessTokenLifetime: int := AccessTokenExpireMinutes * 60

  /** A token presented by a client: the claims `{sub, exp}` signed with the
      server's key, or a string that is malformed or badly signed. */
  datatype Token = Signed(sub: Option<string>, exp: int) | Unverifiable(raw: string)

  /** Issues a token for subject `sub` at application time `now`: it carries
      that subject and is accepted for exactly the configured lifetime. */
  function CreateAccessToken(sub: string, now: int): (t: Token)
    ensures t.Signed? && t.sub == Some(sub)
    ensures forall later :: later <= now + AccessTokenLifetime ==> DecodeAccessToken(t, later) != NoSubject
    ensures forall later :: later > now + AccessTokenLifetime ==> DecodeAccessToken(t, later) == NoSubject
  {
    Signed(Some(sub), now + AccessTokenLifetime)
  }

  /** What decoding yields: the subject as an integer, `None` (any token
      error, expiry included), or an exception that is not a token error
      and so escapes the decoder. */
  datatype Decoded = Subject(id: int) | NoSubject | Raised

  /** Decodes a token at application time `now`. A token is expired once
      `now` is past its `exp`. Only token errors are caught; converting an
      absent or non-numeric subject to an integer raises. */
  function DecodeAccessToken(t: Token, now: int): (r: Decoded)
    ensures r.Subject? <==>
      t.Signed? && now <= t.exp && t.sub.Some? && ParseInt(t.sub.value).Some?
    ensures r.Subject? ==> ParseInt(t.sub.value) == Some(r.id)
    ensures r.Raised? <==>
      t.Signed? && now <= t.exp && (t.sub.None? || ParseInt(t.sub.value).None?)
  {
    match t
    case Unverifiable(_) => NoSubject
    case Signed(sub, exp) =>
      if exp < now then NoSubject
      else if sub.None? then Raised
      else match ParseInt(sub.value)
        case Some(n) => Subject(n)
        case None => Raised
  }

  /** A token issued by the server decodes back to the issued subject until
      it expires, and to `None` afterwards. */
  lemma DecodeIssued(id: int, issuedAt: int, now: int)
    ensures DecodeAccessToken(CreateAccessToken(ShowInt(id), issuedAt), now) ==
      if now <= issuedAt + AccessTokenLifetime then Subject(id) else NoSubject
  {
    ParseShowInt(id);
  }

  // ---------------------------------------------------------------------
  // Decimal text of integers: `str(n)` and `int(s)` on ids.

  predicate IsDigit(c: char)
  {
    '0' <= c <= '9'
  }

  predicate AllDigits(s: string)
  {
    forall i :: 0 <= i < |s| ==> IsDigit(s[i])
  }

  function DigitChar(d: int): (c: char)
    requires 0 <= d < 10
    ensures IsDigit(c) && c as int - '0' as int == d
  {
    ('0' as int + d) as char
  }

  /** Decimal digits of a natural number, most significant first. */
  function ShowNat(n: nat): (s: string)
    ensures |s| >= 1 && AllDigits(s)
  {
    if n < 10 then [DigitChar(n)] else ShowNat(n / 10) + [DigitChar(n % 10)]
  }

  /** `str(n)`: a minus sign for negatives, then the digits. */
  function ShowInt(n: int): (s: string)
    ensures |s| >= 1
    ensures n >= 0 ==> AllDigits(s)
    ensures n < 0 ==> |s| >= 2 && s[0] == '-' && AllDigits(s[1..])
  {
    if n < 0 then "-" + ShowNat(-n) else ShowNat(n)
  }

  /** Value of a string of decimal digits. */
  function DigitsValue(s: string): nat
    requires AllDigits(s)
  {
    if s == [] then 0
    else DigitsValue(s[..|s| - 1]) * 10 + (s[|s| - 1] as int - '0' as int)
  }

  /** `int(s)`: an optional sign followed by at least one decimal digit. */
  function ParseInt(s: string): (r: Option<int>)
    ensures r.Some? ==> |s| >= 1
    ensures |s| >= 1 && AllDigits(s) ==> r == Some(DigitsValue(s))
    ensures |s| >= 2 && (s[0] == '-' || s[0] == '+') && AllDigits(s[1..]) ==>
      r == Some(if s[0] == '-' then 0 - DigitsValue(s[1..]) as int else DigitsValue(s[1..]) as int)
    ensures r.Some? && r.value < 0 ==> s[0] == '-'
    ensures (exists i :: 1 <= i < |s| && !IsDigit(s[i])) ==> r.None?
    ensures r.None? <==>
      (if |s| >= 1 && (s[0] == '-' || s[0] == '+') then !(|s| >= 2 && AllDigits(s[1..]))
       else !(|s| >= 1 && AllDigits(s)))
  {
    if |s| >= 1 && (s[0] == '-' || s[0] == '+') then
      if |s| >= 2 && AllDigits(s[1..]) then
        var v: int := DigitsValue(s[1..]);
        Some(if s[0] == '-' then -v else v)
      else None
    else if |s| >= 1 && AllDigits(s) then Some(DigitsValue(s))
    else None
  }

  lemma {:induction false} DigitsOfShowNat(n: nat)
    ensures DigitsValue(ShowNat(n)) == n
  {
    var s := ShowNat(n);
    if n < 10 {
      assert s[..|s| - 1] == [];
    } else {
      DigitsOfShowNat(n / 10);
      assert s[..|s| - 1] == ShowNat(n / 10);
    }
  }

  /** `int(str(n)) == n` for every integer. */
  lemma ParseShowInt(n: int)
    ensures ParseInt(ShowInt(n)) == Some(n)
  {
    if n < 0 {
      DigitsOfShowNat(-n);
      assert ShowInt(n)[1..] == ShowNat(-n);
    } else {
      DigitsOfShowNat(n);
      assert ShowNat(n)[0] != '-' && ShowNat(n)[0] != '+';
    }
  }
}
