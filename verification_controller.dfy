/** Email verification during sign-up: a six-digit code is drawn, kept in the cache
    under a key derived from the email and mailed; verifying compares a submitted code
    with the cached one. The drawn number (random_int(0, 999999)), the outcome of the
    mail transport and the `email` format rule are parameters. */
module VerificationController {
  import opened Common

  predicate IsDigit(c: char) {
    '0' <= c <= '9'
  }

  predicate AllDigits(s: string) {
    forall k | 0 <= k < |s| :: IsDigit(s[k])
  }

  function DigitChar(d: nat): (c: char)
    requires d < 10
    ensures IsDigit(c) && c as int - '0' as int == d
  {
    ('0' as int + d) as char
  }

  /** The number a digit string denotes, read most significant digit first. */
  function Value(s: string): nat
    requires AllDigits(s)
  {
    if s == [] then 0 else 10 * Value(s[..|s| - 1]) + (s[|s| - 1] as int - '0' as int)
  }

  function Pow10(k: nat): nat {
    if k == 0 then 1 else 10 * Pow10(k - 1)
  }

  /** PHP's conversion of a non-negative integer to its decimal string: digits only,
      and no leading zero. */
  function Decimal(n: nat): (r: string)
    ensures 1 <= |r| && AllDigits(r)
    ensures |r| > 1 ==> r[0] != '0'
  {
    if n < 10 then [DigitChar(n)] else Decimal(n / 10) + [DigitChar(n % 10)]
  }

  /** The decimal string denotes the number. */
  lemma {:induction false} DecimalValue(n: nat)
    ensures Value(Decimal(n)) == n
  {
    if n >= 10 {
      var d := Decimal(n / 10);
      var r := Decimal(n);
      assert r[..|r| - 1] == d;
      DecimalValue(n / 10);
    }
  }

  /** A number below 10^k has at most k digits. */
  lemma {:induction false} DecimalLength(n: nat, k: nat)
    requires 1 <= k && n < Pow10(k)
    ensures |Decimal(n)| <= k
  {
    if n >= 10 {
      assert Pow10(1) == 10;
      assert k >= 2;
      assert n / 10 < Pow10(k - 1);
      DecimalLength(n / 10, k - 1);
    }
  }

  /** str_pad(s, width, c, STR_PAD_LEFT): c repeated in front of s up to width
      characters; a string already that long is returned as it is. */
  function PadLeft(s: string, width: nat, c: char): (r: string)
    ensures |r| == if |s| >= width then |s| else width
    ensures r[|r| - |s|..] == s
    ensures forall k | 0 <= k < |r| - |s| :: r[k] == c
  {
    if |s| >= width then s else seq(width - |s|, _ => c) + s
  }

  /** Zeros in front do not change the value. */
  lemma {:induction false} LeadingZeros(z: string, s: string)
    requires forall k | 0 <= k < |z| :: z[k] == '0'
    requires AllDigits(s)
    ensures AllDigits(z + s) && Value(z + s) == Value(s)
  {
    var w := z + s;
    assert forall k | 0 <= k < |w| :: w[k] == if k < |z| then z[k] else s[k - |z|];
    if s == [] {
      assert w == z;
      AllZero(z);
    } else {
      var init := s[..|s| - 1];
      assert w[..|w| - 1] == z + init;
      LeadingZeros(z, init);
    }
  }

  lemma {:induction false} AllZero(z: string)
    requires forall k | 0 <= k < |z| :: z[k] == '0'
    ensures AllDigits(z) && Value(z) == 0
  {
    if z != [] {
      AllZero(z[..|z| - 1]);
    }
  }

  /** The code drawn from n: str_pad(n, 6, '0', STR_PAD_LEFT), exactly six decimal
      digits. */
  function Code(n: int): (r: string)
    requires 0 <= n <= 999999
    ensures |r| == 6 && AllDigits(r)
  {
    DecimalLength(n, 6);
    assert Pow10(6) == 1000000;
    PadLeft(Decimal(n), 6, '0')
  }

  /** The code denotes the number drawn, so distinct draws give distinct codes. */
  lemma CodeValue(n: int)
    requires 0 <= n <= 999999
    ensures Value(Code(n)) == n
  {
    var d := Decimal(n);
    var r := Code(n);
    DecimalValue(n);
    assert r == r[..|r| - |d|] + d;
    LeadingZeros(r[..|r| - |d|], d);
  }

  lemma CodeInjective(a: int, b: int)
    requires 0 <= a <= 999999 && 0 <= b <= 999999
    ensures Code(a) == Code(b) <==> a == b
  {
    CodeValue(a);
    CodeValue(b);
  }

  /** The small draws are padded with zeros. */
  lemma CodeExamples()
    ensures Code(0) == "000000"
    ensures Code(42) == "000042"
  {
    assert DigitChar(0) == '0' && DigitChar(4) == '4' && DigitChar(2) == '2';
    assert Decimal(0) == "0";
    assert Decimal(42) == Decimal(4) + "2";
    assert Decimal(42) == "42";
    assert PadLeft("0", 6, '0') == "00000" + "0";
    assert PadLeft("42", 6, '0') == "0000" + "42";
  }

  const KeyPrefix: string := "verification_code_"

  /** The cache key of an email. */
  function CacheKey(email: string): (k: string)
    ensures |k| == |KeyPrefix| + |email|
  {
    KeyPrefix + email
  }

  /** Different emails never share a cache entry. */
  lemma CacheKeyInjective(a: string, b: string)
    ensures CacheKey(a) == CacheKey(b) <==> a == b
  {
    if CacheKey(a) == CacheKey(b) {
      assert a == CacheKey(a)[|KeyPrefix|..];
      assert b == CacheKey(b)[|KeyPrefix|..];
    }
  }

  /** Storing or forgetting the code of one email leaves every other email's entry
      as it was. */
  lemma OtherEmailsKept(cache: map<string, string>, e: string, other: string, code: string)
    requires other != e
    ensures (CacheKey(other) in cache[CacheKey(e) := code]) == (CacheKey(other) in cache)
    ensures CacheKey(other) in cache ==> cache[CacheKey(e) := code][CacheKey(other)] == cache[CacheKey(other)]
    ensures (CacheKey(other) in cache - {CacheKey(e)}) == (CacheKey(other) in cache)
  {
    CacheKeyInjective(e, other);
  }

  /** Forgetting a key right after storing under it leaves the map without that key
      and otherwise as before. */
  lemma PutThenForget(cache: map<string, string>, key: string, code: string)
    ensures cache[key := code] - {key} == cache - {key}
  {
  }

  /** The optional `name` field of a send request: absent or null, a string, or a
      value of another JSON type. */
  datatype NameField = NoName | Name(text: string) | NonStringName

  /** The rule `nullable|string` on the name field. */
  predicate ValidName(name: NameField) {
    !name.NonStringName?
  }

  /** The rules `required|email` on the email field. */
  predicate ValidEmail(email: Option<string>, isEmail: string -> bool) {
    Filled(email) && isEmail(email.value)
  }

  /** PHP truthiness of a string: everything but "" and "0". */
  predicate PhpTruthy(s: string) {
    s != "" && s != "0"
  }

  datatype VerifyOutcome =
    | Verified            // 200, verified => true
    | WrongOrExpired      // 422, verified => false
    | ValidationFailed    // 422 from the request validation

  /** The cache, with its entries written as strings. */
  class CodeStore {
    var cache: map<string, string>

    constructor ()
      ensures cache == map[]
    {
      cache := map[];
    }

    /** sendVerificationCode: a missing, blank or malformed email, or a name that is
        not a string, fails validation and changes nothing; otherwise the code drawn
        from `random` replaces any earlier one for that email, and a mail failure
        forgets the email's entry again (the earlier code included) and answers 500. */
    method SendVerificationCode(email: Option<string>, name: NameField, isEmail: string -> bool, random: int, mailOk: bool)
      returns (r: Result<()>)
      requires 0 <= random <= 999999
      modifies this
      ensures !(ValidEmail(email, isEmail) && ValidName(name)) ==> r == Fail(Unprocessable) && cache == old(cache)
      ensures ValidEmail(email, isEmail) && ValidName(name) && mailOk ==>
        r == Ok(()) && cache == old(cache)[CacheKey(email.value) := Code(random)]
      ensures ValidEmail(email, isEmail) && ValidName(name) && !mailOk ==>
        r == Fail(ServerError) && cache == old(cache) - {CacheKey(email.value)}
    {
      if !(ValidEmail(email, isEmail) && ValidName(name)) {
        return Fail(Unprocessable);
      }
      var key := CacheKey(email.value);
      var code := Code(random);
      var stored := cache[key := code];
      if mailOk {
        cache := stored;
        r := Ok(());
      } else {
        // Cache::forget after Cache::put: the email's entry is gone, see PutThenForget.
        cache := cache - {key};
        r := Fail(ServerError);
      }
    }

    /** verifyCode: validation fails unless the email is filled and well formed and
        the code is filled and six characters long; then the code is accepted exactly
        when an entry exists for the email and equals it. Nothing is changed, so a
        code stays usable after a successful check. */
    method VerifyCode(email: Option<string>, code: Option<string>, isEmail: string -> bool)
      returns (r: VerifyOutcome)
      ensures r == ValidationFailed <==>
        !(ValidEmail(email, isEmail) && Filled(code) && |code.value| == 6)
      ensures r == Verified <==>
        && ValidEmail(email, isEmail) && Filled(code) && |code.value| == 6
        && CacheKey(email.value) in cache && cache[CacheKey(email.value)] == code.value
    {
      if !(ValidEmail(email, isEmail) && Filled(code) && |code.value| == 6) {
        return ValidationFailed;
      }
      var key := CacheKey(email.value);
      var cachedCode := if key in cache then cache[key] else "";
      if PhpTruthy(cachedCode) && cachedCode == code.value {
        r := Verified;
      } else {
        assert key in cache && cache[key] == code.value ==> PhpTruthy(cachedCode);
        r := WrongOrExpired;
      }
    }
  }

  /** A sign-up run: the code that was mailed verifies, one other code does not, and
      a failed mail leaves nothing to verify. */
  method SendThenVerify(isEmail: string -> bool)
    requires isEmail("a@b.fr")
  {
    var store := new CodeStore();
    var sent := store.SendVerificationCode(Some("a@b.fr"), Name("Ana"), isEmail, 42, true);
    assert Filled(Some("a@b.fr")) by { assert !PhpSpace("a@b.fr"[0]); }
    assert sent == Ok(());
    CodeExamples();
    var ok := store.VerifyCode(Some("a@b.fr"), Some("000042"), isEmail);
    assert Filled(Some("000042")) by { assert !PhpSpace("000042"[0]); }
    assert ok == Verified;
    var wrong := store.VerifyCode(Some("a@b.fr"), Some("000043"), isEmail);
    assert Filled(Some("000043")) by { assert !PhpSpace("000043"[0]); }
    assert "000043" != "000042" by { assert "000043"[5] != "000042"[5]; }
    assert wrong == WrongOrExpired;
    var failed := store.SendVerificationCode(Some("a@b.fr"), NoName, isEmail, 7, false);
    var gone := store.VerifyCode(Some("a@b.fr"), Some("000042"), isEmail);
    assert gone == WrongOrExpired;
  }
}
