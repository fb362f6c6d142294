/** The password hash string of the auth service: printed by HashPassword, parsed by VerifyPassword.
    The key derivation and the bcrypt comparison are foreign code and come in as functions. */
module PasswordHash {
  import opened Channels
  import opened Base64

  const UINT32_SIZE := 0x1_0000_0000
  const UINT8_SIZE := 0x100

  /** Password, salt, time, memory, threads, key length. */
  type Kdf = (string, seq<Byte>, nat, nat, nat, nat) -> seq<Byte>

  /** Encoded hash and password. */
  type Bcrypt = (string, string) -> bool

  datatype Config = Config(time: nat, memory: nat, threads: nat, keyLen: nat)

  /** The fields have Go's integer types. */
  predicate IsConfig(c: Config) {
    c.time < UINT32_SIZE && c.memory < UINT32_SIZE && c.threads < UINT8_SIZE && c.keyLen < UINT32_SIZE
  }

  const DEFAULT_CONFIG := Config(1, 64 * 1024, 4, 32)
  const ARGON2_VERSION := 19

  /** A key derivation gives as many bytes as it is asked for. */
  ghost predicate IsKdf(kdf: Kdf) {
    forall p, salt, t, m, th, n :: |kdf(p, salt, t, m, th, n)| == n
  }

  datatype Error = InvalidFormat | InvalidParameters | InvalidBase64
  datatype Result<+T> = Ok(value: T) | Err(error: Error)

  // ---------- Decimal numbers ----------

  predicate IsDigit(c: char) {
    '0' <= c <= '9'
  }

  function DigitOf(d: nat): char
    requires d < 10
  {
    (48 + d) as char
  }

  function Print(n: nat): string {
    if n < 10 then [DigitOf(n)] else Print(n / 10) + [DigitOf(n % 10)]
  }

  function Value(digits: string): nat
    requires forall i :: 0 <= i < |digits| ==> IsDigit(digits[i])
  {
    if digits == [] then 0
    else
      var last := digits[|digits| - 1];
      assert IsDigit(last);
      Value(digits[..|digits| - 1]) * 10 + (last as int - 48)
  }

  /** The length of the longest digit prefix. */
  function DigitRun(s: string): (n: nat)
    ensures n <= |s|
    ensures forall i :: 0 <= i < n ==> IsDigit(s[i])
    ensures n < |s| ==> !IsDigit(s[n])
  {
    if s == [] || !IsDigit(s[0]) then 0 else 1 + DigitRun(s[1..])
  }

  function SkipSpace(s: string): string {
    if s != [] && (s[0] == ' ' || s[0] == '\t') then SkipSpace(s[1..]) else s
  }

  /** `%d` into an unsigned variable with `size` values: the number, and the input after it. */
  function ScanNumber(s: string, size: nat): Option<(nat, string)> {
    var t := SkipSpace(s);
    var n := DigitRun(t);
    if n == 0 || Value(t[..n]) >= size then None else Some((Value(t[..n]), t[n..]))
  }

  function ScanLiteral(s: string, literal: string): Option<string> {
    if literal <= s then Some(s[|literal|..]) else None
  }

  /** `Sscanf(s, "m=%d,t=%d,p=%d", ...)`; input after the last number is ignored. */
  function ScanParameters(s: string): Option<(nat, nat, nat)> {
    match ScanLiteral(s, "m=")
    case None => None
    case Some(s1) =>
    match ScanNumber(s1, UINT32_SIZE)
    case None => None
    case Some((memory, s2)) =>
    match ScanLiteral(s2, ",t=")
    case None => None
    case Some(s3) =>
    match ScanNumber(s3, UINT32_SIZE)
    case None => None
    case Some((time, s4)) =>
    match ScanLiteral(s4, ",p=")
    case None => None
    case Some(s5) =>
    match ScanNumber(s5, UINT8_SIZE)
    case None => None
    case Some((threads, _)) => Some((memory, time, threads))
  }

  function PrintParameters(c: Config): string {
    "m=" + (Print(c.memory) + (",t=" + (Print(c.time) + (",p=" + Print(c.threads)))))
  }

  lemma {:induction false} PrintIsDecimal(n: nat)
    ensures Print(n) != []
    ensures forall i :: 0 <= i < |Print(n)| ==> IsDigit(Print(n)[i])
    ensures Value(Print(n)) == n
  {
    if n >= 10 {
      PrintIsDecimal(n / 10);
      assert Print(n)[..|Print(n)| - 1] == Print(n / 10);
    } else {
      assert Print(n)[..0] == [];
    }
  }

  lemma {:induction false} DigitRunOf(digits: string, rest: string)
    requires forall i :: 0 <= i < |digits| ==> IsDigit(digits[i])
    requires rest != [] ==> !IsDigit(rest[0])
    ensures DigitRun(digits + rest) == |digits|
  {
    if digits == [] {
      assert digits + rest == rest;
    } else {
      assert (digits + rest)[1..] == digits[1..] + rest;
      DigitRunOf(digits[1..], rest);
    }
  }

  /** Scanning undoes printing, whatever follows that is not a digit. */
  lemma ScanPrinted(n: nat, size: nat, rest: string)
    requires n < size
    requires rest != [] ==> !IsDigit(rest[0])
    ensures ScanNumber(Print(n) + rest, size) == Some((n, rest))
  {
    PrintIsDecimal(n);
    DigitRunOf(Print(n), rest);
    var s := Print(n) + rest;
    assert IsDigit(s[0]);
    assert SkipSpace(s) == s;
    assert s[..|Print(n)|] == Print(n) && s[|Print(n)|..] == rest;
  }

  lemma ScanLiteralPrinted(literal: string, rest: string)
    ensures ScanLiteral(literal + rest, literal) == Some(rest)
  {
    assert (literal + rest)[|literal|..] == rest;
  }

  lemma ParametersRoundTrip(c: Config)
    requires IsConfig(c)
    ensures ScanParameters(PrintParameters(c)) == Some((c.memory, c.time, c.threads))
  {
    var s5 := Print(c.threads);
    var s4 := ",p=" + s5;
    var s3 := Print(c.time) + s4;
    var s2 := ",t=" + s3;
    var s1 := Print(c.memory) + s2;
    ScanLiteralPrinted("m=", s1);
    ScanPrinted(c.memory, UINT32_SIZE, s2);
    ScanLiteralPrinted(",t=", s3);
    ScanPrinted(c.time, UINT32_SIZE, s4);
    ScanLiteralPrinted(",p=", s5);
    ScanPrinted(c.threads, UINT8_SIZE, []);
    assert s5 + [] == s5;
  }

  // ---------- Fields ----------

  function Split(s: string): seq<string> {
    if s == [] then [[]]
    else if s[0] == '$' then [[]] + Split(s[1..])
    else
      var rest := Split(s[1..]);
      if rest == [] then [[s[0]]] else [[s[0]] + rest[0]] + rest[1..]
  }

  /** Fields with a dollar sign between them. */
  function Joined(fields: seq<string>): string
    requires fields != []
  {
    if |fields| == 1 then fields[0] else fields[0] + "$" + Joined(fields[1..])
  }

  lemma {:induction false} SplitLast(field: string)
    requires '$' !in field
    ensures Split(field) == [field]
  {
    if field != [] {
      SplitLast(field[1..]);
      assert field == [field[0]] + field[1..];
    }
  }

  lemma {:induction false} SplitFirst(field: string, rest: string)
    requires '$' !in field
    ensures Split(field + "$" + rest) == [field] + Split(rest)
  {
    var s := field + "$" + rest;
    if field == [] {
      assert s[0] == '$' && s[1..] == rest;
    } else {
      assert s[1..] == field[1..] + "$" + rest;
      SplitFirst(field[1..], rest);
      assert field == [field[0]] + field[1..];
    }
  }

  /** Splitting gives back the fields, when none of them has a dollar sign. */
  lemma {:induction false} SplitJoined(fields: seq<string>)
    requires fields != []
    requires forall f :: f in fields ==> '$' !in f
    ensures Split(Joined(fields)) == fields
  {
    if |fields| == 1 {
      SplitLast(fields[0]);
    } else {
      SplitJoined(fields[1..]);
      SplitFirst(fields[0], Joined(fields[1..]));
    }
  }

  // ---------- Hashing and verifying ----------

  /** The encoded hash of a password, for the salt that was drawn. */
  function HashPassword(kdf: Kdf, c: Config, password: string, salt: seq<Byte>): string {
    var hash := kdf(password, salt, c.time, c.memory, c.threads, c.keyLen);
    Joined(HashFields(c, salt, hash))
  }

  function HashFields(c: Config, salt: seq<Byte>, hash: seq<Byte>): seq<string> {
    ["", "argon2id", "v=" + Print(ARGON2_VERSION), PrintParameters(c), Encode(salt), Encode(hash)]
  }

  predicate IsBcrypt(encoded: string) {
    "$2a$" <= encoded || "$2b$" <= encoded || "$2y$" <= encoded
  }

  /** The parameters, salt and hash that an encoded string carries. */
  function Parse(encoded: string): Result<(nat, nat, nat, seq<Byte>, seq<Byte>)> {
    var parts := Split(encoded);
    if |parts| != 6 then Err(InvalidFormat)
    else
      match ScanParameters(parts[3])
      case None => Err(InvalidParameters)
      case Some((memory, time, threads)) =>
      match Decode(parts[4])
      case None => Err(InvalidBase64)
      case Some(salt) =>
      match Decode(parts[5])
      case None => Err(InvalidBase64)
      case Some(hash) => Ok((memory, time, threads, salt, hash))
  }

  /** What verifying means: the key derived from the password with what the string carries is the hash
      that the string carries. */
  function Verified(kdf: Kdf, bcrypt: Bcrypt, password: string, encoded: string): Result<bool> {
    if IsBcrypt(encoded) then Ok(bcrypt(encoded, password)) else Matches(kdf, password, Parse(encoded))
  }

  function Matches(kdf: Kdf, password: string, parsed: Result<(nat, nat, nat, seq<Byte>, seq<Byte>)>): Result<bool> {
    match parsed
    case Err(e) => Err(e)
    case Ok((memory, time, threads, salt, hash)) =>
      Ok(kdf(password, salt, time, memory, threads, |hash| % UINT32_SIZE) == hash)
  }

  method VerifyPassword(kdf: Kdf, bcrypt: Bcrypt, password: string, encoded: string) returns (r: Result<bool>)
    ensures r == Verified(kdf, bcrypt, password, encoded)
    ensures "$2a$" <= encoded || "$2b$" <= encoded || "$2y$" <= encoded ==> r == Ok(bcrypt(encoded, password))
  {
    if "$2a$" <= encoded || "$2b$" <= encoded || "$2y$" <= encoded {
      var matches := bcrypt(encoded, password);
      if !matches {
        return Ok(false);
      }
      return Ok(true);
    }
    var parts := Split(encoded);
    if |parts| != 6 {
      return Err(InvalidFormat);
    }
    var parameters := ScanParameters(parts[3]);
    if parameters.None? {
      return Err(InvalidParameters);
    }
    var (memory, time, threads) := parameters.value;
    var salt := Decode(parts[4]);
    if salt.None? {
      return Err(InvalidBase64);
    }
    var hash := Decode(parts[5]);
    if hash.None? {
      return Err(InvalidBase64);
    }
    var decodedHash := hash.value;
    var keyLen := |decodedHash| % UINT32_SIZE;
    var comparisonHash := kdf(password, salt.value, time, memory, threads, keyLen);
    if |decodedHash| != |comparisonHash| {
      return Ok(false);
    }
    var i := 0;
    while i < |decodedHash|
      invariant 0 <= i <= |decodedHash|
      invariant decodedHash[..i] == comparisonHash[..i]
    {
      if decodedHash[i] != comparisonHash[i] {
        return Ok(false);
      }
      i := i + 1;
    }
    assert decodedHash == decodedHash[..i] && comparisonHash == comparisonHash[..i];
    return Ok(true);
  }

  lemma PrintHasNoDollar(n: nat)
    ensures '$' !in Print(n)
  {
    PrintIsDecimal(n);
  }

  lemma ParametersHaveNoDollar(c: Config)
    ensures '$' !in PrintParameters(c)
  {
    PrintHasNoDollar(c.memory);
    PrintHasNoDollar(c.time);
    PrintHasNoDollar(c.threads);
  }

  lemma HashFieldsHaveNoDollar(c: Config, salt: seq<Byte>, hash: seq<Byte>)
    ensures forall f :: f in HashFields(c, salt, hash) ==> '$' !in f
  {
    PrintHasNoDollar(ARGON2_VERSION);
    ParametersHaveNoDollar(c);
    NoDollar(salt);
    NoDollar(hash);
  }

  lemma HashIsNotBcrypt(c: Config, salt: seq<Byte>, hash: seq<Byte>)
    ensures !IsBcrypt(Joined(HashFields(c, salt, hash)))
  {
    var fields := HashFields(c, salt, hash);
    var s := Joined(fields);
    assert s == "$" + Joined(fields[1..]);
    assert Joined(fields[1..])[0] == 'a';
    assert s[1] == 'a';
  }

  /** A hash string carries what it was printed from. */
  lemma ParsePrinted(c: Config, salt: seq<Byte>, hash: seq<Byte>)
    requires IsConfig(c)
    ensures Parse(Joined(HashFields(c, salt, hash))) == Ok((c.memory, c.time, c.threads, salt, hash))
  {
    HashFieldsHaveNoDollar(c, salt, hash);
    SplitJoined(HashFields(c, salt, hash));
    ParametersRoundTrip(c);
    RoundTrip(salt);
    RoundTrip(hash);
  }

  /** The round trip: for every salt, every pair of passwords and every configuration, verifying q against
      the hash string of p parses without error, and holds exactly when both derive the same key. */
  lemma HashVerifies(kdf: Kdf, bcrypt: Bcrypt, c: Config, p: string, q: string, salt: seq<Byte>)
    requires IsKdf(kdf) && IsConfig(c)
    ensures
      Verified(kdf, bcrypt, q, HashPassword(kdf, c, p, salt)) ==
      Ok(kdf(q, salt, c.time, c.memory, c.threads, c.keyLen) ==
         kdf(p, salt, c.time, c.memory, c.threads, c.keyLen))
  {
    var hash := kdf(p, salt, c.time, c.memory, c.threads, c.keyLen);
    assert |hash| == c.keyLen;
    var encoded := HashPassword(kdf, c, p, salt);
    assert !IsBcrypt(encoded) by {
      HashIsNotBcrypt(c, salt, hash);
    }
    assert Parse(encoded) == Ok((c.memory, c.time, c.threads, salt, hash)) by {
      ParsePrinted(c, salt, hash);
    }
    MatchesParsed(kdf, c, q, salt, hash);
  }

  lemma MatchesParsed(kdf: Kdf, c: Config, q: string, salt: seq<Byte>, hash: seq<Byte>)
    requires IsConfig(c) && |hash| == c.keyLen
    ensures Matches(kdf, q, Ok((c.memory, c.time, c.threads, salt, hash))) ==
            Ok(kdf(q, salt, c.time, c.memory, c.threads, c.keyLen) == hash)
  {
  }

  /** The default configuration fits its types, so the round trip holds for every hash the service makes. */
  lemma DefaultHashVerifies(kdf: Kdf, bcrypt: Bcrypt, p: string, q: string, salt: seq<Byte>)
    requires IsKdf(kdf)
    ensures
      Verified(kdf, bcrypt, q, HashPassword(kdf, DEFAULT_CONFIG, p, salt)) ==
      Ok(kdf(q, salt, 1, 65536, 4, 32) == kdf(p, salt, 1, 65536, 4, 32))
  {
    HashVerifies(kdf, bcrypt, DEFAULT_CONFIG, p, q, salt);
  }

  // ---------- The form of the string ----------

  lemma PrintedDefaults()
    ensures Print(65536) == "65536" && Print(1) == "1" && Print(4) == "4" && Print(19) == "19"
  {
    assert Print(6) == "6";
    assert Print(65) == "65";
    assert Print(655) == "655";
    assert Print(6553) == "6553";
  }

  /** The string spelled out, and its beginning with the service's own parameters. */
  lemma HashIsPrinted(kdf: Kdf, c: Config, p: string, salt: seq<Byte>)
    ensures HashPassword(kdf, c, p, salt) ==
            "$argon2id$v=19$m=" + Print(c.memory) + ",t=" + Print(c.time) + ",p=" + Print(c.threads) +
            "$" + Encode(salt) + "$" + Encode(kdf(p, salt, c.time, c.memory, c.threads, c.keyLen))
    ensures "$argon2id$v=19$m=65536,t=1,p=4$" <= HashPassword(kdf, DEFAULT_CONFIG, p, salt)
  {
    SpelledOut(kdf, c, p, salt);
    SpelledOut(kdf, DEFAULT_CONFIG, p, salt);
    PrintedDefaults();
  }

  lemma SpelledOut(kdf: Kdf, c: Config, p: string, salt: seq<Byte>)
    ensures HashPassword(kdf, c, p, salt) ==
            "$argon2id$v=19$m=" + Print(c.memory) + ",t=" + Print(c.time) + ",p=" + Print(c.threads) +
            "$" + Encode(salt) + "$" + Encode(kdf(p, salt, c.time, c.memory, c.threads, c.keyLen))
  {
    var s, h := Encode(salt), Encode(kdf(p, salt, c.time, c.memory, c.threads, c.keyLen));
    PrintedDefaults();
    JoinedSix("", "argon2id", "v=19", PrintParameters(c), s, h);
    assert "" + "$" + "argon2id" + "$" + "v=19" + "$" == "$argon2id$v=19$";
    assert "v=" + "19" == "v=19";
    ParametersSpelledOut(c);
    assert "$argon2id$v=19$" + ("m=" + Print(c.memory) + ",t=" + Print(c.time) + ",p=" + Print(c.threads)) ==
           "$argon2id$v=19$m=" + Print(c.memory) + ",t=" + Print(c.time) + ",p=" + Print(c.threads);
  }

  lemma ParametersSpelledOut(c: Config)
    ensures PrintParameters(c) == "m=" + Print(c.memory) + ",t=" + Print(c.time) + ",p=" + Print(c.threads)
  {
  }

  lemma Reassociate(head: string, field: string, rest: string)
    ensures head + (field + "$" + rest) == head + field + "$" + rest
  {
  }

  lemma JoinedSix(f0: string, f1: string, f2: string, f3: string, f4: string, f5: string)
    ensures Joined([f0, f1, f2, f3, f4, f5]) ==
            f0 + "$" + f1 + "$" + f2 + "$" + f3 + "$" + f4 + "$" + f5
  {
    JoinedMore(f4, [f5]);
    JoinedMore(f3, [f4, f5]);
    JoinedMore(f2, [f3, f4, f5]);
    JoinedMore(f1, [f2, f3, f4, f5]);
    JoinedMore(f0, [f1, f2, f3, f4, f5]);
    Reassociate(f0 + "$", f1, Joined([f2, f3, f4, f5]));
    Reassociate(f0 + "$" + f1 + "$", f2, Joined([f3, f4, f5]));
    Reassociate(f0 + "$" + f1 + "$" + f2 + "$", f3, Joined([f4, f5]));
    Reassociate(f0 + "$" + f1 + "$" + f2 + "$" + f3 + "$", f4, f5);
  }

  lemma JoinedMore(field: string, fields: seq<string>)
    requires fields != []
    ensures Joined([field] + fields) == field + "$" + Joined(fields)
  {
    assert ([field] + fields)[1..] == fields;
  }

  // ---------- What every string is answered ----------

  lemma {:induction false} SplitCounts(s: string)
    ensures |Split(s)| == multiset(s)['$'] + 1
  {
    if s != [] {
      SplitCounts(s[1..]);
      assert s == [s[0]] + s[1..];
      assert multiset(s) == multiset{s[0]} + multiset(s[1..]);
    }
  }

  /** A bcrypt string is answered by bcrypt alone, and bcrypt has no say in any other. */
  lemma BcryptDecidesIff(kdf: Kdf, bcrypt: Bcrypt, password: string, encoded: string)
    ensures "$2a$" <= encoded || "$2b$" <= encoded || "$2y$" <= encoded ==>
              Verified(kdf, bcrypt, password, encoded) == Ok(bcrypt(encoded, password))
    ensures !("$2a$" <= encoded || "$2b$" <= encoded || "$2y$" <= encoded) ==>
              forall other: Bcrypt ::
                Verified(kdf, other, password, encoded) == Verified(kdf, bcrypt, password, encoded)
  {
  }

  /** Any other string has the wrong format exactly when it has not five dollar signs. */
  lemma WrongFormatIff(kdf: Kdf, bcrypt: Bcrypt, password: string, encoded: string)
    requires !("$2a$" <= encoded || "$2b$" <= encoded || "$2y$" <= encoded)
    ensures Verified(kdf, bcrypt, password, encoded) == Err(InvalidFormat) <==> multiset(encoded)['$'] != 5
  {
    SplitCounts(encoded);
  }

  /** With six fields the answer depends on the last three: whether the fourth scans, whether the last two
      decode, and then whether the password's key with those parameters is the one in the string. The
      fields for the algorithm and the version are not looked at. */
  lemma SixFieldsAnswer(
    kdf: Kdf, bcrypt: Bcrypt, password: string,
    f0: string, f1: string, f2: string, f3: string, f4: string, f5: string)
    requires '$' !in f0 && '$' !in f1 && '$' !in f2 && '$' !in f3 && '$' !in f4 && '$' !in f5
    requires f0 != "" || !("2a" == f1 || "2b" == f1 || "2y" == f1)
    ensures
      var encoded := f0 + "$" + f1 + "$" + f2 + "$" + f3 + "$" + f4 + "$" + f5;
      var r := Verified(kdf, bcrypt, password, encoded);
      if ScanParameters(f3).None? then r == Err(InvalidParameters)
      else if Decode(f4).None? || Decode(f5).None? then r == Err(InvalidBase64)
      else
        var (memory, time, threads) := ScanParameters(f3).value;
        var salt, hash := Decode(f4).value, Decode(f5).value;
        r == Ok(kdf(password, salt, time, memory, threads, |hash| % 0x1_0000_0000) == hash)
  {
    var encoded := f0 + "$" + f1 + "$" + f2 + "$" + f3 + "$" + f4 + "$" + f5;
    assert Split(encoded) == [f0, f1, f2, f3, f4, f5] by {
      JoinedSix(f0, f1, f2, f3, f4, f5);
      SplitJoined([f0, f1, f2, f3, f4, f5]);
    }
    SixFieldsPrefix(f0, f1, f2, f3, f4, f5);
    ParseOfFields(encoded, [f0, f1, f2, f3, f4, f5]);
  }

  lemma ParseOfFields(encoded: string, fields: seq<string>)
    requires Split(encoded) == fields && |fields| == 6
    ensures
      if ScanParameters(fields[3]).None? then Parse(encoded) == Err(InvalidParameters)
      else if Decode(fields[4]).None? || Decode(fields[5]).None? then Parse(encoded) == Err(InvalidBase64)
      else
        var (memory, time, threads) := ScanParameters(fields[3]).value;
        Parse(encoded) == Ok((memory, time, threads, Decode(fields[4]).value, Decode(fields[5]).value))
  {
  }

  lemma SixFieldsPrefix(f0: string, f1: string, f2: string, f3: string, f4: string, f5: string)
    requires '$' !in f0 && '$' !in f1
    requires f0 != "" || !("2a" == f1 || "2b" == f1 || "2y" == f1)
    ensures !IsBcrypt(f0 + "$" + f1 + "$" + f2 + "$" + f3 + "$" + f4 + "$" + f5)
  {
    NoPrefix(f0, f1, f2 + "$" + (f3 + "$" + (f4 + "$" + f5)));
    Reassociate(f0 + "$" + f1 + "$", f2, f3 + "$" + (f4 + "$" + f5));
    Reassociate(f0 + "$" + f1 + "$" + f2 + "$", f3, f4 + "$" + f5);
    Reassociate(f0 + "$" + f1 + "$" + f2 + "$" + f3 + "$", f4, f5);
  }

  /** The bcrypt prefixes are an empty field and a field of their own. */
  lemma NoPrefix(f0: string, f1: string, rest: string)
    requires '$' !in f0 && '$' !in f1
    requires f0 != "" || !("2a" == f1 || "2b" == f1 || "2y" == f1)
    ensures !IsBcrypt(f0 + "$" + f1 + "$" + rest)
  {
    var s := f0 + "$" + f1 + "$" + rest;
    if f0 != "" {
      assert s[0] == f0[0];
    } else {
      assert s == "$" + f1 + "$" + rest;
      if |f1| >= 3 {
        assert s[3] == f1[2];
      } else if |f1| == 2 {
        assert s[1] == f1[0] && s[2] == f1[1];
        assert f1 == [f1[0], f1[1]];
      } else {
        assert s[|f1| + 1] == '$';
      }
    }
  }

  // ---------- What scans ----------

  /** Blanks, then a longest run of digits, at the beginning of the input. */
  ghost predicate IsNumeral(s: string, blanks: string, digits: string, rest: string) {
    && s == blanks + digits + rest
    && (forall i :: 0 <= i < |blanks| ==> blanks[i] == ' ' || blanks[i] == '\t')
    && digits != [] && (forall i :: 0 <= i < |digits| ==> IsDigit(digits[i]))
    && (rest != [] ==> !IsDigit(rest[0]))
  }

  lemma {:induction false} SkipSpaceOf(blanks: string, rest: string)
    requires forall i :: 0 <= i < |blanks| ==> blanks[i] == ' ' || blanks[i] == '\t'
    requires rest != [] ==> rest[0] != ' ' && rest[0] != '\t'
    ensures SkipSpace(blanks + rest) == rest
  {
    if blanks == [] {
      assert blanks + rest == rest;
    } else {
      assert (blanks + rest)[1..] == blanks[1..] + rest;
      SkipSpaceOf(blanks[1..], rest);
    }
  }

  lemma {:induction false} SkippedBlanks(s: string) returns (blanks: string)
    ensures s == blanks + SkipSpace(s)
    ensures forall i :: 0 <= i < |blanks| ==> blanks[i] == ' ' || blanks[i] == '\t'
  {
    if s != [] && (s[0] == ' ' || s[0] == '\t') {
      var more := SkippedBlanks(s[1..]);
      blanks := [s[0]] + more;
      assert s == [s[0]] + s[1..];
    } else {
      blanks := [];
    }
  }

  /** A number scans if and only if the input begins with a numeral, after blanks, that fits the variable;
      it is then read whole. */
  lemma ScanNumberIff(s: string, size: nat, n: nat, rest: string)
    ensures ScanNumber(s, size) == Some((n, rest)) <==>
            n < size && exists blanks, digits :: IsNumeral(s, blanks, digits, rest) && Value(digits) == n
  {
    var t := SkipSpace(s);
    var k := DigitRun(t);
    if ScanNumber(s, size) == Some((n, rest)) {
      var blanks := SkippedBlanks(s);
      assert t == t[..k] + t[k..];
      assert s == blanks + t[..k] + t[k..];
      assert IsNumeral(s, blanks, t[..k], rest);
    }
    if n < size {
      if blanks, digits :| IsNumeral(s, blanks, digits, rest) && Value(digits) == n {
        NumeralScans(s, size, blanks, digits, rest);
      }
    }
  }

  lemma NumeralScans(s: string, size: nat, blanks: string, digits: string, rest: string)
    requires IsNumeral(s, blanks, digits, rest) && Value(digits) < size
    ensures ScanNumber(s, size) == Some((Value(digits), rest))
  {
    assert s == blanks + (digits + rest);
    assert (digits + rest)[0] == digits[0];
    SkipSpaceOf(blanks, digits + rest);
    DigitRunOf(digits, rest);
    assert (digits + rest)[..|digits|] == digits && (digits + rest)[|digits|..] == rest;
  }

  /** One piece of the parameter field: a literal, and a number that fits. */
  ghost predicate IsPart(s: string, literal: string, n: nat, size: nat, rest: string) {
    n < size &&
    exists blanks, digits, tail ::
      IsNumeral(tail, blanks, digits, rest) && s == literal + tail && Value(digits) == n
  }

  lemma ScanPartIff(s: string, literal: string, size: nat, n: nat, rest: string)
    ensures IsPart(s, literal, n, size, rest) <==>
            literal <= s && ScanNumber(s[|literal|..], size) == Some((n, rest))
  {
    if literal <= s {
      var tail := s[|literal|..];
      assert s == literal + tail;
      ScanNumberIff(tail, size, n, rest);
    }
    if n < size {
      if blanks, digits, tail :|
        IsNumeral(tail, blanks, digits, rest) && s == literal + tail && Value(digits) == n
      {
        assert s[|literal|..] == tail;
      }
    }
  }

  /** The parameter field scans if and only if it reads m=..,t=..,p=.. with numbers that fit in 32, 32 and 8
      bits; what follows is ignored. */
  lemma ScanParametersIff(s: string, memory: nat, time: nat, threads: nat)
    ensures ScanParameters(s) == Some((memory, time, threads)) <==>
            exists s1, s2, s3 ::
              IsPart(s, "m=", memory, 0x1_0000_0000, s1) && IsPart(s1, ",t=", time, 0x1_0000_0000, s2) &&
              IsPart(s2, ",p=", threads, 0x100, s3)
  {
    forall a, b, c | IsPart(s, "m=", memory, 0x1_0000_0000, a) && IsPart(a, ",t=", time, 0x1_0000_0000, b) &&
                     IsPart(b, ",p=", threads, 0x100, c)
      ensures ScanParameters(s) == Some((memory, time, threads))
    {
      ScanPartIff(s, "m=", UINT32_SIZE, memory, a);
      ScanPartIff(a, ",t=", UINT32_SIZE, time, b);
      ScanPartIff(b, ",p=", UINT8_SIZE, threads, c);
    }
    if ScanParameters(s) == Some((memory, time, threads)) {
      var a := ScanNumber(s[2..], UINT32_SIZE).value.1;
      var b := ScanNumber(a[3..], UINT32_SIZE).value.1;
      var c := ScanNumber(b[3..], UINT8_SIZE).value.1;
      ScanPartIff(s, "m=", UINT32_SIZE, memory, a);
      ScanPartIff(a, ",t=", UINT32_SIZE, time, b);
      ScanPartIff(b, ",p=", UINT8_SIZE, threads, c);
    }
  }
}
