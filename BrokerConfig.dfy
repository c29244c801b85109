/**
 * The broker connection parameters the `BiddingWorker` constructor builds
 * from configuration: each value is read by key and falls back to a default
 * when the key is absent; the port also falls back when `int.TryParse`
 * rejects the text.
 */
module BrokerConfig {
  import opened Domain

  const Int32Min: int := -0x8000_0000
  const Int32Max: int := 0x7FFF_FFFF

  /** The characters `NumberStyles.Integer` lets surround a number: tab through carriage return, and space. */
  predicate IsWhite(c: char)
  {
    c == ' ' || '\t' <= c <= '\r'
  }

  predicate IsDigit(c: char)
  {
    '0' <= c <= '9'
  }

  predicate AllDigits(s: string)
  {
    forall i :: 0 <= i < |s| ==> IsDigit(s[i])
  }

  function TrimStart(s: string): (r: string)
    ensures r == [] || !IsWhite(r[0])
    ensures |r| <= |s| && r == s[|s| - |r|..]
  {
    if s != [] && IsWhite(s[0]) then TrimStart(s[1..]) else s
  }

  function TrimEnd(s: string): (r: string)
    ensures r == [] || !IsWhite(r[|r| - 1])
    ensures |r| <= |s| && r == s[..|r|]
  {
    if s != [] && IsWhite(s[|s| - 1]) then TrimEnd(s[..|s| - 1]) else s
  }

  /** The value of a string of decimal digits, most significant first. */
  function DigitsValue(ds: string): nat
    requires AllDigits(ds)
  {
    if ds == [] then 0
    else DigitsValue(ds[..|ds| - 1]) * 10 + (ds[|ds| - 1] as int - '0' as int)
  }

  /**
   * `int.TryParse(s, out port)` with the default style: surrounding white
   * space, then an optional `+` or `-`, then one or more decimal digits
   * whose value fits in 32 bits. `None` is the `false` result.
   */
  function ParseInt32(s: string): (r: Option<int>)
    ensures r.Some? ==> Int32Min <= r.value <= Int32Max
    ensures s == [] ==> r.None?
  {
    ParseSigned(TrimEnd(TrimStart(s)))
  }

  /** An optional sign followed by digits only, in the 32-bit range. */
  function ParseSigned(t: string): (r: Option<int>)
    ensures r.Some? ==> Int32Min <= r.value <= Int32Max
    ensures t == [] ==> r.None?
  {
    var negative := t != [] && t[0] == '-';
    var digits := if t != [] && (t[0] == '-' || t[0] == '+') then t[1..] else t;
    if digits == [] || !AllDigits(digits) then None
    else
      var magnitude: int := DigitsValue(digits);
      var v := if negative then -magnitude else magnitude;
      if Int32Min <= v <= Int32Max then Some(v) else None
  }

  /** The decimal text of a natural number, without leading zeros. */
  function Decimal(n: nat): (r: string)
    ensures r != [] && AllDigits(r)
    ensures IsDigit(r[0]) && IsDigit(r[|r| - 1])
  {
    if n < 10 then ['0' + n as char]
    else Decimal(n / 10) + ['0' + (n % 10) as char]
  }

  /** The text `int.ToString()` gives: a minus sign for negative values. */
  function FormatInt(n: int): (r: string)
  {
    if n < 0 then "-" + Decimal(-n) else Decimal(n)
  }

  lemma {:induction false} DecimalValue(n: nat)
    ensures DigitsValue(Decimal(n)) == n
  {
    if n >= 10 {
      var d := Decimal(n);
      assert d[..|d| - 1] == Decimal(n / 10);
      DecimalValue(n / 10);
    }
  }

  /** Text that neither starts nor ends with white space is not trimmed. */
  lemma NothingToTrim(s: string)
    requires s != [] && !IsWhite(s[0]) && !IsWhite(s[|s| - 1])
    ensures TrimEnd(TrimStart(s)) == s
  {
    assert TrimStart(s) == s;
  }

  /** What `ParseInt32` makes of the text of any integer. */
  lemma ParseFormat(n: int)
    ensures ParseInt32(FormatInt(n)) == if Int32Min <= n <= Int32Max then Some(n) else None
  {
    var s := FormatInt(n);
    var m: nat := if n < 0 then -n else n;
    NothingToTrim(s);
    DecimalValue(m);
    var digits := if n < 0 then s[1..] else s;
    assert digits == Decimal(m);
    assert (s[0] == '-' || s[0] == '+') == (n < 0);
  }

  /** Parsing the text of a 32-bit integer gives that integer back. */
  lemma ParseFormatRoundTrip(n: int)
    requires Int32Min <= n <= Int32Max
    ensures ParseInt32(FormatInt(n)) == Some(n)
  {
    ParseFormat(n);
  }

  /** A number that does not fit in 32 bits is rejected. */
  lemma ParseRejectsOverflow(n: int)
    requires n < Int32Min || Int32Max < n
    ensures ParseInt32(FormatInt(n)) == None
  {
    ParseFormat(n);
  }

  lemma {:induction false} TrimStartPadding(w: string, s: string)
    requires forall i :: 0 <= i < |w| ==> IsWhite(w[i])
    requires s != [] && !IsWhite(s[0])
    ensures TrimStart(w + s) == s
  {
    if w != [] {
      assert (w + s)[1..] == w[1..] + s;
      TrimStartPadding(w[1..], s);
    }
  }

  lemma {:induction false} TrimEndPadding(s: string, w: string)
    requires forall i :: 0 <= i < |w| ==> IsWhite(w[i])
    requires s != [] && !IsWhite(s[|s| - 1])
    ensures TrimEnd(s + w) == s
  {
    if w != [] {
      assert (s + w)[..|s + w| - 1] == s + w[..|w| - 1];
      TrimEndPadding(s, w[..|w| - 1]);
    } else {
      assert s + w == s;
    }
  }

  lemma ParseSeesTrimmedText(x: string, y: string)
    requires TrimEnd(TrimStart(x)) == TrimEnd(TrimStart(y))
    ensures ParseInt32(x) == ParseInt32(y)
  {
  }

  /** White space around the number does not change what is parsed. */
  lemma ParseIgnoresSurroundingWhite(before: string, n: int, after: string)
    requires forall i :: 0 <= i < |before| ==> IsWhite(before[i])
    requires forall i :: 0 <= i < |after| ==> IsWhite(after[i])
    requires Int32Min <= n <= Int32Max
    ensures ParseInt32(before + FormatInt(n) + after) == Some(n)
  {
    var s := FormatInt(n);
    TrimStartPadding(before, s + after);
    assert before + s + after == before + (s + after);
    TrimEndPadding(s, after);
    NothingToTrim(s);
    ParseSeesTrimmedText(before + s + after, s);
    ParseFormatRoundTrip(n);
  }

  /** The four connection parameters of the RabbitMQ `ConnectionFactory`. */
  datatype FactoryConfig = FactoryConfig(hostName: string, port: int, userName: string, password: string)

  const DefaultHost: string := "rabbitmq"
  const DefaultPort: int := 5672
  const DefaultUser: string := "admin"
  const DefaultPassword: string := "admin"

  /** `configuration[key] ?? fallback`: an absent key reads as null. */
  function ValueOr(configuration: map<string, string>, key: string, fallback: string): string
  {
    if key in configuration then configuration[key] else fallback
  }

  /**
   * The constructor's resolution of the broker parameters. A present value,
   * even an empty one, is used as given; the port is used only when it
   * parses as a 32-bit integer.
   */
  function ResolveConfig(configuration: map<string, string>): (r: FactoryConfig)
    ensures "RABBITMQ_HOST" !in configuration ==> r.hostName == DefaultHost
    ensures "RABBITMQ_HOST" in configuration ==> r.hostName == configuration["RABBITMQ_HOST"]
    ensures "RABBITMQ_USER" !in configuration ==> r.userName == DefaultUser
    ensures "RABBITMQ_USER" in configuration ==> r.userName == configuration["RABBITMQ_USER"]
    ensures "RABBITMQ_PASSWORD" !in configuration ==> r.password == DefaultPassword
    ensures "RABBITMQ_PASSWORD" in configuration ==> r.password == configuration["RABBITMQ_PASSWORD"]
    ensures "RABBITMQ_PORT" !in configuration ==> r.port == DefaultPort
    ensures "RABBITMQ_PORT" in configuration && ParseInt32(configuration["RABBITMQ_PORT"]).Some? ==>
              r.port == ParseInt32(configuration["RABBITMQ_PORT"]).value
    ensures "RABBITMQ_PORT" in configuration && ParseInt32(configuration["RABBITMQ_PORT"]).None? ==>
              r.port == DefaultPort
  {
    var port :=
      if "RABBITMQ_PORT" in configuration then
        match ParseInt32(configuration["RABBITMQ_PORT"])
        case Some(p) => p
        case None => DefaultPort
      else DefaultPort;
    FactoryConfig(
      ValueOr(configuration, "RABBITMQ_HOST", DefaultHost),
      port,
      ValueOr(configuration, "RABBITMQ_USER", DefaultUser),
      ValueOr(configuration, "RABBITMQ_PASSWORD", DefaultPassword))
  }

  /** With nothing configured every parameter takes its default. */
  lemma ResolveDefaults()
    ensures ResolveConfig(map[]) == FactoryConfig("rabbitmq", 5672, "admin", "admin")
  {
  }

  /** A configured port written as a 32-bit integer, possibly padded with white space, is the port used. */
  lemma ResolveConfiguredPort(configuration: map<string, string>, before: string, port: int, after: string)
    requires forall i :: 0 <= i < |before| ==> IsWhite(before[i])
    requires forall i :: 0 <= i < |after| ==> IsWhite(after[i])
    requires Int32Min <= port <= Int32Max
    requires "RABBITMQ_PORT" in configuration
    requires configuration["RABBITMQ_PORT"] == before + FormatInt(port) + after
    ensures ResolveConfig(configuration).port == port
  {
    ParseIgnoresSurroundingWhite(before, port, after);
  }

  /** A configured port that is not a number, or too large for 32 bits, falls back to 5672. */
  lemma ResolveUnparsablePort(configuration: map<string, string>, n: int)
    requires "RABBITMQ_PORT" in configuration
    requires (exists i :: 0 <= i < |configuration["RABBITMQ_PORT"]| && IsAlphabetic(configuration["RABBITMQ_PORT"][i]))
             || ((n < Int32Min || Int32Max < n) && configuration["RABBITMQ_PORT"] == FormatInt(n))
    ensures ResolveConfig(configuration).port == DefaultPort
  {
    var s := configuration["RABBITMQ_PORT"];
    if (n < Int32Min || Int32Max < n) && s == FormatInt(n) {
      ParseRejectsOverflow(n);
    } else {
      var i :| 0 <= i < |s| && IsAlphabetic(s[i]);
      AlphabeticIsRejected(s, i);
    }
  }

  predicate IsAlphabetic(c: char)
  {
    'a' <= c <= 'z' || 'A' <= c <= 'Z'
  }

  /** A letter anywhere in the text makes the parse fail. */
  lemma AlphabeticIsRejected(s: string, i: nat)
    requires i < |s| && IsAlphabetic(s[i])
    ensures ParseInt32(s) == None
  {
    var t := TrimEnd(TrimStart(s));
    var lo := |s| - |TrimStart(s)|;
    var digits := if t != [] && (t[0] == '-' || t[0] == '+') then t[1..] else t;
    if lo <= i < lo + |t| {
      assert t[i - lo] == s[i];
      if t != [] && (t[0] == '-' || t[0] == '+') {
        assert i - lo > 0;
        assert digits[i - lo - 1] == s[i];
      } else {
        assert digits[i - lo] == s[i];
      }
    } else {
      WhiteOutsideTrim(s, i);
    }
  }

  /** Whatever trimming removes is white space. */
  lemma {:induction false} WhiteOutsideTrim(s: string, i: nat)
    requires i < |s|
    requires var lo := |s| - |TrimStart(s)|;
             !(lo <= i < lo + |TrimEnd(TrimStart(s))|)
    ensures IsWhite(s[i])
  {
    if s != [] && IsWhite(s[0]) {
      if i > 0 {
        assert s[1..][i - 1] == s[i];
        WhiteOutsideTrim(s[1..], i - 1);
      }
    } else {
      WhiteOutsideTrimEnd(s, i);
    }
  }

  lemma {:induction false} WhiteOutsideTrimEnd(s: string, i: nat)
    requires i < |s| && |TrimEnd(s)| <= i
    ensures IsWhite(s[i])
  {
    if s != [] && IsWhite(s[|s| - 1]) {
      if i < |s| - 1 {
        WhiteOutsideTrimEnd(s[..|s| - 1], i);
      }
    }
  }
}
