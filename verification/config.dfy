/** The settings record of the gateway (config.py): its fields, defaults
    and bounds, the host validator, the string coercions applied to the
    values of the `app` section, and `get`/`set`/`reset` as operations on
    the record. Reading and writing `config.ini` is not modelled: the
    section arrives as a map from option names to texts. */
module Config {
  import opened Wrappers
  import opened Text

  /** `AppConfig`: `chunkSize` is `chunk_size`, `sizeLimit` is `size_limit`. */
  datatype AppConfig = AppConfig(host: string, port: int, debug: bool, chunkSize: int, sizeLimit: int, jsdelivr: int)

  /** The field defaults of config.py:6-11. */
  const Defaults: AppConfig := AppConfig("0.0.0.0", 8000, false, 1024 * 10, 1024 * 1024 * 1024 * 999, 0)

  /** The parameter names `get` and `set` accept. */
  const FieldNames: set<string> := {"host", "port", "debug", "chunk_size", "size_limit", "jsdelivr"}

  // ---------------------------------------------------------------------
  // The host validator

  /** Why `validate_host` refused a value. */
  datatype HostError = WrongPartCount | NotAnAddress

  /** One alternative of the octet group `25[0-5]|2[0-4][0-9]|1[0-9]{2}|[1-9][0-9]|[0-9]`. */
  predicate OctetText(s: string) {
    || (|s| == 3 && s[0] == '2' && s[1] == '5' && '0' <= s[2] <= '5')
    || (|s| == 3 && s[0] == '2' && '0' <= s[1] <= '4' && IsDigit(s[2]))
    || (|s| == 3 && s[0] == '1' && IsDigit(s[1]) && IsDigit(s[2]))
    || (|s| == 2 && '1' <= s[0] <= '9' && IsDigit(s[1]))
    || (|s| == 1 && IsDigit(s[0]))
  }

  /** Four texts joined by dots. */
  function Dotted(a: string, b: string, c: string, d: string): string {
    a + "." + b + "." + c + "." + d
  }

  /** What the octet pattern and `$` accept as the last part: an octet, or
      an octet followed by the one final newline `$` lets through. */
  predicate LastOctet(t: string) {
    OctetText(t) || (|t| >= 2 && t[|t| - 1] == '\n' && OctetText(t[..|t| - 1]))
  }

  /** `ip_regx.match(v)`. The octets hold no dot, so the three `\.` of the
      pattern fall exactly on the dots `split` cuts at. */
  predicate AddressPattern(v: string) {
    var ps := Split(v, '.');
    |ps| == 4 && OctetText(ps[0]) && OctetText(ps[1]) && OctetText(ps[2]) && LastOctet(ps[3])
  }

  /** The regex read directly: four octets joined by dots, with a final
      newline allowed by `$`. */
  ghost predicate RegexAccepts(v: string) {
    exists a, b, c, d :: OctetText(a) && OctetText(b) && OctetText(c) && OctetText(d)
                         && (v == Dotted(a, b, c, d) || v == Dotted(a, b, c, d) + "\n")
  }

  /** `validate_host` as written (config.py:14-37). */
  function ValidateHost(v: string): (r: Result<string, HostError>)
    ensures r.Success? ==> r.value == v
    ensures v != "localhost" && |Split(v, '.')| != 4 ==> r == Failure(WrongPartCount)
  {
    if v == "localhost" then Success(v)
    else if |Split(v, '.')| != 4 then Failure(WrongPartCount)
    else if AddressPattern(v) then Success(v)
    else Failure(NotAnAddress)
  }

  /** The validator as intended: the whole value must be the address, as
      `ip_regx.fullmatch(v)` would demand. */
  function ValidateHostStrict(v: string): (r: Result<string, HostError>)
    ensures r.Success? ==> r.value == v
    ensures v != "localhost" && |Split(v, '.')| != 4 ==> r == Failure(WrongPartCount)
  {
    if v == "localhost" then Success(v)
    else
      var ps := Split(v, '.');
      if |ps| != 4 then Failure(WrongPartCount)
      else if OctetText(ps[0]) && OctetText(ps[1]) && OctetText(ps[2]) && OctetText(ps[3]) then Success(v)
      else Failure(NotAnAddress)
  }

  /** An octet text holds digits only, hence no dot and no newline. */
  lemma OctetDigits(s: string)
    requires OctetText(s)
    ensures 1 <= |s| <= 3 && AllDigits(s) && '.' !in s && '\n' !in s
  {
  }

  /** The octet pattern accepts exactly the canonical decimal numerals of
      0 .. 255: digits only, no leading zero, value at most 255. */
  lemma OctetCanonical(s: string)
    ensures OctetText(s) <==>
              1 <= |s| <= 3 && AllDigits(s) && (|s| > 1 ==> s[0] != '0') && DigitsValue(s) <= 255
  {
    if 1 <= |s| <= 3 && AllDigits(s) {
      var d0 := s[0] as int - '0' as int;
      assert DigitsValue(s[..1]) == d0;
      if |s| >= 2 {
        var d1 := s[1] as int - '0' as int;
        assert s[..2][..1] == s[..1];
        assert DigitsValue(s[..2]) == d0 * 10 + d1;
        if |s| == 3 {
          assert s[..3] == s;
          assert DigitsValue(s) == (d0 * 10 + d1) * 10 + (s[2] as int - '0' as int);
        } else {
          assert s[..2] == s;
        }
      } else {
        assert s[..1] == s;
      }
    }
  }

  /** `str(n)` is an octet exactly when `n` is at most 255. */
  lemma OctetOfNat(n: nat)
    ensures OctetText(NatToString(n)) <==> n <= 255
  {
    var s := NatToString(n);
    OctetCanonical(s);
    if n >= 10 {
      assert s[..|s| - 1] == NatToString(n / 10);
      if n / 10 >= 10 {
        var t := NatToString(n / 10);
        assert t[..|t| - 1] == NatToString(n / 100);
      }
    }
  }

  /** The four texts joined by dots, as `'.'.join`. */
  lemma DottedIsJoin(a: string, b: string, c: string, d: string)
    ensures Join([a, b, c, d], '.') == Dotted(a, b, c, d)
  {
    assert [c, d][1..] == [d];
    assert Join([c, d], '.') == c + "." + d;
    assert [b, c, d][1..] == [c, d];
    assert Join([b, c, d], '.') == b + "." + (c + "." + d);
    assert [a, b, c, d][1..] == [b, c, d];
    assert Join([a, b, c, d], '.') == a + "." + (b + "." + (c + "." + d));
  }

  /** Splitting four dot-free texts joined by dots gives them back. */
  lemma SplitDotted(a: string, b: string, c: string, d: string)
    requires '.' !in a && '.' !in b && '.' !in c && '.' !in d
    ensures Split(Dotted(a, b, c, d), '.') == [a, b, c, d]
  {
    DottedIsJoin(a, b, c, d);
    SplitJoin([a, b, c, d], '.');
  }

  /** A final newline belongs to the last part. */
  lemma DottedNewline(a: string, b: string, c: string, d: string)
    ensures Dotted(a, b, c, d) + "\n" == Dotted(a, b, c, d + "\n")
  {
  }

  /** A text with four parts is those parts joined by dots. */
  lemma FourParts(v: string)
    requires |Split(v, '.')| == 4
    ensures var ps := Split(v, '.'); v == Dotted(ps[0], ps[1], ps[2], ps[3])
  {
    var ps := Split(v, '.');
    JoinSplit(v, '.');
    assert ps == [ps[0], ps[1], ps[2], ps[3]];
    DottedIsJoin(ps[0], ps[1], ps[2], ps[3]);
  }

  /** What the split-based reading accepts, the regex accepts. */
  lemma AddressPatternSound(v: string)
    requires AddressPattern(v)
    ensures RegexAccepts(v)
  {
    var ps := Split(v, '.');
    FourParts(v);
    if OctetText(ps[3]) {
      assert v == Dotted(ps[0], ps[1], ps[2], ps[3]);
    } else {
      var d := ps[3][..|ps[3]| - 1];
      assert ps[3] == d + "\n";
      DottedNewline(ps[0], ps[1], ps[2], d);
      assert v == Dotted(ps[0], ps[1], ps[2], d) + "\n";
    }
  }

  /** What the regex accepts, the split-based reading accepts. */
  lemma AddressPatternComplete(a: string, b: string, c: string, d: string, v: string)
    requires OctetText(a) && OctetText(b) && OctetText(c) && OctetText(d)
    requires v == Dotted(a, b, c, d) || v == Dotted(a, b, c, d) + "\n"
    ensures AddressPattern(v)
  {
    OctetDigits(a);
    OctetDigits(b);
    OctetDigits(c);
    OctetDigits(d);
    if v == Dotted(a, b, c, d) {
      SplitDotted(a, b, c, d);
    } else {
      DottedNewline(a, b, c, d);
      SplitDotted(a, b, c, d + "\n");
      assert (d + "\n")[..|d|] == d;
    }
  }

  /** The split-based reading of the regex is the regex itself. */
  lemma AddressPatternIsRegex(v: string)
    ensures AddressPattern(v) <==> RegexAccepts(v)
  {
    if AddressPattern(v) {
      AddressPatternSound(v);
    }
    if RegexAccepts(v) {
      var a, b, c, d :| OctetText(a) && OctetText(b) && OctetText(c) && OctetText(d)
                        && (v == Dotted(a, b, c, d) || v == Dotted(a, b, c, d) + "\n");
      AddressPatternComplete(a, b, c, d, v);
    }
  }

  /** `validate_host` accepts `localhost` and exactly the values the regex
      accepts, and returns what it accepts unchanged. */
  lemma ValidateHostAccepts(v: string)
    ensures ValidateHost(v).Success? <==> v == "localhost" || RegexAccepts(v)
  {
    AddressPatternIsRegex(v);
    if RegexAccepts(v) {
      assert AddressPattern(v);
    }
  }

  /** The corrected validator accepts `localhost` and exactly four octets
      joined by dots, nothing after them. */
  lemma ValidateHostStrictAccepts(v: string)
    ensures ValidateHostStrict(v).Success? <==>
              v == "localhost"
              || exists a, b, c, d :: OctetText(a) && OctetText(b) && OctetText(c) && OctetText(d) && v == Dotted(a, b, c, d)
    ensures ValidateHostStrict(v).Success? ==> '\n' !in v
  {
    if ValidateHostStrict(v).Success? && v != "localhost" {
      StrictSound(v);
    }
    if v != "localhost" && exists a, b, c, d :: OctetText(a) && OctetText(b) && OctetText(c) && OctetText(d) && v == Dotted(a, b, c, d) {
      var a, b, c, d :| OctetText(a) && OctetText(b) && OctetText(c) && OctetText(d) && v == Dotted(a, b, c, d);
      StrictComplete(a, b, c, d);
    }
  }

  /** What the corrected validator accepts besides `localhost` is its four
      parts joined by dots, with no newline. */
  lemma StrictSound(v: string)
    requires ValidateHostStrict(v).Success? && v != "localhost"
    ensures var ps := Split(v, '.');
            && |ps| == 4 && OctetText(ps[0]) && OctetText(ps[1]) && OctetText(ps[2]) && OctetText(ps[3])
            && v == Dotted(ps[0], ps[1], ps[2], ps[3]) && '\n' !in v
  {
    var ps := Split(v, '.');
    FourParts(v);
    OctetsNoNewline(ps[0], ps[1], ps[2], ps[3]);
  }

  /** Four octets joined by dots hold no newline. */
  lemma OctetsNoNewline(a: string, b: string, c: string, d: string)
    requires OctetText(a) && OctetText(b) && OctetText(c) && OctetText(d)
    ensures '\n' !in Dotted(a, b, c, d)
  {
    OctetDigits(a);
    OctetDigits(b);
    OctetDigits(c);
    OctetDigits(d);
  }

  /** Four octets joined by dots pass the corrected validator. */
  lemma StrictComplete(a: string, b: string, c: string, d: string)
    requires OctetText(a) && OctetText(b) && OctetText(c) && OctetText(d)
    ensures ValidateHostStrict(Dotted(a, b, c, d)).Success?
  {
    OctetDigits(a);
    OctetDigits(b);
    OctetDigits(c);
    OctetDigits(d);
    SplitDotted(a, b, c, d);
  }

  /** Every dotted quad of numbers up to 255 is accepted by the corrected validator. */
  lemma DottedQuadAccepted(a: nat, b: nat, c: nat, d: nat)
    requires a <= 255 && b <= 255 && c <= 255 && d <= 255
    ensures ValidateHostStrict(Dotted(NatToString(a), NatToString(b), NatToString(c), NatToString(d))).Success?
  {
    OctetOfNat(a);
    OctetOfNat(b);
    OctetOfNat(c);
    OctetOfNat(d);
    ValidateHostStrictAccepts(Dotted(NatToString(a), NatToString(b), NatToString(c), NatToString(d)));
  }

  /** A leading zero and a value above 255 are refused, by both validators. */
  lemma LeadingZeroAndOverflowRefused(a: string, b: string, c: string)
    requires '.' !in a && '.' !in b && '.' !in c
    ensures ValidateHost(Dotted(a, b, c, "01")) == Failure(NotAnAddress)
    ensures ValidateHost(Dotted(a, b, c, "256")) == Failure(NotAnAddress)
    ensures ValidateHostStrict(Dotted(a, b, c, "01")) == Failure(NotAnAddress)
    ensures ValidateHostStrict(Dotted(a, b, c, "256")) == Failure(NotAnAddress)
  {
    SplitDotted(a, b, c, "01");
    SplitDotted(a, b, c, "256");
    assert Dotted(a, b, c, "01") != "localhost" by {
      assert |Dotted(a, b, c, "01")| >= 5;
      assert "localhost"[5] == 'h';
      assert Dotted(a, b, c, "01")[|Dotted(a, b, c, "01")| - 1] == '1';
    }
    assert Dotted(a, b, c, "256") != "localhost" by {
      assert Dotted(a, b, c, "256")[|Dotted(a, b, c, "256")| - 1] == '6';
    }
  }

  /** As written, an address followed by a newline passes the validator,
      which the corrected validator refuses. */
  lemma NewlineAddressAccepted(a: string, b: string, c: string, d: string)
    requires OctetText(a) && OctetText(b) && OctetText(c) && OctetText(d)
    ensures ValidateHost(Dotted(a, b, c, d) + "\n") == Success(Dotted(a, b, c, d) + "\n")
    ensures ValidateHostStrict(Dotted(a, b, c, d) + "\n") == Failure(NotAnAddress)
  {
    var v := Dotted(a, b, c, d) + "\n";
    OctetDigits(a);
    OctetDigits(b);
    OctetDigits(c);
    OctetDigits(d);
    DottedNewline(a, b, c, d);
    SplitDotted(a, b, c, d + "\n");
    assert (d + "\n")[..|d|] == d;
    assert v != "localhost" by {
      assert v[|v| - 1] == '\n';
    }
    assert !OctetText(d + "\n") by {
      assert (d + "\n")[|d|] == '\n';
    }
  }

  /** The value `127.0.0.1` plus a newline is one such address. */
  lemma NewlineAddressWitness()
    ensures ValidateHost("127.0.0.1\n") == Success("127.0.0.1\n")
    ensures ValidateHostStrict("127.0.0.1\n") == Failure(NotAnAddress)
  {
    NewlineAddressAccepted("127", "0", "0", "1");
    assert Dotted("127", "0", "0", "1") + "\n" == "127.0.0.1\n";
  }

  // ---------------------------------------------------------------------
  // The record and its bounds

  /** The pydantic checks of one record: the host validator as written and
      the port bounds of config.py:7. */
  predicate Valid(c: AppConfig) {
    ValidateHost(c.host).Success? && 1 <= c.port <= 65535
  }

  /** The checks as intended, with the corrected host validator. */
  predicate ValidIntended(c: AppConfig) {
    ValidateHostStrict(c.host).Success? && 1 <= c.port <= 65535
  }

  /** The corrected checks refuse more, and the only records they add to
      the refusals are those whose host is an address and a final newline. */
  lemma ValidIntendedIsValid(c: AppConfig)
    ensures ValidIntended(c) ==> Valid(c)
    ensures Valid(c) && !ValidIntended(c) <==>
              1 <= c.port <= 65535
              && exists a, b, c', d :: OctetText(a) && OctetText(b) && OctetText(c') && OctetText(d)
                                       && c.host == Dotted(a, b, c', d) + "\n"
  {
    var v := c.host;
    ValidateHostAccepts(v);
    ValidateHostStrictAccepts(v);
    if exists a, b, c', d :: OctetText(a) && OctetText(b) && OctetText(c') && OctetText(d) && v == Dotted(a, b, c', d) + "\n" {
      var a, b, c', d :| OctetText(a) && OctetText(b) && OctetText(c') && OctetText(d) && v == Dotted(a, b, c', d) + "\n";
      NewlineAddressAccepted(a, b, c', d);
    }
  }

  /** What went wrong building or changing the record. */
  datatype ConfigError =
    | Invalid(fields: seq<string>)        // pydantic's `ValidationError`, failing fields in field order
    | NotAnInteger(option: string, text: string)  // `int()` of a section value raised
    | UnknownParameter(name: string)      // `get`/`set` of a name that is not a field
    | WrongType(name: string)             // a `set` value of another type than the field

  /** The fields of a record that fail their checks, in field order, with
      `jsdelivrOk` the outcome of coercing the `jsdelivr` text. */
  function Problems(c: AppConfig, jsdelivrOk: bool): (bad: seq<string>)
    ensures |bad| == 0 <==> Valid(c) && jsdelivrOk
    ensures "host" in bad <==> ValidateHost(c.host).Failure?
    ensures "port" in bad <==> !(1 <= c.port <= 65535)
    ensures "jsdelivr" in bad <==> !jsdelivrOk
  {
    (if ValidateHost(c.host).Failure? then ["host"] else [])
    + (if 1 <= c.port <= 65535 then [] else ["port"])
    + (if jsdelivrOk then [] else ["jsdelivr"])
  }

  /** `AppConfig(**fields)` for fields of the right types. */
  function Validate(c: AppConfig): (r: Result<AppConfig, ConfigError>)
    ensures r.Success? <==> Valid(c)
    ensures r.Success? ==> r.value == c
  {
    var bad := Problems(c, true);
    if |bad| == 0 then Success(c) else Failure(Invalid(bad))
  }

  /** The defaults pass their own checks. */
  lemma DefaultsValid()
    ensures Valid(Defaults) && ValidIntended(Defaults)
    ensures Defaults.sizeLimit == 999 * 0x4000_0000 && Defaults.chunkSize == 10240
  {
    DottedQuadAccepted(0, 0, 0, 0);
    assert Dotted(NatToString(0), NatToString(0), NatToString(0), NatToString(0)) == "0.0.0.0";
    ValidIntendedIsValid(Defaults);
  }

  // ---------------------------------------------------------------------
  // Loading the `app` section

  /** config.py:65: `debug` is on when the lower-cased text is `true`, `1` or `yes`. */
  function ParseDebug(s: string): bool {
    Lower(s) in {"true", "1", "yes"}
  }

  /** Lower-casing twice is lower-casing once. */
  lemma LowerIdempotent(s: string)
    ensures Lower(Lower(s)) == Lower(s)
  {
  }

  /** The coercion ignores ASCII case, and reads back what `str` writes
      for a boolean. */
  lemma ParseDebugCases(s: string)
    ensures ParseDebug(s) == ParseDebug(Lower(s))
    ensures ParseDebug("True") && !ParseDebug("False")
  {
    LowerIdempotent(s);
    ParseDebugWords();
  }

  /** `str(True)` reads as on and `str(False)` as off. */
  lemma ParseDebugWords()
    ensures ParseDebug("True") && !ParseDebug("False")
  {
    assert Lower("True") == "true";
    assert Lower("False") == "false";
  }

  /** An integer option, or its default when absent. */
  function IntOption(items: map<string, string>, name: string, default: int): Result<int, ConfigError> {
    if name !in items then Success(default)
    else match ParseInt(items[name])
      case Some(n) => Success(n)
      case None => Failure(NotAnInteger(name, items[name]))
  }

  /** config.py:59-74 once the section is read: `debug` coerced, `port`,
      `chunk_size` and `size_limit` passed through `int()` in that order,
      then the record built with defaults for absent options (`jsdelivr`
      coerced by pydantic from its text, other options ignored). */
  function Load(items: map<string, string>): (r: Result<AppConfig, ConfigError>)
    ensures r.Success? ==> Valid(r.value)
  {
    var debug := if "debug" in items then ParseDebug(items["debug"]) else Defaults.debug;
    var port :- IntOption(items, "port", Defaults.port);
    var chunkSize :- IntOption(items, "chunk_size", Defaults.chunkSize);
    var sizeLimit :- IntOption(items, "size_limit", Defaults.sizeLimit);
    var host := if "host" in items then items["host"] else Defaults.host;
    var jsdelivr := if "jsdelivr" in items then ParseInt(items["jsdelivr"]) else Some(Defaults.jsdelivr);
    var c := AppConfig(host, port, debug, chunkSize, sizeLimit, if jsdelivr.Some? then jsdelivr.value else 0);
    var bad := Problems(c, jsdelivr.Some?);
    if |bad| == 0 then Success(c) else Failure(Invalid(bad))
  }

  /** config.py:82-86: every field written back as `str(value)`. */
  function Dump(c: AppConfig): map<string, string> {
    map["host" := c.host, "port" := IntToString(c.port), "debug" := if c.debug then "True" else "False",
        "chunk_size" := IntToString(c.chunkSize), "size_limit" := IntToString(c.sizeLimit),
        "jsdelivr" := IntToString(c.jsdelivr)]
  }

  /** An empty section gives the defaults. */
  lemma LoadEmpty()
    ensures Load(map[]) == Success(Defaults)
  {
    DefaultsValid();
  }

  /** What the gateway writes back it reads again: loading the dump of a
      valid record gives the record. */
  lemma LoadDump(c: AppConfig)
    requires Valid(c)
    ensures Load(Dump(c)) == Success(c)
  {
    DumpReads(c);
  }

  /** Each option of the dump reads back as its field. */
  lemma DumpReads(c: AppConfig)
    ensures var m := Dump(c);
            && IntOption(m, "port", Defaults.port) == Success(c.port)
            && IntOption(m, "chunk_size", Defaults.chunkSize) == Success(c.chunkSize)
            && IntOption(m, "size_limit", Defaults.sizeLimit) == Success(c.sizeLimit)
            && "host" in m && m["host"] == c.host
            && "debug" in m && ParseDebug(m["debug"]) == c.debug
            && "jsdelivr" in m && ParseInt(m["jsdelivr"]) == Some(c.jsdelivr)
  {
    var m := Dump(c);
    IntOptionOf(m, "port", Defaults.port, c.port);
    IntOptionOf(m, "chunk_size", Defaults.chunkSize, c.chunkSize);
    IntOptionOf(m, "size_limit", Defaults.sizeLimit, c.sizeLimit);
    ParseIntToString(c.jsdelivr);
    ParseDebugWords();
  }

  /** An option holding the text `str(n)` reads as `n`. */
  lemma IntOptionOf(m: map<string, string>, name: string, default: int, n: int)
    requires name in m && m[name] == IntToString(n)
    ensures IntOption(m, name, default) == Success(n)
  {
    ParseIntToString(n);
  }

  /** A `debug` option sets the field by the coercion; a text `int()`
      rejects stops the load with that option named. */
  lemma LoadOptions(items: map<string, string>)
    ensures Load(items).Success? && "debug" in items ==> Load(items).value.debug == ParseDebug(items["debug"])
    ensures "port" in items && ParseInt(items["port"]).None? ==> Load(items) == Failure(NotAnInteger("port", items["port"]))
  {
  }

  // ---------------------------------------------------------------------
  // `get`, `set` and `reset`

  /** A field value of one of the three field types. */
  datatype Value = StrValue(s: string) | IntValue(i: int) | BoolValue(b: bool)

  /** `get(param)`. */
  function Get(c: AppConfig, param: string): (r: Result<Value, ConfigError>)
    ensures r.Failure? <==> param !in FieldNames
    ensures r.Failure? ==> r.error == UnknownParameter(param)
  {
    match param
    case "host" => Success(StrValue(c.host))
    case "port" => Success(IntValue(c.port))
    case "debug" => Success(BoolValue(c.debug))
    case "chunk_size" => Success(IntValue(c.chunkSize))
    case "size_limit" => Success(IntValue(c.sizeLimit))
    case "jsdelivr" => Success(IntValue(c.jsdelivr))
    case _ => Failure(UnknownParameter(param))
  }

  /** The record with field `param` set to `v`, when `v` has the field's type. */
  function With(c: AppConfig, param: string, v: Value): Option<AppConfig> {
    match (param, v)
    case ("host", StrValue(s)) => Some(c.(host := s))
    case ("port", IntValue(i)) => Some(c.(port := i))
    case ("debug", BoolValue(b)) => Some(c.(debug := b))
    case ("chunk_size", IntValue(i)) => Some(c.(chunkSize := i))
    case ("size_limit", IntValue(i)) => Some(c.(sizeLimit := i))
    case ("jsdelivr", IntValue(i)) => Some(c.(jsdelivr := i))
    case _ => None
  }

  /** `set(param, value)`: the record rebuilt with one field changed and
      checked again; on any error the old record stays. */
  function Set(c: AppConfig, param: string, v: Value): (r: Result<AppConfig, ConfigError>)
    ensures param !in FieldNames ==> r == Failure(UnknownParameter(param))
    ensures r.Success? ==> Valid(r.value)
  {
    if param !in FieldNames then Failure(UnknownParameter(param))
    else match With(c, param, v)
      case None => Failure(WrongType(param))
      case Some(c') => Validate(c')
  }

  /** `reset()`: the defaults, whatever the record was. */
  function Reset(c: AppConfig): (r: AppConfig)
    ensures Valid(r)
  {
    DefaultsValid();
    Defaults
  }

  /** A successful `set` makes `get` return the new value for that
      parameter and the old value for every other one. */
  lemma SetThenGet(c: AppConfig, param: string, v: Value)
    requires Set(c, param, v).Success?
    ensures Get(Set(c, param, v).value, param) == Success(v)
    ensures forall q :: q != param ==> Get(Set(c, param, v).value, q) == Get(c, q)
  {
    assert Set(c, param, v).value == With(c, param, v).value;
    WithThenGet(c, param, v);
  }

  /** Changing one field changes what `get` reads for that parameter only. */
  lemma WithThenGet(c: AppConfig, param: string, v: Value)
    requires With(c, param, v).Some?
    ensures Get(With(c, param, v).value, param) == Success(v)
    ensures forall q :: q != param ==> Get(With(c, param, v).value, q) == Get(c, q)
  {
  }

  /** `set` fails exactly for an unknown name, a value of the wrong type or
      a record that no longer passes its checks. */
  lemma SetFails(c: AppConfig, param: string, v: Value)
    ensures Set(c, param, v).Failure? <==>
              param !in FieldNames || With(c, param, v).None? || !Valid(With(c, param, v).value)
  {
  }

  /** On a valid record, setting the port succeeds exactly inside 1 .. 65535. */
  lemma SetPort(c: AppConfig, n: int)
    requires Valid(c)
    ensures Set(c, "port", IntValue(n)).Success? <==> 1 <= n <= 65535
    ensures !(1 <= n <= 65535) ==> Set(c, "port", IntValue(n)) == Failure(Invalid(["port"]))
  {
    var c' := c.(port := n);
    assert ValidateHost(c'.host).Success?;
    if !(1 <= n <= 65535) {
      assert Problems(c', true) == ["port"];
    }
  }

  /** As written, `set('host', '127.0.0.1\n')` on a valid record succeeds
      and stores the newline, which the intended checks refuse. */
  lemma SetNewlineHost(c: AppConfig)
    requires Valid(c)
    ensures Set(c, "host", StrValue("127.0.0.1\n")) == Success(c.(host := "127.0.0.1\n"))
    ensures !ValidIntended(c.(host := "127.0.0.1\n"))
  {
    NewlineAddressWitness();
    assert Problems(c.(host := "127.0.0.1\n"), true) == [];
  }

  /** After `reset` every parameter reads its default. */
  lemma ResetGets(c: AppConfig)
    ensures forall q :: Get(Reset(c), q) == Get(Defaults, q)
    ensures Get(Reset(c), "port") == Success(IntValue(8000)) && Get(Reset(c), "host") == Success(StrValue("0.0.0.0"))
  {
  }
}
