/**
 * The decisions the command-line entry points make (Application.kt): the
 * Java version check, which logback file to use, which file the `encrypt`
 * command rewrites, how `handleException` reports a failure, and the exit
 * status of `monitor` and `encrypt`.
 *
 * System properties, file existence and path resolution are parameters.
 */
module CommandLine {
  import opened Wrappers
  import opened KotlinText
  import ConfigurationRules
  import PrintDispatch

  /**
   * `javaVersion()`: a `1.x` version is reduced to the character at index 2,
   * any other to the text before the first `.`; then `toInt()`. None where
   * `substring` or `toInt` throws.
   */
  function JavaVersion(version: string): (r: Option<int>)
    ensures r.Some? ==> IntMin <= r.value <= IntMax
    ensures StartsWith(version, "1.") ==> (r.Some? <==> |version| >= 3 && IsDigit(version[2]))
    ensures StartsWith(version, "1.") && r.Some? ==> r.value == version[2] as int - '0' as int
  {
    var major :=
      if StartsWith(version, "1.") then
        (if |version| >= 3 then
           ToIntOneChar(version[2]);
           assert version[2..3] == [version[2]];
           Some(version[2..3])
         else None)
      else
        var dot := IndexOf(version, '.');
        Some(if dot != -1 then version[..dot] else version);
    match major
    case None => None
    case Some(m) => ToInt(m)
  }

  /** The legacy scheme: `1.<d>...` is Java `<d>`, so `1.8.0_292` gives 8. */
  lemma LegacyJavaVersion(d: char, rest: string)
    requires IsDigit(d)
    ensures JavaVersion("1." + [d] + rest) == Some(d as int - '0' as int)
  {
    var v := "1." + [d] + rest;
    assert v[..2] == "1.";
    assert v[2..3] == [d];
    assert DigitsValue([d]) == d as int - '0' as int by {
      assert [d][..0] == [];
    }
  }

  /**
   * The current scheme: `<n>` or `<n>.<anything>` is Java `<n>`, so `11.0.2`
   * gives 11 and `17` gives 17. Only `n = 1` is excluded, since `1.` is
   * read by the legacy scheme.
   */
  lemma ModernJavaVersion(n: int, rest: string)
    requires 0 <= n <= IntMax && n != 1
    ensures JavaVersion(Decimal(n)) == Some(n)
    ensures JavaVersion(Decimal(n) + "." + rest) == Some(n)
  {
    var digits := Decimal(n);
    var v := digits + "." + rest;
    DecimalRoundTrip(n, IntMin, IntMax);
    assert !StartsWith(digits, "1.") by {
      if |digits| >= 2 {
        assert digits[..2][1] == digits[1];
      }
    }
    assert !StartsWith(v, "1.") by {
      if |digits| >= 2 {
        assert v[1] == digits[1];
      } else {
        assert digits == NatDigits(n) == [DigitChar(n)];
        assert v[..2] == [DigitChar(n), '.'];
      }
    }
    IndexOfAfter(digits, '.', rest);
    assert v == digits + ['.'] + rest;
    assert v[..|digits|] == digits;
  }

  /**
   * Outside the legacy scheme, a text before the first `.` that does not
   * end in a digit (an empty one included) makes `toInt` fail.
   */
  lemma NonNumericJavaVersion(head: string, rest: string)
    requires '.' !in head
    requires head == [] || !IsDigit(head[|head| - 1])
    ensures JavaVersion(head) == None
    ensures JavaVersion(head + "." + rest) == None
  {
    var v := head + "." + rest;
    assert !StartsWith(head, "1.") by {
      if |head| >= 2 { assert head[..2][1] == head[1]; }
    }
    assert !StartsWith(v, "1.") by {
      if |head| >= 2 {
        assert v[1] == head[1];
      } else if |head| == 1 {
        assert v[0] == head[0];
      } else {
        assert v[0] == '.';
      }
    }
    IndexOfAfter(head, '.', rest);
    assert v == head + ['.'] + rest;
    assert v[..|head|] == head;
  }

  /** Version strings `toInt` refuses: the run ends with an exception. */
  lemma JavaVersionFailures()
    ensures JavaVersion("") == None
    ensures JavaVersion("1.") == None
    ensures JavaVersion("1.x") == None
    ensures JavaVersion("ea.1") == None
  {
    assert StartsWith("1.", "1.");
    assert StartsWith("1.x", "1.") && "1.x"[2] == 'x';
    NonNumericJavaVersion("", "");
    NonNumericJavaVersion("ea", "1");
    assert "ea" + "." + "1" == "ea.1";
  }

  /** `java.version` of Java 8 under the legacy scheme. */
  lemma Java8Version()
    ensures JavaVersion("1.8.0_292") == Some(8)
  {
    LegacyJavaVersion('8', ".0_292");
    assert "1.8.0_292" == "1." + ['8'] + ".0_292";
  }

  /** `java.version` of Java 11: the text before the first `.`. */
  lemma Java11Version()
    ensures JavaVersion("11.0.2") == Some(11)
  {
    ElevenDotText();
    ModernJavaVersion(11, "0.2");
  }

  lemma ElevenDotText()
    ensures Decimal(11) + "." + "0.2" == "11.0.2"
  {
    DecimalOfTwoDigits(11);
    assert Decimal(11) == "11";
    assert "11" + "." == "11.";
  }

  /** `java.version` of Java 17, which has no `.` at all. */
  lemma Java17Version()
    ensures JavaVersion("17") == Some(17)
  {
    DecimalOfTwoDigits(17);
    assert Decimal(17) == "17";
    ModernJavaVersion(17, "");
  }

  /** The rendering of a two-digit number. */
  lemma DecimalOfTwoDigits(n: int)
    requires 10 <= n < 100
    ensures Decimal(n) == [DigitChar(n / 10), DigitChar(n % 10)]
  {
    assert NatDigits(n / 10) == [DigitChar(n / 10)];
  }

  const DefaultLogConfig: string := "./logback.xml"

  /** The log configuration: the `-l` file if given and present, else `./logback.xml` if present. */
  function LogConfigFile(logConfig: Option<string>, fileExists: string -> bool): (r: Option<string>)
    ensures r.Some? ==> fileExists(r.value)
    ensures logConfig.Some? && fileExists(logConfig.value) ==> r == logConfig
    ensures !(logConfig.Some? && fileExists(logConfig.value)) && fileExists(DefaultLogConfig) ==> r == Some(DefaultLogConfig)
    ensures r.None? <==> !(logConfig.Some? && fileExists(logConfig.value)) && !fileExists(DefaultLogConfig)
  {
    if logConfig.Some? && fileExists(logConfig.value) then logConfig
    else if fileExists(DefaultLogConfig) then Some(DefaultLogConfig)
    else None
  }

  /** How `Application.run` starts: stop with a status, fail with an uncaught exception, or go on with a log file. */
  datatype Startup = Exit(status: int) | Uncaught | Proceed(logConfigFile: Option<string>)

  /** The checks at the top of `Application.run`, before the configuration is loaded. */
  function Start(javaVersion: string, configFile: string, logConfig: Option<string>, fileExists: string -> bool): (r: Startup)
    ensures r == Uncaught <==> JavaVersion(javaVersion).None?
    ensures JavaVersion(javaVersion).Some? && JavaVersion(javaVersion).value < 8 ==> r == Exit(1)
    ensures r.Exit? ==> r.status == 1
    ensures r.Proceed? <==> JavaVersion(javaVersion).Some? && JavaVersion(javaVersion).value >= 8 && fileExists(configFile)
    ensures r.Proceed? ==> r.logConfigFile == LogConfigFile(logConfig, fileExists)
  {
    match JavaVersion(javaVersion)
    case None => Uncaught
    case Some(v) =>
      if v < 8 then Exit(1)
      else if !fileExists(configFile) then Exit(1)
      else Proceed(LogConfigFile(logConfig, fileExists))
  }

  /** Why `encrypt` refuses to run. */
  datatype EncryptError = LoadedFromResource | NoConfigurationFile

  /** The `when` in `Encrypt.run`: never a resource, then the path, then the file. */
  function EncryptTarget(config: ConfigurationRules.Configuration, absolutePath: string -> string): (r: Result<string, EncryptError>)
    ensures config.resource.Some? ==> r == Failure(LoadedFromResource)
    ensures config.resource.None? && config.path.Some? ==> r == Success(absolutePath(config.path.value))
    ensures config.resource.None? && config.path.None? && config.file.Some? ==> r == Success(config.file.value)
    ensures r == Failure(NoConfigurationFile) <==> config.resource.None? && config.path.None? && config.file.None?
  {
    if config.resource.Some? then Failure(LoadedFromResource)
    else if config.path.Some? then Success(absolutePath(config.path.value))
    else if config.file.Some? then Success(config.file.value)
    else Failure(NoConfigurationFile)
  }

  /**
   * `encrypt` rewrites the very file the configuration was loaded from, and
   * refuses a configuration loaded from a resource.
   */
  lemma EncryptRewritesLoadedFile(
    svc: ConfigurationRules.ConfigurationService,
    load: ConfigurationRules.ConfigurationSource -> ConfigurationRules.Configuration,
    absolutePath: string -> string,
    decrypt: string -> string,
    isHostOrIp: string -> bool)
    requires ConfigurationRules.GetConfiguration(svc, load, absolutePath, decrypt, isHostOrIp).Success?
    ensures var config := ConfigurationRules.GetConfiguration(svc, load, absolutePath, decrypt, isHostOrIp).value;
            match ConfigurationRules.SourceOf(svc).value
            case FromResource(_) => EncryptTarget(config, absolutePath) == Failure(LoadedFromResource)
            case FromPath(p) => EncryptTarget(config, absolutePath) == Success(absolutePath(p))
            case FromFile(f) => EncryptTarget(config, absolutePath) == Success(absolutePath(f))
  {
  }

  /** The exception classes `handleException` distinguishes; an SSL handshake failure is also an SSLException. */
  datatype ExceptionClass = SslHandshake | SslOther | FileNotFound | SocketTimeout | ConfigurationProblem | OtherException

  predicate IsSslException(k: ExceptionClass) {
    k == SslHandshake || k == SslOther
  }

  datatype Thrown = Thrown(kind: ExceptionClass, message: Option<string>)

  /** The error line `handleException` logs. */
  datatype Report =
    | UnknownCertificateAuthority
    | UnexpectedSslResponse
    | ConfigurationFileError(detail: string)
    | ConnectionTimedOut(host: string)
    | Logged(text: string)

  datatype Handled = Handled(report: Report, exitStatus: int)

  const UnrecognizedSslMessage: string := "Unsupported or unrecognized SSL message"

  /** `handleException(e, config)`: one report per exception, then exit status 1. */
  function HandleException(e: Thrown, config: Option<ConfigurationRules.Configuration>): (r: Handled)
    ensures r.exitStatus == 1
    ensures r.report == UnknownCertificateAuthority <==>
              e.kind == SslHandshake && e.message.Some? && Contains(e.message.value, "PKIX path")
    ensures r.report == UnexpectedSslResponse <==> e.kind == SslOther && e.message == Some(UnrecognizedSslMessage)
    ensures r.report.ConnectionTimedOut? <==> e.kind == SocketTimeout && config.Some?
    ensures r.report.ConfigurationFileError? <==> e.kind == FileNotFound
    ensures r.report.ConfigurationFileError? ==> r.report.detail == ShowNullable(e.message)
    ensures r.report.ConnectionTimedOut? ==> config.Some? && r.report.host == config.value.maximo.host
    ensures r.report.Logged? ==> r.report.text == ShowNullable(e.message)
  {
    var report :=
      if e.kind == SslHandshake then
        (if e.message.Some? && Contains(e.message.value, "PKIX path") then UnknownCertificateAuthority
         else Logged(ShowNullable(e.message)))
      else if IsSslException(e.kind) then
        (if e.message == Some(UnrecognizedSslMessage) then UnexpectedSslResponse
         else Logged(ShowNullable(e.message)))
      else if e.kind == FileNotFound then ConfigurationFileError(ShowNullable(e.message))
      else if e.kind == SocketTimeout then
        (if config.Some? then ConnectionTimedOut(config.value.maximo.host) else Logged(ShowNullable(e.message)))
      else Logged(ShowNullable(e.message));
    Handled(report, 1)
  }

  /**
   * Because the handshake case is tested first, a handshake failure is
   * never reported as the plain-SSL "unexpected response", even with that
   * exact message: it is logged as it is.
   */
  lemma HandshakeBeforeSsl(m: string, config: Option<ConfigurationRules.Configuration>)
    requires !Contains(m, "PKIX path")
    ensures IsSslException(SslHandshake)
    ensures HandleException(Thrown(SslHandshake, Some(m)), config).report == Logged(m)
  {
  }

  /** The plain-SSL message has no capital P, so it never mentions a PKIX path. */
  lemma UnrecognizedSslMessageIsNotPkix()
    ensures !Contains(UnrecognizedSslMessage, "PKIX path")
  {
    NotContainsWithoutHead(UnrecognizedSslMessage, "PKIX path");
  }

  /** The message of the exception `encrypt` throws when it refuses to run. */
  function EncryptErrorMessage(e: EncryptError): string {
    match e
    case LoadedFromResource =>
      "The current configuration was obtained via a resource reference and cannot be updated with an encrypted value."
    case NoConfigurationFile => "No configuration file specified"
  }

  /**
   * `encrypt` up to `encryptConfig`: the file to rewrite (after which the
   * command exits with status 0), or the refusal as `handleException`
   * logs it, with status 1.
   */
  function EncryptOutcome(config: ConfigurationRules.Configuration, absolutePath: string -> string): (r: Result<string, Handled>)
    ensures r.Success? <==> config.resource.None? && (config.path.Some? || config.file.Some?)
    ensures r.Success? ==> EncryptTarget(config, absolutePath) == Success(r.value)
    ensures r.Failure? ==> r.error.exitStatus == 1
    ensures r.Failure? && config.resource.Some? ==> r.error.report == Logged(EncryptErrorMessage(LoadedFromResource))
    ensures r.Failure? && config.resource.None? ==> r.error.report == Logged(EncryptErrorMessage(NoConfigurationFile))
  {
    match EncryptTarget(config, absolutePath)
    case Success(file) => Success(file)
    case Failure(e) =>
      PlainExceptionLogged(OtherException, EncryptErrorMessage(e), Some(config));
      Failure(HandleException(Thrown(OtherException, Some(EncryptErrorMessage(e))), Some(config)))
  }

  /**
   * The exit status of `monitor` once the event loop returns: 0 when the
   * stream ended, 1 when a print event's id did not parse and the
   * NumberFormatException reached `handleException`.
   */
  function MonitorExitStatus(end: PrintDispatch.LoopEnd, config: ConfigurationRules.Configuration, message: Option<string>): (status: int)
    ensures status == 1 <==> end.BadEventId?
    ensures status == 0 <==> end.Drained?
  {
    match end
    case Drained => 0
    case BadEventId(id) => HandleException(Thrown(OtherException, message), Some(config)).exitStatus
  }

  /** A configuration that `validate` rejects is reported with its own message, then status 1. */
  lemma ConfigurationErrorReported(e: ConfigurationRules.ConfigurationError, config: Option<ConfigurationRules.Configuration>)
    ensures HandleException(Thrown(ConfigurationProblem, Some(ConfigurationRules.Message(e))), config)
            == Handled(Logged(ConfigurationRules.Message(e)), 1)
  {
    PlainExceptionLogged(ConfigurationProblem, ConfigurationRules.Message(e), config);
  }

  /** A ConfigurationException, or an exception of no class handled apart, is logged with its message as it is. */
  lemma PlainExceptionLogged(kind: ExceptionClass, message: string, config: Option<ConfigurationRules.Configuration>)
    requires kind == ConfigurationProblem || kind == OtherException
    ensures HandleException(Thrown(kind, Some(message)), config) == Handled(Logged(message), 1)
  {
  }
}
