/**
 * The configuration of the label print agent (Configuration.kt): the
 * validation guard chain, the server URL, the `{encrypted}` password
 * convention on load, and the line-by-line rewrite that encrypts the
 * password in a YAML configuration file.
 *
 * The cipher (AES/CBC with a key file), YAML loading and Guava's host-name
 * check are foreign calls and appear as function parameters.
 */
module ConfigurationRules {
  import opened Wrappers
  import opened KotlinText

  /** The `maximo:` section of the configuration file. */
  datatype MaximoConfiguration = MaximoConfiguration(
    username: Option<string>,
    password: Option<string>,
    host: string,
    port: int,
    secure: bool,
    authType: string,
    context: string,
    apikey: Option<string>,
    allowInsecure: bool,
    sseEndpoint: string)

  /** The whole configuration; `path`, `resource` and `file` record where it was loaded from. */
  datatype Configuration = Configuration(
    maximo: MaximoConfiguration,
    printers: Option<seq<string>>,
    path: Option<string>,
    resource: Option<string>,
    file: Option<string>)

  const DefaultPort: int := 443
  const DefaultAuthType: string := "maxauth"
  const DefaultContext: string := "maximo"
  const DefaultSseEndpoint: string := "/labeldispatch"

  /** A `maximo:` section that gives only a user name and a host; every other field takes its declared default. */
  function WithDefaults(username: Option<string>, host: string): (m: MaximoConfiguration)
    ensures m.username == username && m.host == host && m.password.None? && m.apikey.None?
    ensures m.port == 443 && m.secure && m.authType == "maxauth" && m.context == "maximo"
    ensures !m.allowInsecure && m.sseEndpoint == "/labeldispatch"
  {
    MaximoConfiguration(username, None, host, DefaultPort, true, DefaultAuthType, DefaultContext, None, false, DefaultSseEndpoint)
  }

  /** The reasons `validate` throws a ConfigurationException, in the order it tests them. */
  datatype ConfigurationError =
    | MissingCredentials
    | MissingHost
    | HostIncludesProtocol
    | InvalidHost
    | PortOutOfRange
    | MissingAuthType
    | InvalidAuthType(authType: string)

  /** The text each ConfigurationException carries. */
  function Message(e: ConfigurationError): string {
    match e
    case MissingCredentials => "The configuration requires an API key or a user name and password."
    case MissingHost => "The configuration requires a host name or IP."
    case HostIncludesProtocol => "The host name should not start include the protocol http:// or https://"
    case InvalidHost => "The configured host is not a valid host or IP address."
    case PortOutOfRange => "The Maximo port number must be between 1 and 65535, typically 80 for HTTP or 443 for HTTPS."
    case MissingAuthType => "The authType is required and must be either oidc, maxauth, basic or form."
    case InvalidAuthType(t) => "The authType) " + t + " is not valid, only 'oidc', 'maxauth', 'basic' or 'form' are valid."
  }

  const AuthTypes: set<string> := {"oidc", "maxauth", "basic", "form"}

  /** Either an API key or both a user name and a password. */
  predicate HasCredentials(m: MaximoConfiguration) {
    !IsNullOrBlank(m.apikey) || (!IsNullOrBlank(m.username) && !IsNullOrBlank(m.password))
  }

  /** Everything `validate` demands of a configuration, stated as one conjunction. */
  predicate Acceptable(m: MaximoConfiguration, isHostOrIp: string -> bool) {
    && HasCredentials(m)
    && !IsBlank(m.host)
    && !StartsWith(m.host, "http")
    && isHostOrIp(m.host)
    && 1 <= m.port <= 65535
    && m.authType in AuthTypes
  }

  /**
   * `MaximoConfiguration.validate()`: the first failing check, or None.
   * `isHostOrIp` stands for Guava's `InternetDomainName.isValid(h) || InetAddresses.isInetAddress(h)`.
   */
  function Validate(m: MaximoConfiguration, isHostOrIp: string -> bool): (r: Option<ConfigurationError>)
    ensures r.None? <==> Acceptable(m, isHostOrIp)
    ensures r == Some(MissingCredentials) <==> !HasCredentials(m)
    ensures r == Some(MissingHost) <==> HasCredentials(m) && IsBlank(m.host)
    ensures r == Some(HostIncludesProtocol) <==> HasCredentials(m) && !IsBlank(m.host) && StartsWith(m.host, "http")
    ensures r == Some(InvalidHost) <==>
              HasCredentials(m) && !IsBlank(m.host) && !StartsWith(m.host, "http") && !isHostOrIp(m.host)
    ensures r == Some(PortOutOfRange) <==>
              (HasCredentials(m) && !IsBlank(m.host) && !StartsWith(m.host, "http") && isHostOrIp(m.host)
               && !(1 <= m.port <= 65535))
    ensures r == Some(MissingAuthType) <==>
              (HasCredentials(m) && !IsBlank(m.host) && !StartsWith(m.host, "http") && isHostOrIp(m.host)
               && 1 <= m.port <= 65535 && IsBlank(m.authType))
    ensures r == Some(InvalidAuthType(m.authType)) <==>
              (HasCredentials(m) && !IsBlank(m.host) && !StartsWith(m.host, "http") && isHostOrIp(m.host)
               && 1 <= m.port <= 65535 && !IsBlank(m.authType) && m.authType !in AuthTypes)
    ensures r.Some? && r.value.InvalidAuthType? ==> r.value.authType == m.authType
  {
    if IsNullOrBlank(m.apikey) && (IsNullOrBlank(m.username) || IsNullOrBlank(m.password)) then Some(MissingCredentials)
    else if IsBlank(m.host) then Some(MissingHost)
    else if StartsWith(m.host, "http") then Some(HostIncludesProtocol)
    else if !isHostOrIp(m.host) then Some(InvalidHost)
    else if m.port < 1 || m.port > 65535 then Some(PortOutOfRange)
    else if IsBlank(m.authType) then
      (assert m.authType !in AuthTypes by { AuthTypesAreNotBlank(); }
      Some(MissingAuthType))
    else if m.authType != "oidc" && m.authType != "maxauth" && m.authType != "basic" && m.authType != "form" then
      Some(InvalidAuthType(m.authType))
    else None
  }

  lemma AuthTypesAreNotBlank()
    ensures forall t :: t in AuthTypes ==> !IsBlank(t)
  {
    assert !IsWhitespace("oidc"[0]) && !IsWhitespace("maxauth"[0]);
    assert !IsWhitespace("basic"[0]) && !IsWhitespace("form"[0]);
  }

  /** The auth-type test is case-sensitive: only the four lower-case spellings pass. */
  lemma AuthTypeCaseSensitive(m: MaximoConfiguration, isHostOrIp: string -> bool)
    requires Acceptable(m.(authType := "basic"), isHostOrIp)
    ensures Validate(m.(authType := "Basic"), isHostOrIp) == Some(InvalidAuthType("Basic"))
    ensures Validate(m.(authType := "BASIC"), isHostOrIp) == Some(InvalidAuthType("BASIC"))
  {
    assert !IsBlank("Basic") by { assert !IsWhitespace("Basic"[0]); }
    assert !IsBlank("BASIC") by { assert !IsWhitespace("BASIC"[0]); }
  }

  /** `Configuration.validate()`: validates the `maximo:` section and returns the configuration itself. */
  function ValidateConfiguration(c: Configuration, isHostOrIp: string -> bool): (r: Result<Configuration, ConfigurationError>)
    ensures r.Success? <==> Acceptable(c.maximo, isHostOrIp)
    ensures r.Success? ==> r.value == c
    ensures r.Failure? ==> Validate(c.maximo, isHostOrIp) == Some(r.error)
  {
    match Validate(c.maximo, isHostOrIp)
    case Some(e) => Failure(e)
    case None => Success(c)
  }

  function Scheme(secure: bool): string {
    if secure then "https://" else "http://"
  }

  /** The port is left out of the URL exactly for the scheme's default port. */
  predicate IsDefaultPort(secure: bool, port: int) {
    (secure && port == 443) || (!secure && port == 80)
  }

  function PortSuffix(secure: bool, port: int): (r: string)
    ensures r == "" <==> IsDefaultPort(secure, port)
    ensures r != "" ==> r == ":" + Decimal(port)
  {
    if secure then (if port == 443 then "" else ":" + Decimal(port))
    else (if port == 80 then "" else ":" + Decimal(port))
  }

  /**
   * `MaximoConfiguration.url()` as written. Kotlin's `if` is an expression
   * that extends as far right as it can, so the port and context suffix
   * belong to the else-branch only.
   */
  function Url(m: MaximoConfiguration): (r: string)
    ensures StartsWith(r, Scheme(m.secure))
    ensures StartsWith(r, "https://") <==> m.secure
  {
    assert !m.secure ==> Scheme(m.secure)[4] == ':';
    Scheme(m.secure) + if EndsWith(m.host, "/") then m.host[..|m.host| - 1]
                       else m.host + PortSuffix(m.secure, m.port) + "/" + m.context
  }

  /** The URL the expression reads as: scheme, host without a trailing slash, port, context. */
  function IntendedUrl(m: MaximoConfiguration): string {
    Scheme(m.secure)
      + ((if EndsWith(m.host, "/") then m.host[..|m.host| - 1] else m.host) + PortSuffix(m.secure, m.port) + "/" + m.context)
  }

  /** For a host without a trailing slash the URL is scheme, host, optional port, `/` and context. */
  lemma UrlParts(m: MaximoConfiguration)
    requires !EndsWith(m.host, "/")
    ensures IsDefaultPort(m.secure, m.port) ==> Url(m) == Scheme(m.secure) + (m.host + "/" + m.context)
    ensures !IsDefaultPort(m.secure, m.port) ==> Url(m) == Scheme(m.secure) + (m.host + ":" + Decimal(m.port) + "/" + m.context)
    ensures StartsWith(Url(m), "https://") <==> m.secure
  {
    if IsDefaultPort(m.secure, m.port) {
      UrlWithoutPort(m);
    } else {
      UrlWithPort(m);
    }
  }

  lemma UrlWithoutPort(m: MaximoConfiguration)
    requires !EndsWith(m.host, "/") && IsDefaultPort(m.secure, m.port)
    ensures Url(m) == Scheme(m.secure) + (m.host + "/" + m.context)
  {
    assert m.host + PortSuffix(m.secure, m.port) == m.host;
  }

  lemma UrlWithPort(m: MaximoConfiguration)
    requires !EndsWith(m.host, "/") && !IsDefaultPort(m.secure, m.port)
    ensures Url(m) == Scheme(m.secure) + (m.host + ":" + Decimal(m.port) + "/" + m.context)
  {
    assert m.host + PortSuffix(m.secure, m.port) == m.host + ":" + Decimal(m.port);
  }

  /** The URL agrees with its intended reading exactly when the host has no trailing slash. */
  lemma {:induction false} UrlQuirk(m: MaximoConfiguration)
    ensures Url(m) == IntendedUrl(m) <==> !EndsWith(m.host, "/")
    ensures EndsWith(m.host, "/") ==> Url(m) == Scheme(m.secure) + m.host[..|m.host| - 1]
  {
    if EndsWith(m.host, "/") {
      assert |Url(m)| < |IntendedUrl(m)|;
    }
  }

  /** With a trailing slash on the host, neither the port nor the context reaches the URL. */
  lemma UrlIgnoresPortAndContext(m: MaximoConfiguration, port: int, context: string)
    requires EndsWith(m.host, "/")
    ensures Url(m) == Url(m.(port := port, context := context))
  {
  }

  /** A configuration with only the defaults points at `https://<host>/maximo`. */
  lemma DefaultUrl(username: Option<string>, host: string)
    requires !EndsWith(host, "/")
    ensures Url(WithDefaults(username, host)) == "https://" + host + "/maximo"
  {
  }

  // ----- the `{encrypted}` password convention -----

  const EncryptedPrefix: string := "{encrypted}"

  /**
   * The password step of `getConfiguration`: a password that starts with
   * `{encrypted}` is replaced by the decryption of the text after its first `}`.
   */
  function DecryptedPassword(password: Option<string>, decrypt: string -> string): (r: Option<string>)
    ensures password.None? ==> r.None?
    ensures password.Some? && !StartsWith(password.value, EncryptedPrefix) ==> r == password
    ensures password.Some? && StartsWith(password.value, EncryptedPrefix) ==>
              r == Some(decrypt(password.value[|EncryptedPrefix|..]))
  {
    match password
    case None => None
    case Some(p) =>
      if StartsWith(p, EncryptedPrefix) then
        (assert IndexOf(p, '}') == 10 by { IndexOfAfter(p[..10], '}', p[11..]); assert p == p[..10] + ['}'] + p[11..]; }
        Some(decrypt(p[IndexOf(p, '}') + 1..])))
      else password
  }

  /** Where a configuration is loaded from (`ConfigurationServiceImpl`'s three optional fields). */
  datatype ConfigurationService = ConfigurationService(resource: Option<string>, path: Option<string>, file: Option<string>)

  datatype ConfigurationSource = FromResource(name: string) | FromPath(path: string) | FromFile(file: string)

  /** Why `getConfiguration` throws. */
  datatype LoadError = NoConfigurationFile | Invalid(error: ConfigurationError)

  /** The `when` in `getConfiguration`: resource, then path, then file. */
  function SourceOf(svc: ConfigurationService): (r: Result<ConfigurationSource, LoadError>)
    ensures r.Failure? <==> svc.resource.None? && svc.path.None? && svc.file.None?
    ensures r.Failure? ==> r.error == NoConfigurationFile
    ensures svc.resource.Some? ==> r == Success(FromResource(svc.resource.value))
    ensures svc.resource.None? && svc.path.Some? ==> r == Success(FromPath(svc.path.value))
    ensures svc.resource.None? && svc.path.None? && svc.file.Some? ==> r == Success(FromFile(svc.file.value))
  {
    if svc.resource.Some? then Success(FromResource(svc.resource.value))
    else if svc.path.Some? then Success(FromPath(svc.path.value))
    else if svc.file.Some? then Success(FromFile(svc.file.value))
    else Failure(NoConfigurationFile)
  }

  /**
   * `getConfiguration`: load from the chosen source (`load`), record the
   * source on the configuration, decrypt an `{encrypted}` password, validate.
   */
  function GetConfiguration(
    svc: ConfigurationService,
    load: ConfigurationSource -> Configuration,
    absolutePath: string -> string,
    decrypt: string -> string,
    isHostOrIp: string -> bool): (r: Result<Configuration, LoadError>)
    ensures SourceOf(svc).Failure? ==> r == Failure(NoConfigurationFile)
    ensures SourceOf(svc).Success? ==>
              var loaded := load(SourceOf(svc).value);
              var password := DecryptedPassword(loaded.maximo.password, decrypt);
              && (r.Success? <==> Acceptable(loaded.maximo.(password := password), isHostOrIp))
              && (r.Success? ==>
                    && r.value.maximo == loaded.maximo.(password := password)
                    && r.value.printers == loaded.printers
                    && r.value.path == svc.path
                    && r.value.resource == svc.resource
                    && r.value.file == (if svc.file.Some? then Some(absolutePath(svc.file.value)) else None))
  {
    match SourceOf(svc)
    case Failure(e) => Failure(e)
    case Success(source) =>
      var config := load(source);
      var config := config.(path := svc.path);
      var config := config.(file := if svc.file.Some? then Some(absolutePath(svc.file.value)) else None);
      var config := config.(resource := svc.resource);
      var config := config.(maximo := config.maximo.(password := DecryptedPassword(config.maximo.password, decrypt)));
      match ValidateConfiguration(config, isHostOrIp)
      case Failure(e) => Failure(Invalid(e))
      case Success(c) => Success(c)
  }

  /** A password written by `EncryptLines` is recovered on load when `decrypt` inverts `encrypt`. */
  lemma EncryptedPasswordRoundTrip(v: string, encrypt: string -> string, decrypt: string -> string)
    requires forall x :: decrypt(encrypt(x)) == x
    ensures DecryptedPassword(Some(EncryptedPrefix + encrypt(v)), decrypt) == Some(v)
  {
    var p := EncryptedPrefix + encrypt(v);
    assert p[..|EncryptedPrefix|] == EncryptedPrefix;
    assert p[|EncryptedPrefix|..] == encrypt(v);
  }

  // ----- encryptConfig: the per-line rewrite -----

  /** A line that names a password, is not a comment, and is not encrypted yet. */
  predicate NeedsEncryption(line: string) {
    Contains(line, "password") && !StartsWith(Trim(line), "#") && !Contains(line, EncryptedPrefix)
  }

  /** The value after the first `:` (the whole line if there is none), trimmed, with every `"` removed. */
  function PasswordValue(line: string): (v: string)
    ensures '"' !in v
    ensures '\n' !in line ==> '\n' !in v
  {
    var after := line[IndexOf(line, ':') + 1..];
    var t := Trim(after);
    if '\n' !in line then
      assert '\n' !in after;
      TrimOmits(after, '\n');
      RemoveCharOmits(t, '"', '\n');
      RemoveChar(t, '"')
    else RemoveChar(t, '"')
  }

  /** The replacement for a password line: its key up to the first `:`, then the quoted cipher text. */
  function Rewritten(line: string, encrypt: string -> string): string {
    line[..IndexOf(line, ':') + 1] + QuotedCipher(encrypt(PasswordValue(line)))
  }

  /** The new value written after the key: ` "{encrypted}<cipher text>"`. */
  function QuotedCipher(cipher: string): string {
    " \"" + EncryptedPrefix + cipher + "\""
  }

  /**
   * On a line `<key>:<value>` whose key has no colon, the value passed to the
   * cipher is the text after that first colon, trimmed and unquoted, and the
   * rewritten line keeps `<key>:`.
   */
  lemma PasswordValueAfterKey(key: string, value: string, encrypt: string -> string)
    requires ':' !in key
    ensures PasswordValue(key + ":" + value) == RemoveChar(Trim(value), '"')
    ensures Rewritten(key + ":" + value, encrypt) == key + ":" + QuotedCipher(encrypt(RemoveChar(Trim(value), '"')))
  {
    var line := key + ":" + value;
    IndexOfAfter(key, ':', value);
    assert line == key + [':'] + value;
    assert line[..|key| + 1] == key + ":";
    assert line[|key| + 1..] == value;
  }

  /** One line of `encryptConfig`'s output, without its line terminator. */
  function EncryptLine(line: string, encrypt: string -> string): (r: string)
    ensures !NeedsEncryption(line) ==> r == line
    ensures NeedsEncryption(line) ==> r == Rewritten(line, encrypt)
  {
    if Contains(line, "password") && !StartsWith(Trim(line), "#") then
      if !Contains(line, EncryptedPrefix) then Rewritten(line, encrypt) else line
    else line
  }

  lemma {:induction false} QuotedCipherIsMarked(key: string, cipher: string)
    ensures StartsWith(key + QuotedCipher(cipher), key)
    ensures Contains(key + QuotedCipher(cipher), EncryptedPrefix)
  {
    assert (key + QuotedCipher(cipher))[..|key|] == key;
    assert key + QuotedCipher(cipher) == (key + " \"") + EncryptedPrefix + (cipher + "\"");
    ContainsInMiddle(key + " \"", EncryptedPrefix, cipher + "\"");
  }

  /** A rewritten line keeps the key and the colon, and carries the `{encrypted}` marker. */
  lemma RewrittenShape(line: string, encrypt: string -> string)
    ensures StartsWith(Rewritten(line, encrypt), line[..IndexOf(line, ':') + 1])
    ensures Contains(Rewritten(line, encrypt), EncryptedPrefix)
  {
    var key, cipher := line[..IndexOf(line, ':') + 1], encrypt(PasswordValue(line));
    QuotedCipherIsMarked(key, cipher);
    assert Rewritten(line, encrypt) == key + QuotedCipher(cipher);
  }

  /** A password line without a colon is replaced as a whole by the quoted cipher text of the trimmed line. */
  lemma RewrittenWithoutColon(line: string, encrypt: string -> string)
    requires ':' !in line
    ensures Rewritten(line, encrypt) == QuotedCipher(encrypt(RemoveChar(Trim(line), '"')))
  {
    assert line[..IndexOf(line, ':') + 1] == [];
    assert line[IndexOf(line, ':') + 1..] == line;
  }

  /** Rewriting a line twice is the same as rewriting it once. */
  lemma EncryptLineIdempotent(line: string, encrypt: string -> string)
    ensures EncryptLine(EncryptLine(line, encrypt), encrypt) == EncryptLine(line, encrypt)
  {
    if NeedsEncryption(line) {
      RewrittenShape(line, encrypt);
    }
  }

  /** The key part of a line without line feeds has none. */
  lemma KeyHasNoLineFeed(line: string)
    requires '\n' !in line
    ensures '\n' !in line[..IndexOf(line, ':') + 1]
  {
  }

  /** The quoted cipher text adds no line feed of its own. */
  lemma QuotedCipherHasNoLineFeed(cipher: string)
    requires '\n' !in cipher
    ensures '\n' !in QuotedCipher(cipher)
  {
  }

  /** A rewritten line stays on one line when the line and the cipher text have no line feed. */
  lemma EncryptLineSingleLine(line: string, encrypt: string -> string)
    requires '\n' !in line
    requires forall x :: '\n' !in encrypt(x)
    ensures '\n' !in EncryptLine(line, encrypt)
  {
    if NeedsEncryption(line) {
      KeyHasNoLineFeed(line);
      QuotedCipherHasNoLineFeed(encrypt(PasswordValue(line)));
    }
  }

  function EncryptLines(lines: seq<string>, encrypt: string -> string): (r: seq<string>)
    ensures |r| == |lines|
    ensures forall i :: 0 <= i < |lines| ==> r[i] == EncryptLine(lines[i], encrypt)
  {
    if lines == [] then []
    else
      var rest := EncryptLines(lines[1..], encrypt);
      var r := [EncryptLine(lines[0], encrypt)] + rest;
      EncryptedAfterHead(lines, encrypt, rest, r);
      r
  }

  /** The recursive case of `EncryptLines`: the first line's rewrite before the rest's. */
  lemma EncryptedAfterHead(lines: seq<string>, encrypt: string -> string, rest: seq<string>, r: seq<string>)
    requires lines != [] && |rest| == |lines| - 1
    requires forall i :: 0 <= i < |lines[1..]| ==> rest[i] == EncryptLine(lines[1..][i], encrypt)
    requires r == [EncryptLine(lines[0], encrypt)] + rest
    ensures |r| == |lines|
    ensures forall i :: 0 <= i < |lines| ==> r[i] == EncryptLine(lines[i], encrypt)
  {
    MappedAfterHead(lines, l => EncryptLine(l, encrypt), rest, r);
  }

  /** `[f(xs[0])]` before the images of the rest is the image of `xs`, position by position. */
  lemma MappedAfterHead<T, U>(xs: seq<T>, f: T -> U, rest: seq<U>, r: seq<U>)
    requires xs != [] && |rest| == |xs| - 1
    requires forall i :: 0 <= i < |xs[1..]| ==> rest[i] == f(xs[1..][i])
    requires r == [f(xs[0])] + rest
    ensures |r| == |xs|
    ensures forall i :: 0 <= i < |xs| ==> r[i] == f(xs[i])
  {
    forall i | 0 < i < |xs| ensures r[i] == f(xs[i]) {
      assert r[i] == rest[i - 1] && xs[i] == xs[1..][i - 1];
    }
  }


  /** The file text built by appending each line and a `\n`. */
  function JoinLines(lines: seq<string>): string {
    if lines == [] then "" else lines[0] + "\n" + JoinLines(lines[1..])
  }

  /** Appending a line to the list appends it, with its terminator, to the text. */
  lemma {:induction false} JoinLinesAppend(lines: seq<string>, line: string)
    ensures JoinLines(lines + [line]) == JoinLines(lines) + line + "\n"
    decreases |lines|
  {
    if lines == [] {
      assert [line][1..] == [];
    } else {
      assert (lines + [line])[0] == lines[0];
      assert (lines + [line])[1..] == lines[1..] + [line];
      JoinLinesAppend(lines[1..], line);
    }
  }

  /** The rewrite of one more line is one more rewritten line. */
  lemma {:induction false} EncryptLinesAppend(lines: seq<string>, line: string, encrypt: string -> string)
    ensures EncryptLines(lines + [line], encrypt) == EncryptLines(lines, encrypt) + [EncryptLine(line, encrypt)]
    decreases |lines|
  {
    if lines == [] {
      assert [line][1..] == [];
    } else {
      assert (lines + [line])[0] == lines[0];
      assert (lines + [line])[1..] == lines[1..] + [line];
      EncryptLinesAppend(lines[1..], line, encrypt);
    }
  }

  /** `File.readLines()` on text whose lines end in `\n`: no trailing empty line after a final terminator. */
  function ReadLines(text: string): (r: seq<string>)
    ensures forall i :: 0 <= i < |r| ==> '\n' !in r[i]
    decreases |text|
  {
    if text == [] then []
    else
      var i := IndexOf(text, '\n');
      if i == -1 then [text] else [text[..i]] + ReadLines(text[i + 1..])
  }

  /** Reading back the joined lines gives the lines, when none holds a line feed. */
  lemma {:induction false} ReadJoinedLines(lines: seq<string>)
    requires forall i :: 0 <= i < |lines| ==> '\n' !in lines[i]
    ensures ReadLines(JoinLines(lines)) == lines
  {
    if lines != [] {
      ReadFirstLine(lines[0], JoinLines(lines[1..]));
      ReadJoinedLines(lines[1..]);
      assert lines == [lines[0]] + lines[1..];
    }
  }

  /** A line without a line feed, then `\n`, then the rest, reads as that line and the lines of the rest. */
  lemma ReadFirstLine(line: string, rest: string)
    requires '\n' !in line
    ensures ReadLines(line + "\n" + rest) == [line] + ReadLines(rest)
  {
    var text := line + "\n" + rest;
    IndexOfAfter(line, '\n', rest);
    assert text[..|line|] == line;
    assert text[|line| + 1..] == rest;
  }

  /**
   * The line loop of `encryptConfig`: each input line is appended, rewritten
   * when it needs encryption, followed by a `\n`.
   */
  method EncryptConfig(lines: seq<string>, encrypt: string -> string) returns (contents: string)
    requires forall i :: 0 <= i < |lines| ==> '\n' !in lines[i]
    requires forall x :: '\n' !in encrypt(x)
    ensures contents == JoinLines(EncryptLines(lines, encrypt))
    ensures ReadLines(contents) == EncryptLines(lines, encrypt)
  {
    contents := "";
    var i := 0;
    while i < |lines|
      invariant 0 <= i <= |lines|
      invariant contents == JoinLines(EncryptLines(lines[..i], encrypt))
    {
      var line := EncryptLine(lines[i], encrypt);
      EncryptLinesAppend(lines[..i], lines[i], encrypt);
      TakeOneMore(lines, i);
      JoinLinesAppend(EncryptLines(lines[..i], encrypt), line);
      contents := contents + line + "\n";
      i := i + 1;
    }
    assert lines[..i] == lines;
    EncryptLinesSingleLine(lines, encrypt);
    ReadJoinedLines(EncryptLines(lines, encrypt));
  }

  /** The whole file transformation: read the lines, rewrite each, join them. */
  function EncryptText(text: string, encrypt: string -> string): (r: string)
    ensures (forall x :: '\n' !in encrypt(x)) ==> ReadLines(r) == EncryptLines(ReadLines(text), encrypt)
  {
    EncryptedLinesReadBack(ReadLines(text), encrypt);
    JoinLines(EncryptLines(ReadLines(text), encrypt))
  }

  lemma EncryptedLinesReadBack(lines: seq<string>, encrypt: string -> string)
    requires forall i :: 0 <= i < |lines| ==> '\n' !in lines[i]
    ensures (forall x :: '\n' !in encrypt(x)) ==> ReadLines(JoinLines(EncryptLines(lines, encrypt))) == EncryptLines(lines, encrypt)
  {
    if forall x :: '\n' !in encrypt(x) {
      EncryptLinesSingleLine(lines, encrypt);
      ReadJoinedLines(EncryptLines(lines, encrypt));
    }
  }

  lemma {:induction false} EncryptLinesIdempotent(lines: seq<string>, encrypt: string -> string)
    ensures EncryptLines(EncryptLines(lines, encrypt), encrypt) == EncryptLines(lines, encrypt)
  {
    var once := EncryptLines(lines, encrypt);
    forall k | 0 <= k < |once| ensures EncryptLines(once, encrypt)[k] == once[k] {
      EncryptLineIdempotent(lines[k], encrypt);
    }
  }

  lemma {:induction false} EncryptLinesSingleLine(lines: seq<string>, encrypt: string -> string)
    requires forall i :: 0 <= i < |lines| ==> '\n' !in lines[i]
    requires forall x :: '\n' !in encrypt(x)
    ensures forall i :: 0 <= i < |lines| ==> '\n' !in EncryptLines(lines, encrypt)[i]
  {
    forall k | 0 <= k < |lines| ensures '\n' !in EncryptLines(lines, encrypt)[k] {
      EncryptLineSingleLine(lines[k], encrypt);
    }
  }

  /** Encrypting an already encrypted file leaves it unchanged. */
  lemma EncryptTextIdempotent(text: string, encrypt: string -> string)
    requires forall x :: '\n' !in encrypt(x)
    ensures EncryptText(EncryptText(text, encrypt), encrypt) == EncryptText(text, encrypt)
  {
    var once := EncryptLines(ReadLines(text), encrypt);
    EncryptLinesSingleLine(ReadLines(text), encrypt);
    ReadJoinedLines(once);
    EncryptLinesIdempotent(ReadLines(text), encrypt);
  }
}
