# Label print agent: a Dafny model of its decision logic

The label print agent is a small command-line daemon for Maximo. It reads a
YAML configuration and can encrypt the Maximo password in that file. It logs
in to Maximo over HTTP(S) with an API key, basic, MAXAUTH, form or OIDC
authentication, subscribes to a server-sent-event stream, and forwards each
new `print` event's label text to a network printer.

This project models the agent's own decisions, one Dafny module per concern.
The cookie jar, the authenticator and the interceptor are classes whose
methods update their fields, and the `encryptConfig` and `sseLoop` loops are
methods with loops. The configuration that `getConfiguration` updates in
place is modelled as a record update.

- `KotlinText` gives the Kotlin standard-library string behaviour the other
  modules rely on: `isBlank`, `trim`, `indexOf`, `contains`, `toInt`/`toLong`,
  and decimal rendering.
- `ConfigurationRules` (Configuration.kt) covers:
  - the configuration records and their defaults;
  - `MaximoConfiguration.validate`;
  - `url()`, including its operator-precedence quirk;
  - the `{encrypted}` password step of `getConfiguration`;
  - the line rewrite of `encryptConfig`, as a method with a loop over the
    file's lines.
- `HttpSession` (OKHttp.kt) covers:
  - `MaximoCookieJar`, a class whose cookie store is a sequence kept in the
    insertion order of Kotlin's `mutableMapOf`;
  - `MaximoAuthenticator`, with its sticky `invalidated` flag;
  - the `isOidcRequest` flag of `MASAuthenticationInterceptor`.
- `PrintDispatch` (Maximo.kt) covers:
  - the SSE URL;
  - `PrintData` and its default timeout;
  - the event-collect loop of `sseLoop`, as a method over the received
    stream states, proved against a fold; the lambda passed to `collect` is
    a method of its own, proved against one step of that fold.
- `CommandLine` (Application.kt) covers:
  - `javaVersion`;
  - the start-up gate of `Application.run`;
  - the log-configuration choice;
  - the file `encrypt` rewrites;
  - `handleException`;
  - the exit status of `encrypt` and `monitor`.

These foreign calls are parameters of the functions that use them:
- the AES cipher (`encrypt`/`decrypt`);
- Base64;
- OkHttp's URL parser;
- the Guava host/IP test;
- Gson's parse of the event data;
- `File.exists` and `absolutePath`;
- the YAML loader;
- the clock (`now`).

## Model

| member | source | states |
|---|---|---|
| KotlinText.IndexOf | src/main/kotlin/io/sharptree/maximo/app/label/Configuration.kt:60 | `indexOf` gives -1 exactly when the character is absent, and otherwise the position of its first occurrence |
| KotlinText.IndexOfAfter | src/main/kotlin/io/sharptree/maximo/app/label/Configuration.kt:60 | in `a + [c] + b` with `c` not in `a`, `indexOf(c)` is `|a|` |
| KotlinText.Trim | src/main/kotlin/io/sharptree/maximo/app/label/Configuration.kt:171-173 | `trim()` gives the slice of its input left after dropping whitespace at both ends: everything before and after it is whitespace, and it neither starts nor ends with whitespace |
| KotlinText.RemoveChar | src/main/kotlin/io/sharptree/maximo/app/label/Configuration.kt:173 | `replace("\"", "")` leaves no quote, keeps every other character with its multiplicity, and changes nothing when there is no quote |
| KotlinText.RemoveCharAppend | src/main/kotlin/io/sharptree/maximo/app/label/Configuration.kt:173 | removal works piece by piece, one character at a time, so the kept characters stay in their order |
| KotlinText.RemoveCharOmits | src/main/kotlin/io/sharptree/maximo/app/label/Configuration.kt:173 | removing `"` never introduces a character the text did not have |
| KotlinText.TrimOmits | src/main/kotlin/io/sharptree/maximo/app/label/Configuration.kt:173 | trimming never introduces a character the text did not have |
| KotlinText.ToLong | src/main/kotlin/io/sharptree/maximo/app/label/Maximo.kt:68 | `toLong()` gives a 64-bit value, only for a text ending in a digit. An all-digit text is refused only when it exceeds the Long range |
| KotlinText.ToLongValue | src/main/kotlin/io/sharptree/maximo/app/label/Maximo.kt:68 | `toLong()` of digits, alone or after a `+` or `-`, is the digits' decimal value with that sign when it lies in the Long range, and nothing otherwise; so "007" gives 7 |
| KotlinText.ToInt | src/main/kotlin/io/sharptree/maximo/app/label/Application.kt:314 | `toInt()` gives a 32-bit value, only for a text ending in a digit. An all-digit text is refused only when it exceeds the Int range |
| KotlinText.ToIntValue | src/main/kotlin/io/sharptree/maximo/app/label/Application.kt:314 | `toInt()` of digits, alone or after a `+` or `-`, is the digits' decimal value with that sign when it lies in the Int range, and nothing otherwise; so "007" gives 7 |
| KotlinText.ToIntOneChar | src/main/kotlin/io/sharptree/maximo/app/label/Application.kt:307-314 | a one-character text is an Int iff it is a digit, and then it is that digit's value |
| KotlinText.DecimalRoundTrip | src/main/kotlin/io/sharptree/maximo/app/label/Application.kt:314 | `toInt`/`toLong` read back the decimal rendering of every number in range |
| KotlinText.ContainsInMiddle | src/main/kotlin/io/sharptree/maximo/app/label/Configuration.kt:172 | `contains` finds a text wherever it occurs |
| KotlinText.NotContainsWithoutHead | src/main/kotlin/io/sharptree/maximo/app/label/Application.kt:267 | a text lacking the first character of `sub` does not contain `sub` |
| ConfigurationRules.WithDefaults | src/main/kotlin/io/sharptree/maximo/app/label/Configuration.kt:102-113 | the defaults: port 443, secure, `maxauth`, context `maximo`, no API key, no insecure TLS, endpoint `/labeldispatch` |
| ConfigurationRules.Validate | src/main/kotlin/io/sharptree/maximo/app/label/Configuration.kt:116-141 | the configuration is accepted iff every check passes. Each error is raised exactly when its check is the first to fail: missing credentials, blank host, host with protocol, port outside 1..65535, blank or unknown auth type |
| ConfigurationRules.AuthTypesAreNotBlank | src/main/kotlin/io/sharptree/maximo/app/label/Configuration.kt:137-140 | no accepted auth type is blank, so the two auth-type errors never overlap |
| ConfigurationRules.AuthTypeCaseSensitive | src/main/kotlin/io/sharptree/maximo/app/label/Configuration.kt:139-140 | `Basic` and `BASIC` are rejected as invalid auth types where `basic` is accepted |
| ConfigurationRules.ValidateConfiguration | src/main/kotlin/io/sharptree/maximo/app/label/Configuration.kt:95-98 | succeeds iff the Maximo part is acceptable, and then returns the configuration unchanged |
| ConfigurationRules.Url | src/main/kotlin/io/sharptree/maximo/app/label/Configuration.kt:144-149 | `url()` always starts with the scheme, and starts with `https://` iff `secure` |
| ConfigurationRules.PortSuffix | src/main/kotlin/io/sharptree/maximo/app/label/Configuration.kt:148 | the port is omitted exactly for (secure, 443) and (plain, 80), and is otherwise `:` plus its decimal form |
| ConfigurationRules.UrlParts | src/main/kotlin/io/sharptree/maximo/app/label/Configuration.kt:144-148 | for a host without a trailing `/`, `url()` is the scheme, the host, the port unless it is the default, then `/` and the context. It starts with `https://` iff `secure` |
| ConfigurationRules.UrlQuirk | src/main/kotlin/io/sharptree/maximo/app/label/Configuration.kt:145-148 | `url()` agrees with the reading where the conditional covers only the host iff the host has no trailing `/`. With a trailing `/` it is the scheme plus the host minus that slash |
| ConfigurationRules.UrlIgnoresPortAndContext | src/main/kotlin/io/sharptree/maximo/app/label/Configuration.kt:145-148 | with a trailing `/` on the host, port and context do not affect `url()` |
| ConfigurationRules.DefaultUrl | src/main/kotlin/io/sharptree/maximo/app/label/Configuration.kt:102-113 | with the defaults, `url()` is `https://<host>/maximo` |
| ConfigurationRules.DecryptedPassword | src/main/kotlin/io/sharptree/maximo/app/label/Configuration.kt:57-62 | a null password, or one without the `{encrypted}` prefix, is unchanged. A prefixed one becomes the decryption of the text after the first `}` |
| ConfigurationRules.EncryptedPasswordRoundTrip | src/main/kotlin/io/sharptree/maximo/app/label/Configuration.kt:57-62 | when decrypt inverts encrypt, a password written as `{encrypted}` plus its cipher text loads as the original password |
| ConfigurationRules.SourceOf | src/main/kotlin/io/sharptree/maximo/app/label/Configuration.kt:35-52 | a resource is preferred, then the path, then the file (when it is the only one given). With none of them loading fails with "No configuration file specified" |
| ConfigurationRules.GetConfiguration | src/main/kotlin/io/sharptree/maximo/app/label/Configuration.kt:34-66 | the loaded configuration records its source (the file as an absolute path), has its password decrypted, and is returned iff it validates |
| ConfigurationRules.PasswordValue | src/main/kotlin/io/sharptree/maximo/app/label/Configuration.kt:173 | the value passed to the cipher contains no quote and no line feed |
| ConfigurationRules.PasswordValueAfterKey | src/main/kotlin/io/sharptree/maximo/app/label/Configuration.kt:173-174 | on a line `<key>:<value>` whose key has no colon, the enciphered value is `<value>` trimmed with every quote removed, and the rewritten line is `<key>:` then ` "{encrypted}<cipher>"` |
| ConfigurationRules.EncryptLine | src/main/kotlin/io/sharptree/maximo/app/label/Configuration.kt:171-181 | a line that lacks `password`, is a comment, or already holds `{encrypted}` is kept. Any other line becomes its key up to the first `:`, then ` "{encrypted}<cipher>"` |
| ConfigurationRules.RewrittenShape | src/main/kotlin/io/sharptree/maximo/app/label/Configuration.kt:173-174 | a rewritten line keeps its key and carries the `{encrypted}` marker |
| ConfigurationRules.RewrittenWithoutColon | src/main/kotlin/io/sharptree/maximo/app/label/Configuration.kt:173-174 | a line without `:` keeps no key, and its whole trimmed, unquoted text is enciphered |
| ConfigurationRules.EncryptLineIdempotent | src/main/kotlin/io/sharptree/maximo/app/label/Configuration.kt:172-177 | rewriting a line a second time changes nothing |
| ConfigurationRules.EncryptLineSingleLine | src/main/kotlin/io/sharptree/maximo/app/label/Configuration.kt:174 | a rewritten line holds no line feed when the cipher text holds none |
| ConfigurationRules.EncryptLines | src/main/kotlin/io/sharptree/maximo/app/label/Configuration.kt:170-182 | one output line per input line, each the rewrite of the line at the same position |
| ConfigurationRules.ReadLines | src/main/kotlin/io/sharptree/maximo/app/label/Configuration.kt:170 | `readLines` yields lines without line feeds |
| ConfigurationRules.ReadJoinedLines | src/main/kotlin/io/sharptree/maximo/app/label/Configuration.kt:170-184 | reading back a file written as `\n`-terminated lines gives those lines |
| ConfigurationRules.ReadFirstLine | src/main/kotlin/io/sharptree/maximo/app/label/Configuration.kt:170 | `readLines` splits at the first `\n`: a line without one, then `\n`, then the rest, reads as that line followed by the lines of the rest |
| ConfigurationRules.JoinLinesAppend | src/main/kotlin/io/sharptree/maximo/app/label/Configuration.kt:167-181 | appending one line to the list appends that line and its `\n` to the text, as each `append(...).append("\n")` does |
| ConfigurationRules.EncryptLinesAppend | src/main/kotlin/io/sharptree/maximo/app/label/Configuration.kt:167-181 | rewriting one more line adds exactly that line's rewrite at the end |
| ConfigurationRules.EncryptConfig | src/main/kotlin/io/sharptree/maximo/app/label/Configuration.kt:167-184 | the file contents are the rewritten lines, each terminated by `\n`, and reading them back gives exactly the rewritten lines |
| ConfigurationRules.EncryptText | src/main/kotlin/io/sharptree/maximo/app/label/Configuration.kt:167-184 | when the cipher text has no line feed, the new file reads back as one rewritten line per line of the old file |
| ConfigurationRules.EncryptedLinesReadBack | src/main/kotlin/io/sharptree/maximo/app/label/Configuration.kt:170-184 | lines without line feeds, rewritten and written out, read back as the rewritten lines |
| ConfigurationRules.EncryptLinesIdempotent | src/main/kotlin/io/sharptree/maximo/app/label/Configuration.kt:170-182 | rewriting a set of lines twice is the same as rewriting them once |
| ConfigurationRules.EncryptLinesSingleLine | src/main/kotlin/io/sharptree/maximo/app/label/Configuration.kt:170-182 | no rewritten line holds a line feed |
| ConfigurationRules.EncryptTextIdempotent | src/main/kotlin/io/sharptree/maximo/app/label/Configuration.kt:167-184 | running `encryptConfig` on an already encrypted file leaves it unchanged |
| HttpSession.Saveable | src/main/kotlin/io/sharptree/maximo/app/label/OKHttp.kt:167-168 | a saved cookie has a positive expiry not before now, and a value |
| HttpSession.AppliesToRequestUri | src/main/kotlin/io/sharptree/maximo/app/label/OKHttp.kt:174-190 | a cookie sent with a request is unexpired, passes the domain test, has a path that prefixes the request path, and is secure only on HTTPS |
| HttpSession.AppliesIgnoresDomain | src/main/kotlin/io/sharptree/maximo/app/label/OKHttp.kt:174-190 | for an empty or non-blank domain, a cookie applies iff it is not expired, its path prefixes the request path, and it is not a secure cookie on plain HTTP. The request host plays no part |
| HttpSession.Get | src/main/kotlin/io/sharptree/maximo/app/label/OKHttp.kt:160 | a lookup by name finds a stored cookie of that name, and finds none iff no stored cookie has the name |
| HttpSession.Put | src/main/kotlin/io/sharptree/maximo/app/label/OKHttp.kt:170 | after storing a cookie its name maps to it, and every other name maps to what it did before. A new name is appended at the end, and an existing name keeps its position, so the names stay in the same order |
| HttpSession.PutNames | src/main/kotlin/io/sharptree/maximo/app/label/OKHttp.kt:160-171 | storing adds exactly the cookie's name and keeps names unique |
| HttpSession.LastSaveable | src/main/kotlin/io/sharptree/maximo/app/label/OKHttp.kt:167-171 | finds an incoming saveable cookie of the name after which no incoming cookie of that name is saveable, or shows that none passes |
| HttpSession.SaveAll | src/main/kotlin/io/sharptree/maximo/app/label/OKHttp.kt:166-171 | a save removes no entry and adds at most one per incoming cookie |
| HttpSession.SaveAllGet | src/main/kotlin/io/sharptree/maximo/app/label/OKHttp.kt:166-171 | after a save, a name maps to its last incoming cookie that is unexpired, has a positive expiry and a non-blank value. Otherwise it keeps its old entry |
| HttpSession.SaveAllNames | src/main/kotlin/io/sharptree/maximo/app/label/OKHttp.kt:166-171 | a save adds exactly the names of the saveable incoming cookies and keeps names unique |
| HttpSession.Applicable | src/main/kotlin/io/sharptree/maximo/app/label/OKHttp.kt:163 | the filter keeps exactly the stored cookies that apply to the request |
| HttpSession.ApplicableAppend | src/main/kotlin/io/sharptree/maximo/app/label/OKHttp.kt:163 | the filter of a store split in two is the filter of the first part followed by that of the second, so it keeps the store's order |
| HttpSession.SavedCookieIsLoaded | src/main/kotlin/io/sharptree/maximo/app/label/OKHttp.kt:162-190 | a saveable cookie, once saved, is sent with a request iff it applies to that request |
| HttpSession.MaximoCookieJar.LoadForRequest | src/main/kotlin/io/sharptree/maximo/app/label/OKHttp.kt:162-164 | returns exactly the stored cookies that apply to the request, and reads the jar without changing it |
| HttpSession.MaximoCookieJar.SaveFromResponse | src/main/kotlin/io/sharptree/maximo/app/label/OKHttp.kt:166-172 | the store becomes the old store with each saveable incoming cookie put in order, and names stay unique |
| HttpSession.MaximoCookieJar.constructor | src/main/kotlin/io/sharptree/maximo/app/label/OKHttp.kt:159-160 | the jar starts empty, with no cookies, so its names are trivially unique |
| HttpSession.RetryRequest | src/main/kotlin/io/sharptree/maximo/app/label/OKHttp.kt:121-154 | with an API key (even a blank one), the retry goes to `<scheme>://<host>:<port>/<first segment>/oslc/login?apikey=<key>&lean=1`. Otherwise it depends on the lowercased auth type: `basic` adds `Authorization: Basic <creds>`; `form` posts the credentials to `.../oslc/j_security_check`; anything else adds `MAXAUTH: <creds>` |
| HttpSession.AuthenticateStep | src/main/kotlin/io/sharptree/maximo/app/label/OKHttp.kt:110-156 | the authenticator gives up iff it was already invalidated or the failed request carried `Authorization` or `MAXAUTH`, and it is invalidated afterwards exactly then. Otherwise it returns the retry request |
| HttpSession.CredentialedRetryIsFinal | src/main/kotlin/io/sharptree/maximo/app/label/OKHttp.kt:115-152 | a basic or MAXAUTH retry carries a credential header, so if it fails too the authenticator gives up |
| HttpSession.ApiKeyRetryIsRepeated | src/main/kotlin/io/sharptree/maximo/app/label/OKHttp.kt:115-130 | an API-key retry carries no credential header, so if it fails again the authenticator retries again |
| HttpSession.AuthenticateRun | src/main/kotlin/io/sharptree/maximo/app/label/OKHttp.kt:110-156 | over a series of failures there is one answer per failure |
| HttpSession.AuthenticateRunSticky | src/main/kotlin/io/sharptree/maximo/app/label/OKHttp.kt:103-120 | in a series of failures, the i-th gets a retry iff the authenticator started valid and none of the first i+1 failed requests carried credentials. Once invalidated it stays so |
| HttpSession.MaximoAuthenticator.constructor | src/main/kotlin/io/sharptree/maximo/app/label/OKHttp.kt:101-108 | starts not invalidated, with the Base64 of `username:password`, where null renders as `null` |
| HttpSession.MaximoAuthenticator.Authenticate | src/main/kotlin/io/sharptree/maximo/app/label/OKHttp.kt:110-156 | the answer and the new `invalidated` flag are one authenticator step from the old flag |
| HttpSession.InterceptStep | src/main/kotlin/io/sharptree/maximo/app/label/OKHttp.kt:66-98 | in OIDC mode the request is sent with Basic credentials and the mode stays on. Outside it the request is sent unchanged, and OIDC mode is switched on iff the response is a redirect setting both the OIDC state cookie and its request-URL cookie |
| HttpSession.InterceptRun | src/main/kotlin/io/sharptree/maximo/app/label/OKHttp.kt:66-98 | one sent request per exchange |
| HttpSession.OidcIsSticky | src/main/kotlin/io/sharptree/maximo/app/label/OKHttp.kt:57-91 | once OIDC mode is on, every later request carries Basic credentials and the mode stays on, since `authAttempted` is never set |
| HttpSession.RequestsUnchangedUntilOidc | src/main/kotlin/io/sharptree/maximo/app/label/OKHttp.kt:72-96 | until OIDC mode is switched on, requests are sent unchanged |
| HttpSession.MASAuthenticationInterceptor.constructor | src/main/kotlin/io/sharptree/maximo/app/label/OKHttp.kt:55-64 | starts outside OIDC mode with `authAttempted` false and the Base64 credentials |
| HttpSession.MASAuthenticationInterceptor.Intercept | src/main/kotlin/io/sharptree/maximo/app/label/OKHttp.kt:66-98 | the request sent and the new OIDC flag are one interceptor step, and the flag never reverts |
| PrintDispatch.SseUrl | src/main/kotlin/io/sharptree/maximo/app/label/Maximo.kt:23-24 | the SSE URL starts with the Maximo URL followed by a `/`. It is the Maximo URL plus the endpoint, with a `/` inserted between them only when the endpoint does not already start with one |
| PrintDispatch.DefaultStreamUrl | src/main/kotlin/io/sharptree/maximo/app/label/Maximo.kt:23-24 | with every configuration default the stream URL is `https://<host>/maximo/labeldispatch` |
| PrintDispatch.SseUrlLeadingSlash | src/main/kotlin/io/sharptree/maximo/app/label/Maximo.kt:24 | an endpoint with or without its leading `/` gives the same URL |
| PrintDispatch.NewPrintData | src/main/kotlin/io/sharptree/maximo/app/label/Maximo.kt:113 | the timeout defaults to 5000 ms |
| PrintDispatch.PrinterAllowed | src/main/kotlin/io/sharptree/maximo/app/label/Maximo.kt:76-78 | with no allow-list or an empty one every printer is allowed; otherwise exactly the listed printers are |
| PrintDispatch.Step | src/main/kotlin/io/sharptree/maximo/app/label/Maximo.kt:64-104 | after the loop has stopped, and for any item that is not a `print` event, the state is unchanged. `lastProcessedEventId` never decreases. Each item adds at most one handled id and one label, and the loop stops only on a `print` event whose id is not a Long |
| PrintDispatch.Collect | src/main/kotlin/io/sharptree/maximo/app/label/Maximo.kt:31-104 | starting from -1, `lastProcessedEventId` stays at least -1; there are no more labels than handled events and no more handled events than items |
| PrintDispatch.StepSound | src/main/kotlin/io/sharptree/maximo/app/label/Maximo.kt:64-104 | one event keeps the handled ids strictly increasing, ending at `lastProcessedEventId`, and sends labels only to allowed printers |
| PrintDispatch.CollectSound | src/main/kotlin/io/sharptree/maximo/app/label/Maximo.kt:31-104 | after any stream, starting from -1, no id was handled twice and every label went to an allowed printer |
| PrintDispatch.NonPrintIgnored | src/main/kotlin/io/sharptree/maximo/app/label/Maximo.kt:65-68 | an item that is not a `print` event changes nothing |
| PrintDispatch.StaleIdIgnored | src/main/kotlin/io/sharptree/maximo/app/label/Maximo.kt:68 | a `print` event whose id is not above `lastProcessedEventId` changes nothing |
| PrintDispatch.FreshEventProcessed | src/main/kotlin/io/sharptree/maximo/app/label/Maximo.kt:68-103 | a `print` event with a fresh id becomes the last processed id, even when its data does not parse. Its label is sent iff the data parses and the printer is allowed |
| PrintDispatch.BadIdStops | src/main/kotlin/io/sharptree/maximo/app/label/Maximo.kt:68-69 | once a `print` event's id fails to parse as a Long, the loop has ended and later items have no effect |
| PrintDispatch.BadIdHasCause | src/main/kotlin/io/sharptree/maximo/app/label/Maximo.kt:68-69 | the loop ends early only because some `print` event's id was not a decimal Long |
| PrintDispatch.CollectEvents | src/main/kotlin/io/sharptree/maximo/app/label/Maximo.kt:30-104 | the loop's final state is the fold of the stream. The handled ids strictly increase and end at `lastProcessedEventId` (-1 if none). Labels go only to allowed printers. An early end has a malformed `print` id as its cause |
| PrintDispatch.CollectLoop | src/main/kotlin/io/sharptree/maximo/app/label/Maximo.kt:30-104 | the `collect` loop, started from `lastProcessedEventId = -1` and stopped by the first malformed `print` id, ends in the fold of the stream |
| PrintDispatch.CollectStopsEarly | src/main/kotlin/io/sharptree/maximo/app/label/Maximo.kt:64-104 | once a malformed id has ended the loop, the items after it change nothing, so the state where the loop stopped is that of the whole stream |
| PrintDispatch.OnState | src/main/kotlin/io/sharptree/maximo/app/label/Maximo.kt:64-104 | the `collect` lambda on one state moves the loop variables exactly as one `Step` of the fold |
| CommandLine.JavaVersion | src/main/kotlin/io/sharptree/maximo/app/label/Application.kt:304-315 | the parsed version, when there is one, is a 32-bit integer. A `1.`-version parses iff it has a third character and that is a digit, and then gives that digit |
| CommandLine.NonNumericJavaVersion | src/main/kotlin/io/sharptree/maximo/app/label/Application.kt:308-314 | outside the `1.` scheme, a text before the first `.` that is empty or does not end in a digit gives no version |
| CommandLine.JavaVersionFailures | src/main/kotlin/io/sharptree/maximo/app/label/Application.kt:304-315 | the empty text, `1.`, `1.x` and `ea.1` give no version |
| CommandLine.LegacyJavaVersion | src/main/kotlin/io/sharptree/maximo/app/label/Application.kt:306-307 | `1.<digit>...` is read as that digit |
| CommandLine.ModernJavaVersion | src/main/kotlin/io/sharptree/maximo/app/label/Application.kt:308-314 | `<n>` and `<n>.<anything>` are read as `n`, for every `n` other than 1 in range |
| CommandLine.Java8Version | src/main/kotlin/io/sharptree/maximo/app/label/Application.kt:304-315 | `1.8.0_292` gives 8 |
| CommandLine.Java11Version | src/main/kotlin/io/sharptree/maximo/app/label/Application.kt:304-315 | `11.0.2` gives 11 |
| CommandLine.Java17Version | src/main/kotlin/io/sharptree/maximo/app/label/Application.kt:304-315 | `17` gives 17 |
| CommandLine.LogConfigFile | src/main/kotlin/io/sharptree/maximo/app/label/Application.kt:90-98 | the chosen file exists. It is the `-l` file if given and present, else `./logback.xml` if present, and none iff neither is present |
| CommandLine.Start | src/main/kotlin/io/sharptree/maximo/app/label/Application.kt:76-98 | an unparsable version escapes as an exception. A version below 8, or a missing configuration file, exits with status 1. Otherwise start-up goes on with the chosen log configuration |
| CommandLine.EncryptTarget | src/main/kotlin/io/sharptree/maximo/app/label/Application.kt:159-168 | a resource configuration is refused whatever path and file hold. Otherwise the absolute path is used, then the file; with neither there is no configuration file |
| CommandLine.EncryptRewritesLoadedFile | src/main/kotlin/io/sharptree/maximo/app/label/Application.kt:159-168 | `encrypt` rewrites the absolute path of the very file the configuration was loaded from, and refuses a resource |
| CommandLine.HandleException | src/main/kotlin/io/sharptree/maximo/app/label/Application.kt:263-300 | every branch exits with status 1. Each special report is chosen exactly when its case holds: unknown CA (handshake failure mentioning `PKIX path`), unexpected SSL response, configuration file error, connection timeout with a configuration. The configuration-file report carries the message and the timeout report carries the configured host. Anything else logs the message, `null` when absent |
| CommandLine.ConfigurationErrorReported | src/main/kotlin/io/sharptree/maximo/app/label/Application.kt:291-293 | a ConfigurationException from `validate` is logged with its own message, and the exit status is 1 |
| CommandLine.PlainExceptionLogged | src/main/kotlin/io/sharptree/maximo/app/label/Application.kt:291-300 | a ConfigurationException, and an exception of no class handled apart, is logged with its message unchanged, then exit status 1 |
| CommandLine.HandshakeBeforeSsl | src/main/kotlin/io/sharptree/maximo/app/label/Application.kt:265-279 | a handshake failure is an SSL exception but is tested first, so it is never reported as the plain SSL "unexpected response", even with that exact message |
| CommandLine.UnrecognizedSslMessageIsNotPkix | src/main/kotlin/io/sharptree/maximo/app/label/Application.kt:267-274 | the plain-SSL message does not mention `PKIX path` |
| CommandLine.EncryptOutcome | src/main/kotlin/io/sharptree/maximo/app/label/Application.kt:155-174 | `encrypt` proceeds to the chosen file iff the configuration is not from a resource and has a path or file. Otherwise it logs the refusal and exits with 1 |
| CommandLine.MonitorExitStatus | src/main/kotlin/io/sharptree/maximo/app/label/Application.kt:183-195 | `monitor` exits with 1 iff the event loop ended on a malformed `print` id, whatever the configuration and the exception's message, and with 0 when the stream ended |

## Left out

- The generic server-sent-event engine (line reader, field parser, event assembler, reconnection) is not part of this model. `sse/okhttp/OkHttp.kt` only adapts OkHttp to it. The event stream is therefore an input sequence of stream states.
- AES/CBC encryption and decryption, the key file and its permissions (Configuration.kt:152-216) are the parameters `encrypt`/`decrypt`.
- Base64 encoding of the credentials is a parameter.
- YAML loading through hoplite, including the retry of a resource as a path, is the parameter `load`.
- `fromFile` refusing a missing file happens before loading and is not modelled.
- Guava's `InternetDomainName.isValid`/`InetAddresses.isInetAddress` is the parameter `isHostOrIp`.
- The OkHttp client builder, the trust-all TLS manager and the permissive hostname verifier carry no decision logic and are not modelled.
- OkHttp's URL parsing of the retry URLs is the parameter `parseUrl`.
- HTTP header names are matched exactly, not case-insensitively as OkHttp does.
- The OIDC cookie-name derivation from `Set-Cookie` headers (OKHttp.kt:75-92) is not modelled. Only its outcome, whether a matching request-URL cookie was seen, enters as an input.
- HttpSession.RetryRequest: `lowercase(Locale.getDefault())` is modelled as ASCII lower-casing only.
- KotlinText.ParseSigned: `toInt`/`toLong` accept ASCII digits only, not other Unicode decimal digits.
- ConfigurationRules.ReadLines: splits on `\n` only. `readLines` also ends a line at `\r\n` and at a lone `\r`. The model keeps such a `\r` inside the line.
- ConfigurationRules.EncryptConfig: requires that no input line and no cipher text contain a line feed. This always holds for lines from `readLines` and Base64 output.
- ConfigurationRules.GetConfiguration: the in-place updates of the configuration's `path`, `file`, `resource` and `password` are modelled as a record update.
- ConfigurationRules.GetConfiguration: the model always has a parsed configuration and a decrypted password. A `loadConfigOrThrow` error (Configuration.kt:35-49) or an exception from `decryptPassword` (Configuration.kt:57-62) is not modelled, so "returned iff it validates" holds only when loading and decryption succeed.
- The clock is the parameter `now`.
- Coroutines, `runBlocking`, socket writes to printers, and logging other than the reports of `handleException` are not modelled.
- Gson's parsing of event data is the parameter `parse`. A parse failure is `None`.
- PrintDispatch.NewPrintData: the 5000 ms default applies to calls of the `PrintData` constructor. Gson builds `PrintData` without calling it, so an event without `timeout` may well get 0 instead. That depends on Gson and is not modelled.
- Clikt command wiring, Koin set-up, logback configuration, `exitProcess` and the `LabelPrintAgent` daemon shim are not modelled. Exit statuses are results.
- The `create-apikey`, `revoke-apikey`, `stop` and `version` commands are not modelled.
- The build files are not modelled.
