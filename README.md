# dotenvx.sh download and install derivations in Dafny

dotenvx.sh serves the dotenvx command-line tool. It has two revisions, and
this project models the deterministic string logic at the heart of each.

- **The Ruby revision (`app.rb`):**
  - `handle_download` turns a route's operating system, a tool name, a raw
    architecture token and an optional version into:
    - the executable's name;
    - the npm package name (`repo`);
    - the tarball name;
    - the npm registry URL it fetches from.
  - `handle_install` rewrites the `KEY="…"` assignments of the installer
    script with the request's parameters.
- **The JavaScript revision (`index.js`):** the `/:os/:arch` handler
  lowercases the path parameters, derives a release version and an archive
  name, and builds the `dotenvx.com/releases` URL it proxies.

The two revisions normalize in opposite directions:

- Ruby strips one leading `v` and one trailing extension.
- JavaScript adds a `v` and a `.tar.gz`.

`revisions.dfy` states how the two relate.

Files (one module each):

- `text.dfy` (`Text`):
  - absent parameters (`Option`);
  - ASCII case folding (`Lower`);
  - Ruby's `strip`;
  - `EndsWith`.
- `download.dfy` (`Download`): `handle_download`'s derivation, with the
  startup `VERSION` as the parameter `current`.
- `install.dfy` (`Install`):
  - one `gsub!` of `KEY="[^"]*"` as the function `Gsub`, which is its
    specification;
  - `Substitute`, a scanning loop proved equal to `Gsub`;
  - `HandleInstall`, which applies the five rewrites in place in their fixed
    order.
- `proxy.dfy` (`Proxy`): the JavaScript handler.
- `revisions.dfy` (`Revisions`): lemmas relating the two revisions.

Two details of the code that the model keeps as written:

- `handle_download` uses `os` verbatim (app.rb:72): it is neither lowered nor
  trimmed.
- The JavaScript `.tgz` rewrite replaces the first `.tgz` in the token
  (index.js:26), which is not always the suffix tested at index.js:25.

## Model

| member | source | states |
|---|---|---|
| Text.Lower | app.rb:67 | ASCII `downcase` (and `toLowerCase` at index.js:11-12): same length, each character lowered, A-Z mapped to a-z and nothing else changed. LowerIdempotent and LowerConcat state that lowering twice is lowering once and that it distributes over concatenation. |
| Text.Strip | app.rb:67 | Ruby's `strip`: the result is a contiguous middle part of the input, everything before and after it is whitespace (NUL, tab, line feed, vertical tab, form feed, carriage return, space), and neither of its ends is whitespace. Text without whitespace is kept. |
| Text.StripPadding | app.rb:67 | Around text whose ends are not whitespace, `strip` removes exactly the whitespace padding and keeps the text, inner whitespace included. |
| Download.NormalizeArch | app.rb:67 | The normalized token is no longer than the raw one and has no whitespace at either end. Its value is fixed by Strip's contract applied to the lowered, extension-stripped token, and characterised by StripExtensionLower, NormalizeArchCaseInsensitive, NormalizeArchExtension, PlainTokenKept, NormalizeArchPadded, NormalizeArchPaddedPlain and ArchAnyCaseWithExtension below. |
| Download.StripExtension | app.rb:67 | Removing `\.[^\/.]+$`: the result is a prefix of the token. What it removes is an extension: a dot, then at least one character that is neither a dot nor a slash. When it removes nothing, no suffix of the token is an extension. |
| Download.StripOneExtension | app.rb:67 | Exactly one trailing extension is removed: `s + e` gives `s` for any extension `e`. |
| Download.NoExtensionKept | app.rb:67 | A token with no extension suffix is kept as it is. |
| Download.DotFreeHasNoExtension | app.rb:67 | A token without dots has no extension. |
| Download.StripExtensionLower | app.rb:67 | Lowering commutes with stripping the extension. |
| Download.NormalizeArchCaseInsensitive | app.rb:67 | Tokens equal up to ASCII case normalize alike. |
| Download.NormalizeArchExtension | app.rb:67 | A token without an extension of its own, plus one extension, normalizes like the token. |
| Download.PlainTokenKept | app.rb:67 | A plain token such as `amd64` (no dot, slash or whitespace) is only lowered. |
| Download.NormalizeArchPadded | app.rb:67 | Leading whitespace, a token whose ends are not whitespace, and an extension (which takes any trailing whitespace with it) normalize to the lowered token: ` amd64.tgz\t` gives `amd64`. |
| Download.NormalizeArchPaddedPlain | app.rb:67 | A dot-free token padded with whitespace on both sides, such as ` amd64 `, is trimmed and lowered. |
| Download.ArchTgz | app.rb:67 | `amd64.tgz` normalizes to `amd64`. |
| Download.ArchAnyCaseWithExtension | app.rb:67 | Any capitalisation of a whitespace-free base plus one extension normalizes to the lowered base. |
| Download.ArchUpperTgz | app.rb:67 | `AMD64.TGZ` normalizes to `amd64`. |
| Download.ArchDoubleExtension | app.rb:67 | Only the last extension goes: `amd64.tar.gz` gives `amd64.tar`. |
| Download.TrailingDotKept | app.rb:67 | The extension stripping keeps every token ending in `.`. |
| Download.ArchTrailingDot | app.rb:67 | `amd64.` is left as it is. |
| Download.NormalizeVersion | app.rb:68-69 | The version fallback and `v` removal. It is characterised by DefaultVersion and VersionPrefix below. |
| Download.DefaultVersion | app.rb:68 | A nil version is the startup version. An empty version stays empty, because only nil triggers `\|\|=`. |
| Download.VersionPrefix | app.rb:69 | Exactly one leading `v` is removed (`vv1` gives `v1`). A version not starting with `v` is unchanged. |
| Download.ResolveDownload | app.rb:66-74 | The derived record. The arch and version are the normalized ones. `repo` is `name-os-arch` and `filename` is `repo-version.tgz`. The URL is the registry prefix, `repo`, `/-/` and `filename`, so it ends with `filename`. The binary name is `name.exe` if and only if `os` is `windows`, and `name` otherwise. |
| Download.VersionSpellingsResolveAlike | app.rb:68-74 | `v1.2.3` and `1.2.3` resolve to the same record. |
| Download.DefaultVersionResolves | app.rb:68-74 | Omitting the version resolves like asking for the startup version. |
| Download.ArchSpellingsResolveAlike | app.rb:67-74 | Architecture tokens that normalize alike resolve to the same record. |
| Download.WindowsScenario | app.rb:66-74 | For any token normalizing to `amd64` on `windows` at 1.2.3: the binary is `dotenvx.exe`, the package `dotenvx-windows-amd64`, and the tarball `dotenvx-windows-amd64-1.2.3.tgz`. |
| Install.MatchLength | app.rb:127 | The pattern `KEY="[^"]*"` matches at the start of a text if and only if the text opens with `KEY="` and a later quote follows. The match ends at the first such quote. |
| Install.Gsub | app.rb:127-131 | One `gsub!` of `KEY="[^"]*"` as a left-to-right scan. It is characterised by GsubCopiesUnmatched, GsubReplacesMatch, GsubWithoutMatch and GsubIdempotent below. |
| Install.Substitute | app.rb:127 | The scanning loop of one `gsub!` computes `Gsub`. |
| Install.GsubCopiesUnmatched | app.rb:127-131 | Text before the first match is copied unchanged. |
| Install.GsubReplacesMatch | app.rb:127-131 | Every match `KEY="current"` becomes `KEY="value"`, and the scan resumes after it. |
| Install.GsubWithoutMatch | app.rb:127-131 | A script with no match of the key is unchanged. |
| Install.NoMatchStaysNoMatch | app.rb:127-131 | Where the scan finds no match, the rewritten text has none either. |
| Install.GsubIdempotent | app.rb:127-131 | For a quote-free value, substituting a second time changes nothing. |
| Install.SubstituteIf | app.rb:127-131 | A rewrite guarded by its `if value` modifier: nil leaves the text alone (InstallNilArguments), and a value is a `Gsub`. |
| Install.Installed | app.rb:125-133 | The five guarded rewrites composed in the order VERSION, OS, ARCH, DIRECTORY, FORCE. HandleInstall computes it; InstallNilArguments and InstallVersionAbsent state its nil and no-match cases. |
| Install.HandleInstall | app.rb:125-133 | The script, rewritten once per non-nil argument in the order VERSION, OS, ARCH, DIRECTORY, FORCE. With all arguments nil, the script comes back unchanged. |
| Install.InstallNilArguments | app.rb:125-133 | Nil arguments rewrite nothing. All nil gives the script back. Only version and directory given rewrites only those two keys. |
| Install.InstallVersionAbsent | app.rb:127 | A version rewrites nothing when the script has no `VERSION="…"` assignment. |
| Proxy.IndexOf | index.js:26 | The first occurrence of the pattern at or after the start position, or none. |
| Proxy.ReplaceFirst | index.js:26 | `replace` with a string pattern: without an occurrence the text is kept. Otherwise the text before the first occurrence is kept, the replacement follows, and then the text after the occurrence. |
| Proxy.ProxyVersion | index.js:16-22 | A missing or empty version gives exactly `latest`. A supplied version starts with `v`, and is kept if and only if it already did; otherwise `v` is prepended. |
| Proxy.ProxyArch | index.js:12-32 | The normalized archive name always contains a dot. |
| Proxy.ProxyUrl | index.js:11-35 | The URL opens with `https://dotenvx.com/releases/` and ends with `/dotenvx-<os>-<arch>` (both lowered). What lies between is the release version. |
| Proxy.ProxyLowercasesFirst | index.js:11-12 | The URL depends on `os` and `arch` only up to ASCII case. |
| Proxy.ProxyVersionSpellings | index.js:16-19 | `1.2.3` and `v1.2.3` give the same version, `v1.2.3`. |
| Proxy.ProxyArchOtherExtension | index.js:25-32 | A lowered token with a dot and no `.tgz` suffix, such as `amd64.zip`, is unchanged. |
| Proxy.ProxyArchTgz | index.js:25-27 | A token whose lowered form is `x.tgz`, with that suffix its first `.tgz`, becomes `x.tar.gz`. |
| Proxy.ProxyArchLower | index.js:12 | Lowering the token beforehand changes nothing, since the handler lowers it first. |
| Proxy.ProxyArchFirstTgz | index.js:25-27 | A token whose lowered form ends in `.tgz` has the first `.tgz` of the lowered form, wherever it is, replaced by `.tar.gz`. |
| Proxy.ProxyArchFirstTgzOnly | index.js:25-27 | `a.tgz.tgz` becomes `a.tar.gz.tgz`. |
| Proxy.ProxyArchPlain | index.js:29-32 | A dot-free token gets `.tar.gz` appended to its lowered form: `AMD64` gives `amd64.tar.gz`. |
| Proxy.ProxyArchSpellings | index.js:24-32 | `amd64`, `amd64.tgz` and `amd64.tar.gz` (any dot-free base, any case) all give the same archive name, which ProxyArchPlain fixes as the lowered base plus `.tar.gz`. |
| Proxy.ProxyArchWithTarGz | index.js:24-32 | A token already ending in `.tar.gz` is kept, lowered. |
| Revisions.VersionConventionsAgree | index.js:16-19 | For a non-empty version, adding the JavaScript `v` and then stripping the Ruby `v` (app.rb:69) gives what Ruby derives from the raw version. An empty version differs: JavaScript gives `latest` and Ruby keeps `""` (EmptyVersionDiverges). |
| Revisions.EmptyVersionDiverges | index.js:16-22 | For the empty version the revisions disagree: the JavaScript version, read back by Ruby (app.rb:68-69), is `latest`, while Ruby keeps `""` for the raw empty version. |
| Revisions.ArchConventionsDiverge | index.js:29-32 | The archive name JavaScript builds for a plain token, `<base>.tar.gz`, becomes `<base>.tar` under the Ruby normalization (app.rb:67). Ruby maps the plain token itself to `<base>`. |

## Left out

- The shell pipeline of `handle_download` (app.rb:76-93):
  - curl, tar and chmod run as external processes;
  - `Dir.mktmpdir` and `send_file` are filesystem and HTTP I/O;
  - the 200/500 outcome depends on that I/O.
- `format_number` (app.rb:97-106): it uses floating-point division and rounding.
- `handle_stats` (app.rb:108-123): it makes network calls and parses JSON.
- Startup asset loading (app.rb:11-63): this is file I/O. `VERSION` and the
  installer script are parameters of the model instead.
- Route declarations in both revisions: they are framework wiring.
- The axios request and response streaming of `index.js`: this is network I/O.
- Download.StripExtension, Download.NormalizeArch and Download.ResolveDownload
  require a token without a line break. In Ruby, `$` matches at the end of
  every line, before any `\n`, so a token with line breaks could lose an
  extension in its middle; that case is not modelled.
- Install.Installed and Install.HandleInstall require argument values without
  a backslash: Ruby would read back-references and escapes in the replacement
  text, and those are not modelled.
- Lower: only ASCII letters are case-folded. Ruby's `downcase` and
  JavaScript's `toLowerCase` also map non-ASCII letters.
- Proxy.ReplaceFirst: it treats the replacement literally. JavaScript's `$`
  patterns cannot occur in the fixed replacement `.tar.gz`.
- Array and hash query parameters are not modelled: in both revisions a
  parameter is an optional string. A parameter such as `?version[]=1` reaches
  the JavaScript handler as an array, and reaches the Ruby handlers as an
  Array too: `handle_download` would then raise on `version.start_with?`
  (app.rb:69), and `handle_install` would interpolate its `inspect` form,
  such as `["1"]`, into the script (app.rb:127-131).
