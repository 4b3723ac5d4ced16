/** The name and URL derivation at the start of `handle_download` in the Ruby
    revision (app.rb): from the route's operating system, the tool name, the
    raw architecture token and the optional version it derives the binary
    name, the npm package name, the tarball name and the registry URL. */
module Download {
  import opened Text

  /** Every field `handle_download` computes before it shells out. */
  datatype DownloadSpec = DownloadSpec(
    arch: string,         // architecture with one extension stripped, lowered, stripped of whitespace
    version: string,      // version with one leading `v` removed
    binaryName: string,   // the executable inside the npm package
    repo: string,         // the npm package name below the @dotenvx scope
    filename: string,     // the package tarball name
    registryUrl: string)  // where the tarball is fetched from

  const RegistryPrefix: string := "https://registry.npmjs.org/@dotenvx/"

  /** A trailing extension as the pattern `\.[^\/.]+$` matches it: a dot
      followed by at least one character that is neither a dot nor a slash. */
  predicate IsExtension(e: string) {
    |e| >= 2 && e[0] == '.' && forall i :: 1 <= i < |e| ==> e[i] != '.' && e[i] != '/'
  }

  /** Start of the longest run ending at `j` free of dots and slashes. */
  function RunStart(s: string, j: nat): (k: nat)
    requires j <= |s|
    ensures k <= j
    ensures forall i :: k <= i < j ==> s[i] != '.' && s[i] != '/'
    ensures k == 0 || s[k - 1] == '.' || s[k - 1] == '/'
    decreases j
  {
    if j > 0 && s[j - 1] != '.' && s[j - 1] != '/' then RunStart(s, j - 1) else j
  }

  /** `arch.gsub(/\.[^\/.]+$/, "")` on a token without line breaks: the one
      trailing extension, if there is one, is removed. The result is a prefix
      of the token; what was removed is an extension; and when nothing was
      removed, no suffix of the token is an extension. */
  function StripExtension(s: string): (r: string)
    requires '\n' !in s
    ensures |r| <= |s| && r == s[..|r|]
    ensures |r| < |s| ==> IsExtension(s[|r|..])
    ensures |r| == |s| ==> forall k :: 0 <= k < |s| ==> !IsExtension(s[k..])
  {
    var k := RunStart(s, |s|);
    if 0 < k < |s| && s[k - 1] == '.' then
      s[..k - 1]
    else
      NoExtensionBeforeRun(s, k);
      s
  }

  /** Only the dot just before the trailing run can start an extension. */
  lemma {:induction false} NoExtensionBeforeRun(s: string, k: nat)
    requires k == RunStart(s, |s|)
    requires !(0 < k < |s| && s[k - 1] == '.')
    ensures forall j :: 0 <= j < |s| ==> !IsExtension(s[j..])
  {
    forall j | 0 <= j < |s|
      ensures !IsExtension(s[j..])
    {
      if j < k - 1 {
        assert s[j..][k - 1 - j] == s[k - 1];
      } else if j >= k {
        assert s[j..][0] == s[j];
      }
    }
  }

  /** A string has at most one suffix that is an extension. */
  lemma {:induction false} ExtensionSuffixUnique(t: string, i: nat, j: nat)
    requires i <= |t| && j <= |t|
    requires IsExtension(t[i..]) && IsExtension(t[j..])
    ensures i == j
  {
  }

  /** Line 67: extension stripped, then lowered, then whitespace stripped. */
  function NormalizeArch(arch: string): (r: string)
    requires '\n' !in arch
    ensures |r| <= |arch|
    ensures r != [] ==> !IsSpace(r[0]) && !IsSpace(r[|r| - 1])
  {
    Strip(Lower(StripExtension(arch)))
  }

  /** Lines 68-69: a nil version falls back to the startup version, and then
      one leading `v` is removed. */
  function NormalizeVersion(version: Option<string>, current: string): string {
    var v := if version.Some? then version.value else current;
    if |v| > 0 && v[0] == 'v' then v[1..] else v
  }

  /** Lines 66-74 of `handle_download`, with the startup `VERSION` passed in. */
  function ResolveDownload(os: string, name: string, arch: string, version: Option<string>, current: string): (r: DownloadSpec)
    requires '\n' !in arch
    ensures r.arch == NormalizeArch(arch) && r.version == NormalizeVersion(version, current)
    ensures r.repo == name + "-" + os + "-" + r.arch
    ensures r.filename == r.repo + "-" + r.version + ".tgz"
    ensures r.registryUrl == RegistryPrefix + r.repo + "/-/" + r.filename
    ensures EndsWith(r.registryUrl, r.filename) && EndsWith(r.filename, ".tgz")
    ensures (r.binaryName == name + ".exe") <==> os == "windows"
    ensures os != "windows" ==> r.binaryName == name
  {
    var a := NormalizeArch(arch);
    var v := NormalizeVersion(version, current);
    var binaryName := if os == "windows" then name + ".exe" else name;
    var repo := name + "-" + os + "-" + a;
    var filename := repo + "-" + v + ".tgz";
    DownloadSpec(a, v, binaryName, repo, filename, RegistryPrefix + repo + "/-/" + filename)
  }

  // ----- properties of the architecture normalization -----

  /** Exactly the last extension is removed: `amd64.tar.gz` loses `.gz` only. */
  lemma {:induction false} StripOneExtension(s: string, e: string)
    requires '\n' !in s + e
    requires IsExtension(e)
    ensures StripExtension(s + e) == s
  {
    var t := s + e;
    assert t[|s|..] == e;
    var r := StripExtension(t);
    ExtensionSuffixUnique(t, |r|, |s|);
    assert r == t[..|s|];
  }

  /** A token with no extension suffix is kept as it is. */
  lemma {:induction false} NoExtensionKept(s: string)
    requires '\n' !in s
    requires forall k :: 0 <= k < |s| ==> !IsExtension(s[k..])
    ensures StripExtension(s) == s
  {
  }

  /** A token without dots has no extension. */
  lemma {:induction false} DotFreeHasNoExtension(a: string)
    requires '.' !in a
    ensures forall k :: 0 <= k < |a| ==> !IsExtension(a[k..])
  {
    forall k | 0 <= k < |a| ensures !IsExtension(a[k..]) {
      assert a[k..][0] == a[k];
    }
  }

  /** Folding case commutes with stripping the extension, because neither a
      dot nor a slash is a letter. */
  lemma {:induction false} StripExtensionLower(s: string)
    requires '\n' !in s
    ensures '\n' !in Lower(s)
    ensures StripExtension(Lower(s)) == Lower(StripExtension(s))
  {
    var l := Lower(s);
    SeparatorsUnlowered(s);
    var k := RunStart(s, |s|);
    RunStartLower(s, |s|);
    if 0 < k < |s| && s[k - 1] == '.' {
      assert l[k - 1] == '.';
      LowerPrefix(s, k - 1);
      assert StripExtension(l) == l[..k - 1];
    } else {
      assert !(0 < k < |l| && l[k - 1] == '.');
      assert StripExtension(l) == l;
    }
  }

  /** Lowering changes no dot, slash or line break, and makes none. */
  lemma {:induction false} SeparatorsUnlowered(s: string)
    ensures forall i :: 0 <= i < |s| ==>
              (Lower(s)[i] == '.' <==> s[i] == '.') && (Lower(s)[i] == '/' <==> s[i] == '/')
              && (Lower(s)[i] == '\n' <==> s[i] == '\n')
    ensures '\n' !in s ==> '\n' !in Lower(s)
  {
  }

  /** Lowering moves no dot and no slash, so the trailing run starts at the same index. */
  lemma {:induction false} RunStartLower(s: string, j: nat)
    requires j <= |s|
    ensures RunStart(Lower(s), j) == RunStart(s, j)
    decreases j
  {
    if j > 0 {
      RunStartLower(s, j - 1);
    }
  }

  /** The architecture token is case-insensitive: two tokens that agree after
      lowering normalize alike, so `AMD64.TGZ` is `amd64.tgz`. */
  lemma {:induction false} NormalizeArchCaseInsensitive(a: string, b: string)
    requires '\n' !in a && '\n' !in b
    requires Lower(a) == Lower(b)
    ensures NormalizeArch(a) == NormalizeArch(b)
  {
    StripExtensionLower(a);
    StripExtensionLower(b);
  }

  /** A token without an extension of its own, plus one extension,
      normalizes like the token. */
  lemma {:induction false} NormalizeArchExtension(a: string, e: string)
    requires '\n' !in a + e
    requires forall k :: 0 <= k < |a| ==> !IsExtension(a[k..])
    requires IsExtension(e)
    ensures NormalizeArch(a + e) == NormalizeArch(a)
  {
    StripOneExtension(a, e);
    NoExtensionKept(a);
  }

  /** A plain token such as `amd64`, without dots, slashes or whitespace,
      is only lowered. */
  lemma {:induction false} PlainTokenKept(a: string)
    requires '.' !in a && '/' !in a && '\n' !in a
    requires forall i :: 0 <= i < |a| ==> !IsSpace(a[i])
    ensures NormalizeArch(a) == Lower(a)
  {
    DotFreeHasNoExtension(a);
    NoExtensionKept(a);
    StripLowerNoSpace(a);
    NormalizeArchUnfold(a);
  }

  /** Whitespace around the token: the extension pattern takes trailing
      whitespace along with the extension, since whitespace is neither a dot
      nor a slash, and `strip` then removes the leading whitespace, so
      " amd64.tgz\t" gives `amd64`. */
  lemma {:induction false} NormalizeArchPadded(p: string, a: string, e: string)
    requires forall i :: 0 <= i < |p| ==> IsSpace(p[i])
    requires a == [] || (!IsSpace(a[0]) && !IsSpace(a[|a| - 1]))
    requires '\n' !in p + a + e
    requires IsExtension(e)
    ensures NormalizeArch(p + a + e) == Lower(a)
  {
    assert p + a + e == (p + a) + e;
    StripOneExtension(p + a, e);
    LowerPadded(p, a, []);
    assert p + a + [] == p + a;
    StripPadding(p, Lower(a), []);
  }

  /** A plain token padded with whitespace, such as " amd64 ", is trimmed
      and lowered. */
  lemma {:induction false} NormalizeArchPaddedPlain(p: string, a: string, q: string)
    requires forall i :: 0 <= i < |p| ==> IsSpace(p[i])
    requires forall i :: 0 <= i < |q| ==> IsSpace(q[i])
    requires a == [] || (!IsSpace(a[0]) && !IsSpace(a[|a| - 1]))
    requires '\n' !in p + a + q && '.' !in a
    ensures NormalizeArch(p + a + q) == Lower(a)
  {
    PaddingDotFree(p, a, q);
    DotFreeHasNoExtension(p + a + q);
    NoExtensionKept(p + a + q);
    LowerPadded(p, a, q);
    StripPadding(p, Lower(a), q);
  }

  /** Whitespace padding has no dot. */
  lemma {:induction false} PaddingDotFree(p: string, a: string, q: string)
    requires forall i :: 0 <= i < |p| ==> IsSpace(p[i])
    requires forall i :: 0 <= i < |q| ==> IsSpace(q[i])
    requires '.' !in a
    ensures '.' !in p + a + q
  {
    var t := p + a + q;
    forall i | 0 <= i < |t| ensures t[i] != '.' {
      if |p| <= i < |p| + |a| {
        assert t[i] == a[i - |p|];
      }
    }
  }

  /** Lowering keeps whitespace padding, and the ends of the padded text stay
      non-whitespace. */
  lemma {:induction false} LowerPadded(p: string, a: string, q: string)
    requires forall i :: 0 <= i < |p| ==> IsSpace(p[i])
    requires forall i :: 0 <= i < |q| ==> IsSpace(q[i])
    requires a == [] || (!IsSpace(a[0]) && !IsSpace(a[|a| - 1]))
    ensures Lower(p + a + q) == p + Lower(a) + q
    ensures Lower(a) == [] || (!IsSpace(Lower(a)[0]) && !IsSpace(Lower(a)[|a| - 1]))
  {
    SpaceUnlowered(p);
    SpaceUnlowered(q);
    LowerConcat(p + a, q);
    LowerConcat(p, a);
    if a != [] {
      assert Lower(a)[0] == LowerChar(a[0]);
      assert Lower(a)[|a| - 1] == LowerChar(a[|a| - 1]);
    }
  }

  /** The normalization of a token that neither stripping step changes. */
  lemma {:induction false} NormalizeArchUnfold(a: string)
    requires '\n' !in a
    requires StripExtension(a) == a
    requires Strip(Lower(a)) == Lower(a)
    ensures NormalizeArch(a) == Lower(a)
  {
  }

  // The concrete spellings below keep each fact about a string literal in a
  // small lemma of its own (TgzSpelling, UpperTgzSpelling, TarGzSpelling):
  // the verifier evaluates functions on literals, and that evaluation stays
  // cheap only in a small proof context.

  /** `amd64.tgz` normalizes to `amd64`. */
  lemma {:induction false} ArchTgz()
    ensures NormalizeArch("amd64.tgz") == "amd64"
  {
    TgzSpelling();
    StripOneExtension("amd64", ".tgz");
    LowerStripLiteral("amd64");
  }

  /** The pieces of `amd64.tgz`. */
  lemma {:induction false} TgzSpelling()
    ensures "amd64" + ".tgz" == "amd64.tgz"
    ensures IsExtension(".tgz")
    ensures '\n' !in "amd64.tgz"
  {
  }

  /** Any capitalisation of a whitespace-free base plus one extension
      normalizes to the base: `AMD64.TGZ`, `Amd64.tgz` and `amd64.tgz` all
      give `amd64`. */
  lemma {:induction false} ArchAnyCaseWithExtension(u: string, a: string, e: string)
    requires '\n' !in u
    requires Lower(u) == a + e
    requires IsExtension(e)
    requires forall i :: 0 <= i < |a| ==> !IsSpace(a[i])
    ensures NormalizeArch(u) == a
  {
    StripExtensionLower(u);
    StripOneExtension(a, e);
  }

  /** `AMD64.TGZ` normalizes to `amd64`. */
  lemma {:induction false} ArchUpperTgz()
    ensures NormalizeArch("AMD64.TGZ") == "amd64"
  {
    LowerPointwise("AMD64.TGZ", "amd64.tgz");
    UpperTgzSpelling();
    ArchAnyCaseWithExtension("AMD64.TGZ", "amd64", ".tgz");
  }

  /** The pieces of `AMD64.TGZ` once lowered. */
  lemma {:induction false} UpperTgzSpelling()
    ensures '\n' !in "AMD64.TGZ"
    ensures IsExtension(".tgz")
    ensures forall i :: 0 <= i < |"amd64"| ==> !IsSpace("amd64"[i])
    ensures "amd64" + ".tgz" == "amd64.tgz"
  {
  }

  /** Only the last of two extensions goes: `amd64.tar.gz` gives `amd64.tar`. */
  lemma {:induction false} ArchDoubleExtension()
    ensures NormalizeArch("amd64.tar.gz") == "amd64.tar"
  {
    TarGzSpelling();
    StripOneExtension("amd64.tar", ".gz");
    LowerStripLiteral("amd64.tar");
  }

  /** The pieces of `amd64.tar.gz`. */
  lemma {:induction false} TarGzSpelling()
    ensures "amd64.tar" + ".gz" == "amd64.tar.gz"
    ensures IsExtension(".gz")
    ensures '\n' !in "amd64.tar.gz"
  {
  }

  /** The extension stripping keeps a token ending in a dot: no extension
      can end there, since an extension ends in a character that is not a dot. */
  lemma {:induction false} TrailingDotKept(s: string)
    requires '\n' !in s && |s| > 0 && s[|s| - 1] == '.'
    ensures StripExtension(s) == s
  {
    forall k | 0 <= k < |s| ensures !IsExtension(s[k..]) {
      assert s[k..][|s| - k - 1] == '.';
    }
    NoExtensionKept(s);
  }

  /** `amd64.` is left as it is. */
  lemma {:induction false} ArchTrailingDot()
    ensures NormalizeArch("amd64.") == "amd64."
  {
    var d := "amd64.";
    assert StripExtension(d) == d by {
      assert RunStart(d, 6) == 6;
    }
    LowerStripLiteral(d);
  }

  /** Lower-case text without whitespace is left alone by lowering and stripping. */
  lemma {:induction false} LowerStripLiteral(a: string)
    requires forall i :: 0 <= i < |a| ==> !('A' <= a[i] <= 'Z') && !IsSpace(a[i])
    ensures Strip(Lower(a)) == a
  {
    LowerKeeps(a);
  }

  // ----- properties of the version normalization -----

  /** A nil version is the startup version; an empty one stays empty,
      because only nil triggers `||=`. */
  lemma {:induction false} DefaultVersion(current: string)
    ensures NormalizeVersion(None, current) == NormalizeVersion(Some(current), current)
    ensures NormalizeVersion(Some(""), current) == ""
  {
  }

  /** Exactly one leading `v` is removed (`vv1` gives `v1`), and a version
      not starting with `v` is kept as it is. */
  lemma {:induction false} VersionPrefix(v: string, current: string)
    ensures NormalizeVersion(Some("v" + v), current) == v
    ensures (|v| == 0 || v[0] != 'v') ==> NormalizeVersion(Some(v), current) == v
  {
    assert ("v" + v)[1..] == v;
  }

  /** `v1.2.3` and `1.2.3` resolve to the same download. */
  lemma {:induction false} VersionSpellingsResolveAlike(os: string, name: string, arch: string, v: string, current: string)
    requires '\n' !in arch
    requires |v| == 0 || v[0] != 'v'
    ensures ResolveDownload(os, name, arch, Some("v" + v), current) == ResolveDownload(os, name, arch, Some(v), current)
  {
    VersionPrefix(v, current);
  }

  /** Omitting the version resolves like asking for the startup version. */
  lemma {:induction false} DefaultVersionResolves(os: string, name: string, arch: string, current: string)
    requires '\n' !in arch
    ensures ResolveDownload(os, name, arch, None, current) == ResolveDownload(os, name, arch, Some(current), current)
  {
  }

  /** `GET /windows/amd64.tgz?version=1.2.3`, or any other architecture
      spelling that normalizes to `amd64` (ArchTgz, ArchUpperTgz): the
      executable `dotenvx.exe` is taken from version 1.2.3 of the
      `dotenvx-windows-amd64` package. */
  lemma {:induction false} WindowsScenario(arch: string, current: string)
    requires '\n' !in arch && NormalizeArch(arch) == "amd64"
    ensures var r := ResolveDownload("windows", "dotenvx", arch, Some("1.2.3"), current);
            r.binaryName == "dotenvx.exe" && r.repo == "dotenvx-windows-amd64"
            && r.filename == "dotenvx-windows-amd64-1.2.3.tgz"
  {
    ReleaseVersion(current);
    WindowsNames();
  }

  // ReleaseVersion and WindowsNames hold the literal facts of WindowsScenario
  // apart, for the same reason as the spelling lemmas above.

  /** `1.2.3` has no `v` to remove. */
  lemma {:induction false} ReleaseVersion(current: string)
    ensures NormalizeVersion(Some("1.2.3"), current) == "1.2.3"
  {
  }

  /** The names derived for `dotenvx` on `windows`/`amd64` at 1.2.3. */
  lemma {:induction false} WindowsNames()
    ensures "dotenvx" + "-" + "windows" + "-" + "amd64" == "dotenvx-windows-amd64"
    ensures "dotenvx-windows-amd64" + "-" + "1.2.3" + ".tgz" == "dotenvx-windows-amd64-1.2.3.tgz"
    ensures "dotenvx" + ".exe" == "dotenvx.exe"
  {
  }

  /** Equivalent architecture spellings resolve to the same download. */
  lemma {:induction false} ArchSpellingsResolveAlike(os: string, name: string, a: string, b: string, version: Option<string>, current: string)
    requires '\n' !in a && '\n' !in b
    requires NormalizeArch(a) == NormalizeArch(b)
    ensures ResolveDownload(os, name, a, version, current) == ResolveDownload(os, name, b, version, current)
  {
  }
}
