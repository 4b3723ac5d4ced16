/** The `/:os/:arch` handler of the JavaScript revision (index.js): it lowers
    the path parameters, derives a release version and an archive name, and
    builds the URL of the release it proxies. */
module Proxy {
  import opened Text

  const ReleasesPrefix: string := "https://dotenvx.com/releases/"

  /** `pat` occurs in `s` at index `j`. */
  predicate OccursAt(s: string, pat: string, j: nat) {
    j + |pat| <= |s| && s[j..j + |pat|] == pat
  }

  /** Index of the first occurrence of `pat` in `s` at or after `from`. */
  function IndexOf(s: string, pat: string, from: nat): (r: Option<nat>)
    requires from <= |s|
    ensures r.Some? ==> from <= r.value && OccursAt(s, pat, r.value)
    ensures r.Some? ==> forall j :: from <= j < r.value ==> !OccursAt(s, pat, j)
    ensures r.None? ==> forall j :: from <= j ==> !OccursAt(s, pat, j)
    decreases |s| - from
  {
    if from + |pat| > |s| then None
    else if OccursAt(s, pat, from) then Some(from)
    else IndexOf(s, pat, from + 1)
  }

  /** JavaScript's `s.replace(pat, rep)` with a string pattern and a
      replacement free of `$`: only the first occurrence is replaced. */
  function ReplaceFirst(s: string, pat: string, rep: string): (r: string)
    ensures IndexOf(s, pat, 0).None? ==> r == s
    ensures IndexOf(s, pat, 0).Some? ==>
              var i := IndexOf(s, pat, 0).value;
              |r| == |s| - |pat| + |rep| && r[..i] == s[..i]
              && r[i..i + |rep|] == rep && r[i + |rep|..] == s[i + |pat|..]
  {
    match IndexOf(s, pat, 0)
    case Some(i) =>
      var r := s[..i] + rep + s[i + |pat|..];
      assert r[..i] == s[..i] && r[i..i + |rep|] == rep && r[i + |rep|..] == s[i + |pat|..];
      r
    case None => s
  }

  /** Lines 16-22: a supplied non-empty version gets a `v` prefix unless it
      has one; a missing or empty version (falsy in JavaScript) is `latest`. */
  function ProxyVersion(version: Option<string>): (r: string)
    ensures (version.None? || version.value == "") <==> r == "latest"
    ensures version.Some? && version.value != "" ==> |r| > 0 && r[0] == 'v' && (r == version.value || r == "v" + version.value)
    ensures version.Some? && version.value != "" ==> (r == version.value <==> version.value[0] == 'v')
  {
    if version.Some? && version.value != "" then
      var v := version.value;
      var r := if v[0] == 'v' then v else "v" + v;
      assert r[0] == 'v' && "latest"[0] == 'l';
      r
    else
      "latest"
  }

  /** Lines 12 and 24-32: the lowered token with a `.tgz` suffix turned into
      `.tar.gz` (at the first `.tgz`), and `.tar.gz` appended when it has no
      dot. The result always names a file with an extension. */
  function ProxyArch(arch: string): (r: string)
    ensures '.' in r
  {
    var a := Lower(arch);
    var b := if EndsWith(a, ".tgz") then ReplaceFirst(a, ".tgz", ".tar.gz") else a;
    if '.' in b then
      b
    else
      assert (b + ".tar.gz")[|b|] == '.';
      b + ".tar.gz"
  }

  /** Lines 11-35: the release URL the request is proxied to. It opens with
      the releases location, ends with the normalized archive name, and what
      lies between is the release version. */
  function ProxyUrl(os: string, arch: string, version: Option<string>): (r: string)
    ensures |ReleasesPrefix| <= |r| && r[..|ReleasesPrefix|] == ReleasesPrefix
    ensures EndsWith(r, "/dotenvx-" + Lower(os) + "-" + ProxyArch(arch))
    ensures var tail := "/dotenvx-" + Lower(os) + "-" + ProxyArch(arch);
            |ReleasesPrefix| + |tail| <= |r| && r[|ReleasesPrefix|..|r| - |tail|] == ProxyVersion(version)
  {
    var tail := "/dotenvx-" + Lower(os) + "-" + ProxyArch(arch);
    var v := ProxyVersion(version);
    var r := ReleasesPrefix + v + tail;
    assert r[|r| - |tail|..] == tail;
    assert r[|ReleasesPrefix|..|r| - |tail|] == v;
    r
  }

  // ----- properties -----

  /** `os` and `arch` are lowered before anything else looks at them, so the
      URL depends on them only up to case: `AMD64.TGZ` is `amd64.tgz`. */
  lemma {:induction false} ProxyLowercasesFirst(os: string, arch: string, version: Option<string>)
    ensures ProxyUrl(os, arch, version) == ProxyUrl(Lower(os), Lower(arch), version)
  {
    LowerIdempotent(os);
    LowerIdempotent(arch);
  }

  /** `1.2.3` and `v1.2.3` give the same release. */
  lemma {:induction false} ProxyVersionSpellings(v: string)
    requires v != "" && v[0] != 'v'
    ensures ProxyVersion(Some(v)) == ProxyVersion(Some("v" + v)) == "v" + v
  {
  }

  /** A lowered token with a dot but no `.tgz` suffix, such as `amd64.zip`,
      passes through unchanged. */
  lemma {:induction false} ProxyArchOtherExtension(arch: string)
    requires '.' in Lower(arch) && !EndsWith(Lower(arch), ".tgz")
    ensures ProxyArch(arch) == Lower(arch)
  {
  }

  /** A lowered token `x.tgz` whose first `.tgz` is its suffix becomes
      `x.tar.gz`. */
  lemma {:induction false} ProxyArchTgz(arch: string, x: string)
    requires Lower(arch) == x + ".tgz"
    requires forall j :: 0 <= j < |x| ==> !OccursAt(x + ".tgz", ".tgz", j)
    ensures ProxyArch(arch) == x + ".tar.gz"
  {
    var a := x + ".tgz";
    assert a[|x|..|x| + 4] == ".tgz";
    assert OccursAt(a, ".tgz", |x|);
    assert EndsWith(a, ".tgz");
    var i := IndexOf(a, ".tgz", 0);
    assert i == Some(|x|);
    assert a[..|x|] == x && a[|x| + 4..] == [];
    var b := x + ".tar.gz";
    assert b[|x|] == '.';
  }

  /** Lowering keeps a token free of dots. */
  lemma {:induction false} LowerDotFree(a: string)
    requires '.' !in a
    ensures '.' !in Lower(a)
  {
    assert forall i :: 0 <= i < |a| ==> Lower(a)[i] != '.';
  }

  /** A dot-free token, such as `amd64`, gets `.tar.gz` appended. */
  lemma {:induction false} ProxyArchPlain(a: string)
    requires '.' !in a
    ensures ProxyArch(a) == Lower(a) + ".tar.gz"
  {
    var l := Lower(a);
    LowerDotFree(a);
    assert !EndsWith(l, ".tgz") by {
      assert |l| < 4 || l[|l| - 4..][0] != '.';
    }
  }

  /** `amd64`, `amd64.tgz` and `amd64.tar.gz` (any dot-free base, in any
      case) all lead to the same archive, the one ProxyArchPlain names. */
  lemma {:induction false} ProxyArchSpellings(a: string)
    requires '.' !in a
    ensures ProxyArch(a + ".tgz") == ProxyArch(a)
    ensures ProxyArch(a + ".tar.gz") == ProxyArch(a)
  {
    ProxyArchPlain(a);
    ProxyArchWithTgz(a);
    ProxyArchWithTarGz(a);
  }

  /** A dot-free token with `.tgz` becomes `<base>.tar.gz`. */
  lemma {:induction false} ProxyArchWithTgz(a: string)
    requires '.' !in a
    ensures ProxyArch(a + ".tgz") == Lower(a) + ".tar.gz"
  {
    var l := Lower(a);
    LowerDotFree(a);
    LowerAppendLowercase(a, ".tgz");
    assert forall j :: 0 <= j < |l| ==> !OccursAt(l + ".tgz", ".tgz", j) by {
      forall j | 0 <= j < |l|
        ensures !OccursAt(l + ".tgz", ".tgz", j)
      {
        assert (l + ".tgz")[j] == l[j];
      }
    }
    ProxyArchTgz(a + ".tgz", l);
  }

  /** A token already ending in `.tar.gz` is kept, lowered. */
  lemma {:induction false} ProxyArchWithTarGz(a: string)
    ensures ProxyArch(a + ".tar.gz") == Lower(a) + ".tar.gz"
  {
    LowerTarGz(a);
    TarGzNamesArchive(Lower(a));
    ProxyArchOtherExtension(a + ".tar.gz");
  }

  /** Lowering leaves an appended `.tar.gz` as it is. */
  lemma {:induction false} LowerTarGz(a: string)
    ensures Lower(a + ".tar.gz") == Lower(a) + ".tar.gz"
  {
    LowerAppendLowercase(a, ".tar.gz");
  }

  /** `<base>.tar.gz` has a dot and no `.tgz` suffix. */
  lemma {:induction false} TarGzNamesArchive(l: string)
    ensures '.' in l + ".tar.gz" && !EndsWith(l + ".tar.gz", ".tgz")
  {
    var t := l + ".tar.gz";
    assert t[|l|] == '.';
    assert t[|t| - 4] == 'r';
  }

  /** Lowering first makes lowering the token beforehand redundant. */
  lemma {:induction false} ProxyArchLower(arch: string)
    ensures ProxyArch(arch) == ProxyArch(Lower(arch))
  {
    LowerIdempotent(arch);
  }

  /** A token whose lowered form ends in `.tgz` has the first `.tgz` of that
      lowered form, wherever it is, rewritten to `.tar.gz`. */
  lemma {:induction false} ProxyArchFirstTgz(arch: string, i: nat)
    requires EndsWith(Lower(arch), ".tgz")
    requires IndexOf(Lower(arch), ".tgz", 0) == Some(i)
    ensures ProxyArch(arch) == Lower(arch)[..i] + ".tar.gz" + Lower(arch)[i + 4..]
  {
    var l := Lower(arch);
    var r := l[..i] + ".tar.gz" + l[i + 4..];
    assert r[i] == '.';
  }

  // LowerDoubleTgz, FirstTgzAtOne and DoubleTgzPieces keep the facts about
  // the literal `a.tgz.tgz` in small lemmas of their own: the verifier
  // evaluates functions on literals, and that stays cheap only in a small
  // proof context.

  /** Only the first `.tgz` is rewritten: `a.tgz.tgz` becomes `a.tar.gz.tgz`. */
  lemma {:induction false} ProxyArchFirstTgzOnly()
    ensures ProxyArch("a.tgz.tgz") == "a.tar.gz.tgz"
  {
    LowerDoubleTgz();
    FirstTgzAtOne();
    DoubleTgzPieces();
    ProxyArchFirstTgz("a.tgz.tgz", 1);
  }

  /** `a.tgz.tgz` is already lower-case. */
  lemma {:induction false} LowerDoubleTgz()
    ensures Lower("a.tgz.tgz") == "a.tgz.tgz"
  {
    LowerKeeps("a.tgz.tgz");
  }

  /** The first `.tgz` of `a.tgz.tgz` starts at index 1. */
  lemma {:induction false} FirstTgzAtOne()
    ensures IndexOf("a.tgz.tgz", ".tgz", 0) == Some(1)
  {
    var s := "a.tgz.tgz";
    assert OccursAt(s, ".tgz", 1);
    assert !OccursAt(s, ".tgz", 0) by {
      assert s[0..4][0] == 'a';
    }
  }

  /** The pieces of `a.tgz.tgz` around its first `.tgz`. */
  lemma {:induction false} DoubleTgzPieces()
    ensures EndsWith("a.tgz.tgz", ".tgz")
    ensures "a.tgz.tgz"[..1] + ".tar.gz" + "a.tgz.tgz"[5..] == "a.tar.gz.tgz"
  {
  }
}
