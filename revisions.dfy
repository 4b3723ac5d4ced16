/** The Ruby revision (app.rb) and the JavaScript revision (index.js)
    normalize the same request parameters in opposite directions: Ruby
    strips a `v` and an extension, JavaScript adds a `v` and `.tar.gz`. */
module Revisions {
  import opened Text
  import Download
  import Proxy

  /** For a supplied version, adding the `v` the JavaScript revision wants and
      then stripping it as the Ruby revision does gives what Ruby derives from
      the raw version. */
  lemma {:induction false} VersionConventionsAgree(v: string, current: string)
    requires v != ""
    ensures Download.NormalizeVersion(Some(Proxy.ProxyVersion(Some(v))), current)
            == Download.NormalizeVersion(Some(v), current)
  {
    if v[0] != 'v' {
      Download.VersionPrefix(v, current);
    }
  }

  /** An empty version is where the conventions part: JavaScript asks for the
      `latest` release, while Ruby keeps the empty version, since only nil
      falls back to the startup version. */
  lemma {:induction false} EmptyVersionDiverges(current: string)
    ensures Download.NormalizeVersion(Some(Proxy.ProxyVersion(Some(""))), current) == "latest"
    ensures Download.NormalizeVersion(Some(""), current) == ""
  {
    assert "latest"[0] == 'l';
  }

  /** The archive name the JavaScript revision builds for a plain token keeps
      one extension under the Ruby normalization: `amd64` becomes
      `amd64.tar.gz` there, and that becomes `amd64.tar`, where the Ruby
      revision turns `amd64` itself into `amd64` (Download.PlainTokenKept). */
  lemma {:induction false} ArchConventionsDiverge(a: string)
    requires '.' !in a && '\n' !in a
    requires forall i :: 0 <= i < |a| ==> !IsSpace(a[i])
    ensures Proxy.ProxyArch(a) == Lower(a) + ".tar.gz" && '\n' !in Proxy.ProxyArch(a)
    ensures Download.NormalizeArch(Proxy.ProxyArch(a)) == Lower(a) + ".tar"
  {
    var l := Lower(a);
    Proxy.ProxyArchPlain(a);
    LoweredPlainToken(a);
    TarNoBreak(l);
    TarGzLosesGz(l);
  }

  /** A lowered whitespace-free token stays lowered and whitespace-free. */
  lemma {:induction false} LoweredPlainToken(a: string)
    requires '\n' !in a
    requires forall i :: 0 <= i < |a| ==> !IsSpace(a[i])
    ensures Lower(Lower(a)) == Lower(a)
    ensures forall i :: 0 <= i < |Lower(a)| ==> Lower(a)[i] != '\n' && !IsSpace(Lower(a)[i])
  {
    LowerIdempotent(a);
    StripLowerNoSpace(a);
  }

  /** The Ruby normalization takes `.gz` off a lowered plain token plus `.tar.gz`. */
  lemma {:induction false} TarGzLosesGz(l: string)
    requires Lower(l) == l
    requires forall i :: 0 <= i < |l| ==> l[i] != '\n' && !IsSpace(l[i])
    ensures Download.NormalizeArch(l + ".tar.gz") == l + ".tar"
  {
    TarNoBreak(l);
    GzStripped(l);
    LowerTar(l);
    TarNoSpace(l);
    StripLowerNoSpace(l + ".tar");
  }

  /** Appending `.tar.gz` adds no line break. */
  lemma {:induction false} TarNoBreak(l: string)
    requires forall i :: 0 <= i < |l| ==> l[i] != '\n'
    ensures '\n' !in l + ".tar.gz"
  {
    var u := l + ".tar.gz";
    assert forall i :: 0 <= i < |u| ==> u[i] != '\n';
  }

  /** The Ruby extension stripping removes the `.gz` of `.tar.gz`. */
  lemma {:induction false} GzStripped(l: string)
    requires '\n' !in l + ".tar.gz"
    ensures Download.StripExtension(l + ".tar.gz") == l + ".tar"
  {
    assert Download.IsExtension(".gz");
    assert (l + ".tar") + ".gz" == l + ".tar.gz";
    Download.StripOneExtension(l + ".tar", ".gz");
  }

  /** Lowering leaves an appended `.tar` as it is. */
  lemma {:induction false} LowerTar(l: string)
    requires Lower(l) == l
    ensures Lower(l + ".tar") == l + ".tar"
  {
    LowerAppendLowercase(l, ".tar");
  }

  /** Appending `.tar` adds no whitespace. */
  lemma {:induction false} TarNoSpace(l: string)
    requires forall i :: 0 <= i < |l| ==> !IsSpace(l[i])
    ensures forall i :: 0 <= i < |l + ".tar"| ==> !IsSpace((l + ".tar")[i])
  {
  }
}
