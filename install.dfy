/** The placeholder substitution of `handle_install` in the Ruby revision
    (app.rb): a copy of the installer script is rewritten by up to five
    `gsub!` calls, each turning every `KEY="<anything but a quote>"` into
    `KEY="value"`. */
module Install {
  import opened Text

  /** The text a match starts with: `KEY="`. */
  function Opening(key: string): string {
    key + "=\""
  }

  /** The replacement text `KEY="value"`. */
  function Assignment(key: string, value: string): string {
    Opening(key) + value + "\""
  }

  /** Index of the first quote at or after `from`, if any. */
  function FirstQuote(s: string, from: nat): (q: Option<nat>)
    requires from <= |s|
    ensures q.Some? ==> from <= q.value < |s| && s[q.value] == '"'
    ensures q.Some? ==> forall i :: from <= i < q.value ==> s[i] != '"'
    ensures q.None? ==> forall i :: from <= i < |s| ==> s[i] != '"'
    decreases |s| - from
  {
    if from == |s| then None
    else if s[from] == '"' then Some(from)
    else FirstQuote(s, from + 1)
  }

  /** Length of the match of `KEY="[^"]*"` at the start of `s`, if there is
      one: `s` opens with `KEY="` and a closing quote follows; the match ends
      at the first such quote, since `[^"]*` cannot pass a quote. */
  function MatchLength(s: string, key: string): (m: Option<nat>)
    ensures m.Some? <==> |Opening(key)| <= |s| && s[..|Opening(key)|] == Opening(key)
                         && exists i :: |Opening(key)| <= i < |s| && s[i] == '"'
    ensures m.Some? ==> |Opening(key)| < m.value <= |s| && s[..|Opening(key)|] == Opening(key) && s[m.value - 1] == '"'
    ensures m.Some? ==> forall i :: |Opening(key)| <= i < m.value - 1 ==> s[i] != '"'
  {
    var p := Opening(key);
    if |p| <= |s| && s[..|p|] == p then
      match FirstQuote(s, |p|)
      case Some(q) => Some(q + 1)
      case None => None
    else
      None
  }

  /** `s.gsub(/KEY="[^"]*"/, "KEY=\"value\"")` with a value free of
      backslashes: scanning left to right, each match is replaced and the
      scan resumes after it; every other character is copied. */
  function Gsub(s: string, key: string, value: string): string
    decreases |s|
  {
    if s == [] then []
    else
      match MatchLength(s, key)
      case Some(n) => Assignment(key, value) + Gsub(s[n..], key, value)
      case None => [s[0]] + Gsub(s[1..], key, value)
  }

  /** `s` holds no match starting anywhere below `k`. */
  predicate NoMatchBefore(s: string, key: string, k: nat)
    requires k <= |s|
  {
    forall j :: 0 <= j < k ==> MatchLength(s[j..], key).None?
  }

  /** The `gsub!` of one placeholder, as a scanning loop that builds the
      result from left to right while `rest` holds the text not yet scanned. */
  method Substitute(s: string, key: string, value: string) returns (r: string)
    ensures r == Gsub(s, key, value)
  {
    r := [];
    var rest := s;
    while rest != []
      invariant r + Gsub(rest, key, value) == Gsub(s, key, value)
      decreases |rest|
    {
      var m := MatchLength(rest, key);
      GsubStep(rest, r, key, value);
      if m.Some? {
        r := r + Assignment(key, value);
        rest := rest[m.value..];
      } else {
        r := r + [rest[0]];
        rest := rest[1..];
      }
    }
    assert r + [] == r;
  }

  /** One step of the scan over the unscanned text `rest`, after the scan has
      produced `r`. */
  lemma {:induction false} GsubStep(rest: string, r: string, key: string, value: string)
    requires rest != []
    ensures MatchLength(rest, key).Some? ==>
              var n := MatchLength(rest, key).value;
              r + Gsub(rest, key, value) == (r + Assignment(key, value)) + Gsub(rest[n..], key, value)
    ensures MatchLength(rest, key).None? ==>
              r + Gsub(rest, key, value) == (r + [rest[0]]) + Gsub(rest[1..], key, value)
  {
    match MatchLength(rest, key)
    case Some(n) =>
      Associative(r, Assignment(key, value), Gsub(rest[n..], key, value));
    case None =>
      Associative(r, [rest[0]], Gsub(rest[1..], key, value));
  }

  /** Concatenation is associative. */
  lemma {:induction false} Associative(a: string, b: string, c: string)
    ensures a + (b + c) == (a + b) + c
  {
  }

  /** One `gsub!` guarded by `if value`: nil leaves the text as it is. */
  function SubstituteIf(s: string, key: string, value: Option<string>): string {
    if value.Some? then Gsub(s, key, value.value) else s
  }

  /** No backslash, so Ruby reads the replacement text literally. */
  predicate Literal(value: Option<string>) {
    value.Some? ==> '\\' !in value.value
  }

  /** What `handle_install` returns: the five rewrites in their fixed order
      VERSION, OS, ARCH, DIRECTORY, FORCE (not the parameter order). */
  function Installed(script: string, version: Option<string>, directory: Option<string>,
                     os: Option<string>, arch: Option<string>, force: Option<string>): string
    requires Literal(version) && Literal(directory) && Literal(os) && Literal(arch) && Literal(force)
  {
    var afterVersion := SubstituteIf(script, "VERSION", version);
    var afterOs := SubstituteIf(afterVersion, "OS", os);
    var afterArch := SubstituteIf(afterOs, "ARCH", arch);
    var afterDirectory := SubstituteIf(afterArch, "DIRECTORY", directory);
    SubstituteIf(afterDirectory, "FORCE", force)
  }

  /** `handle_install`: the script is copied and the copy rewritten in place,
      one placeholder after another, each rewrite only for a non-nil argument. */
  method HandleInstall(script: string, version: Option<string>, directory: Option<string>,
                       os: Option<string>, arch: Option<string>, force: Option<string>) returns (result: string)
    requires Literal(version) && Literal(directory) && Literal(os) && Literal(arch) && Literal(force)
    ensures result == Installed(script, version, directory, os, arch, force)
    ensures version.None? && directory.None? && os.None? && arch.None? && force.None? ==> result == script
  {
    result := script;
    if version.Some? {
      result := Substitute(result, "VERSION", version.value);
    }
    if os.Some? {
      result := Substitute(result, "OS", os.value);
    }
    if arch.Some? {
      result := Substitute(result, "ARCH", arch.value);
    }
    if directory.Some? {
      result := Substitute(result, "DIRECTORY", directory.value);
    }
    if force.Some? {
      result := Substitute(result, "FORCE", force.value);
    }
  }

  // ----- properties of one substitution -----

  /** Text before the first match is copied unchanged. */
  lemma {:induction false} GsubCopiesUnmatched(x: string, y: string, key: string, value: string)
    requires NoMatchBefore(x + y, key, |x|)
    ensures Gsub(x + y, key, value) == x + Gsub(y, key, value)
    decreases |x|
  {
    if x != [] {
      var t := x + y;
      var u := x[1..] + y;
      ConsTail(x, y);
      assert MatchLength(t[0..], key).None?;
      assert Gsub(t, key, value) == [x[0]] + Gsub(u, key, value);
      assert NoMatchBefore(u, key, |x| - 1) by {
        forall j | 0 <= j < |x| - 1
          ensures MatchLength(u[j..], key).None?
        {
          assert MatchLength(t[j + 1..], key).None?;
        }
      }
      GsubCopiesUnmatched(x[1..], y, key, value);
      Associative([x[0]], x[1..], Gsub(y, key, value));
    } else {
      assert x + y == y;
    }
  }

  /** How the first character splits off a concatenation. */
  lemma {:induction false} ConsTail(x: string, y: string)
    requires x != []
    ensures (x + y)[0..] == x + y && (x + y)[0] == x[0] && (x + y)[1..] == x[1..] + y
    ensures [x[0]] + x[1..] == x
    ensures forall j :: 0 <= j <= |x[1..] + y| ==> (x[1..] + y)[j..] == (x + y)[j + 1..]
  {
  }

  /** A match `KEY="current"` becomes `KEY="value"`, whatever `current` was. */
  lemma {:induction false} GsubReplacesMatch(current: string, y: string, key: string, value: string)
    requires '"' !in current
    ensures Gsub(Opening(key) + current + "\"" + y, key, value) == Assignment(key, value) + Gsub(y, key, value)
  {
    var t := Opening(key) + current + "\"" + y;
    var n := |Opening(key)| + |current| + 1;
    assert t[..|Opening(key)|] == Opening(key);
    assert t[n - 1] == '"';
    assert forall i :: |Opening(key)| <= i < n - 1 ==> t[i] == current[i - |Opening(key)|];
    var m := MatchLength(t, key);
    assert m == Some(n);
    assert t[n..] == y;
  }

  /** A script without any match of the key is returned unchanged. */
  lemma {:induction false} GsubWithoutMatch(s: string, key: string, value: string)
    requires NoMatchBefore(s, key, |s|)
    ensures Gsub(s, key, value) == s
  {
    assert s + [] == s;
    GsubCopiesUnmatched(s, [], key, value);
  }

  /** The first `|Opening(key)|` characters survive a substitution
      (a match and its replacement both open with `KEY="`). */
  lemma {:induction false} GsubKeepsShortPrefix(t: string, key: string, value: string, k: nat)
    requires k <= |Opening(key)| && k <= |t|
    ensures k <= |Gsub(t, key, value)| && Gsub(t, key, value)[..k] == t[..k]
    decreases |t|
  {
    if t != [] {
      match MatchLength(t, key)
      case Some(n) =>
        var a := Assignment(key, value);
        PrefixOfConcat(a, Gsub(t[n..], key, value), k);
        PrefixOfConcat(Opening(key), value + "\"", k);
        assert a == Opening(key) + (value + "\"");
        PrefixOfPrefix(t, |Opening(key)|, k);
      case None =>
        if k > 0 {
          GsubKeepsShortPrefix(t[1..], key, value, k - 1);
          ConsPrefix(t[0], Gsub(t[1..], key, value), k);
          ConsPrefix(t[0], t[1..], k);
          assert [t[0]] + t[1..] == t;
        }
    }
  }

  /** A prefix no longer than the first part of a concatenation lies in it. */
  lemma {:induction false} PrefixOfConcat(a: string, b: string, k: nat)
    requires k <= |a|
    ensures (a + b)[..k] == a[..k]
  {
  }

  /** Taking `k` characters of the first `m` is taking `k` characters. */
  lemma {:induction false} PrefixOfPrefix(t: string, m: nat, k: nat)
    requires k <= m <= |t|
    ensures t[..m][..k] == t[..k]
  {
  }

  /** The first `k > 0` characters of `[c] + g` are `c` and `k - 1` of `g`. */
  lemma {:induction false} ConsPrefix(c: char, g: string, k: nat)
    requires 0 < k <= |g| + 1
    ensures ([c] + g)[..k] == [c] + g[..k - 1]
  {
  }

  /** A text too short to hold a match is left unchanged. */
  lemma {:induction false} GsubShort(t: string, key: string, value: string)
    requires |t| <= |Opening(key)|
    ensures Gsub(t, key, value) == t
    decreases |t|
  {
    if t != [] {
      GsubShort(t[1..], key, value);
    }
  }

  /** A text whose quotes all lie before index `m <= |KEY="|` holds no match. */
  lemma {:induction false} GsubLateQuoteFree(t: string, key: string, value: string, m: nat)
    requires m <= |Opening(key)|
    requires forall i :: m <= i < |t| ==> t[i] != '"'
    ensures Gsub(t, key, value) == t
    decreases |t|
  {
    if t != [] {
      assert MatchLength(t, key).None?;
      GsubLateQuoteFree(t[1..], key, value, if m > 0 then m - 1 else 0);
    }
  }

  /** Where the scan finds no match, it finds none in the rewritten text either. */
  lemma {:induction false} NoMatchStaysNoMatch(s: string, key: string, value: string)
    requires s != [] && MatchLength(s, key).None?
    ensures MatchLength([s[0]] + Gsub(s[1..], key, value), key).None?
  {
    var p := Opening(key);
    var t := s[1..];
    var g := Gsub(t, key, value);
    if |p| <= |s| && s[..|p|] == p {
      // KEY=" opens here but no quote follows: the rest holds no match.
      assert forall i :: |p| <= i < |s| ==> s[i] != '"';
      assert forall i :: |p| - 1 <= i < |t| ==> t[i] == s[i + 1];
      GsubLateQuoteFree(t, key, value, |p| - 1);
      FirstAndRest(s);
    } else if |t| + 1 < |p| {
      GsubShort(t, key, value);
      FirstAndRest(s);
    } else {
      GsubKeepsShortPrefix(t, key, value, |p| - 1);
      ConsPrefix(s[0], g, |p|);
      ConsPrefix(s[0], t, |p|);
      FirstAndRest(s);
      assert ([s[0]] + g)[..|p|] == s[..|p|];
    }
  }

  /** A non-empty text is its first character followed by the rest. */
  lemma {:induction false} FirstAndRest(s: string)
    requires s != []
    ensures [s[0]] + s[1..] == s
  {
  }

  /** A replacement without quotes is matched exactly once by a rescan. */
  lemma {:induction false} AssignmentMatches(key: string, value: string, y: string)
    requires '"' !in value
    ensures Gsub(Assignment(key, value) + y, key, value) == Assignment(key, value) + Gsub(y, key, value)
  {
    GsubReplacesMatch(value, y, key, value);
    assert Opening(key) + value + "\"" + y == Assignment(key, value) + y;
  }

  /** Substituting a quote-free value twice gives the result of substituting
      it once: every match already carries the new value and no new match
      appears. */
  lemma {:induction false} GsubIdempotent(s: string, key: string, value: string)
    requires '"' !in value
    ensures Gsub(Gsub(s, key, value), key, value) == Gsub(s, key, value)
    decreases |s|
  {
    if s != [] {
      match MatchLength(s, key)
      case Some(n) =>
        GsubIdempotent(s[n..], key, value);
        AssignmentMatches(key, value, Gsub(s[n..], key, value));
      case None =>
        var g := Gsub(s[1..], key, value);
        GsubIdempotent(s[1..], key, value);
        NoMatchStaysNoMatch(s, key, value);
        assert ([s[0]] + g)[1..] == g;
    }
  }

  // ----- properties of handle_install -----

  /** Each nil argument leaves its placeholder alone: with every optional
      argument nil the script comes back unchanged, and the routes that pass
      only version and directory rewrite only those two. */
  lemma {:induction false} InstallNilArguments(script: string, version: Option<string>, directory: Option<string>)
    requires Literal(version) && Literal(directory)
    ensures Installed(script, None, None, None, None, None) == script
    ensures Installed(script, version, directory, None, None, None)
            == SubstituteIf(SubstituteIf(script, "VERSION", version), "DIRECTORY", directory)
  {
  }

  /** An argument rewrites nothing when the script has no assignment of its key. */
  lemma {:induction false} InstallVersionAbsent(script: string, version: string)
    requires '\\' !in version
    requires NoMatchBefore(script, "VERSION", |script|)
    ensures Installed(script, Some(version), None, None, None, None) == script
  {
    GsubWithoutMatch(script, "VERSION", version);
  }
}
