/**
 * Package-name canonicalisation (PEP 503 "Normalized Names") and the index name
 * derived from a URL's authority (Python's `urlparse(...).netloc`), as used by
 * `pkg_key` and `index_name_from_url` in env_snapshot.core.
 */
module Names {

  // ---------------------------------------------------------------------------
  // Characters
  // ---------------------------------------------------------------------------

  predicate IsUpper(c: char) { 'A' <= c <= 'Z' }

  /** ASCII lower-casing of one character. */
  function Lower(c: char): (d: char)
    ensures !IsUpper(d)
    ensures IsUpper(c) || d == c
  {
    if IsUpper(c) then (c as int - 'A' as int + 'a' as int) as char else c
  }

  /** Python's `str.lower()` on the ASCII range. */
  function LowerAll(s: string): (r: string)
    ensures |r| == |s|
    ensures forall i :: 0 <= i < |s| ==> r[i] == Lower(s[i])
  {
    seq(|s|, i requires 0 <= i < |s| => Lower(s[i]))
  }

  /** The characters that PEP 503 folds into a single `-`. */
  predicate IsSeparator(c: char) { c == '-' || c == '_' || c == '.' }

  // ---------------------------------------------------------------------------
  // pkg_key: PEP 503 normalisation, `re.sub(r"[-_.]+", "-", name).lower()`
  // ---------------------------------------------------------------------------

  /** Drops the run of separators at the front of `s`. */
  function DropSeparators(s: string): (r: string)
    ensures |r| <= |s| && r == s[|s| - |r|..]
    ensures r == [] || !IsSeparator(r[0])
    ensures s != [] && IsSeparator(s[0]) ==> |r| < |s|
    ensures forall i :: 0 <= i < |s| - |r| ==> IsSeparator(s[i])
  {
    if s != [] && IsSeparator(s[0]) then DropSeparators(s[1..]) else s
  }

  /**
   * A canonical name: no upper-case letter, no `_` or `.`, and no two `-` in a
   * row; exactly the strings that PEP 503 normalisation leaves unchanged.
   */
  predicate IsCanonical(t: string) {
    && (forall i :: 0 <= i < |t| ==> !IsUpper(t[i]) && t[i] != '_' && t[i] != '.')
    && (forall i :: 0 <= i < |t| - 1 ==> !(t[i] == '-' && t[i + 1] == '-'))
  }

  /** The registry key of a package name (`pkg_key`). */
  function PkgKey(name: string): (key: string)
    ensures IsCanonical(key)
    ensures |key| <= |name|
    ensures key == [] <==> name == []
    ensures name != [] ==> (key[0] == '-' <==> IsSeparator(name[0]))
    decreases |name|
  {
    if name == [] then []
    else if IsSeparator(name[0]) then "-" + PkgKey(DropSeparators(name))
    else [Lower(name[0])] + PkgKey(name[1..])
  }

  /** A canonical name is its own key. */
  lemma {:induction false} CanonicalIsFixed(t: string)
    requires IsCanonical(t)
    ensures PkgKey(t) == t
    decreases |t|
  {
    if t != [] {
      assert IsCanonical(t[1..]) by {
        forall i | 0 <= i < |t[1..]| - 1
          ensures !(t[1..][i] == '-' && t[1..][i + 1] == '-')
        {
          assert t[1..][i] == t[i + 1] && t[1..][i + 1] == t[i + 2];
        }
      }
      CanonicalIsFixed(t[1..]);
      if t[0] == '-' {
        assert DropSeparators(t) == t[1..] by {
          assert t[1..] == [] || !IsSeparator(t[1..][0]);
        }
        assert PkgKey(t) == "-" + PkgKey(t[1..]);
        assert t == [t[0]] + t[1..];
      } else {
        assert t == [t[0]] + t[1..];
      }
    }
  }

  /** Normalising twice is normalising once. */
  lemma PkgKeyIdempotent(name: string)
    ensures PkgKey(PkgKey(name)) == PkgKey(name)
  {
    CanonicalIsFixed(PkgKey(name));
  }

  /**
   * Two characters a name comparison cannot tell apart: both separators, or
   * equal after lower-casing.
   */
  predicate SameUnderNormalisation(c: char, d: char) {
    (IsSeparator(c) && IsSeparator(d)) || (!IsSeparator(c) && !IsSeparator(d) && Lower(c) == Lower(d))
  }

  predicate Equivalent(a: string, b: string) {
    |a| == |b| && forall i :: 0 <= i < |a| ==> SameUnderNormalisation(a[i], b[i])
  }

  lemma {:induction false} DropSeparatorsEquivalent(a: string, b: string)
    requires Equivalent(a, b)
    ensures Equivalent(DropSeparators(a), DropSeparators(b))
    decreases |a|
  {
    if a != [] && IsSeparator(a[0]) {
      assert Equivalent(a[1..], b[1..]) by {
        forall i | 0 <= i < |a[1..]| ensures SameUnderNormalisation(a[1..][i], b[1..][i]) {
          assert SameUnderNormalisation(a[i + 1], b[i + 1]);
        }
      }
      DropSeparatorsEquivalent(a[1..], b[1..]);
    }
  }

  /**
   * Names that differ only in letter case and in which separator stands at
   * each position have the same key (e.g. `Foo_Bar` and `foo.bar`).
   */
  lemma {:induction false} PkgKeyIgnoresCaseAndSeparators(a: string, b: string)
    requires Equivalent(a, b)
    ensures PkgKey(a) == PkgKey(b)
    decreases |a|
  {
    if a != [] {
      if IsSeparator(a[0]) {
        DropSeparatorsEquivalent(a, b);
        PkgKeyIgnoresCaseAndSeparators(DropSeparators(a), DropSeparators(b));
      } else {
        assert Equivalent(a[1..], b[1..]) by {
          forall i | 0 <= i < |a[1..]| ensures SameUnderNormalisation(a[1..][i], b[1..][i]) {
            assert SameUnderNormalisation(a[i + 1], b[i + 1]);
          }
        }
        PkgKeyIgnoresCaseAndSeparators(a[1..], b[1..]);
      }
    }
  }

  predicate AllSeparators(s: string) {
    forall i :: 0 <= i < |s| ==> IsSeparator(s[i])
  }

  /** Dropping the leading separators of `a + x`: `a` is consumed whole only when it is all separators. */
  lemma {:induction false} DropSeparatorsOfConcat(a: string, x: string)
    ensures DropSeparators(a + x) == if AllSeparators(a) then DropSeparators(x) else DropSeparators(a) + x
    decreases |a|
  {
    if a != [] {
      assert (a + x)[0] == a[0];
      if IsSeparator(a[0]) {
        assert (a + x)[1..] == a[1..] + x;
        DropSeparatorsOfConcat(a[1..], x);
        assert AllSeparators(a) <==> AllSeparators(a[1..]) by {
          assert forall i :: 0 < i < |a| ==> a[1..][i - 1] == a[i];
        }
      } else {
        assert !AllSeparators(a);
      }
    } else {
      assert a + x == x;
    }
  }

  /**
   * A run of separators, however long and whatever its characters, gives the
   * same key as a single `-` (e.g. `a--b`, `a_.b` and `a-b` all give `a-b`).
   */
  lemma PkgKeyCollapsesRuns(a: string, run: string, b: string)
    requires run != [] && AllSeparators(run)
    ensures PkgKey(a + run + b) == PkgKey(a + "-" + b)
  {
    var x, y := run + b, "-" + b;
    assert x[0] == run[0] && y[0] == '-';
    DropSeparatorsOfConcat(run, b);
    DropSeparatorsOfConcat("-", b);
    ConcatAssoc(a, run, b);
    ConcatAssoc(a, "-", b);
    SameKeyAfterRuns(a, x, y);
  }

  lemma ConcatAssoc<T>(a: seq<T>, b: seq<T>, c: seq<T>)
    ensures a + b + c == a + (b + c)
  {
  }

  /** Two tails that start with separators and agree once those are dropped give `a` the same key. */
  lemma {:induction false} SameKeyAfterRuns(a: string, x: string, y: string)
    requires x != [] && IsSeparator(x[0]) && y != [] && IsSeparator(y[0])
    requires DropSeparators(x) == DropSeparators(y)
    ensures PkgKey(a + x) == PkgKey(a + y)
    decreases |a|
  {
    if AllSeparators(a) {
      assert IsSeparator((a + x)[0]) && IsSeparator((a + y)[0]) by {
        if a != [] {
          assert (a + x)[0] == a[0] && (a + y)[0] == a[0];
        } else {
          assert a + x == x && a + y == y;
        }
      }
      DropSeparatorsOfConcat(a, x);
      DropSeparatorsOfConcat(a, y);
    } else if IsSeparator(a[0]) {
      SeparatorsBefore(a, x);
      SeparatorsBefore(a, y);
      SameKeyAfterRuns(DropSeparators(a), x, y);
    } else {
      assert (a + x)[0] == a[0] && (a + y)[0] == a[0];
      assert (a + x)[1..] == a[1..] + x && (a + y)[1..] == a[1..] + y;
      SameKeyAfterRuns(a[1..], x, y);
    }
  }

  /** Leading separators of `a`, when `a` has more than separators, are dropped before `x` is reached. */
  lemma SeparatorsBefore(a: string, x: string)
    requires a != [] && !AllSeparators(a) && IsSeparator(a[0])
    ensures PkgKey(a + x) == "-" + PkgKey(DropSeparators(a) + x)
  {
    assert (a + x)[0] == a[0];
    DropSeparatorsOfConcat(a, x);
  }



  // ---------------------------------------------------------------------------
  // index_name_from_url: `urlparse(url).netloc.replace(":", "-").lower()`
  // ---------------------------------------------------------------------------

  predicate IsAsciiLetter(c: char) { 'a' <= c <= 'z' || 'A' <= c <= 'Z' }

  /** Characters Python's `urllib.parse` accepts in a scheme. */
  predicate IsSchemeChar(c: char) {
    IsAsciiLetter(c) || '0' <= c <= '9' || c == '+' || c == '-' || c == '.'
  }

  /** Characters that end the authority component. */
  predicate IsAuthorityEnd(c: char) { c == '/' || c == '?' || c == '#' }

  /** Index of the first `c` in `s`, or `|s|` when there is none (`str.find`). */
  function Find(s: string, c: char): (i: nat)
    ensures i <= |s|
    ensures i < |s| ==> s[i] == c
    ensures forall j :: 0 <= j < i ==> s[j] != c
  {
    if s == [] then 0 else if s[0] == c then 0 else 1 + Find(s[1..], c)
  }

  /** Length of the authority at the front of `s`: up to the first `/`, `?` or `#`. */
  function AuthorityLength(s: string): (n: nat)
    ensures n <= |s|
    ensures forall j :: 0 <= j < n ==> !IsAuthorityEnd(s[j])
    ensures n < |s| ==> IsAuthorityEnd(s[n])
  {
    if s == [] || IsAuthorityEnd(s[0]) then 0 else 1 + AuthorityLength(s[1..])
  }

  predicate IsScheme(s: string) {
    s != [] && IsAsciiLetter(s[0]) && forall j :: 0 <= j < |s| ==> IsSchemeChar(s[j])
  }

  /** The URL with its scheme and the `:` after it removed, when it has a valid one. */
  function AfterScheme(url: string): string {
    var i := Find(url, ':');
    if 0 < i < |url| && IsScheme(url[..i]) then url[i + 1..] else url
  }

  /** Python's `urlparse(url).netloc`: the text after `//` up to `/`, `?` or `#`; empty without `//`. */
  function Netloc(url: string): string {
    var rest := AfterScheme(url);
    if |rest| >= 2 && rest[..2] == "//" then rest[2..2 + AuthorityLength(rest[2..])] else ""
  }

  function ReplaceColons(s: string): (r: string)
    ensures |r| == |s|
    ensures forall i :: 0 <= i < |s| ==> r[i] == if s[i] == ':' then '-' else s[i]
  {
    seq(|s|, i requires 0 <= i < |s| => if s[i] == ':' then '-' else s[i])
  }

  /** The index name inferred from an install URL (`index_name_from_url`). */
  function IndexNameFromUrl(url: string): string {
    LowerAll(ReplaceColons(Netloc(url)))
  }

  /** A valid scheme and its `:` are stripped, leaving what follows. */
  lemma AfterValidScheme(scheme: string, rest: string)
    requires IsScheme(scheme)
    ensures AfterScheme(scheme + ":" + rest) == rest
  {
    var url := scheme + ":" + rest;
    assert url[|scheme|] == ':';
    assert forall j :: 0 <= j < |scheme| ==> url[j] == scheme[j];
    assert forall j :: 0 <= j < |scheme| ==> scheme[j] != ':';
    assert Find(url, ':') == |scheme|;
    assert url[..|scheme|] == scheme;
    assert url[|scheme| + 1..] == rest;
  }

  /** The authority runs exactly to the first `/`, `?` or `#`. */
  lemma AuthorityLengthOf(authority: string, tail: string)
    requires forall j :: 0 <= j < |authority| ==> !IsAuthorityEnd(authority[j])
    requires tail == [] || IsAuthorityEnd(tail[0])
    ensures AuthorityLength(authority + tail) == |authority|
  {
    var s := authority + tail;
    assert forall j :: 0 <= j < |authority| ==> !IsAuthorityEnd(s[j]);
    assert |authority| < |s| ==> IsAuthorityEnd(s[|authority|]);
  }

  /** The authority of a `scheme://authority/...` URL is its netloc. */
  lemma NetlocOfUrl(scheme: string, authority: string, tail: string)
    requires IsScheme(scheme)
    requires forall j :: 0 <= j < |authority| ==> !IsAuthorityEnd(authority[j])
    requires tail == [] || IsAuthorityEnd(tail[0])
    ensures Netloc(scheme + "://" + authority + tail) == authority
  {
    var rest := "//" + (authority + tail);
    SchemeSeparator(scheme, authority + tail);
    assert scheme + "://" + authority + tail == scheme + ":" + rest;
    AfterValidScheme(scheme, rest);
    AuthorityAfterSlashes(authority, tail);
  }

  lemma SchemeSeparator(scheme: string, body: string)
    ensures scheme + "://" + body == scheme + ":" + ("//" + body)
  {
    assert "://" == ":" + "//";
  }

  /** After `//`, the authority runs to the first `/`, `?` or `#`. */
  lemma AuthorityAfterSlashes(authority: string, tail: string)
    requires forall j :: 0 <= j < |authority| ==> !IsAuthorityEnd(authority[j])
    requires tail == [] || IsAuthorityEnd(tail[0])
    ensures var rest := "//" + (authority + tail);
      |rest| >= 2 && rest[..2] == "//" && rest[2..2 + AuthorityLength(rest[2..])] == authority
  {
    var body := authority + tail;
    var rest := "//" + body;
    assert rest[2..] == body;
    AuthorityLengthOf(authority, tail);
    assert rest[2..2 + |authority|] == body[..|authority|] == authority;
  }

  /**
   * The index name of `scheme://authority/...` is the authority with every `:`
   * replaced by `-`, lower-cased; e.g. `https://Mirror.Example:8080/simple`
   * gives `mirror.example-8080`.
   */
  lemma IndexNameOfUrl(scheme: string, authority: string, tail: string)
    requires IsScheme(scheme)
    requires forall j :: 0 <= j < |authority| ==> !IsAuthorityEnd(authority[j])
    requires tail == [] || IsAuthorityEnd(tail[0])
    ensures IndexNameFromUrl(scheme + "://" + authority + tail) == LowerAll(ReplaceColons(authority))
  {
    NetlocOfUrl(scheme, authority, tail);
  }

  /** An inferred index name never holds `:`, an upper-case letter, `/`, `?` or `#`. */
  lemma IndexNameShape(url: string)
    ensures forall i :: 0 <= i < |IndexNameFromUrl(url)| ==>
      var c := IndexNameFromUrl(url)[i];
      c != ':' && !IsUpper(c) && !IsAuthorityEnd(c)
  {
    var n := Netloc(url);
    var rest := AfterScheme(url);
    assert forall i :: 0 <= i < |n| ==> !IsAuthorityEnd(n[i]) by {
      if |rest| >= 2 && rest[..2] == "//" {
        assert forall i :: 0 <= i < |n| ==> n[i] == rest[2..][i];
      }
    }
  }

  /** A `file:///...` URL has an empty authority, so its index name is `""`. */
  lemma FileUrlIndexNameIsEmpty(path: string)
    ensures IndexNameFromUrl("file:///" + path) == ""
  {
    var url := "file:///" + path;
    assert url[..4] == "file" && url[4] == ':';
    assert forall j :: 0 <= j < 4 ==> url[j] != ':';
    assert Find(url, ':') == 4;
    assert IsScheme(url[..4]);
    var rest := AfterScheme(url);
    assert rest == "///" + path;
    assert rest[2..][0] == '/';
  }

  /** A host with no `:` and no upper-case letter is its own index name. */
  lemma PlainHostIsIndexName(scheme: string, host: string, tail: string)
    requires IsScheme(scheme)
    requires forall j :: 0 <= j < |host| ==> !IsAuthorityEnd(host[j]) && host[j] != ':' && !IsUpper(host[j])
    requires tail == [] || IsAuthorityEnd(tail[0])
    ensures IndexNameFromUrl(scheme + "://" + host + tail) == host
  {
    IndexNameOfUrl(scheme, host, tail);
    assert ReplaceColons(host) == host;
    assert LowerAll(host) == host;
  }

  /** Dots of the host survive: only a port colon would be rewritten. */
  lemma HostDotsAreKept()
    ensures IndexNameFromUrl("https" + "://" + "files.example.org" + "/foo.whl") == "files.example.org"
  {
    var scheme, host, tail := "https", "files.example.org", "/foo.whl";
    assert IsScheme(scheme);
    assert tail[0] == '/';
    PlainHostIsIndexName(scheme, host, tail);
  }
}
