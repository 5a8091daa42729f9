/** The part of `urllib.parse` and `pathlib` that filename resolution relies on: splitting a
    URL into the five components of section 3 of RFC 3986, the final name of a path as
    `PurePosixPath.name` computes it, and percent-decoding (section 2.1 of RFC 3986) as
    `unquote` does it. */
module Uri {
  import opened Wrappers
  import opened Text

  /** The components of a URL. A component that is absent (no `scheme:`, no `//authority`,
      no `?`, no `#`) is `None`; the path is always present, possibly empty. */
  datatype Url = Url(
    scheme: Option<string>,
    authority: Option<string>,
    path: string,
    query: Option<string>,
    fragment: Option<string>)

  predicate IsAlpha(c: char) {
    'a' <= c <= 'z' || 'A' <= c <= 'Z'
  }

  /** scheme = ALPHA *( ALPHA / DIGIT / "+" / "-" / "." ), section 3.1 of RFC 3986. */
  predicate IsScheme(s: string) {
    |s| > 0 && IsAlpha(s[0]) &&
    forall i :: 0 <= i < |s| ==> IsAlpha(s[i]) || IsDigit(s[i]) || s[i] in "+-."
  }

  /** Takes `scheme:` off the front when the text before the first `:` is a scheme. */
  function SplitScheme(s: string): (r: (Option<string>, string))
    ensures r.0.Some? ==> IsScheme(r.0.value) && s == r.0.value + ":" + r.1
    ensures r.0.None? ==> r.1 == s
  {
    var i := IndexOf(s, ':');
    if i < |s| && IsScheme(s[..i]) then
      assert s == s[..i] + ":" + s[i + 1..];
      (Some(s[..i]), s[i + 1..])
    else (None, s)
  }

  /** Takes `//authority` off the front; the authority runs up to the next `/`. */
  function SplitAuthority(s: string): (r: (Option<string>, string))
    ensures r.0.Some? ==> s == "//" + r.0.value + r.1 && '/' !in r.0.value
    ensures r.0.Some? ==> r.1 == [] || r.1[0] == '/'
    ensures r.0.None? ==> r.1 == s
  {
    if |s| >= 2 && s[0] == '/' && s[1] == '/' then
      var tail := s[2..];
      var i := IndexOf(tail, '/');
      assert s == "//" + tail && tail == tail[..i] + tail[i..];
      assert forall j :: 0 <= j < i ==> tail[..i][j] == tail[j];
      (Some(tail[..i]), tail[i..])
    else (None, s)
  }

  /** Splits a URL into scheme, authority, path, query and fragment. The fragment starts at
      the first `#` (RFC 3986, section 3.5), the query at the first `?` before it (RFC 3986,
      section 3.4). */
  function SplitUrl(url: string): (u: Url)
    ensures '?' !in u.path && '#' !in u.path
    ensures u.scheme.Some? ==> IsScheme(u.scheme.value)
    ensures u.authority.Some? ==> '/' !in u.authority.value && (u.path == [] || u.path[0] == '/')
  {
    var fragmentSplit := SplitFirst(url, '#');
    var querySplit := SplitFirst(fragmentSplit.0, '?');
    var schemeSplit := SplitScheme(querySplit.0);
    var authoritySplit := SplitAuthority(schemeSplit.1);
    SplitFirstJoins(url, '#');
    SplitFirstJoins(fragmentSplit.0, '?');
    SchemeSplitJoins(querySplit.0);
    AuthoritySplitJoins(schemeSplit.1);
    assert forall x :: x in querySplit.0 ==> x in fragmentSplit.0;
    assert forall x :: x in schemeSplit.1 ==> x in querySplit.0;
    assert forall x :: x in authoritySplit.1 ==> x in schemeSplit.1;
    Url(schemeSplit.0, authoritySplit.0, authoritySplit.1, querySplit.1, fragmentSplit.1)
  }

  /** Component recomposition, section 5.3 of RFC 3986. */
  function Recompose(u: Url): string {
    SchemePart(u.scheme) + AuthorityPart(u.authority) + u.path
    + QueryPart(u.query) + FragmentPart(u.fragment)
  }

  function SchemePart(scheme: Option<string>): string {
    if scheme.Some? then scheme.value + ":" else ""
  }

  function AuthorityPart(authority: Option<string>): string {
    if authority.Some? then "//" + authority.value else ""
  }

  function QueryPart(query: Option<string>): string {
    if query.Some? then "?" + query.value else ""
  }

  function FragmentPart(fragment: Option<string>): string {
    if fragment.Some? then "#" + fragment.value else ""
  }

  lemma SchemeSplitJoins(s: string)
    ensures SchemePart(SplitScheme(s).0) + SplitScheme(s).1 == s
  {
  }

  lemma AuthoritySplitJoins(s: string)
    ensures AuthorityPart(SplitAuthority(s).0) + SplitAuthority(s).1 == s
  {
  }

  lemma QuerySplitJoins(s: string)
    ensures SplitFirst(s, '?').0 + QueryPart(SplitFirst(s, '?').1) == s
  {
    SplitFirstJoins(s, '?');
  }

  lemma FragmentSplitJoins(s: string)
    ensures SplitFirst(s, '#').0 + FragmentPart(SplitFirst(s, '#').1) == s
  {
    SplitFirstJoins(s, '#');
  }

  /** Splitting loses nothing: the components put back together give the URL again. */
  lemma RecomposeSplitUrl(url: string)
    ensures Recompose(SplitUrl(url)) == url
  {
    var fragmentSplit := SplitFirst(url, '#');
    var querySplit := SplitFirst(fragmentSplit.0, '?');
    var schemeSplit := SplitScheme(querySplit.0);
    FragmentSplitJoins(url);
    QuerySplitJoins(fragmentSplit.0);
    SchemeSplitJoins(querySplit.0);
    AuthoritySplitJoins(schemeSplit.1);
    var authoritySplit := SplitAuthority(schemeSplit.1);
    var u := SplitUrl(url);
    assert u == Url(schemeSplit.0, authoritySplit.0, authoritySplit.1, querySplit.1, fragmentSplit.1);
    var s, a, p := SchemePart(u.scheme), AuthorityPart(u.authority), u.path;
    var q, f := QueryPart(u.query), FragmentPart(u.fragment);
    assert schemeSplit.1 == a + p;
    assert querySplit.0 == s + (a + p);
    Associative(s, a, p);
    assert fragmentSplit.0 == s + a + p + q;
    assert url == s + a + p + q + f;
  }

  /** A query or a fragment appended to a URL that has neither changes none of the scheme,
      the authority and the path. */
  lemma QueryAndFragmentIgnored(base: string, suffix: string)
    requires '?' !in base && '#' !in base
    requires suffix != [] && (suffix[0] == '?' || suffix[0] == '#')
    ensures SplitUrl(base + suffix).scheme == SplitUrl(base).scheme
    ensures SplitUrl(base + suffix).authority == SplitUrl(base).authority
    ensures SplitUrl(base + suffix).path == SplitUrl(base).path
  {
    SplitFirstPrefix(base, suffix, '#');
    SplitFirstAbsent(base, '#');
    SplitFirstAbsent(base, '?');
    var x := SplitFirst(suffix, '#').0;
    if suffix[0] == '#' {
      assert x == [];
      assert base + x == base;
    } else {
      assert x[0] == '?';
      SplitFirstPrefix(base, x, '?');
      assert SplitFirst(x, '?').0 == [];
      assert base + [] == base;
    }
  }

  /** A text split as "up to the first `/`" and "from it on" has only one such split. */
  lemma SlashSplitUnique(a: string, r: string, b: string, t: string)
    requires '/' !in a && '/' !in b
    requires (r == [] || r[0] == '/') && (t == [] || t[0] == '/')
    requires a + r == b + t
    ensures a == b && r == t
  {
    IndexOfPrefix(a, r, '/');
    IndexOfPrefix(b, t, '/');
    assert IndexOf(r, '/') == 0 && IndexOf(t, '/') == 0;
    assert a == (a + r)[..|a|] && b == (b + t)[..|b|];
    assert r == (a + r)[|a|..] && t == (b + t)[|b|..];
  }

  /** `scheme:` comes off the front of any text that starts with a scheme and a colon. */
  lemma SchemeSplitAt(scheme: string, rest: string)
    requires IsScheme(scheme)
    ensures SplitScheme(scheme + ":" + rest) == (Some(scheme), rest)
  {
    assert forall i :: 0 <= i < |scheme| ==> scheme[i] != ':';
    Associative(scheme, ":", rest);
    IndexOfPrefix(scheme, ":" + rest, ':');
    assert (":" + rest)[0] == ':';
    DropPrefix(scheme, ":" + rest);
    assert (":" + rest)[1..] == rest;
  }

  /** `//host` comes off the front of `//host/path` when the host holds no `/`. */
  lemma AuthoritySplitAt(host: string, path: string)
    requires '/' !in host && (path == [] || path[0] == '/')
    ensures SplitAuthority("//" + host + path) == (Some(host), path)
  {
    var rest := "//" + host + path;
    Associative("//", host, path);
    var a := SplitAuthority(rest);
    assert rest[2..] == host + path;
    assert rest[2..] == a.0.value + a.1;
    SlashSplitUnique(host, path, a.0.value, a.1);
  }

  /** A URL of the shape `scheme://host/path` with no query and no fragment splits into exactly
      those parts. */
  lemma SplitHierarchical(scheme: string, host: string, path: string)
    requires IsScheme(scheme)
    requires '/' !in host && '?' !in host && '#' !in host
    requires '?' !in path && '#' !in path && (path == [] || path[0] == '/')
    ensures SplitUrl(scheme + "://" + host + path) == Url(Some(scheme), Some(host), path, None, None)
  {
    var x := scheme + ":";
    var url := scheme + "://" + host + path;
    assert "://" == ":" + "//";
    Associative(scheme, ":", "//");
    Associative(x, "//", host);
    Associative(x, "//" + host, path);
    assert url == x + ("//" + host + path);
    assert forall i :: 0 <= i < |scheme| ==> scheme[i] != '?' && scheme[i] != '#';
    assert '?' !in url && '#' !in url;
    SplitFirstAbsent(url, '#');
    SplitFirstAbsent(url, '?');
    SchemeSplitAt(scheme, "//" + host + path);
    AuthoritySplitAt(host, path);
  }

  /** Splits `s` at the last occurrence of `c` (Python's `s.rpartition(c)`). */
  function SplitLast(s: string, c: char): (r: Option<(string, string)>)
    ensures r.None? <==> c !in s
    ensures r.Some? ==> s == r.value.0 + [c] + r.value.1 && c !in r.value.1
  {
    if s == [] then None
    else if s[|s| - 1] == c then
      assert s == s[..|s| - 1] + [c] + [];
      Some((s[..|s| - 1], []))
    else
      match SplitLast(s[..|s| - 1], c)
      case None =>
        assert s == s[..|s| - 1] + [s[|s| - 1]];
        None
      case Some((parent, last)) =>
        assert s == s[..|s| - 1] + [s[|s| - 1]];
        Some((parent, last + [s[|s| - 1]]))
  }

  /** The split at the last `c` is the one whose right part holds no `c`. */
  lemma {:induction false} SplitLastAt(parent: string, last: string, c: char)
    requires c !in last
    ensures SplitLast(parent + [c] + last, c) == Some((parent, last))
    decreases |last|
  {
    var s := parent + [c] + last;
    if last == [] {
      assert s[..|s| - 1] == parent;
    } else {
      var init, final := last[..|last| - 1], last[|last| - 1];
      assert last == init + [final];
      assert s == (parent + [c] + init) + [final];
      SplitLastAt(parent, init, c);
    }
  }

  /** `PurePosixPath(path).name`: the last component of the path, where pathlib drops empty
      components (from repeated or trailing `/`) and `.` components; empty when none is left. */
  function PathName(path: string): (name: string)
    ensures name != [] ==> '/' !in name && name != "."
    decreases |path|
  {
    match SplitLast(path, '/')
    case None => if path == "." then "" else path
    case Some((parent, last)) => if last == "" || last == "." then PathName(parent) else last
  }

  /** The name of a path is its last segment whenever that segment is a real name. */
  lemma PathNameIsLastSegment(parent: string, segment: string)
    requires '/' !in segment && segment != "" && segment != "."
    ensures PathName(parent + "/" + segment) == segment
  {
    SplitLastAt(parent, segment, '/');
  }

  /** A root path made only of `/` and a final `.` component has no name. */
  lemma RootDotHasNoName()
    ensures PathName("/.") == ""
  {
    SplitLastAt("", ".", '/');
    assert "" + "/" + "." == "/.";
  }

  predicate IsHexDigit(c: char) {
    '0' <= c <= '9' || 'a' <= c <= 'f' || 'A' <= c <= 'F'
  }

  function HexValue(c: char): (v: nat)
    requires IsHexDigit(c)
    ensures v < 16
  {
    if '0' <= c <= '9' then c as int - '0' as int
    else if 'a' <= c <= 'f' then c as int - 'a' as int + 10
    else c as int - 'A' as int + 10
  }

  /** `unquote`: each `%` followed by two hex digits becomes the character with that code;
      any other character, including a `%` that does not start such an escape, is kept. */
  function PercentDecode(s: string): (r: string)
    ensures |r| <= |s|
    ensures |s| > 0 ==> |r| > 0
    ensures '%' !in s ==> r == s
    decreases |s|
  {
    if s == [] then []
    else if |s| >= 3 && s[0] == '%' && IsHexDigit(s[1]) && IsHexDigit(s[2]) then
      [(16 * HexValue(s[1]) + HexValue(s[2])) as char] + PercentDecode(s[3..])
    else
      assert '%' !in s ==> '%' !in s[1..] by {
        assert forall x :: x in s[1..] ==> x in s;
      }
      [s[0]] + PercentDecode(s[1..])
  }

  /** Text without `%` passes through decoding unchanged, whatever follows it. */
  lemma {:induction false} DecodePlainPrefix(a: string, t: string)
    requires '%' !in a
    ensures PercentDecode(a + t) == a + PercentDecode(t)
    decreases |a|
  {
    if a != [] {
      assert (a + t)[0] == a[0] && (a + t)[1..] == a[1..] + t;
      assert '%' !in a[1..] by {
        assert forall x :: x in a[1..] ==> x in a;
      }
      assert a[0] != '%' by {
        assert a[0] in a;
      }
      assert PercentDecode(a + t) == [a[0]] + PercentDecode(a[1..] + t);
      DecodePlainPrefix(a[1..], t);
      Associative([a[0]], a[1..], PercentDecode(t));
      assert a == [a[0]] + a[1..];
    } else {
      assert a + t == t;
    }
  }

  /** One escaped octet between two texts without `%` decodes to that octet in place, as
      `my%20document.pdf` decodes to `my document.pdf`. */
  lemma DecodeEscapeBetween(a: string, c: char, b: string)
    requires '%' !in a && '%' !in b && c as int < 256
    ensures PercentDecode(a + EncodeOctet(c) + b) == a + [c] + b
  {
    Associative(a, EncodeOctet(c), b);
    DecodePlainPrefix(a, EncodeOctet(c) + b);
    DecodeEncodedOctet(c, b);
    Associative(a, [c], b);
  }

  /** unreserved = ALPHA / DIGIT / "-" / "." / "_" / "~", section 2.3 of RFC 3986. */
  predicate IsUnreserved(c: char) {
    IsAlpha(c) || IsDigit(c) || c in "-._~"
  }

  function HexDigit(d: nat): (c: char)
    requires d < 16
    ensures IsHexDigit(c) && HexValue(c) == d
  {
    if d < 10 then (48 + d) as char else (55 + d) as char
  }

  predicate IsOctets(s: string) {
    forall i :: 0 <= i < |s| ==> s[i] as int < 256
  }

  /** The percent-encoding of one octet, section 2.1 of RFC 3986: an unreserved character
      stands for itself, any other becomes `%` and two upper-case hex digits. */
  function EncodeOctet(c: char): (r: string)
    requires c as int < 256
    ensures |r| > 0
  {
    if IsUnreserved(c) then [c] else ['%', HexDigit(c as int / 16), HexDigit(c as int % 16)]
  }

  /** Percent-encoding of a whole text, the inverse that `PercentDecode` undoes. */
  function PercentEncode(s: string): (r: string)
    requires IsOctets(s)
    ensures |r| >= |s|
  {
    if s == [] then [] else EncodeOctet(s[0]) + PercentEncode(s[1..])
  }

  lemma DecodeEncodedOctet(c: char, rest: string)
    requires c as int < 256
    ensures PercentDecode(EncodeOctet(c) + rest) == [c] + PercentDecode(rest)
  {
    var e := EncodeOctet(c) + rest;
    if IsUnreserved(c) {
      assert e[0] == c && c != '%';
      assert e[1..] == rest;
    } else {
      assert e[0] == '%' && e[1] == HexDigit(c as int / 16) && e[2] == HexDigit(c as int % 16);
      assert e[3..] == rest;
    }
  }

  /** Decoding what was encoded gives back the original text. */
  lemma {:induction false} DecodeEncode(s: string)
    requires IsOctets(s)
    ensures PercentDecode(PercentEncode(s)) == s
    decreases |s|
  {
    if s != [] {
      DecodeEncodedOctet(s[0], PercentEncode(s[1..]));
      DecodeEncode(s[1..]);
      assert s == [s[0]] + s[1..];
    }
  }
}
