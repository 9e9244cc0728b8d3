/**
 * The two string parsers of the content script: the card short link taken
 * from the location's path, and the anti-forgery token taken from the
 * `document.cookie` string (entries `name=value` separated by `;`, the
 * layout of section 5.4 of RFC 6265).
 */
module Parsers {
  import opened Wrappers
  import opened Text

  // ---------------------------------------------------------------------
  // getCardShortLink: pathname.match(/\/c\/([a-zA-Z0-9]+)/)
  // ---------------------------------------------------------------------

  /** The regular expression matches at index `i`: `/c/` followed by at least one alphanumeric. */
  predicate LinkAt(path: string, i: int) {
    OccursAt(path, "/c/", i) && i + 3 < |path| && IsAlnum(path[i + 3])
  }

  /** `i` is the leftmost index at which the regular expression matches. */
  predicate IsFirstLink(path: string, i: int) {
    LinkAt(path, i) && forall j :: 0 <= j < i ==> !LinkAt(path, j)
  }

  /** `run` is a maximal, non-empty alphanumeric run of `s` starting at `start`. */
  predicate IsMaximalRun(s: string, start: nat, run: string) {
    && |run| >= 1
    && start + |run| <= |s|
    && s[start..start + |run|] == run
    && (forall k :: 0 <= k < |run| ==> IsAlnum(run[k]))
    && (start + |run| == |s| || !IsAlnum(s[start + |run|]))
  }

  /** The greedy `[a-zA-Z0-9]+`: the longest alphanumeric prefix of `s`. */
  function AlnumPrefix(s: string): (r: string)
    ensures |r| <= |s| && r == s[..|r|]
    ensures forall k :: 0 <= k < |r| ==> IsAlnum(r[k])
    ensures |r| == |s| || !IsAlnum(s[|r|])
  {
    if |s| > 0 && IsAlnum(s[0]) then [s[0]] + AlnumPrefix(s[1..]) else []
  }

  /** The leftmost match at or after `from`, scanning as the regular-expression engine does. */
  function FirstLinkFrom(path: string, from: nat): (r: Option<nat>)
    ensures r.Some? ==> from <= r.value && LinkAt(path, r.value)
                        && forall j :: from <= j < r.value ==> !LinkAt(path, j)
    ensures r.None? ==> forall j :: from <= j ==> !LinkAt(path, j)
    decreases |path| - from
  {
    if from + 4 > |path| then None
    else if LinkAt(path, from) then Some(from)
    else FirstLinkFrom(path, from + 1)
  }

  /**
   * `getCardShortLink`: the capture group of the leftmost match, or none.
   * The result exists exactly when some `/c/` is followed by an alphanumeric,
   * and it is then the whole alphanumeric run after the leftmost such `/c/`.
   */
  function GetCardShortLink(pathname: string): (r: Option<string>)
    ensures r.None? <==> forall i :: !LinkAt(pathname, i)
    ensures r.Some? ==> exists i :: IsFirstLink(pathname, i) && IsMaximalRun(pathname, i + 3, r.value)
  {
    match FirstLinkFrom(pathname, 0)
    case None => None
    case Some(i) =>
      var run := AlnumPrefix(pathname[i + 3..]);
      assert pathname[i + 3..][..|run|] == pathname[i + 3..i + 3 + |run|];
      assert IsFirstLink(pathname, i) && IsMaximalRun(pathname, i + 3, run);
      Some(run)
  }

  /** A path without `/c/` yields no card id. */
  lemma NoMarkerNoShortLink(pathname: string)
    requires !Contains(pathname, "/c/")
    ensures GetCardShortLink(pathname) == None
  {
  }

  /** A path that starts with `/c/`, an alphanumeric run and then a non-alphanumeric has that run as its id. */
  lemma ShortLinkAtStart(id: string, rest: string)
    requires |id| >= 1 && forall k :: 0 <= k < |id| ==> IsAlnum(id[k])
    requires rest == [] || !IsAlnum(rest[0])
    ensures GetCardShortLink("/c/" + id + rest) == Some(id)
  {
    var p := "/c/" + id + rest;
    assert p[..3] == "/c/" && p[3] == id[0];
    assert LinkAt(p, 0);
    assert p[3..] == id + rest;
    AlnumPrefixOf(id, rest);
  }

  /** The alphanumeric prefix of an alphanumeric run followed by a non-alphanumeric is that run. */
  lemma {:induction false} AlnumPrefixOf(id: string, rest: string)
    requires forall k :: 0 <= k < |id| ==> IsAlnum(id[k])
    requires rest == [] || !IsAlnum(rest[0])
    ensures AlnumPrefix(id + rest) == id
  {
    if id == [] {
      assert id + rest == rest;
    } else {
      assert (id + rest)[0] == id[0];
      assert (id + rest)[1..] == id[1..] + rest;
      AlnumPrefixOf(id[1..], rest);
      assert [id[0]] + id[1..] == id;
    }
  }

  /** The example of the card path `/c/abc123/my-card`. */
  lemma ShortLinkExample()
    ensures GetCardShortLink("/c/abc123/my-card") == Some("abc123")
  {
    assert "/c/abc123/my-card" == "/c/" + "abc123" + "/my-card";
    ShortLinkAtStart("abc123", "/my-card");
  }

  // ---------------------------------------------------------------------
  // getCsrfToken: cookie.split(';').find(c => c.trim().startsWith('dsc='))
  //               then match.split('=')[1]
  // ---------------------------------------------------------------------

  /** The `find` predicate: the trimmed entry starts with `dsc=`. */
  predicate IsDscEntry(entry: string) {
    StartsWith(Trim(entry), "dsc=")
  }

  /** `k` is the first entry that satisfies the `find` predicate. */
  predicate IsFirstDscEntry(entries: seq<string>, k: int) {
    0 <= k < |entries| && IsDscEntry(entries[k])
    && forall j :: 0 <= j < k ==> !IsDscEntry(entries[j])
  }

  /** `token` starts at `start` in `entry`, holds no `=`, and ends at the next `=` or at the end. */
  predicate IsValueAt(entry: string, start: nat, token: string) {
    && start + |token| <= |entry|
    && entry[start..start + |token|] == token
    && '=' !in token
    && (start + |token| == |entry| || entry[start + |token|] == '=')
  }

  /**
   * `token` is the value of the `dsc` entry `entry`: after the leading
   * whitespace comes `dsc=`, and the value starts right after it.
   */
  predicate IsDscValue(entry: string, token: string) {
    var k := LeadingWhitespace(entry);
    && k + 4 <= |entry|
    && entry[k..k + 4] == "dsc="
    && IsValueAt(entry, k + 4, token)
  }

  /** `Array.prototype.find` over the entries, as an index. */
  function FindDscEntry(entries: seq<string>): (r: Option<nat>)
    ensures r.Some? ==> IsFirstDscEntry(entries, r.value)
    ensures r.None? ==> forall j :: 0 <= j < |entries| ==> !IsDscEntry(entries[j])
  {
    if entries == [] then None
    else if IsDscEntry(entries[0]) then Some(0)
    else match FindDscEntry(entries[1..])
      case None => None
      case Some(k) => Some(k + 1)
  }

  /** Trailing whitespace never reaches `dsc=`, so only the leading whitespace matters. */
  lemma DscEntryIff(entry: string)
    ensures IsDscEntry(entry) <==> StartsWith(entry[LeadingWhitespace(entry)..], "dsc=")
  {
    var t := TrimStart(entry);
    var m := TrimEnd(t);
    assert m == t[..|m|];
    if StartsWith(t, "dsc=") {
      TrailingWhitespaceIsWhitespace(t);
      assert t[3] == '=' && !IsJsWhitespace(t[3]);
      assert TrailingWhitespace(t) <= |t| - 4;
      assert m[..4] == t[..4];
    }
  }

  /** A split-off prefix that starts with `dsc=` holds those four characters at `k`. */
  lemma DscAt(entry: string, k: nat)
    requires k <= |entry| && StartsWith(entry[k..], "dsc=")
    ensures k + 4 <= |entry| && entry[k..k + 4] == "dsc="
  {
    assert entry[k..][..4] == entry[k..k + 4];
  }

  /** When no `=` precedes `dsc=` at `k`, the first `=` of the entry is the one of `dsc=`. */
  lemma SplitAtDsc(entry: string, k: nat)
    requires k + 4 <= |entry| && entry[k..k + 4] == "dsc="
    requires '=' !in entry[..k]
    ensures Split(entry, '=') == [entry[..k + 3]] + Split(entry[k + 4..], '=')
  {
    assert '=' !in entry[..k + 3] by {
      var head := entry[..k + 3];
      forall i | 0 <= i < k + 3 ensures head[i] != '=' {
        if i < k {
          assert head[i] == entry[..k][i];
        } else {
          assert head[i] == entry[k..k + 4][i - k];
        }
      }
    }
    assert entry[k + 3] == '=' by {
      assert entry[k + 3] == entry[k..k + 4][3];
    }
    IndexOfUnique(entry, '=', k + 3);
  }

  /** The first `=`-piece of a suffix is the value starting there. */
  lemma FirstPieceIsValue(entry: string, start: nat)
    requires start <= |entry|
    ensures IsValueAt(entry, start, Split(entry[start..], '=')[0])
  {
    var rest := entry[start..];
    var j := IndexOf(rest, '=');
    assert Split(rest, '=')[0] == rest[..j];
    assert entry[start..start + j] == rest[..j];
  }

  /** The second `=`-piece of a `dsc` entry is its value. */
  lemma DscEntryValue(entry: string)
    requires IsDscEntry(entry)
    ensures |Split(entry, '=')| >= 2 && IsDscValue(entry, Split(entry, '=')[1])
  {
    DscEntryIff(entry);
    var k := LeadingWhitespace(entry);
    LeadingWhitespaceExcludes(entry, '=');
    DscAt(entry, k);
    SplitAtDsc(entry, k);
    FirstPieceIsValue(entry, k + 4);
  }

  /**
   * `getCsrfToken`: the value of the first `dsc` entry of the cookie string,
   * or none when no entry's trimmed form starts with `dsc=` (so `dscx=1` does
   * not match). The value holds neither `;` nor `=`; it may be empty.
   */
  function GetCsrfToken(cookie: string): (r: Option<string>)
    ensures r.None? <==> FindDscEntry(Split(cookie, ';')).None?
    ensures r.Some? ==> ';' !in r.value && '=' !in r.value
  {
    var entries := Split(cookie, ';');
    match FindDscEntry(entries)
    case None => None
    case Some(k) =>
      DscEntryValue(entries[k]);
      var token := Split(entries[k], '=')[1];
      ghost var start := LeadingWhitespace(entries[k]) + 4;
      NotInSlice(entries[k], ';', start, start + |token|);
      Some(token)
  }

  /** The token is the value of the first `dsc` entry: what follows `dsc=` up to the next `=` or the end. */
  lemma CsrfTokenIsDscValue(cookie: string)
    requires GetCsrfToken(cookie).Some?
    ensures var entries := Split(cookie, ';');
            IsDscValue(entries[FindDscEntry(entries).value], GetCsrfToken(cookie).value)
  {
    var entries := Split(cookie, ';');
    DscEntryValue(entries[FindDscEntry(entries).value]);
  }

  /** A value followed by no further `=` runs to the end of the entry. */
  lemma ValueToEnd(entry: string, start: nat, token: string)
    requires IsValueAt(entry, start, token) && '=' !in entry[start..]
    ensures token == entry[start..]
  {
    forall i | start <= i < |entry| ensures entry[i] != '=' {
      assert entry[start..][i - start] == entry[i];
    }
  }

  /** Whitespace, then `dsc=`, then anything, is a `dsc` entry. */
  lemma WhitespaceDscEntry(w: string, v: string)
    requires forall i :: 0 <= i < |w| ==> IsJsWhitespace(w[i])
    ensures var e := w + "dsc=" + v;
            LeadingWhitespace(e) == |w| && IsDscEntry(e) && e[|w| + 4..] == v
  {
    var e := w + "dsc=" + v;
    assert e[|w|] == 'd' && !IsJsWhitespace(e[|w|]);
    LeadingWhitespaceUnique(e, |w|);
    assert e[|w|..][..4] == "dsc=";
    DscEntryIff(e);
    assert e[|w| + 4..] == v;
  }

  /** An entry of whitespace, `dsc=` and a value without `;` or `=` has that value as its token. */
  lemma CsrfTokenOfDscEntry(w: string, v: string)
    requires forall i :: 0 <= i < |w| ==> IsJsWhitespace(w[i])
    requires ';' !in v && '=' !in v
    ensures GetCsrfToken(w + "dsc=" + v) == Some(v)
  {
    var e := w + "dsc=" + v;
    WhitespaceDscEntry(w, v);
    forall i | 0 <= i < |e| ensures e[i] != ';' {
      if i >= |w| + 4 {
        assert e[i] == v[i - |w| - 4];
      }
    }
    SplitWithoutSeparator(e, ';');
    assert FindDscEntry([e]) == Some(0);
    CsrfTokenIsDscValue(e);
    ValueToEnd(e, |w| + 4, GetCsrfToken(e).value);
  }

  /** `find` passes over an entry that does not match. */
  lemma CsrfTokenSkipsEntry(entry: string, rest: string)
    requires ';' !in entry && !IsDscEntry(entry)
    ensures GetCsrfToken(entry + [';'] + rest) == GetCsrfToken(rest)
  {
    SplitAfterFirst(entry, ';', rest);
    var entries := Split(entry + [';'] + rest, ';');
    assert entries[1..] == Split(rest, ';');
  }

  /** A matching entry wins over everything after it. */
  lemma CsrfTokenFirstEntryWins(entry: string, rest: string)
    requires ';' !in entry && IsDscEntry(entry)
    ensures GetCsrfToken(entry + [';'] + rest) == GetCsrfToken(entry)
  {
    SplitAfterFirst(entry, ';', rest);
    SplitWithoutSeparator(entry, ';');
  }

  /** The entry ` dsc=TOKEN123`, whose leading space `trim` removes. */
  lemma CsrfTokenSpacedEntry()
    ensures GetCsrfToken(" dsc=TOKEN123") == Some("TOKEN123")
  {
    assert " dsc=TOKEN123" == " " + "dsc=" + "TOKEN123";
    CsrfTokenOfDscEntry(" ", "TOKEN123");
  }

  /** The entry `a=1` is passed over. */
  lemma CsrfTokenSkipsA()
    ensures GetCsrfToken("a=1; dsc=TOKEN123") == GetCsrfToken(" dsc=TOKEN123")
  {
    assert "a=1; dsc=TOKEN123" == "a=1" + [';'] + " dsc=TOKEN123";
    LeadingWhitespaceUnique("a=1", 0);
    DscEntryIff("a=1");
    CsrfTokenSkipsEntry("a=1", " dsc=TOKEN123");
  }

  /** The example cookie `a=1; dsc=TOKEN123`. */
  lemma CsrfTokenExample()
    ensures GetCsrfToken("a=1; dsc=TOKEN123") == Some("TOKEN123")
  {
    CsrfTokenSkipsA();
    CsrfTokenSpacedEntry();
  }

  /** A cookie named `dscx` is not the token. */
  lemma CsrfTokenNameMustMatch()
    ensures GetCsrfToken("dscx=1") == None
  {
    var c := "dscx=1";
    SplitWithoutSeparator(c, ';');
    LeadingWhitespaceUnique(c, 0);
    DscEntryIff(c);
    assert c[0..][..4][3] == 'x';
  }
}
