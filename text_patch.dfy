/**
 * The text patcher of bin/utils.js: rewrite the string value of the first
 * `"key" : "value"` occurrence in raw JSON text, leaving every other
 * character as it was.
 *
 * Both helpers of the source are one `String.prototype.replace` call with the
 * non-global regular expression `("<key>"\s*:\s*")[^"]*(")` and the
 * replacement `$1<newValue>$2`. The regular expression is modelled by a
 * deterministic scanner (MatchAt) that is proved equal to the declarative
 * reading of the pattern (Matches), and the leftmost-match rule of `replace`
 * by an explicit left-to-right search (FirstMatch). All positions are indices
 * into the whole text.
 */
module TextPatch {
  import opened Wrappers

  /** The characters the regular-expression class `\s` matches in JavaScript. */
  predicate IsSpace(c: char) {
    || c == ' ' || c == '\t' || c == '\n' || c == '\r' || c == '\U{000B}' || c == '\U{000C}'
    || c == '\U{00A0}' || c == '\U{1680}' || ('\U{2000}' <= c <= '\U{200A}')
    || c == '\U{2028}' || c == '\U{2029}' || c == '\U{202F}' || c == '\U{205F}'
    || c == '\U{3000}' || c == '\U{FEFF}'
  }

  /** `"key"`: the key as the pattern spells it, between double quotes. */
  function Quoted(key: string): string {
    "\"" + key + "\""
  }

  /** Whether `prefix` occurs in `s` at index `i`, compared character by character. */
  function StartsWithAt(s: string, i: nat, prefix: string): (r: bool)
    ensures r ==> i + |prefix| <= |s|
    decreases prefix
  {
    if prefix == [] then i <= |s|
    else i < |s| && s[i] == prefix[0] && StartsWithAt(s, i + 1, prefix[1..])
  }

  /** The character-by-character comparison is occurrence at `i`. */
  lemma {:induction false} StartsWithAtIsOccurrence(s: string, i: nat, prefix: string)
    ensures StartsWithAt(s, i, prefix) <==>
      i + |prefix| <= |s| && forall k :: 0 <= k < |prefix| ==> s[i + k] == prefix[k]
    decreases prefix
  {
    if prefix != [] {
      StartsWithAtIsOccurrence(s, i + 1, prefix[1..]);
      if i + |prefix| <= |s| && forall k :: 0 <= k < |prefix| ==> s[i + k] == prefix[k] {
        forall k | 0 <= k < |prefix| - 1 ensures s[i + 1 + k] == prefix[1..][k] {
          assert s[i + (k + 1)] == prefix[k + 1];
        }
      }
      if StartsWithAt(s, i, prefix) {
        forall k | 0 <= k < |prefix| ensures s[i + k] == prefix[k] {
          if k > 0 {
            assert s[i + 1 + (k - 1)] == prefix[1..][k - 1];
          }
        }
      }
    }
  }

  /** The first index at or after `k` that does not hold `\s` (|s| when there is none). */
  function SkipSpace(s: string, k: nat): (r: nat)
    requires k <= |s|
    ensures k <= r <= |s|
    ensures forall j :: k <= j < r ==> IsSpace(s[j])
    ensures r < |s| ==> !IsSpace(s[r])
    decreases |s| - k
  {
    if k < |s| && IsSpace(s[k]) then SkipSpace(s, k + 1) else k
  }

  /** The first index at or after `k` that holds a double quote (|s| when there is none). */
  function NextQuote(s: string, k: nat): (r: nat)
    requires k <= |s|
    ensures k <= r <= |s|
    ensures forall j :: k <= j < r ==> s[j] != '"'
    ensures r < |s| ==> s[r] == '"'
    decreases |s| - k
  {
    if k < |s| && s[k] != '"' then NextQuote(s, k + 1) else k
  }

  /**
   * The declarative reading of the first group `("key"\s*:\s*")` matched at
   * index `i` of `s`: the colon stands at `a`, and the group ends just before
   * `q`, the first index of the value.
   */
  ghost predicate IsHeader(s: string, key: string, i: nat, a: nat, q: nat) {
    && i + |key| + 2 <= a && a + 2 <= q <= |s|
    && s[i] == '"'
    && (forall k :: 0 <= k < |key| ==> s[i + 1 + k] == key[k])
    && s[i + |key| + 1] == '"'
    && (forall j :: i + |key| + 2 <= j < a ==> IsSpace(s[j]))
    && s[a] == ':'
    && (forall j :: a < j < q - 1 ==> IsSpace(s[j]))
    && s[q - 1] == '"'
  }

  /**
   * The declarative reading of the whole pattern `("key"\s*:\s*")[^"]*(")`
   * matched at index `i` of `s`, capturing the value `s[p..e]`.
   */
  ghost predicate Matches(s: string, key: string, i: nat, p: nat, e: nat) {
    && p <= e < |s|
    && (exists a: nat :: IsHeader(s, key, i, a, p))
    && (forall j :: p <= j < e ==> s[j] != '"')
    && s[e] == '"'
  }

  /** The scanner for the first group at `i`: the index just after the value's opening quote. */
  function HeaderEnd(s: string, key: string, i: nat): (r: Option<nat>)
    ensures r.Some? ==> i + |key| + 4 <= r.value <= |s| && s[r.value - 1] == '"'
  {
    if !StartsWithAt(s, i, Quoted(key)) then None
    else
      var a := SkipSpace(s, i + |key| + 2);
      if a == |s| || s[a] != ':' then None
      else
        var b := SkipSpace(s, a + 1);
        if b == |s| || s[b] != '"' then None
        else Some(b + 1)
  }

  /** The span `[start, end)` of a captured value; the closing quote stands at `end`. */
  datatype Span = Span(start: nat, end: nat)

  /** The scanner for the whole pattern, tried at index `i` of `s`. */
  function MatchAt(s: string, key: string, i: nat): (r: Option<Span>)
    ensures r.Some? ==> i + |key| + 4 <= r.value.start <= r.value.end < |s| && s[r.value.end] == '"'
  {
    match HeaderEnd(s, key, i)
    case None => None
    case Some(p) =>
      var e := NextQuote(s, p);
      if e == |s| then None else Some(Span(p, e))
  }

  /** The scanner of the first group finds exactly the headers the pattern describes. */
  lemma HeaderEndIsHeader(s: string, key: string, i: nat, q: nat)
    ensures HeaderEnd(s, key, i) == Some(q) <==> exists a: nat :: IsHeader(s, key, i, a, q)
  {
    var n := |key| + 2;
    var qk := Quoted(key);
    StartsWithAtIsOccurrence(s, i, qk);
    if HeaderEnd(s, key, i) == Some(q) {
      var a := SkipSpace(s, i + n);
      forall k | 0 <= k < |key| ensures s[i + 1 + k] == key[k] {
        assert s[i + (k + 1)] == qk[k + 1];
      }
      assert s[i + 0] == qk[0] && s[i + (n - 1)] == qk[n - 1];
      assert IsHeader(s, key, i, a, q);
    }
    if a: nat :| IsHeader(s, key, i, a, q) {
      forall k | 0 <= k < |qk| ensures s[i + k] == qk[k] {
        if 0 < k < n - 1 {
          assert s[i + 1 + (k - 1)] == key[k - 1];
        }
      }
      var a' := SkipSpace(s, i + n);
      if a' < a {
      } else if a' > a {
      }
      var b' := SkipSpace(s, a + 1);
      if b' < q - 1 {
      } else if b' > q - 1 {
      }
    }
  }

  /**
   * The scanner is exact: it reports the value span `[p, e)` for a start `i`
   * if and only if the pattern matches at `i` with that span. Since `:` and
   * `"` are not `\s`, a match at a given start is unique, so backtracking in
   * the regular-expression engine can find no other.
   */
  lemma MatchAtIsPattern(s: string, key: string, i: nat, p: nat, e: nat)
    ensures MatchAt(s, key, i) == Some(Span(p, e)) <==> Matches(s, key, i, p, e)
  {
    HeaderEndIsHeader(s, key, i, p);
    if Matches(s, key, i, p, e) {
      var e' := NextQuote(s, p);
    }
  }

  /** A header reads nothing past its end, so a text that agrees with `s` up to there has the same header. */
  lemma HeaderEndLocal(s: string, t: string, key: string, i: nat, q: nat)
    requires HeaderEnd(s, key, i) == Some(q)
    requires q <= |t| && forall m :: i <= m < q ==> s[m] == t[m]
    ensures HeaderEnd(t, key, i) == Some(q)
  {
    HeaderEndIsHeader(s, key, i, q);
    var a: nat :| IsHeader(s, key, i, a, q);
    forall k | 0 <= k < |key| ensures t[i + 1 + k] == key[k] {
      assert s[i + 1 + k] == key[k];
    }
    assert IsHeader(t, key, i, a, q);
    HeaderEndIsHeader(t, key, i, q);
  }

  /**
   * Inside a header of a quote-free key, double quotes stand only around the
   * key and at the end: a header holds exactly three of them.
   */
  lemma HeaderQuotes(s: string, key: string, i: nat, q: nat)
    requires '"' !in key
    requires HeaderEnd(s, key, i) == Some(q)
    ensures s[i] == '"' && s[i + |key| + 1] == '"' && s[q - 1] == '"'
    ensures forall m :: i < m < q - 1 && m != i + |key| + 1 ==> s[m] != '"'
  {
    HeaderEndIsHeader(s, key, i, q);
    var a: nat :| IsHeader(s, key, i, a, q);
    forall m | i < m < q - 1 && m != i + |key| + 1 ensures s[m] != '"' {
      if m < i + |key| + 1 {
        assert s[i + 1 + (m - i - 1)] == key[m - i - 1];
        assert key[m - i - 1] in key;
      }
    }
  }

  /** A match found in a whole text: its start `at` and its value span `[start, end)`. */
  datatype Hit = Hit(at: nat, start: nat, end: nat)

  /**
   * The leftmost match at or after `from`: the search a non-global
   * `String.prototype.replace` performs.
   */
  function FirstMatch(s: string, key: string, from: nat): (r: Option<Hit>)
    requires from <= |s|
    ensures r.Some? ==> from <= r.value.at <= |s| && MatchAt(s, key, r.value.at) == Some(Span(r.value.start, r.value.end))
    ensures r.Some? ==> forall j :: from <= j < r.value.at ==> MatchAt(s, key, j).None?
    ensures r.None? ==> forall j :: from <= j <= |s| ==> MatchAt(s, key, j).None?
    decreases |s| - from
  {
    match MatchAt(s, key, from)
    case Some(sp) => Some(Hit(from, sp.start, sp.end))
    case None => if from == |s| then None else FirstMatch(s, key, from + 1)
  }

  /** A match at `i` with none before it is the one the search finds. */
  lemma FirstMatchIsLeftmost(s: string, key: string, i: nat, sp: Span)
    requires i <= |s|
    requires MatchAt(s, key, i) == Some(sp)
    requires forall j :: 0 <= j < i ==> MatchAt(s, key, j).None?
    ensures FirstMatch(s, key, 0) == Some(Hit(i, sp.start, sp.end))
  {
  }

  /**
   * `s.replace(/("key"\s*:\s*")[^"]*(")/, "$1" + v + "$2")`: the value of the
   * first match becomes `v`; without a match the text comes back unchanged.
   */
  function Patch(s: string, key: string, v: string): (r: string)
    ensures FirstMatch(s, key, 0).None? ==> r == s
    ensures FirstMatch(s, key, 0).Some? ==> Spliced(s, r, FirstMatch(s, key, 0).value, v)
  {
    match FirstMatch(s, key, 0)
    case None => s
    case Some(h) => s[..h.start] + v + s[h.end..]
  }

  /**
   * `r` is `s` with the value `[h.start, h.end)` replaced by `v`: the text
   * before the value and the text from the closing quote on are kept.
   */
  ghost predicate Spliced(s: string, r: string, h: Hit, v: string) {
    && h.start <= h.end <= |s|
    && |r| == |s| - (h.end - h.start) + |v|
    && r[..h.start] == s[..h.start]
    && r[h.start..h.start + |v|] == v
    && r[h.start + |v|..] == s[h.end..]
  }

  /** The value the pattern captures at its first match, None without a match. */
  function FirstValue(s: string, key: string): Option<string> {
    match FirstMatch(s, key, 0)
    case None => None
    case Some(h) => Some(s[h.start..h.end])
  }

  /**
   * `getJsonStrWithUpdatedDependency(jsonStr, packageName, newVersion)`: the key
   * is the package name. For a quote-free name and version, the first value of
   * the name afterwards is the new version, at the same place.
   */
  function PatchDependency(jsonStr: string, packageName: string, newVersion: string): (r: string)
    ensures FirstMatch(jsonStr, packageName, 0).None? ==> r == jsonStr
    ensures '"' !in packageName && '"' !in newVersion && FirstMatch(jsonStr, packageName, 0).Some? ==>
      FirstValue(r, packageName) == Some(newVersion)
      && FirstMatch(r, packageName, 0).value.at == FirstMatch(jsonStr, packageName, 0).value.at
  {
    if '"' !in packageName && '"' !in newVersion && FirstMatch(jsonStr, packageName, 0).Some? then
      PatchSetsFirstValue(jsonStr, packageName, newVersion);
      Patch(jsonStr, packageName, newVersion)
    else
      Patch(jsonStr, packageName, newVersion)
  }

  /**
   * `getJsonStrWithUpdatedVersion(jsonStr, newVersion)`: the key is `version`.
   * For a quote-free version, the first `"version"` value afterwards is the new
   * version.
   */
  function PatchVersion(jsonStr: string, newVersion: string): (r: string)
    ensures FirstMatch(jsonStr, "version", 0).None? ==> r == jsonStr
    ensures '"' !in newVersion && FirstMatch(jsonStr, "version", 0).Some? ==>
      FirstValue(r, "version") == Some(newVersion)
  {
    if '"' !in newVersion && FirstMatch(jsonStr, "version", 0).Some? then
      PatchSetsFirstValue(jsonStr, "version", newVersion);
      Patch(jsonStr, "version", newVersion)
    else
      Patch(jsonStr, "version", newVersion)
  }

  /** Without a match anywhere in the text, the patch gives the text back unchanged. */
  lemma PatchWithoutMatch(s: string, key: string, v: string)
    requires forall j :: 0 <= j <= |s| ==> MatchAt(s, key, j).None?
    ensures Patch(s, key, v) == s
  {
  }

  /**
   * When the leftmost match starts at `i`, only its value changes: the text up
   * to and including the opening quote, and the text from the closing quote on,
   * are kept character for character, and `v` stands in between.
   */
  lemma PatchRewritesFirstMatch(s: string, key: string, v: string, i: nat, sp: Span)
    requires i <= |s|
    requires MatchAt(s, key, i) == Some(sp)
    requires forall j :: 0 <= j < i ==> MatchAt(s, key, j).None?
    ensures sp.start <= sp.end < |s|
    ensures var r := Patch(s, key, v);
      && |r| == |s| - (sp.end - sp.start) + |v|
      && r[..sp.start] == s[..sp.start]
      && r[sp.start..sp.start + |v|] == v
      && r[sp.start + |v|..] == s[sp.end..]
  {
    FirstMatchIsLeftmost(s, key, i, sp);
    var r := s[..sp.start] + v + s[sp.end..];
    assert Patch(s, key, v) == r;
    assert r[..sp.start] == s[..sp.start];
    assert r[sp.start..sp.start + |v|] == v;
    assert r[sp.start + |v|..] == s[sp.end..];
  }

  /** A patch replaces the first match's value and nothing else. */
  lemma PatchShape(s: string, key: string, v: string)
    requires FirstMatch(s, key, 0).Some?
    ensures var h := FirstMatch(s, key, 0).value;
      && h.at + |key| + 4 <= h.start <= h.end < |s|
      && HeaderEnd(s, key, h.at) == Some(h.start)
      && s[h.end] == '"'
      && Patch(s, key, v) == s[..h.start] + v + s[h.end..]
  {
  }

  /**
   * Text from the closing quote of the first match on is never touched, so a
   * later occurrence of the key is matched exactly as before.
   */
  lemma PatchKeepsLaterText(s: string, key: string, v: string, j: nat)
    requires FirstMatch(s, key, 0).Some?
    requires FirstMatch(s, key, 0).value.end <= j <= |s|
    ensures var h := FirstMatch(s, key, 0).value;
      var r := Patch(s, key, v);
      var j' := j - h.end + h.start + |v|;
      j' <= |r| && r[j'..] == s[j..]
  {
    var h := FirstMatch(s, key, 0).value;
    PatchShape(s, key, v);
    var r := Patch(s, key, v);
    var j' := j - h.end + h.start + |v|;
    assert r[h.start + |v|..] == s[h.end..];
    assert r[j'..] == r[h.start + |v|..][j - h.end..];
    assert s[j..] == s[h.end..][j - h.end..];
  }

  /** Patching a value with the value it already holds gives the input back. */
  lemma PatchWithCurrentValue(s: string, key: string, v: string)
    requires FirstMatch(s, key, 0).Some?
    requires var h := FirstMatch(s, key, 0).value; h.start <= h.end <= |s| && s[h.start..h.end] == v
    ensures Patch(s, key, v) == s
  {
    var h := FirstMatch(s, key, 0).value;
    assert s == s[..h.start] + s[h.start..h.end] + s[h.end..];
  }

  /**
   * The heart of PatchedTextFirstMatch: let `t` be `s` with the value `[p, e)`
   * of a header starting at `i` replaced by `v`. A start `j < i` that did not
   * match in `s` does not match in `t` either.
   */
  lemma NoEarlierMatchAfterRewrite(s: string, t: string, key: string, v: string, i: nat, p: nat, e: nat, j: nat)
    requires '"' !in key && '"' !in v
    requires i < p <= e < |s| && s[e] == '"'
    requires HeaderEnd(s, key, i) == Some(p)
    requires t == s[..p] + v + s[e..]
    requires j < i && MatchAt(s, key, j).None?
    ensures MatchAt(t, key, j).None?
  {
    assert forall m :: 0 <= m < p ==> t[m] == s[m];
    if MatchAt(t, key, j).Some? {
      var q :| HeaderEnd(t, key, j) == Some(q);
      // A header at j ending past p would contain the three quotes of the
      // header at i, one more than a header holds.
      HeaderQuotes(t, key, j, q);
      HeaderQuotes(s, key, i, p);
      if q <= p {
        // The whole header lies in unchanged text, so s already matched at j.
        HeaderEndLocal(t, s, key, j, q);
      }
    }
  }

  /** The other half: the header at `i` survives the rewrite and now captures exactly `v`. */
  lemma MatchAfterRewrite(s: string, t: string, key: string, v: string, i: nat, p: nat, e: nat)
    requires '"' !in v
    requires i < p <= e < |s| && s[e] == '"'
    requires HeaderEnd(s, key, i) == Some(p)
    requires t == s[..p] + v + s[e..]
    ensures i <= |t| && MatchAt(t, key, i) == Some(Span(p, p + |v|))
  {
    assert forall m :: 0 <= m < p ==> t[m] == s[m];
    HeaderEndLocal(s, t, key, i, p);
    forall m | p <= m < p + |v| ensures t[m] != '"' {
      assert t[m] == v[m - p];
    }
    assert t[p + |v|] == s[e];
    assert NextQuote(t, p) == p + |v|;
  }

  /**
   * After patching with a quote-free value, the search finds the same
   * occurrence again, now holding exactly `v`. This needs a quote-free key: a
   * header then holds exactly three double quotes, so no earlier occurrence
   * can be formed from the rewritten text.
   */
  lemma PatchedTextFirstMatch(s: string, key: string, v: string, h: Hit)
    requires '"' !in key && '"' !in v
    requires FirstMatch(s, key, 0) == Some(h)
    ensures FirstMatch(Patch(s, key, v), key, 0) == Some(Hit(h.at, h.start, h.start + |v|))
  {
    var t := Patch(s, key, v);
    assert h.at < h.start <= h.end < |s| && s[h.end] == '"' && HeaderEnd(s, key, h.at) == Some(h.start)
      && t == s[..h.start] + v + s[h.end..] by {
      PatchShape(s, key, v);
    }
    RewriteKeepsFirstMatch(s, t, key, v, h);
  }

  /** PatchedTextFirstMatch, stated for the rewritten text spelled out. */
  lemma RewriteKeepsFirstMatch(s: string, t: string, key: string, v: string, h: Hit)
    requires '"' !in key && '"' !in v
    requires FirstMatch(s, key, 0) == Some(h)
    requires h.at < h.start <= h.end < |s| && s[h.end] == '"' && HeaderEnd(s, key, h.at) == Some(h.start)
    requires t == s[..h.start] + v + s[h.end..]
    ensures FirstMatch(t, key, 0) == Some(Hit(h.at, h.start, h.start + |v|))
  {
    MatchAfterRewrite(s, t, key, v, h.at, h.start, h.end);
    NoMatchBeforeRewrite(s, t, key, v, h.at, h.start, h.end);
    FirstMatchIsLeftmost(t, key, h.at, Span(h.start, h.start + |v|));
  }

  /** NoEarlierMatchAfterRewrite for every start before the header at `i`. */
  lemma NoMatchBeforeRewrite(s: string, t: string, key: string, v: string, i: nat, p: nat, e: nat)
    requires '"' !in key && '"' !in v
    requires i < p <= e < |s| && s[e] == '"'
    requires HeaderEnd(s, key, i) == Some(p)
    requires t == s[..p] + v + s[e..]
    requires forall j :: 0 <= j < i ==> MatchAt(s, key, j).None?
    ensures forall j :: 0 <= j < i ==> MatchAt(t, key, j).None?
  {
    forall j | 0 <= j < i ensures MatchAt(t, key, j).None? {
      NoEarlierMatchAfterRewrite(s, t, key, v, i, p, e, j);
    }
  }

  /**
   * Applying the same patch twice is applying it once, for a quote-free key and
   * value; without a match both sides are the unchanged input.
   */
  lemma PatchIdempotent(s: string, key: string, v: string)
    requires '"' !in key && '"' !in v
    ensures Patch(Patch(s, key, v), key, v) == Patch(s, key, v)
  {
    if FirstMatch(s, key, 0).Some? {
      var h := FirstMatch(s, key, 0).value;
      PatchShape(s, key, v);
      var t := Patch(s, key, v);
      PatchedTextFirstMatch(s, key, v, h);
      assert t[h.start..h.start + |v|] == v;
      PatchWithCurrentValue(t, key, v);
    }
  }

  /**
   * After a patch with a quote-free value, the first occurrence of the key is
   * where it was, and its value is exactly that value.
   */
  lemma PatchSetsFirstValue(s: string, key: string, v: string)
    requires '"' !in key && '"' !in v
    requires FirstMatch(s, key, 0).Some?
    ensures var t := Patch(s, key, v);
      var h := FirstMatch(t, key, 0);
      && h.Some? && h.value.at == FirstMatch(s, key, 0).value.at
      && h.value.start <= h.value.end <= |t| && t[h.value.start..h.value.end] == v
  {
    var h := FirstMatch(s, key, 0).value;
    PatchedTextFirstMatch(s, key, v, h);
    PatchShape(s, key, v);
    var t := Patch(s, key, v);
    assert t[h.start..h.start + |v|] == v;
  }
}
