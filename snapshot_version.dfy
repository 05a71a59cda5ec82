/**
 * The snapshot version derivation of `createSnapshot` (bin/index.js:344-398):
 * from the version in package.json, the current git revision and, when the
 * workspace flag is given, the current workspace's name, compute the new
 * `-SNAPSHOT` version and write it over the first `"version"` value of the
 * package.json text.
 *
 * The JavaScript built-ins the derivation relies on are modelled here too:
 * `String.prototype.split` on one character, `indexOf`, `toLowerCase` as far as
 * it matters for the derivation, `parseInt` with no radix, and the decimal
 * text of an integer.
 */
module SnapshotVersion {
  import opened Wrappers
  import TextPatch
  import WorkspaceStore

  // ---------------------------------------------------------------------------
  // split on one character

  /** `s.split(sep)` for a one-character separator: never empty, and its pieces never contain `sep`. */
  function Split(s: string, sep: char): (r: seq<string>)
    ensures |r| >= 1
    ensures forall k :: 0 <= k < |r| ==> sep !in r[k]
  {
    if s == [] then [""]
    else
      var rest := Split(s[1..], sep);
      if s[0] == sep then [""] + rest
      else [[s[0]] + rest[0]] + rest[1..]
  }

  /** `pieces.join(sep)`. */
  function Join(pieces: seq<string>, sep: char): string
    requires |pieces| >= 1
  {
    if |pieces| == 1 then pieces[0] else pieces[0] + [sep] + Join(pieces[1..], sep)
  }

  /** Joining the pieces of a split gives the text back. */
  lemma {:induction false} JoinSplit(s: string, sep: char)
    ensures Join(Split(s, sep), sep) == s
  {
    if s != [] {
      JoinSplit(s[1..], sep);
      var rest := Split(s[1..], sep);
      var r := Split(s, sep);
      assert s == [s[0]] + s[1..];
      if s[0] == sep {
        assert r == [""] + rest;
        assert r[1..] == rest;
        assert Join(r, sep) == "" + [sep] + Join(rest, sep);
      } else {
        assert r == [[s[0]] + rest[0]] + rest[1..];
        assert |r| == |rest| && r[0] == [s[0]] + rest[0] && r[1..] == rest[1..];
        if |rest| == 1 {
          assert Join(r, sep) == [s[0]] + Join(rest, sep);
        } else {
          assert Join(r, sep) == ([s[0]] + rest[0]) + [sep] + Join(rest[1..], sep);
          assert Join(rest, sep) == rest[0] + [sep] + Join(rest[1..], sep);
          assert ([s[0]] + rest[0]) + [sep] + Join(rest[1..], sep) == [s[0]] + (rest[0] + [sep] + Join(rest[1..], sep));
        }
      }
    }
  }

  /** A text without the separator splits into itself alone. */
  lemma {:induction false} SplitWithoutSeparator(a: string, sep: char)
    requires sep !in a
    ensures Split(a, sep) == [a]
  {
    if a != [] {
      SplitWithoutSeparator(a[1..], sep);
      assert [a[0]] + a[1..] == a;
    }
  }

  /** Text before the first separator goes, whole, to the front of the first piece. */
  lemma {:induction false} SplitFirstPiece(a: string, t: string, sep: char)
    requires sep !in a
    ensures Split(a + t, sep)[0] == a + Split(t, sep)[0]
    ensures Split(a + t, sep)[1..] == Split(t, sep)[1..]
  {
    if a != [] {
      assert (a + t)[1..] == a[1..] + t;
      SplitFirstPiece(a[1..], t, sep);
      assert [a[0]] + (a[1..] + Split(t, sep)[0]) == a + Split(t, sep)[0];
    } else {
      assert a + t == t;
    }
  }

  /** A separator ends the first piece: what follows it is split on its own. */
  lemma SplitAtSeparator(a: string, b: string, sep: char)
    requires sep !in a
    ensures Split(a + [sep] + b, sep) == [a] + Split(b, sep)
  {
    var t := [sep] + b;
    assert a + [sep] + b == a + t;
    SplitFirstPiece(a, t, sep);
    assert t[1..] == b;
    assert Split(t, sep) == [""] + Split(b, sep);
    var r := Split(a + t, sep);
    assert r == [r[0]] + r[1..];
    assert a + "" == a;
  }

  /** The first piece of a split is a prefix of the text. */
  lemma {:induction false} FirstPieceIsPrefix(s: string, sep: char)
    ensures |Split(s, sep)[0]| <= |s| && s[..|Split(s, sep)[0]|] == Split(s, sep)[0]
  {
    if s != [] {
      FirstPieceIsPrefix(s[1..], sep);
    }
  }

  // ---------------------------------------------------------------------------
  // lower case and indexOf

  /** `c.toLowerCase()` on one character whose lower case is again one character, restricted to ASCII letters. */
  function LowerAscii(c: char): (r: char)
    ensures 'A' <= c <= 'Z' ==> 'a' <= r <= 'z' && r as int - c as int == 32
    ensures !('A' <= c <= 'Z') ==> r == c
  {
    if 'A' <= c <= 'Z' then (c as int + 32) as char else c
  }

  /**
   * The ASCII lower case of a text. It decides `indexOf('snapshot')` on
   * `toLowerCase()` exactly: the only non-ASCII characters whose lower case
   * holds an ASCII letter are U+0130 (to `i` and U+0307) and U+212A (to `k`),
   * and neither `i` nor `k` occurs in `snapshot`.
   */
  function LowerAsciiText(s: string): (r: string)
    ensures |r| == |s| && forall k :: 0 <= k < |s| ==> r[k] == LowerAscii(s[k])
  {
    seq(|s|, k requires 0 <= k < |s| => LowerAscii(s[k]))
  }

  /**
   * The lowered text keeps the length, holds no upper-case ASCII letter,
   * keeps every character that is not one, and lowering it again changes
   * nothing.
   */
  lemma LowerAsciiTextLowers(s: string)
    ensures var r := LowerAsciiText(s);
      && |r| == |s|
      && (forall k :: 0 <= k < |r| ==> !('A' <= r[k] <= 'Z'))
      && (forall k :: 0 <= k < |s| && !('A' <= s[k] <= 'Z') ==> r[k] == s[k])
      && LowerAsciiText(r) == r
  {
  }

  /** `s.indexOf(w)`: the first index at or after `from` where `w` occurs, or -1. */
  function IndexOf(s: string, w: string, from: nat): (r: int)
    requires from <= |s|
    ensures r == -1 || from <= r <= |s|
    ensures r >= 0 ==> TextPatch.StartsWithAt(s, r, w)
    ensures forall j :: from <= j <= |s| && (r == -1 || j < r) ==> !TextPatch.StartsWithAt(s, j, w)
    decreases |s| - from
  {
    if TextPatch.StartsWithAt(s, from, w) then from
    else if from == |s| then -1
    else IndexOf(s, w, from + 1)
  }

  /** Whether the eight characters of `v` at `i` spell `snapshot` in any mix of upper and lower case. */
  ghost predicate SnapshotAt(v: string, i: nat) {
    i + 8 <= |v| && LowerAsciiText(v[i..i + 8]) == "snapshot"
  }

  /** The search in the lowered text finds `snapshot` at `i` exactly when `v` spells it there. */
  lemma SnapshotAtIsOccurrence(v: string)
    ensures forall i :: 0 <= i <= |v| ==> (SnapshotAt(v, i) <==> TextPatch.StartsWithAt(LowerAsciiText(v), i, "snapshot"))
  {
    var l := LowerAsciiText(v);
    forall i | 0 <= i <= |v| ensures SnapshotAt(v, i) <==> TextPatch.StartsWithAt(l, i, "snapshot") {
      TextPatch.StartsWithAtIsOccurrence(l, i, "snapshot");
      if i + 8 <= |v| {
        assert LowerAsciiText(v[i..i + 8]) == l[i..i + 8];
      }
    }
  }

  /**
   * `currentVer.toLowerCase().indexOf('snapshot') !== -1`: the text contains
   * `snapshot` in any mix of upper and lower case.
   */
  predicate MentionsSnapshot(v: string) {
    IndexOf(LowerAsciiText(v), "snapshot", 0) != -1
  }

  /** The case-insensitive test holds exactly when `snapshot` occurs somewhere in the text, in any case. */
  lemma MentionsSnapshotOccurs(v: string)
    ensures MentionsSnapshot(v) <==> exists i :: 0 <= i <= |v| && SnapshotAt(v, i)
  {
    SnapshotAtIsOccurrence(v);
  }

  /** Upper-case `SNAPSHOT` at the end of a text is found by the case-insensitive test. */
  lemma EndsWithSnapshotMentionsIt(a: string)
    ensures MentionsSnapshot(a + "-SNAPSHOT")
  {
    var v := a + "-SNAPSHOT";
    var l := LowerAsciiText(v);
    var i := |a| + 1;
    forall k | 0 <= k < 8 ensures l[i + k] == "snapshot"[k] {
      assert v[i + k] == "SNAPSHOT"[k];
    }
    TextPatch.StartsWithAtIsOccurrence(l, i, "snapshot");
  }

  // ---------------------------------------------------------------------------
  // parseInt and the text of an integer

  function DigitValue(c: char): nat {
    if '0' <= c <= '9' then c as int - '0' as int
    else if 'a' <= c <= 'z' then c as int - 'a' as int + 10
    else if 'A' <= c <= 'Z' then c as int - 'A' as int + 10
    else 36
  }

  /** Whether `c` is a digit of the given radix. */
  predicate IsDigitOf(c: char, radix: nat) {
    DigitValue(c) < radix
  }

  /** The value of a run of digits of the given radix, most significant first. */
  function DigitsValue(s: string, radix: nat): (r: nat)
  {
    if s == [] then 0 else DigitsValue(s[..|s| - 1], radix) * radix + DigitValue(s[|s| - 1])
  }

  /** The length of the longest prefix of `s` made of digits of the given radix. */
  function DigitRun(s: string, radix: nat): (r: nat)
    ensures r <= |s|
    ensures forall k :: 0 <= k < r ==> IsDigitOf(s[k], radix)
    ensures r < |s| ==> !IsDigitOf(s[r], radix)
  {
    if s != [] && IsDigitOf(s[0], radix) then 1 + DigitRun(s[1..], radix) else 0
  }

  /** `s` with its leading `\s` characters removed, as `parseInt` trims it. */
  function TrimStart(s: string): (r: string)
    ensures |r| <= |s| && r == s[|s| - |r|..]
    ensures forall k :: 0 <= k < |s| - |r| ==> TextPatch.IsSpace(s[k])
    ensures r != [] ==> !TextPatch.IsSpace(r[0])
  {
    if s != [] && TextPatch.IsSpace(s[0]) then TrimStart(s[1..]) else s
  }

  /**
   * `parseInt(s)` with no radix: None stands for `NaN`. Leading white space is
   * skipped and one sign is read before the digits.
   */
  function ParseInt(s: string): (r: Option<int>)
    ensures TrimStart(s) == [] ==> r.None?
  {
    var t := TrimStart(s);
    if t != [] && t[0] == '-' then Negate(ParseUnsigned(t[1..]))
    else if t != [] && t[0] == '+' then ParseUnsigned(t[1..])
    else ParseUnsigned(t)
  }

  /**
   * `parseInt` gives a number only when the text holds a decimal digit, and a
   * text without `-` never gives a negative number.
   */
  lemma ParseIntNeedsDigit(s: string)
    ensures ParseInt(s).Some? ==> exists k :: 0 <= k < |s| && IsDigitOf(s[k], 10)
    ensures ParseInt(s).Some? && '-' !in s ==> ParseInt(s).value >= 0
  {
    var t := TrimStart(s);
    if t != [] && (t[0] == '-' || t[0] == '+') {
      UnsignedHasDigit(t[1..]);
      if ParseUnsigned(t[1..]).Some? {
        assert t[1..][0] == s[|s| - |t| + 1];
      }
      assert t[0] == s[|s| - |t|];
    } else {
      UnsignedHasDigit(t);
      if ParseUnsigned(t).Some? {
        assert t[0] == s[|s| - |t|];
      }
    }
  }

  /** The unsigned part of `parseInt` gives a number only when its text starts with a decimal digit. */
  lemma UnsignedHasDigit(u: string)
    ensures ParseUnsigned(u).Some? ==> u != [] && IsDigitOf(u[0], 10)
  {
  }

  /** The negated value; `-NaN` is `NaN`. */
  function Negate(m: Option<nat>): Option<int> {
    match m
    case None => None
    case Some(v) => Some(-(v as int))
  }

  /**
   * The unsigned part of `parseInt`: a `0x`/`0X` prefix switches to radix 16,
   * and the longest run of digits that follows is the value; no digit at all
   * is `NaN`.
   */
  function ParseUnsigned(u: string): (r: Option<nat>)
  {
    if |u| >= 2 && u[0] == '0' && (u[1] == 'x' || u[1] == 'X') then ParseDigits(u[2..], 16)
    else ParseDigits(u, 10)
  }

  /** The value of the longest run of digits of the given radix at the front of `w`, None when there is none. */
  function ParseDigits(w: string, radix: nat): (r: Option<nat>)
  {
    var n := DigitRun(w, radix);
    if n == 0 then None else Some(DigitsValue(w[..n], radix))
  }

  /** The decimal digit for `d`. */
  function DigitChar(d: nat): (c: char)
    requires d < 10
    ensures '0' <= c <= '9' && DigitValue(c) == d
  {
    ('0' as int + d) as char
  }

  /** The decimal text of a natural number, without leading zeros. */
  function NatToString(n: nat): (r: string)
    ensures |r| >= 1 && forall k :: 0 <= k < |r| ==> '0' <= r[k] <= '9'
    ensures |r| > 1 ==> r[0] != '0'
  {
    if n < 10 then [DigitChar(n)] else NatToString(n / 10) + [DigitChar(n % 10)]
  }

  /** `String(n)` for an integer. */
  function IntToString(n: int): (r: string)
    ensures |r| >= 1
    ensures forall k :: 0 <= k < |r| ==> r[k] == '-' || '0' <= r[k] <= '9'
    ensures '-' in r <==> n < 0
  {
    if n < 0 then "-" + NatToString(-n) else NatToString(n)
  }

  /** The decimal digits of a natural number read back as that number. */
  lemma {:induction false} NatToStringValue(n: nat)
    ensures DigitsValue(NatToString(n), 10) == n
  {
    if n >= 10 {
      NatToStringValue(n / 10);
      var r := NatToString(n);
      assert r[..|r| - 1] == NatToString(n / 10);
    }
  }

  /** `parseInt` trims nothing from a text that starts with something other than `\s`. */
  lemma TrimStartKeeps(s: string)
    requires s != [] && !TextPatch.IsSpace(s[0])
    ensures TrimStart(s) == s
  {
  }

  /** `parseInt` reads an unsigned run of decimal digits as its decimal value. */
  lemma ParseDecimal(y: string)
    requires IsNumericField(y)
    ensures ParseInt(y) == Some(DigitsValue(y, 10))
  {
    TrimStartKeeps(y);
    ParseUnsignedDecimal(y);
  }

  /** The unsigned part of `parseInt` reads a run of decimal digits as its decimal value. */
  lemma ParseUnsignedDecimal(y: string)
    requires IsNumericField(y)
    ensures ParseUnsigned(y) == Some(DigitsValue(y, 10))
  {
    DigitRunOfDigits(y, 10);
    assert y[..|y|] == y;
  }

  /** After a leading minus sign, `parseInt` negates what the unsigned part reads. */
  lemma ParseMinus(t: string)
    requires t != [] && t[0] == '-' && TrimStart(t) == t
    ensures ParseInt(t) == Negate(ParseUnsigned(t[1..]))
  {
  }

  /** `parseInt` reads a minus sign followed by decimal digits as the negated value. */
  lemma ParseNegative(s: string)
    requires s != [] && s[0] == '-' && IsNumericField(s[1..])
    ensures ParseInt(s) == Some(-(DigitsValue(s[1..], 10) as int))
  {
    TrimStartKeeps(s);
    ParseMinus(s);
    ParseUnsignedDecimal(s[1..]);
  }

  /** `parseInt` inverts `String` on integers. */
  lemma ParseIntToString(n: int)
    ensures ParseInt(IntToString(n)) == Some(n)
  {
    var m: nat := if n < 0 then -n else n;
    NatToStringValue(m);
    if n < 0 {
      var s := IntToString(n);
      assert s[1..] == NatToString(m);
      ParseNegative(s);
    } else {
      ParseDecimal(NatToString(m));
    }
  }

  /** A text made only of digits is one run of digits. */
  lemma {:induction false} DigitRunOfDigits(y: string, radix: nat)
    requires forall k :: 0 <= k < |y| ==> IsDigitOf(y[k], radix)
    ensures DigitRun(y, radix) == |y|
  {
    if y != [] {
      DigitRunOfDigits(y[1..], radix);
    }
  }

  // ---------------------------------------------------------------------------
  // the workspace slug

  /**
   * The slug text of one character: `c.toLowerCase()` followed by the
   * replacement of every UTF-16 code unit outside `[a-z0-9]` with `-`.
   */
  function SlugOf(c: char): (r: string)
    ensures 1 <= |r| <= 2
  {
    if 'A' <= c <= 'Z' then [LowerAscii(c)]
    else if 'a' <= c <= 'z' || '0' <= c <= '9' then [c]
    else if c == '\U{212A}' then "k"       // KELVIN SIGN lower-cases to `k`
    else if c == '\U{0130}' then "i-"      // lower-cases to `i` and a combining dot
    else if c as int >= 0x1_0000 then "--" // two UTF-16 code units
    else "-"
  }

  /** Whether `c` may appear in a slug: `[a-z0-9]` or `-`. */
  predicate IsSlugChar(c: char) {
    'a' <= c <= 'z' || '0' <= c <= '9' || c == '-'
  }

  /** `name.toLowerCase().replace(/[^a-z0-9]/g, '-')`. */
  function Slugify(name: string): (r: string)
    ensures forall k :: 0 <= k < |r| ==> IsSlugChar(r[k])
    ensures |r| >= |name|
  {
    if name == [] then "" else SlugOf(name[0]) + Slugify(name[1..])
  }

  /** Whether a character lower-cases to one UTF-16 code unit: it keeps its place in the slug. */
  predicate KeepsWidth(c: char) {
    c != '\U{0130}' && (c as int) < 0x1_0000
  }

  /** Each character of a name without the exceptions of KeepsWidth gives one slug character. */
  lemma {:induction false} SlugifyLength(name: string)
    requires forall k :: 0 <= k < |name| ==> KeepsWidth(name[k])
    ensures |Slugify(name)| == |name|
  {
    if name != [] {
      SlugifyLength(name[1..]);
    }
  }

  /** Characters allowed in a slug pass through unchanged: slugifying a slug changes nothing. */
  lemma {:induction false} SlugifyIdempotent(name: string)
    ensures Slugify(Slugify(name)) == Slugify(name)
  {
    if name != [] {
      SlugifyIdempotent(name[1..]);
      SlugifyOfSlugText(SlugOf(name[0]) + Slugify(name[1..]));
    }
  }

  /** Slugify is the identity on slug characters. */
  lemma {:induction false} SlugifyOfSlugText(s: string)
    requires forall k :: 0 <= k < |s| ==> IsSlugChar(s[k])
    ensures Slugify(s) == s
  {
    if s != [] {
      SlugifyOfSlugText(s[1..]);
      assert [s[0]] + s[1..] == s;
    }
  }

  /** Lower-case first, then turn anything outside `[a-z0-9]` into `-`: the slug rule for one ASCII character. */
  function AsciiSlugChar(c: char): char {
    var l := LowerAscii(c);
    if 'a' <= l <= 'z' || '0' <= l <= '9' then l else '-'
  }

  /** On ASCII text the slug is the character-by-character slug rule, and as long as the name. */
  lemma {:induction false} SlugifyAscii(name: string)
    requires forall k :: 0 <= k < |name| ==> name[k] < '\U{0080}'
    ensures |Slugify(name)| == |name|
    ensures forall k :: 0 <= k < |name| ==> Slugify(name)[k] == AsciiSlugChar(name[k])
  {
    if name != [] {
      SlugifyAscii(name[1..]);
      var r := Slugify(name);
      assert r == [AsciiSlugChar(name[0])] + Slugify(name[1..]);
      forall k | 0 <= k < |name| ensures r[k] == AsciiSlugChar(name[k]) {
        if k > 0 {
          assert r[k] == Slugify(name[1..])[k - 1];
          assert name[1..][k - 1] == name[k];
        }
      }
    }
  }

  /**
   * The workspace part of a snapshot version: empty without the workspace
   * flag, otherwise `-` and the slug of the current workspace's name, which
   * falls back to `default` when unset.
   */
  function WorkspaceSlug(includeWorkspace: bool, currentWorkspace: string): (r: string)
    ensures !includeWorkspace ==> r == ""
    ensures includeWorkspace ==> |r| >= 2 && r[0] == '-' && forall k :: 0 <= k < |r| ==> IsSlugChar(r[k])
  {
    if !includeWorkspace then ""
    else
      var name := if currentWorkspace == "" then WorkspaceStore.DefaultWorkspace else currentWorkspace;
      "-" + Slugify(name)
  }

  /**
   * With the workspace flag and an ASCII name, the slug is `-` followed by the
   * name with every character passed through the slug rule: one character
   * longer than the name.
   */
  lemma AsciiWorkspaceSlug(currentWorkspace: string)
    requires currentWorkspace != []
    requires forall k :: 0 <= k < |currentWorkspace| ==> currentWorkspace[k] < '\U{0080}'
    ensures var r := WorkspaceSlug(true, currentWorkspace);
      && |r| == |currentWorkspace| + 1 && r[0] == '-'
      && forall k :: 0 <= k < |currentWorkspace| ==> r[k + 1] == AsciiSlugChar(currentWorkspace[k])
  {
    SlugifyAscii(currentWorkspace);
  }

  // ---------------------------------------------------------------------------
  // the derivation

  /** `${parseInt(field) + 1}` for the minor field, `undefined` when the version has no second field. */
  function BumpMinor(field: Option<string>): (r: string)
    ensures field.None? || ParseInt(field.value).None? ==> r == "NaN"
    ensures field.Some? && ParseInt(field.value).Some? ==> r != "NaN" && |r| >= 1
  {
    if field.Some? && ParseInt(field.value).Some? then
      IntToString(ParseInt(field.value).value + 1)
    else
      "NaN"
  }

  /** The bumped field reads back, through `parseInt`, as the field's number plus one. */
  lemma BumpMinorReadsBack(field: string)
    requires ParseInt(field).Some?
    ensures ParseInt(BumpMinor(Some(field))) == Some(ParseInt(field).value + 1)
  {
    ParseIntToString(ParseInt(field).value + 1);
  }

  /**
   * The part of the new version before `-<gitHash>`: a version without
   * "snapshot" becomes `X.(Y+1).0` from its fields before the first `-`; a
   * version that already mentions "snapshot" keeps its text before the first
   * `-`. Neither contains a `-`.
   */
  function VersionCore(currentVer: string): (r: string)
    ensures '-' !in r
  {
    var core := Split(currentVer, '-')[0];
    if !MentionsSnapshot(currentVer) then
      var fields := Split(core, '.');
      var minor := if |fields| >= 2 then Some(fields[1]) else None;
      var bumped := BumpMinor(minor);
      SplitKeepsOut(core, '.', '-');
      BumpMinorUnsigned(minor);
      fields[0] + "." + bumped + ".0"
    else
      core
  }

  /** The new version: its core, the revision, the workspace slug and `-SNAPSHOT`. */
  function DeriveVersion(currentVer: string, gitHash: string, slug: string): (r: string)
    ensures var tail := "-" + gitHash + slug + "-SNAPSHOT";
      |tail| <= |r| && r[|r| - |tail|..] == tail && '-' !in r[..|r| - |tail|]
  {
    var c := VersionCore(currentVer);
    var tail := "-" + gitHash + slug + "-SNAPSHOT";
    assert c + "-" + gitHash + slug + "-SNAPSHOT" == c + tail;
    assert (c + tail)[..|c|] == c;
    c + "-" + gitHash + slug + "-SNAPSHOT"
  }

  /** The package.json text `createSnapshot` writes back. */
  function CreateSnapshot(jsonStr: string, currentVer: string, gitHash: string,
                          includeWorkspace: bool, currentWorkspace: string): (r: string)
    ensures TextPatch.FirstMatch(jsonStr, "version", 0).None? ==> r == jsonStr
    ensures '"' !in currentVer && '"' !in gitHash && TextPatch.FirstMatch(jsonStr, "version", 0).Some? ==>
      TextPatch.FirstValue(r, "version") == Some(DeriveVersion(currentVer, gitHash, WorkspaceSlug(includeWorkspace, currentWorkspace)))
  {
    var v := DeriveVersion(currentVer, gitHash, WorkspaceSlug(includeWorkspace, currentWorkspace));
    if '"' !in currentVer && '"' !in gitHash then
      NoQuoteInDerived(currentVer, gitHash, WorkspaceSlug(includeWorkspace, currentWorkspace));
      TextPatch.PatchVersion(jsonStr, v)
    else
      TextPatch.PatchVersion(jsonStr, v)
  }

  /** The minor field of a dash-free core carries no sign, so its bump is never negative. */
  lemma BumpMinorUnsigned(minor: Option<string>)
    requires minor.Some? ==> '-' !in minor.value
    ensures '-' !in BumpMinor(minor)
  {
  }

  /** The bumped minor field holds no quote. */
  lemma BumpMinorQuoteFree(minor: Option<string>)
    ensures '"' !in BumpMinor(minor)
  {
    if minor.Some? && ParseInt(minor.value).Some? {
      var r := IntToString(ParseInt(minor.value).value + 1);
      forall k | 0 <= k < |r| ensures r[k] != '"' {
      }
    }
  }

  /** A run of decimal digits: a numeric field of `X.Y.Z`. */
  predicate IsNumericField(y: string) {
    y != [] && forall k :: 0 <= k < |y| ==> '0' <= y[k] <= '9'
  }

  /** The text before the first `-` of `x.y<rest>`, when `rest` is empty or starts with `.` or `-`. */
  lemma {:induction false} DashCoreOfFresh(x: string, y: string, rest: string) returns (r0: string)
    requires '-' !in x && '-' !in y
    requires rest == [] || rest[0] == '.' || rest[0] == '-'
    ensures Split(x + "." + y + rest, '-')[0] == x + "." + y + r0
    ensures r0 == [] || r0[0] == '.'
  {
    r0 := Split(rest, '-')[0];
    assert x + "." + y + rest == (x + "." + y) + rest;
    SplitFirstPiece(x + "." + y, rest, '-');
    FirstPieceIsPrefix(rest, '-');
    if rest != [] && rest[0] == '-' {
      assert Split(rest, '-') == [""] + Split(rest[1..], '-');
    } else if r0 != [] {
      assert r0[0] == rest[0];
    }
  }

  /** The `.`-fields of `x.y<r0>`, when `r0` is empty or starts with `.`: `x` first and `y` second. */
  lemma {:induction false} DotFieldsOfFresh(x: string, y: string, r0: string)
    requires '.' !in x && '.' !in y
    requires r0 == [] || r0[0] == '.'
    ensures var fields := Split(x + "." + y + r0, '.');
      |fields| >= 2 && fields[0] == x && fields[1] == y
  {
    assert x + "." + y + r0 == x + ['.'] + (y + r0);
    SplitAtSeparator(x, y + r0, '.');
    SplitFirstPiece(y, r0, '.');
    if r0 != [] {
      assert Split(r0, '.') == [""] + Split(r0[1..], '.');
    }
    assert y + "" == y;
  }

  /** A non-negative integer prints as its natural-number text. */
  lemma NonNegativeToString(n: nat)
    ensures IntToString(n) == NatToString(n)
  {
  }

  /** A minor field that `parseInt` reads as `n` is bumped to the text of `n + 1`. */
  lemma BumpParsed(field: string, n: int)
    requires ParseInt(field) == Some(n)
    ensures BumpMinor(Some(field)) == IntToString(n + 1)
  {
  }

  /** A minor field that `parseInt` reads as a natural number `n` is bumped to the decimal text of `n + 1`. */
  lemma BumpNatural(field: string, n: nat)
    requires ParseInt(field) == Some(n)
    ensures BumpMinor(Some(field)) == NatToString(n + 1)
  {
    BumpParsed(field, n);
    NonNegativeToString(n + 1);
  }

  /** A decimal minor field is bumped to the decimal text of its successor. */
  lemma BumpDecimal(y: string)
    requires IsNumericField(y)
    ensures BumpMinor(Some(y)) == NatToString(DigitsValue(y, 10) + 1)
  {
    ParseDecimal(y);
    BumpNatural(y, DigitsValue(y, 10));
  }

  /**
   * A fresh version `X.Y<rest>`, where `<rest>` is empty or starts with `.` or
   * `-` (`.Z`, `.Z-pre`, `-pre`), becomes `X.(Y+1).0-<hash><slug>-SNAPSHOT`:
   * the minor field is bumped, the patch field reset and the pre-release tag
   * dropped.
   */
  lemma FreshVersionBumpsMinor(x: string, y: string, rest: string, gitHash: string, slug: string)
    requires '.' !in x && '-' !in x && IsNumericField(y)
    requires rest == [] || rest[0] == '.' || rest[0] == '-'
    requires !MentionsSnapshot(x + "." + y + rest)
    ensures DeriveVersion(x + "." + y + rest, gitHash, slug)
         == x + "." + NatToString(DigitsValue(y, 10) + 1) + ".0-" + gitHash + slug + "-SNAPSHOT"
  {
    var v := x + "." + y + rest;
    var n := NatToString(DigitsValue(y, 10) + 1);
    FreshCore(x, y, rest);
    assert VersionCore(v) + "-" == x + "." + n + ".0-";
  }

  /** The core of a fresh version `X.Y<rest>` is `X.(Y+1).0`. */
  lemma FreshCore(x: string, y: string, rest: string)
    requires '.' !in x && '-' !in x && IsNumericField(y)
    requires rest == [] || rest[0] == '.' || rest[0] == '-'
    requires !MentionsSnapshot(x + "." + y + rest)
    ensures VersionCore(x + "." + y + rest) == x + "." + NatToString(DigitsValue(y, 10) + 1) + ".0"
  {
    var v := x + "." + y + rest;
    var core := Split(v, '-')[0];
    var fields := Split(core, '.');
    assert |fields| >= 2 && fields[0] == x && fields[1] == y by {
      assert '-' !in y && '.' !in y;
      var r0 := DashCoreOfFresh(x, y, rest);
      DotFieldsOfFresh(x, y, r0);
    }
    assert VersionCore(v) == x + "." + BumpMinor(Some(y)) + ".0";
    BumpDecimal(y);
  }

  /** A version that already mentions "snapshot" keeps its text before the first `-`. */
  lemma ExistingSnapshotKeepsCore(core: string, rest: string, gitHash: string, slug: string)
    requires '-' !in core
    requires rest == [] || rest[0] == '-'
    requires MentionsSnapshot(core + rest)
    ensures DeriveVersion(core + rest, gitHash, slug) == core + "-" + gitHash + slug + "-SNAPSHOT"
  {
    SplitFirstPiece(core, rest, '-');
    if rest != [] {
      assert Split(rest, '-') == [""] + Split(rest[1..], '-');
    }
    assert core + "" == core;
  }

  /** Every derived version ends in `-<gitHash><slug>-SNAPSHOT` and so mentions "snapshot". */
  lemma DerivedVersionShape(currentVer: string, gitHash: string, slug: string)
    ensures var r := DeriveVersion(currentVer, gitHash, slug);
      var tail := "-" + gitHash + slug + "-SNAPSHOT";
      |tail| <= |r| && r[|r| - |tail|..] == tail && MentionsSnapshot(r)
  {
    var a := VersionCore(currentVer) + "-" + gitHash + slug;
    assert DeriveVersion(currentVer, gitHash, slug) == a + "-SNAPSHOT";
    EndsWithSnapshotMentionsIt(a);
  }

  /**
   * Deriving again from a derived version replaces only the revision and the
   * slug: the core computed by the first derivation is kept.
   */
  lemma RederiveSwapsRevision(currentVer: string, hash1: string, slug1: string, hash2: string, slug2: string)
    ensures DeriveVersion(DeriveVersion(currentVer, hash1, slug1), hash2, slug2)
         == DeriveVersion(currentVer, hash2, slug2)
  {
    var c := VersionCore(currentVer);
    var tail := "-" + hash1 + slug1 + "-SNAPSHOT";
    assert DeriveVersion(currentVer, hash1, slug1) == c + tail;
    DerivedVersionShape(currentVer, hash1, slug1);
    ExistingSnapshotKeepsCore(c, tail, hash2, slug2);
  }

  /** A derived version is built from quote-free parts only. */
  lemma NoQuoteInDerived(currentVer: string, gitHash: string, slug: string)
    requires '"' !in currentVer && '"' !in gitHash
    requires forall k :: 0 <= k < |slug| ==> IsSlugChar(slug[k])
    ensures '"' !in DeriveVersion(currentVer, gitHash, slug)
  {
    CoreQuoteFree(currentVer);
    forall k | 0 <= k < |slug| ensures slug[k] != '"' {
      assert IsSlugChar(slug[k]);
    }
  }

  /** The core of the new version holds no quote when the current version holds none. */
  lemma CoreQuoteFree(currentVer: string)
    requires '"' !in currentVer
    ensures '"' !in VersionCore(currentVer)
  {
    SplitKeepsOut(currentVer, '-', '"');
    var core := Split(currentVer, '-')[0];
    if !MentionsSnapshot(currentVer) {
      SplitKeepsOut(core, '.', '"');
      var fields := Split(core, '.');
      BumpMinorQuoteFree(if |fields| >= 2 then Some(fields[1]) else None);
    }
  }

  /** A character absent from a text is absent from every piece of its split. */
  lemma {:induction false} SplitKeepsOut(s: string, sep: char, c: char)
    requires c !in s
    ensures forall k :: 0 <= k < |Split(s, sep)| ==> c !in Split(s, sep)[k]
  {
    if s != [] {
      SplitKeepsOut(s[1..], sep, c);
    }
  }

  /** A version without the letter `s` in either case cannot mention "snapshot". */
  lemma WithoutLetterSNoSnapshot(v: string)
    requires forall k :: 0 <= k < |v| ==> v[k] != 's' && v[k] != 'S'
    ensures !MentionsSnapshot(v)
  {
    var l := LowerAsciiText(v);
    forall j | 0 <= j <= |l| ensures !TextPatch.StartsWithAt(l, j, "snapshot") {
      TextPatch.StartsWithAtIsOccurrence(l, j, "snapshot");
      if j < |l| {
        assert l[j] == LowerAscii(v[j]);
      }
    }
  }
}

