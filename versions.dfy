/** Version normalisation: the two suffix-stripping rules of the diff script
    (`core_rosbuild_version`, `core_debian_version`), their composition
    `core_version`, and the policy `is_substantial_version_change` built on it.

    Each rule is a `re.sub` whose pattern begins with a greedy, unanchored
    `(.*)` and whose replacement keeps only that group. Within one line the
    greedy group backtracks to the LAST place where the rest of the pattern
    matches, so the rule deletes the last occurrence of the suffix and keeps the
    text before and after it; the scan then resumes after the match, where no
    further occurrence can start. `.` does not match a newline and no other part
    of either pattern can, so every line is rewritten separately (`MapLines`). */
module VersionNormalizer {
  import opened Wrappers
  import opened Strings

  /** Length of `-s` + ten digits + `~`, the fixed part of the rosbuild suffix. */
  const RosbuildHeadLength: nat := 13

  /** The fixed part of `-s\d{10}~\w*` starts at index `i`. */
  predicate RosbuildHeadAt(s: string, i: nat) {
    i + RosbuildHeadLength <= |s| && s[i] == '-' && s[i + 1] == 's' &&
    DigitsAt(s, i + 2, 10) && s[i + 12] == '~'
  }

  /** `s` contains `-s\d{10}~` somewhere. */
  ghost predicate HasRosbuildSuffix(s: string) {
    exists i: nat :: RosbuildHeadAt(s, i)
  }

  /** Where the greedy `\w*` starting at `j` stops. */
  function WordRunEnd(s: string, j: nat): (e: nat)
    requires j <= |s|
    ensures j <= e <= |s|
    ensures forall k :: j <= k < e ==> IsWordChar(s[k])
    ensures e == |s| || !IsWordChar(s[e])
    decreases |s| - j
  {
    if j == |s| || !IsWordChar(s[j]) then j else WordRunEnd(s, j + 1)
  }

  /** `re.sub("(.*)-s\d{10}~\w*", "\\1", line)` on a single line. */
  function StripRosbuildSuffix(line: string): string {
    match LastWhere(|line|, (i: nat) => RosbuildHeadAt(line, i))
    case None => line
    case Some(i) => line[..i] + line[WordRunEnd(line, i + RosbuildHeadLength)..]
  }

  /** `core_rosbuild_version`. */
  function CoreRosbuildVersion(version: string): string {
    MapLines(version, StripRosbuildSuffix)
  }

  /** The codenames the Debian rule knows, in the order of the regex alternation. */
  const Codenames: seq<string> := ["precise", "quantal", "saucy", "trusty"]

  /** Length of `-\d{8}-\d{4}-\+\d{4}`, the timestamp that follows a codename. */
  const StampLength: nat := 20

  /** `-\d{8}-\d{4}-\+\d{4}` starts at index `i`. */
  predicate StampAt(s: string, i: nat) {
    i + StampLength <= |s| && s[i] == '-' && DigitsAt(s, i + 1, 8) && s[i + 9] == '-' &&
    DigitsAt(s, i + 10, 4) && s[i + 14] == '-' && s[i + 15] == '+' && DigitsAt(s, i + 16, 4)
  }

  /** The length of the codename that `(precise|quantal|saucy|trusty)` picks at
      index `i` when a stamp must follow it: the first alternative, in order,
      for which the whole pattern matches. */
  function CodenameMatchAt(s: string, i: nat, names: seq<string>): Option<nat> {
    if names == [] then None
    else if WordAt(s, i, names[0]) && StampAt(s, i + |names[0]|) then Some(|names[0]|)
    else CodenameMatchAt(s, i, names[1..])
  }

  /** The alternation matches exactly when one of its alternatives, followed
      by a timestamp, does, and the length it reports is that of such an
      alternative. */
  lemma {:induction false} CodenameMatchAtSpec(s: string, i: nat, names: seq<string>)
    ensures var r := CodenameMatchAt(s, i, names);
      && (r.Some? ==> exists c :: c in names && |c| == r.value && WordAt(s, i, c) && StampAt(s, i + |c|))
      && (r.None? ==> forall c :: c in names ==> !(WordAt(s, i, c) && StampAt(s, i + |c|)))
  {
    if names != [] && !(WordAt(s, i, names[0]) && StampAt(s, i + |names[0]|)) {
      CodenameMatchAtSpec(s, i, names[1..]);
      var r := CodenameMatchAt(s, i, names);
      if r.Some? {
        var c :| c in names[1..] && |c| == r.value && WordAt(s, i, c) && StampAt(s, i + |c|);
        assert c in names;
      }
    }
  }

  /** `(precise|quantal|saucy|trusty)-\d{8}-\d{4}-\+\d{4}` matches at index `i`. */
  predicate DebianMatchAt(s: string, i: nat) {
    CodenameMatchAt(s, i, Codenames).Some?
  }

  /** A codename stamp starts at `i` exactly when one of the codenames, followed
      by a timestamp, does. */
  lemma DebianMatchAtIff(s: string, i: nat)
    ensures DebianMatchAt(s, i) <==> exists c :: c in Codenames && WordAt(s, i, c) && StampAt(s, i + |c|)
  {
    CodenameMatchAtSpec(s, i, Codenames);
  }

  /** `re.sub("(.*)(precise|quantal|saucy|trusty)-\d{8}-\d{4}-\+\d{4}", "\\1", line)`
      on a single line. */
  function StripDebianSuffix(line: string): string {
    match LastWhere(|line|, (i: nat) => DebianMatchAt(line, i))
    case None => line
    case Some(i) =>
      CodenameMatchAtSpec(line, i, Codenames);
      line[..i] + line[i + CodenameMatchAt(line, i, Codenames).value + StampLength..]
  }

  /** `core_debian_version`. */
  function CoreDebianVersion(version: string): string {
    MapLines(version, StripDebianSuffix)
  }

  /** `core_version`: the rosbuild rule first, then the Debian rule on its result. */
  function CoreVersion(version: string): string {
    CoreDebianVersion(CoreRosbuildVersion(version))
  }

  /** `is_substantial_version_change`. */
  predicate IsSubstantialVersionChange(v1: string, v2: string) {
    CoreVersion(v1) != CoreVersion(v2)
  }


  /** The four codenames of the Debian rule are made of lower-case ASCII letters only. */
  lemma CodenamesAreLowercase()
    ensures forall c, k :: c in Codenames && 0 <= k < |c| ==> 'a' <= c[k] <= 'z'
  {
  }

  /** No codename ends another one, so a stamp is preceded by one codename at most. */
  lemma CodenamesSuffixFree()
    ensures forall c1, c2, o: nat :: c1 in Codenames && c2 in Codenames && 0 < o && o + |c2| == |c1| ==> !WordAt(c1, o, c2)
  {
    forall c1, c2, o: nat | c1 in Codenames && c2 in Codenames && 0 < o && o + |c2| == |c1|
      ensures !WordAt(c1, o, c2)
    {
      var k := |c2| - 2;
      assert c1[o + k] != c2[k];
    }
  }

  /** A line without `-s\d{10}~` is left alone by the rosbuild rule. */
  lemma StripRosbuildSuffixUnchanged(line: string)
    requires !HasRosbuildSuffix(line)
    ensures StripRosbuildSuffix(line) == line
  {
    var p := (i: nat) => RosbuildHeadAt(line, i);
    assert forall i: nat :: i < |line| ==> !p(i);
  }

  /** Cutting a string never creates a rosbuild suffix. */
  lemma NoRosbuildSuffixInPieces(t: string, k: nat)
    requires !HasRosbuildSuffix(t) && k < |t|
    ensures !HasRosbuildSuffix(t[..k]) && !HasRosbuildSuffix(t[k + 1..])
  {
    var u := t[..k];
    forall i: nat | RosbuildHeadAt(u, i) ensures false {
      assert RosbuildHeadAt(t, i);
    }
    var w := t[k + 1..];
    forall i: nat | RosbuildHeadAt(w, i) ensures false {
      assert forall j :: 0 <= j < |w| ==> w[j] == t[k + 1 + j];
      assert RosbuildHeadAt(t, k + 1 + i);
    }
  }

  /** A version containing no `-s\d{10}~` is returned unchanged by `core_rosbuild_version`. */
  lemma CoreRosbuildVersionUnchanged(version: string)
    requires !HasRosbuildSuffix(version)
    ensures CoreRosbuildVersion(version) == version
  {
    var q := (t: string) => !HasRosbuildSuffix(t);
    forall t: string, k: nat | q(t) && k < |t| ensures q(t[..k]) && q(t[k + 1..]) {
      NoRosbuildSuffixInPieces(t, k);
    }
    forall t: string | q(t) && '\n' !in t ensures StripRosbuildSuffix(t) == t {
      StripRosbuildSuffixUnchanged(t);
    }
    MapLinesFixed(version, StripRosbuildSuffix, q);
  }

  /** `s` contains a Debian codename stamp somewhere. */
  ghost predicate HasDebianSuffix(s: string) {
    exists i: nat :: DebianMatchAt(s, i)
  }

  /** A line without a codename stamp is left alone by the Debian rule. */
  lemma StripDebianSuffixUnchanged(line: string)
    requires !HasDebianSuffix(line)
    ensures StripDebianSuffix(line) == line
  {
    var p := (i: nat) => DebianMatchAt(line, i);
    assert forall i: nat :: i < |line| ==> !p(i);
  }

  /** A timestamp inside a piece of `t` is a timestamp of `t`. */
  lemma StampAtPiece(t: string, u: string, a: nat, i: nat)
    requires WordAt(t, a, u) && StampAt(u, i)
    ensures StampAt(t, a + i)
  {
    DigitsAtPiece(t, u, a, i + 1, 8);
    DigitsAtPiece(t, u, a, i + 10, 4);
    DigitsAtPiece(t, u, a, i + 16, 4);
  }

  /** Where some alternative matches inside a piece of `t`, one matches at
      the same place of `t`. */
  lemma {:induction false} CodenameMatchInPiece(t: string, u: string, a: nat, i: nat, names: seq<string>)
    requires WordAt(t, a, u)
    requires CodenameMatchAt(u, i, names).Some?
    ensures CodenameMatchAt(t, a + i, names).Some?
  {
    var c := names[0];
    if WordAt(u, i, c) && StampAt(u, i + |c|) {
      forall k | 0 <= k < |c| ensures t[a + i + k] == c[k] {
        assert u[i + k] == c[k];
      }
      StampAtPiece(t, u, a, i + |c|);
      assert WordAt(t, a + i, c) && StampAt(t, a + i + |c|);
    } else {
      CodenameMatchInPiece(t, u, a, i, names[1..]);
    }
  }

  /** A codename stamp inside a piece of `t` is a codename stamp of `t`. */
  lemma DebianMatchInPiece(t: string, u: string, a: nat, i: nat)
    requires WordAt(t, a, u)
    requires DebianMatchAt(u, i)
    ensures DebianMatchAt(t, a + i)
  {
    CodenameMatchInPiece(t, u, a, i, Codenames);
  }

  /** Cutting a string never creates a codename stamp. */
  lemma NoDebianSuffixInPieces(t: string, k: nat)
    requires !HasDebianSuffix(t) && k < |t|
    ensures !HasDebianSuffix(t[..k]) && !HasDebianSuffix(t[k + 1..])
  {
    var u := t[..k];
    forall i: nat | DebianMatchAt(u, i) ensures false {
      DebianMatchInPiece(t, u, 0, i);
    }
    var w := t[k + 1..];
    forall i: nat | DebianMatchAt(w, i) ensures false {
      DebianMatchInPiece(t, w, k + 1, i);
    }
  }

  /** A version containing no codename stamp is returned unchanged by `core_debian_version`. */
  lemma CoreDebianVersionUnchanged(version: string)
    requires !HasDebianSuffix(version)
    ensures CoreDebianVersion(version) == version
  {
    var q := (t: string) => !HasDebianSuffix(t);
    forall t: string, k: nat | q(t) && k < |t| ensures q(t[..k]) && q(t[k + 1..]) {
      NoDebianSuffixInPieces(t, k);
    }
    forall t: string | q(t) && '\n' !in t ensures StripDebianSuffix(t) == t {
      StripDebianSuffixUnchanged(t);
    }
    MapLinesFixed(version, StripDebianSuffix, q);
  }

  /** A version containing neither suffix pattern is its own core version. */
  lemma CoreVersionUnchanged(version: string)
    requires !HasRosbuildSuffix(version) && !HasDebianSuffix(version)
    ensures CoreVersion(version) == version
  {
    CoreRosbuildVersionUnchanged(version);
    CoreDebianVersionUnchanged(version);
  }

  /** A single-line version ending in `-s` + ten digits + `~` + word characters
      loses exactly that tail, whatever precedes it. */
  lemma RosbuildTimestampStripped(prefix: string, stamp: string, tag: string)
    requires '\n' !in prefix
    requires |stamp| == 10 && DigitsAt(stamp, 0, 10) && AllWordChars(tag)
    ensures CoreRosbuildVersion(prefix + "-s" + stamp + "~" + tag) == prefix
  {
    var s := prefix + "-s" + stamp + "~" + tag;
    var n := |prefix|;
    assert '\n' !in s by {
      assert forall k :: 0 <= k < n ==> s[k] == prefix[k];
      assert forall k :: n + 2 <= k < n + 12 ==> s[k] == stamp[k - n - 2];
      assert forall k :: n + 13 <= k < |s| ==> s[k] == tag[k - n - 13];
    }
    MapLinesOneLine(s, StripRosbuildSuffix);
    assert s == prefix + "-s" + stamp + "~" + tag + [];
    StripRosbuildSuffixOfMatch(prefix, stamp, tag, []);
    assert prefix + [] == prefix;
  }

  /** In `x`, a rosbuild head and tag `w`, and a text `y` without a head,
      the head after `x` is the last one. */
  lemma LastRosbuildHead(x: string, d: string, w: string, y: string)
    requires |d| == 10 && DigitsAt(d, 0, 10) && AllWordChars(w)
    requires !HasRosbuildSuffix(y)
    ensures var s := x + "-s" + d + "~" + w + y;
      RosbuildHeadAt(s, |x|) && forall j: nat :: |x| < j < |s| ==> !RosbuildHeadAt(s, j)
  {
    var s := x + "-s" + d + "~" + w + y;
    var n := |x|;
    var m := n + RosbuildHeadLength + |w|;
    assert forall k :: n + 2 <= k < n + 12 ==> s[k] == d[k - n - 2];
    assert forall k :: n + 13 <= k < m ==> s[k] == w[k - n - 13];
    assert WordAt(s, m, y) by {
      assert forall k :: 0 <= k < |y| ==> s[m + k] == y[k];
    }
    forall j: nat | n < j < |s| ensures !RosbuildHeadAt(s, j) {
      if j < m {
        if n + 13 <= j { assert IsWordChar(w[j - n - 13]); }
        assert s[j] != '-';
      } else {
        assert !RosbuildHeadAt(y, j - m);
        if j + RosbuildHeadLength <= |s| {
          DigitsAtPiece(s, y, m, j - m + 2, 10);
        }
      }
    }
  }

  /** The rosbuild rule on one line: when the last `-s\d{10}~` is followed by
      the word characters `w` and then by text `y` that starts with no word
      character, the head and `w` go and the text before and after is kept. */
  lemma StripRosbuildSuffixOfMatch(x: string, d: string, w: string, y: string)
    requires |d| == 10 && DigitsAt(d, 0, 10) && AllWordChars(w)
    requires y == [] || !IsWordChar(y[0])
    requires !HasRosbuildSuffix(y)
    ensures StripRosbuildSuffix(x + "-s" + d + "~" + w + y) == x + y
  {
    var s := x + "-s" + d + "~" + w + y;
    var n := |x|;
    var m := n + RosbuildHeadLength + |w|;
    LastRosbuildHead(x, d, w, y);
    LastWhereIs(|s|, (i: nat) => RosbuildHeadAt(s, i), n);
    assert forall k :: n + 13 <= k < m ==> s[k] == w[k - n - 13];
    assert s[m..] == y;
    WordRunEndAt(s, n + RosbuildHeadLength, m);
    assert s[..n] == x;
  }

  /** The greedy `\w*` from `j` stops at `m` when everything in between is a
      word character and `m` is the end or holds no word character. */
  lemma {:induction false} WordRunEndAt(s: string, j: nat, m: nat)
    requires j <= m <= |s|
    requires forall k :: j <= k < m ==> IsWordChar(s[k])
    requires m == |s| || !IsWordChar(s[m])
    ensures WordRunEnd(s, j) == m
    decreases m - j
  {
    if j < m {
      WordRunEndAt(s, j + 1, m);
    }
  }

  /** The instance of the rule in which text follows the tag. */
  lemma RosbuildTagFollowedExample()
    ensures StripRosbuildSuffix("1.0-s1234567890~trusty.1") == "1.0.1"
  {
    var d, w, y := "1234567890", "trusty", ".1";
    assert DigitsAt(d, 0, 10);
    assert AllWordChars(w);
    forall i: nat | RosbuildHeadAt(y, i) ensures false {
    }
    assert "1.0-s1234567890~trusty.1" == "1.0" + "-s" + d + "~" + w + y;
    StripRosbuildSuffixOfMatch("1.0", d, w, y);
  }

  /** Versions that differ only in the rosbuild timestamp and the tag after it,
      such as `1.2.3-s1234567890~trusty` and `1.2.3-s9999999999~trusty`, are
      not a substantial change. */
  lemma TimestampOnlyChangeNotSubstantial(prefix: string, stamp1: string, tag1: string, stamp2: string, tag2: string)
    requires '\n' !in prefix
    requires |stamp1| == 10 && DigitsAt(stamp1, 0, 10) && AllWordChars(tag1)
    requires |stamp2| == 10 && DigitsAt(stamp2, 0, 10) && AllWordChars(tag2)
    ensures !IsSubstantialVersionChange(prefix + "-s" + stamp1 + "~" + tag1, prefix + "-s" + stamp2 + "~" + tag2)
  {
    RosbuildTimestampStripped(prefix, stamp1, tag1);
    RosbuildTimestampStripped(prefix, stamp2, tag2);
  }

  /** The codename-and-timestamp suffix the Debian rule removes. */
  function CodenameStamp(codename: string, date: string, time: string, zone: string): string {
    codename + "-" + date + "-" + time + "-+" + zone
  }

  predicate IsStampParts(codename: string, date: string, time: string, zone: string) {
    codename in Codenames && |date| == 8 && DigitsAt(date, 0, 8) &&
    |time| == 4 && DigitsAt(time, 0, 4) && |zone| == 4 && DigitsAt(zone, 0, 4)
  }

  /** The layout of a codename stamp: the codename, then the timestamp. */
  lemma CodenameStampLayout(codename: string, date: string, time: string, zone: string)
    requires IsStampParts(codename, date, time, zone)
    ensures var stamp := CodenameStamp(codename, date, time, zone);
      |stamp| == |codename| + StampLength && WordAt(stamp, 0, codename) && StampAt(stamp, |codename|)
  {
    var stamp := CodenameStamp(codename, date, time, zone);
    var m := |codename|;
    assert forall k :: 0 <= k < m ==> stamp[k] == codename[k];
    assert forall k :: m + 1 <= k < m + 9 ==> stamp[k] == date[k - m - 1];
    assert forall k :: m + 10 <= k < m + 14 ==> stamp[k] == time[k - m - 10];
    assert forall k :: m + 16 <= k < |stamp| ==> stamp[k] == zone[k - m - 16];
  }

  /** A codename stamp holds no `~` and no newline, and a single `+`, the one
      before the zone. */
  lemma CodenameStampChars(codename: string, date: string, time: string, zone: string)
    requires IsStampParts(codename, date, time, zone)
    ensures var stamp := CodenameStamp(codename, date, time, zone);
      && |stamp| == |codename| + StampLength
      && (forall k :: 0 <= k < |stamp| ==> stamp[k] != '~' && stamp[k] != '\n')
      && (forall k :: 0 <= k < |stamp| && stamp[k] == '+' ==> k == |codename| + 15)
  {
    var stamp := CodenameStamp(codename, date, time, zone);
    var m := |codename|;
    CodenamesAreLowercase();
    assert forall k :: 0 <= k < m ==> stamp[k] == codename[k];
    assert forall k :: m + 1 <= k < m + 9 ==> stamp[k] == date[k - m - 1];
    assert forall k :: m + 10 <= k < m + 14 ==> stamp[k] == time[k - m - 10];
    assert forall k :: m + 16 <= k < |stamp| ==> stamp[k] == zone[k - m - 16];
  }

  /** Appending a codename stamp to a single line without a rosbuild suffix
      neither adds a newline nor a rosbuild suffix. */
  lemma CodenameStampAddsNoRosbuildSuffix(prefix: string, codename: string, date: string, time: string, zone: string)
    requires '\n' !in prefix && !HasRosbuildSuffix(prefix)
    requires IsStampParts(codename, date, time, zone)
    ensures '\n' !in prefix + CodenameStamp(codename, date, time, zone)
    ensures !HasRosbuildSuffix(prefix + CodenameStamp(codename, date, time, zone))
  {
    var stamp := CodenameStamp(codename, date, time, zone);
    var s := prefix + stamp;
    var n := |prefix|;
    CodenameStampLayout(codename, date, time, zone);
    CodenameStampChars(codename, date, time, zone);
    assert forall k :: n <= k < |s| ==> s[k] == stamp[k - n];
    assert forall k :: 0 <= k < n ==> s[k] == prefix[k];
    forall i: nat ensures !RosbuildHeadAt(s, i) {
      if i + RosbuildHeadLength <= n {
        DigitsAtPiece(s, prefix, 0, i + 2, 10);
        assert !RosbuildHeadAt(prefix, i);
      } else if i + RosbuildHeadLength <= |s| {
        assert s[i + 12] == stamp[i + 12 - n];
      }
    }
  }

  /** In a prefix followed by a codename stamp, a codename stamp that starts at
      or after the prefix's end is that very stamp. */
  lemma OnlyStampAfterPrefix(prefix: string, codename: string, date: string, time: string, zone: string, j: nat, c: string)
    requires IsStampParts(codename, date, time, zone)
    requires var s := prefix + CodenameStamp(codename, date, time, zone);
      |prefix| <= j && c in Codenames && WordAt(s, j, c) && StampAt(s, j + |c|)
    ensures j == |prefix| && |c| == |codename|
  {
    var stamp := CodenameStamp(codename, date, time, zone);
    var s := prefix + stamp;
    var n := |prefix|;
    CodenameStampLayout(codename, date, time, zone);
    CodenameStampChars(codename, date, time, zone);
    assert s[j + |c| + 15] == stamp[j + |c| + 15 - n];
    if j > n {
      assert WordAt(codename, j - n, c) by {
        forall k | 0 <= k < |c| ensures codename[j - n + k] == c[k] {
          assert s[j + k] == stamp[j + k - n];
        }
      }
      CodenamesSuffixFree();
    }
  }

  /** An alternative that matches makes the alternation match. */
  lemma {:induction false} CodenameMatchFound(s: string, i: nat, names: seq<string>, c: string)
    requires c in names && WordAt(s, i, c) && StampAt(s, i + |c|)
    ensures CodenameMatchAt(s, i, names).Some?
  {
    if names[0] != c && !(WordAt(s, i, names[0]) && StampAt(s, i + |names[0]|)) {
      CodenameMatchFound(s, i, names[1..], c);
    }
  }

  /** Where the last codename stamp of a line starts, and how long its codename
      is, say what the Debian rule leaves of the line. */
  lemma StripDebianSuffixAt(s: string, n: nat, m: nat)
    requires LastWhere(|s|, (i: nat) => DebianMatchAt(s, i)) == Some(n)
    requires CodenameMatchAt(s, n, Codenames) == Some(m)
    ensures n + m + StampLength <= |s|
    ensures StripDebianSuffix(s) == s[..n] + s[n + m + StampLength..]
  {
    CodenameMatchAtSpec(s, n, Codenames);
  }

  /** The four codenames start with four different letters. */
  lemma CodenamesFirstLettersDiffer()
    ensures forall c1, c2 :: c1 in Codenames && c2 in Codenames && c1[0] == c2[0] ==> c1 == c2
  {
  }

  /** The Debian rule on one line: when a codename followed by a stamp
      starts at `n` and none starts further right, the codename and its
      twenty-character stamp are removed, and the text before and after
      them is kept. */
  lemma StripDebianSuffixOfMatch(s: string, n: nat, c: string)
    requires c in Codenames && WordAt(s, n, c) && StampAt(s, n + |c|)
    requires forall j: nat, c' :: n < j && c' in Codenames ==> !(WordAt(s, j, c') && StampAt(s, j + |c'|))
    ensures n + |c| + StampLength <= |s|
    ensures StripDebianSuffix(s) == s[..n] + s[n + |c| + StampLength..]
  {
    var p := (i: nat) => DebianMatchAt(s, i);
    CodenameMatchFound(s, n, Codenames, c);
    forall j: nat | n < j < |s| ensures !p(j) {
      DebianMatchAtIff(s, j);
    }
    LastWhereIs(|s|, p, n);
    CodenamesFirstLettersDiffer();
    forall c2 | c2 in Codenames && WordAt(s, n, c2) && StampAt(s, n + |c2|) ensures |c2| == |c| {
      assert c2[0] == s[n] == c[0];
    }
    CodenameMatchLength(s, n, Codenames, |c|);
    StripDebianSuffixAt(s, n, |c|);
  }

  /** The Debian pattern matches where a codename stamp starts. */
  lemma DebianMatchAtStamp(prefix: string, codename: string, date: string, time: string, zone: string)
    requires IsStampParts(codename, date, time, zone)
    ensures DebianMatchAt(prefix + CodenameStamp(codename, date, time, zone), |prefix|)
  {
    var stamp := CodenameStamp(codename, date, time, zone);
    var s := prefix + stamp;
    var n, m := |prefix|, |codename|;
    CodenameStampLayout(codename, date, time, zone);
    CodenameStampChars(codename, date, time, zone);
    assert WordAt(s, n, stamp);
    assert WordAt(s, n, codename);
    StampAtPiece(s, stamp, n, m);
    CodenameMatchFound(s, n, Codenames, codename);
  }

  /** In a prefix followed by a codename stamp, the last place the Debian
      pattern matches is where the stamp starts. */
  lemma LastDebianMatchOfStamped(prefix: string, codename: string, date: string, time: string, zone: string)
    requires IsStampParts(codename, date, time, zone)
    ensures var s := prefix + CodenameStamp(codename, date, time, zone);
      LastWhere(|s|, (i: nat) => DebianMatchAt(s, i)) == Some(|prefix|)
  {
    var s := prefix + CodenameStamp(codename, date, time, zone);
    var n := |prefix|;
    var p := (i: nat) => DebianMatchAt(s, i);
    DebianMatchAtStamp(prefix, codename, date, time, zone);
    forall j: nat | n < j < |s| ensures !p(j) {
      DebianMatchAtIff(s, j);
      if p(j) {
        var c :| c in Codenames && WordAt(s, j, c) && StampAt(s, j + |c|);
        OnlyStampAfterPrefix(prefix, codename, date, time, zone, j, c);
      }
    }
    LastWhereIs(|s|, p, n);
  }

  /** When every codename that matches at `i` has length `m`, the one the
      pattern picks has length `m`. */
  lemma {:induction false} CodenameMatchLength(s: string, i: nat, names: seq<string>, m: nat)
    requires CodenameMatchAt(s, i, names).Some?
    requires forall c :: c in names && WordAt(s, i, c) && StampAt(s, i + |c|) ==> |c| == m
    ensures CodenameMatchAt(s, i, names) == Some(m)
  {
    if !(WordAt(s, i, names[0]) && StampAt(s, i + |names[0]|)) {
      forall c | c in names[1..] && WordAt(s, i, c) && StampAt(s, i + |c|) ensures |c| == m {
        assert c in names;
      }
      CodenameMatchLength(s, i, names[1..], m);
    }
  }

  /** The codename the Debian pattern picks at the start of a codename stamp
      is the stamp's own. */
  lemma CodenameMatchOfStamped(prefix: string, codename: string, date: string, time: string, zone: string)
    requires IsStampParts(codename, date, time, zone)
    ensures var s := prefix + CodenameStamp(codename, date, time, zone);
      CodenameMatchAt(s, |prefix|, Codenames) == Some(|codename|)
  {
    var s := prefix + CodenameStamp(codename, date, time, zone);
    var n := |prefix|;
    DebianMatchAtStamp(prefix, codename, date, time, zone);
    forall c | c in Codenames && WordAt(s, n, c) && StampAt(s, n + |c|) ensures |c| == |codename| {
      OnlyStampAfterPrefix(prefix, codename, date, time, zone, n, c);
    }
    CodenameMatchLength(s, n, Codenames, |codename|);
  }

  /** On one line, the Debian rule removes a trailing codename stamp and keeps
      everything before it. */
  lemma StripDebianSuffixOfStamped(prefix: string, codename: string, date: string, time: string, zone: string)
    requires IsStampParts(codename, date, time, zone)
    ensures StripDebianSuffix(prefix + CodenameStamp(codename, date, time, zone)) == prefix
  {
    var s := prefix + CodenameStamp(codename, date, time, zone);
    var n, m := |prefix|, |codename|;
    LastDebianMatchOfStamped(prefix, codename, date, time, zone);
    CodenameMatchOfStamped(prefix, codename, date, time, zone);
    StripDebianSuffixAt(s, n, m);
    assert |s| == n + m + StampLength;
    assert s[..n] == prefix;
  }

  /** A single-line version whose prefix carries no rosbuild suffix loses a
      trailing codename stamp such as `precise-20230101-1200-+0000`, and only
      that: the prefix is kept as it is. */
  lemma CodenameStampStripped(prefix: string, codename: string, date: string, time: string, zone: string)
    requires '\n' !in prefix && !HasRosbuildSuffix(prefix)
    requires IsStampParts(codename, date, time, zone)
    ensures CoreVersion(prefix + CodenameStamp(codename, date, time, zone)) == prefix
  {
    var s := prefix + CodenameStamp(codename, date, time, zone);
    CodenameStampAddsNoRosbuildSuffix(prefix, codename, date, time, zone);
    CoreRosbuildVersionUnchanged(s);
    MapLinesOneLine(s, StripDebianSuffix);
    StripDebianSuffixOfStamped(prefix, codename, date, time, zone);
  }

  /** Normalising is not idempotent: removing the last codename stamp of a line
      can expose another one, which a second pass then removes. */
  lemma CoreVersionNotIdempotent(prefix: string, codename: string, date: string, time: string, zone: string)
    requires '\n' !in prefix && !HasRosbuildSuffix(prefix)
    requires IsStampParts(codename, date, time, zone)
    ensures var v := prefix + CodenameStamp(codename, date, time, zone) + CodenameStamp(codename, date, time, zone);
      CoreVersion(CoreVersion(v)) != CoreVersion(v)
  {
    var once := prefix + CodenameStamp(codename, date, time, zone);
    CodenameStampAddsNoRosbuildSuffix(prefix, codename, date, time, zone);
    CodenameStampStripped(once, codename, date, time, zone);
    CodenameStampStripped(prefix, codename, date, time, zone);
    assert |once| > |prefix|;
  }

  /** `is_substantial_version_change` compares core versions only, so it is
      false for equal arguments and does not depend on their order. */
  lemma SubstantialChangeIrreflexiveSymmetric(v1: string, v2: string)
    ensures !IsSubstantialVersionChange(v1, v1)
    ensures IsSubstantialVersionChange(v1, v2) == IsSubstantialVersionChange(v2, v1)
  {
  }

  /** A version shorter than the shortest suffix is its own core version. */
  lemma ShortVersionUnchanged(version: string)
    requires |version| < RosbuildHeadLength
    ensures CoreVersion(version) == version
  {
    forall i: nat | DebianMatchAt(version, i) ensures false {
      CodenameMatchAtSpec(version, i, Codenames);
    }
    CoreVersionUnchanged(version);
  }

  /** A rebuild-only change: only the timestamp and the tag differ. */
  lemma RebuildExampleNotSubstantial()
    ensures !IsSubstantialVersionChange("1.2.3-s1234567890~trusty", "1.2.3-s9999999999~trusty")
  {
    assert "1.2.3-s1234567890~trusty" == "1.2.3" + "-s" + "1234567890" + "~" + "trusty";
    assert "1.2.3-s9999999999~trusty" == "1.2.3" + "-s" + "9999999999" + "~" + "trusty";
    TimestampOnlyChangeNotSubstantial("1.2.3", "1234567890", "trusty", "9999999999", "trusty");
  }

  /** Adding a codename stamp to a single-line version that is its own core
      version is not a substantial change. */
  lemma CodenameStampNotSubstantial(prefix: string, codename: string, date: string, time: string, zone: string)
    requires '\n' !in prefix && !HasRosbuildSuffix(prefix) && CoreVersion(prefix) == prefix
    requires IsStampParts(codename, date, time, zone)
    ensures !IsSubstantialVersionChange(prefix + CodenameStamp(codename, date, time, zone), prefix)
  {
    CodenameStampStripped(prefix, codename, date, time, zone);
  }

  /** The same for a version too short to hold either suffix. */
  lemma ShortVersionStampNotSubstantial(prefix: string, codename: string, date: string, time: string, zone: string)
    requires '\n' !in prefix && |prefix| < RosbuildHeadLength
    requires IsStampParts(codename, date, time, zone)
    ensures !IsSubstantialVersionChange(prefix + CodenameStamp(codename, date, time, zone), prefix)
  {
    ShortVersionUnchanged(prefix);
    CodenameStampNotSubstantial(prefix, codename, date, time, zone);
  }

  lemma PreciseStampParts()
    ensures IsStampParts("precise", "20230101", "1200", "0000")
  {
    assert DigitsAt("20230101", 0, 8);
    assert DigitsAt("1200", 0, 4);
    assert DigitsAt("0000", 0, 4);
  }

  /** A codename stamp added to a bare version. */
  lemma CodenameExampleNotSubstantial()
    ensures !IsSubstantialVersionChange("1.2.3precise-20230101-1200-+0000", "1.2.3")
  {
    assert "1.2.3precise-20230101-1200-+0000" == "1.2.3" + CodenameStamp("precise", "20230101", "1200", "0000");
    PreciseStampParts();
    ShortVersionStampNotSubstantial("1.2.3", "precise", "20230101", "1200", "0000");
  }

  /** A real version bump. */
  lemma BumpExampleSubstantial()
    ensures IsSubstantialVersionChange("1.2.3", "1.3.0")
  {
    ShortVersionUnchanged("1.2.3");
    ShortVersionUnchanged("1.3.0");
  }

}
