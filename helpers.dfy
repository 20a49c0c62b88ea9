/** The small helpers of `diff_repos.py`: turning a Packages stanza into a
    field map, dropping the e-mail address from a `Maintainer` field, and
    building the URL of a Packages index. */
module DiffHelpers {
  import opened Wrappers
  import opened Strings

  /** One stanza of a Packages index, as the parser yields it: its
      `(field, value)` pairs in file order. */
  type Stanza = seq<(string, string)>

  /** A stanza's fields by name. */
  type Fields = map<string, string>

  /** The dictionary `convert_tuples_list_to_dict` builds: every pair is
      stored in turn, so a later pair overwrites an earlier one. */
  function PairsToMap(pairs: Stanza): Fields {
    if pairs == [] then map[]
    else PairsToMap(pairs[..|pairs| - 1])[pairs[|pairs| - 1].0 := pairs[|pairs| - 1].1]
  }

  /** No pair after index `i` has the same field name. */
  predicate LastOccurrence(pairs: Stanza, i: nat) {
    i < |pairs| && forall j :: i < j < |pairs| ==> pairs[j].0 != pairs[i].0
  }

  /** The keys are exactly the first components of the pairs, and each key
      holds the second component of its last pair. */
  lemma {:induction false} PairsToMapLastWins(pairs: Stanza)
    ensures forall k :: k in PairsToMap(pairs) <==> exists i :: 0 <= i < |pairs| && pairs[i].0 == k
    ensures forall i: nat :: LastOccurrence(pairs, i) ==> PairsToMap(pairs)[pairs[i].0] == pairs[i].1
  {
    if pairs != [] {
      var n := |pairs| - 1;
      var init := pairs[..n];
      PairsToMapLastWins(init);
      forall k ensures k in PairsToMap(pairs) <==> exists i :: 0 <= i < |pairs| && pairs[i].0 == k {
        if k in PairsToMap(init) {
          var i :| 0 <= i < |init| && init[i].0 == k;
          assert pairs[i].0 == k;
        }
        if exists i :: 0 <= i < |pairs| && pairs[i].0 == k {
          var i :| 0 <= i < |pairs| && pairs[i].0 == k;
          if i < n {
            assert init[i].0 == k;
          }
        }
      }
      forall i: nat | LastOccurrence(pairs, i) ensures PairsToMap(pairs)[pairs[i].0] == pairs[i].1 {
        if i < n {
          assert LastOccurrence(init, i);
        }
      }
    }
  }

  /** `convert_tuples_list_to_dict`. */
  method ConvertTuplesListToDict(pairs: Stanza) returns (output: Fields)
    ensures output == PairsToMap(pairs)
  {
    output := map[];
    for i := 0 to |pairs|
      invariant output == PairsToMap(pairs[..i])
    {
      assert pairs[..i + 1][..i] == pairs[..i];
      output := output[pairs[i].0 := pairs[i].1];
    }
    assert pairs[..|pairs|] == pairs;
  }

  /** `re.sub("(.*)<.*>", "\\1", line)` on a single line: the greedy groups
      reach the last `>` of the line and the last `<` before it, and the text
      between the two, both included, goes. */
  function StripEmailLine(line: string): string {
    match LastWhere(|line|, (j: nat) => j < |line| && line[j] == '>')
    case None => line
    case Some(c) =>
      match LastWhere(c, (j: nat) => j < |line| && line[j] == '<')
      case None => line
      case Some(o) => line[..o] + line[c + 1..]
  }

  /** `strip_email`. */
  function StripEmail(maintainer: string): string {
    MapLines(maintainer, StripEmailLine)
  }

  /** What the announcement lists for a `Maintainer` field. */
  function MaintainerName(maintainer: string): string {
    Strip(StripEmail(maintainer))
  }

  /** No `<` of `s` has a `>` after it. */
  predicate NoBracketPair(s: string) {
    forall i, j :: 0 <= i < j < |s| ==> !(s[i] == '<' && s[j] == '>')
  }

  /** On one line, an address in angle brackets goes, with the text before
      and after it kept as is. */
  lemma StripEmailLineOf(x: string, y: string, z: string)
    requires '<' !in y && '>' !in z
    ensures StripEmailLine(x + "<" + y + ">" + z) == x + z
  {
    var s := x + "<" + y + ">" + z;
    var c := |x| + |y| + 1;
    var o := |x|;
    var isClose := (j: nat) => j < |s| && s[j] == '>';
    var isOpen := (j: nat) => j < |s| && s[j] == '<';
    assert isClose(c);
    forall j: nat | c < j < |s| ensures !isClose(j) {
      assert s[j] == z[j - c - 1];
    }
    LastWhereIs(|s|, isClose, c);
    assert isOpen(o);
    forall j: nat | o < j < c ensures !isOpen(j) {
      assert s[j] == y[j - o - 1];
    }
    LastWhereIs(c, isOpen, o);
    assert s[..o] == x && s[c + 1..] == z;
  }

  /** A line in which some `<` has a `>` after it always loses text. */
  lemma StripEmailLineShortens(line: string)
    requires !NoBracketPair(line)
    ensures |StripEmailLine(line)| < |line|
  {
    var i, j :| 0 <= i < j < |line| && line[i] == '<' && line[j] == '>';
    var isClose := (k: nat) => k < |line| && line[k] == '>';
    var isOpen := (k: nat) => k < |line| && line[k] == '<';
    assert isClose(j);
    var c := LastWhere(|line|, isClose).value;
    assert j <= c;
    assert isOpen(i);
    var o := LastWhere(c, isOpen).value;
  }

  /** The pieces on either side of a newline of a string without a `<`
      followed by a `>` have none either. */
  lemma NoBracketPairInPieces(t: string, k: nat)
    requires NoBracketPair(t) && k < |t|
    ensures NoBracketPair(t[..k]) && NoBracketPair(t[k + 1..])
  {
    var u := t[k + 1..];
    forall i, j | 0 <= i < j < |u| ensures !(u[i] == '<' && u[j] == '>') {
      assert u[i] == t[k + 1 + i] && u[j] == t[k + 1 + j];
    }
  }

  /** A string in which no `<` has a `>` after it is kept as it is. */
  lemma StripEmailUnchanged(maintainer: string)
    requires NoBracketPair(maintainer)
    ensures StripEmail(maintainer) == maintainer
  {
    var q := (t: string) => NoBracketPair(t);
    forall t: string, k: nat | q(t) && k < |t| ensures q(t[..k]) && q(t[k + 1..]) {
      NoBracketPairInPieces(t, k);
    }
    forall t: string | q(t) && '\n' !in t ensures StripEmailLine(t) == t {
      var isClose := (j: nat) => j < |t| && t[j] == '>';
      match LastWhere(|t|, isClose)
      case None =>
      case Some(c) =>
        var isOpen := (j: nat) => j < |t| && t[j] == '<';
        assert t[c] == '>';
        assert forall j: nat :: j < c ==> !isOpen(j);
    }
    MapLinesFixed(maintainer, StripEmailLine, q);
  }

  /** `strip_email` of a one-line `name <address>` keeps `name ` and the
      space before the bracket. */
  lemma StripEmailOfAddress(name: string, address: string)
    requires '\n' !in name && '\n' !in address && '<' !in address
    ensures StripEmail(name + " <" + address + ">") == name + " "
  {
    var x := name + " ";
    var m := x + "<" + address + ">";
    assert name + " <" + address + ">" == m;
    assert m + "" == m;
    StripEmailLineOf(x, address, "");
    assert '\n' !in m;
    MapLinesOneLine(m, StripEmailLine);
  }

  /** `strip_email(m).strip()` of `name <address>` is the name, for a trimmed
      name and an address without `<`, both on one line. */
  lemma MaintainerNameOfAddress(name: string, address: string)
    requires Trimmed(name) && '\n' !in name && '\n' !in address && '<' !in address
    ensures MaintainerName(name + " <" + address + ">") == name
  {
    StripEmailOfAddress(name, address);
    assert name + " " == [] + name + " ";
    StripSurrounded([], name, " ");
  }

  /** `construct_packages_url`: the base without its trailing slashes, then
      `dists`, the distribution, the component, the architecture and
      `Packages`, joined by `/`. */
  function ConstructPackagesUrl(baseUrl: string, dist: string, component: string, arch: string): string {
    Join("/", [RStrip(baseUrl, '/'), "dists", dist, component, arch, "Packages"])
  }

  /** One step of joining: the first part, the separator, then the rest. */
  lemma JoinFirst(sep: string, first: string, rest: seq<string>)
    requires |rest| > 0
    ensures Join(sep, [first] + rest) == first + sep + Join(sep, rest)
  {
    assert ([first] + rest)[1..] == rest;
  }

  /** The URL spelled out: each part followed by a slash, then `Packages`. */
  lemma PackagesUrlForm(baseUrl: string, dist: string, component: string, arch: string)
    ensures ConstructPackagesUrl(baseUrl, dist, component, arch) ==
      RStrip(baseUrl, '/') + "/" + ("dists" + "/" + (dist + "/" + (component + "/" + (arch + "/" + "Packages"))))
  {
    var b := RStrip(baseUrl, '/');
    JoinFirst("/", arch, ["Packages"]);
    JoinFirst("/", component, [arch, "Packages"]);
    JoinFirst("/", dist, [component, arch, "Packages"]);
    JoinFirst("/", "dists", [dist, component, arch, "Packages"]);
    JoinFirst("/", b, ["dists", dist, component, arch, "Packages"]);
    assert [b] + ["dists", dist, component, arch, "Packages"] == [b, "dists", dist, component, arch, "Packages"];
  }

  /** Every URL built this way starts with the base and `/dists/`, with a
      single slash between them, and ends in `/Packages`. */
  lemma PackagesUrlShape(baseUrl: string, dist: string, component: string, arch: string)
    ensures var url := ConstructPackagesUrl(baseUrl, dist, component, arch);
      |url| >= 9 && url[|url| - 9..] == "/Packages"
    ensures var url, b := ConstructPackagesUrl(baseUrl, dist, component, arch), RStrip(baseUrl, '/');
      |url| >= |b| + 7 && url[..|b| + 7] == b + "/dists/" && (b == [] || url[|b| - 1] != '/')
  {
    PackagesUrlForm(baseUrl, dist, component, arch);
    var url := ConstructPackagesUrl(baseUrl, dist, component, arch);
    var b := RStrip(baseUrl, '/');
    var head := b + "/" + ("dists" + "/" + (dist + "/" + (component + "/" + arch)));
    assert url == head + ("/" + "Packages");
    assert url[|head|..] == "/Packages";
    var tail := dist + "/" + (component + "/" + (arch + "/" + "Packages"));
    assert url == (b + "/dists/") + tail;
    assert url[..|b| + 7] == b + "/dists/";
  }

  /** Trailing slashes on the base make no difference. */
  lemma PackagesUrlIgnoresTrailingSlash(baseUrl: string, dist: string, component: string, arch: string)
    ensures ConstructPackagesUrl(baseUrl + "/", dist, component, arch) == ConstructPackagesUrl(baseUrl, dist, component, arch)
  {
    assert (baseUrl + "/")[..|baseUrl|] == baseUrl;
    assert RStrip(baseUrl + "/", '/') == RStrip(baseUrl, '/');
  }
}
