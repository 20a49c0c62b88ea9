/** `compute_annoucement`: compares the stanzas of an old and a new Packages
    index for one ROS distribution and renders the text announcing which
    packages were added, updated and removed, and who maintains them. */
module Announcement {
  import opened Wrappers
  import opened Strings
  import opened Ordering
  import opened VersionNormalizer
  import opened DiffHelpers

  /** Package name to the fields of its stanza. */
  type Index = map<string, Fields>

  /** The stanza has a `Package` field. */
  predicate HasName(stanza: Stanza) {
    "Package" in PairsToMap(stanza)
  }

  function NameOf(stanza: Stanza): string
    requires HasName(stanza)
  {
    PairsToMap(stanza)["Package"]
  }

  /** Stanza `i` is kept: it has a name, and that name contains `rosdistro`. */
  predicate Kept(stanzas: seq<Stanza>, i: nat, rosdistro: string) {
    i < |stanzas| && HasName(stanzas[i]) && Contains(NameOf(stanzas[i]), rosdistro)
  }

  /** Stanza `i` is kept and no later stanza has the same name. */
  predicate LastKept(stanzas: seq<Stanza>, i: nat, rosdistro: string) {
    Kept(stanzas, i, rosdistro) &&
    forall j :: i < j < |stanzas| && HasName(stanzas[j]) ==> NameOf(stanzas[j]) != NameOf(stanzas[i])
  }

  /** The index one loop of `compute_annoucement` builds from a Packages file:
      stanza after stanza, its fields are stored under its name when the name
      contains `rosdistro`, replacing an earlier stanza of that name. A stanza
      without `Package` raises `KeyError('Package')`. */
  function Collect(stanzas: seq<Stanza>, rosdistro: string): (r: Result<Index, string>)
    ensures r.Failure? ==> r.error == "Package"
  {
    if stanzas == [] then Success(map[])
    else
      match Collect(stanzas[..|stanzas| - 1], rosdistro)
      case Failure(e) => Failure(e)
      case Success(index) =>
        var fields := PairsToMap(stanzas[|stanzas| - 1]);
        if "Package" !in fields then Failure("Package")
        else if Contains(fields["Package"], rosdistro) then Success(index[fields["Package"] := fields])
        else Success(index)
  }

  /** Collecting fails exactly when some stanza lacks `Package`. */
  lemma {:induction false} CollectSucceeds(stanzas: seq<Stanza>, rosdistro: string)
    ensures Collect(stanzas, rosdistro).Success? <==> forall i :: 0 <= i < |stanzas| ==> HasName(stanzas[i])
  {
    if stanzas != [] {
      var n := |stanzas| - 1;
      var init := stanzas[..n];
      CollectSucceeds(init, rosdistro);
      if Collect(init, rosdistro).Failure? {
        var i :| 0 <= i < n && !HasName(init[i]);
        assert !HasName(stanzas[i]);
      } else if forall i :: 0 <= i < n ==> HasName(stanzas[i]) {
        assert forall i :: 0 <= i < n ==> init[i] == stanzas[i];
      }
    }
  }

  /** A successful collection holds exactly the names of the kept stanzas. */
  lemma {:induction false} CollectNames(stanzas: seq<Stanza>, rosdistro: string)
    requires Collect(stanzas, rosdistro).Success?
    ensures forall name :: name in Collect(stanzas, rosdistro).value <==>
      exists i: nat :: Kept(stanzas, i, rosdistro) && NameOf(stanzas[i]) == name
  {
    if stanzas != [] {
      var n := |stanzas| - 1;
      var init := stanzas[..n];
      CollectNames(init, rosdistro);
      var index := Collect(init, rosdistro).value;
      var all := Collect(stanzas, rosdistro).value;
      forall name ensures name in all <==> exists i: nat :: Kept(stanzas, i, rosdistro) && NameOf(stanzas[i]) == name {
        if name in index {
          var i: nat :| Kept(init, i, rosdistro) && NameOf(init[i]) == name;
          assert init[i] == stanzas[i];
          assert Kept(stanzas, i, rosdistro);
        }
        if exists i: nat :: Kept(stanzas, i, rosdistro) && NameOf(stanzas[i]) == name {
          var i: nat :| Kept(stanzas, i, rosdistro) && NameOf(stanzas[i]) == name;
          if i < n {
            assert init[i] == stanzas[i];
            assert Kept(init, i, rosdistro);
          }
        }
      }
    }
  }

  /** In a successful collection, each name holds the fields of the last kept
      stanza of that name: a later stanza replaces an earlier one. */
  lemma {:induction false} CollectLastWins(stanzas: seq<Stanza>, rosdistro: string)
    requires Collect(stanzas, rosdistro).Success?
    ensures forall i: nat :: LastKept(stanzas, i, rosdistro) ==>
      NameOf(stanzas[i]) in Collect(stanzas, rosdistro).value &&
      Collect(stanzas, rosdistro).value[NameOf(stanzas[i])] == PairsToMap(stanzas[i])
  {
    if stanzas != [] {
      var n := |stanzas| - 1;
      var init := stanzas[..n];
      CollectLastWins(init, rosdistro);
      CollectNames(stanzas, rosdistro);
      var all := Collect(stanzas, rosdistro).value;
      forall i: nat | LastKept(stanzas, i, rosdistro)
        ensures NameOf(stanzas[i]) in all && all[NameOf(stanzas[i])] == PairsToMap(stanzas[i])
      {
        assert Kept(stanzas, i, rosdistro);
        if i < n {
          assert init[i] == stanzas[i];
          assert forall j :: i < j < n ==> init[j] == stanzas[j];
          assert LastKept(init, i, rosdistro);
        }
      }
    }
  }

  /** Every name in a successful collection contains `rosdistro`. */
  lemma {:induction false} CollectNamesContain(stanzas: seq<Stanza>, rosdistro: string)
    requires Collect(stanzas, rosdistro).Success?
    ensures forall name :: name in Collect(stanzas, rosdistro).value ==> Contains(name, rosdistro)
  {
    if stanzas != [] {
      CollectNamesContain(stanzas[..|stanzas| - 1], rosdistro);
    }
  }

  /** One of the two collecting loops of `compute_annoucement`. */
  method CollectPackages(stanzas: seq<Stanza>, rosdistro: string) returns (res: Result<Index, string>)
    ensures res == Collect(stanzas, rosdistro)
  {
    var index: Index := map[];
    for i := 0 to |stanzas|
      invariant Collect(stanzas[..i], rosdistro) == Success(index)
    {
      assert stanzas[..i + 1][..i] == stanzas[..i];
      var fields := ConvertTuplesListToDict(stanzas[i]);
      if "Package" !in fields {
        CollectSucceeds(stanzas, rosdistro);
        assert !HasName(stanzas[i]);
        return Failure("Package");
      }
      var name := fields["Package"];
      if Contains(name, rosdistro) {
        index := index[name := fields];
      }
    }
    assert stanzas[..|stanzas|] == stanzas;
    return Success(index);
  }

  /** Every package in both indexes has a `Version` in both. */
  predicate Versioned(oldIndex: Index, newIndex: Index) {
    forall p :: p in newIndex && p in oldIndex ==> "Version" in newIndex[p] && "Version" in oldIndex[p]
  }

  /** The packages in both indexes whose versions differ, and differ
      substantially. */
  function UpdatedNames(oldIndex: Index, newIndex: Index): set<string>
    requires Versioned(oldIndex, newIndex)
  {
    set p | p in newIndex && p in oldIndex && newIndex[p]["Version"] != oldIndex[p]["Version"] &&
      IsSubstantialVersionChange(newIndex[p]["Version"], oldIndex[p]["Version"])
  }

  /** The loop of `compute_annoucement` that fills `updated_packages`; a
      package in both indexes without a `Version` raises `KeyError('Version')`. */
  method ComputeUpdated(oldIndex: Index, newIndex: Index) returns (res: Result<set<string>, string>)
    ensures res == if Versioned(oldIndex, newIndex) then Success(UpdatedNames(oldIndex, newIndex)) else Failure("Version")
  {
    var common := set p | p in newIndex && p in oldIndex;
    var todo := common;
    var updated := {};
    while todo != {}
      invariant todo <= common
      invariant forall p :: p in common - todo ==> "Version" in newIndex[p] && "Version" in oldIndex[p]
      invariant updated == set p | p in common - todo && newIndex[p]["Version"] != oldIndex[p]["Version"] &&
        IsSubstantialVersionChange(newIndex[p]["Version"], oldIndex[p]["Version"])
      decreases todo
    {
      var p :| p in todo;
      if "Version" !in newIndex[p] || "Version" !in oldIndex[p] {
        return Failure("Version");
      }
      var newVersion, oldVersion := newIndex[p]["Version"], oldIndex[p]["Version"];
      if newVersion != oldVersion && IsSubstantialVersionChange(newVersion, oldVersion) {
        updated := updated + {p};
      }
      todo := todo - {p};
    }
    assert common - todo == common;
    assert updated == UpdatedNames(oldIndex, newIndex);
    return Success(updated);
  }

  /** The three sets the announcement reports. */
  datatype Diff = Diff(added: set<string>, updated: set<string>, removed: set<string>)

  function DiffOf(oldIndex: Index, newIndex: Index): Diff
    requires Versioned(oldIndex, newIndex)
  {
    Diff(newIndex.Keys - oldIndex.Keys, UpdatedNames(oldIndex, newIndex), oldIndex.Keys - newIndex.Keys)
  }

  /** Added packages are the new-only ones and removed packages the old-only
      ones; updated packages are those in both whose core versions differ
      (the raw comparison the code makes first never decides anything); and
      the three sets are pairwise disjoint. */
  lemma DiffSpec(oldIndex: Index, newIndex: Index)
    requires Versioned(oldIndex, newIndex)
    ensures var d := DiffOf(oldIndex, newIndex);
      && (forall p :: p in d.added <==> p in newIndex && p !in oldIndex)
      && (forall p :: p in d.removed <==> p in oldIndex && p !in newIndex)
      && (forall p :: p in d.updated <==>
            (p in newIndex && p in oldIndex && CoreVersion(newIndex[p]["Version"]) != CoreVersion(oldIndex[p]["Version"])))
      && d.added !! d.updated && d.added !! d.removed && d.updated !! d.removed
  {
  }

  /** A package whose raw version changed while its core version did not is
      in none of the three sets. */
  lemma RebuildIsNotAnnounced(oldIndex: Index, newIndex: Index, p: string)
    requires Versioned(oldIndex, newIndex) && p in newIndex && p in oldIndex
    requires CoreVersion(newIndex[p]["Version"]) == CoreVersion(oldIndex[p]["Version"])
    ensures var d := DiffOf(oldIndex, newIndex); p !in d.added && p !in d.updated && p !in d.removed
  {
  }

  /** Every package the diff reports has a name containing `rosdistro`. */
  lemma DiffNamesContainRosdistro(oldStanzas: seq<Stanza>, newStanzas: seq<Stanza>, rosdistro: string)
    requires Collect(oldStanzas, rosdistro).Success? && Collect(newStanzas, rosdistro).Success?
    requires Versioned(Collect(oldStanzas, rosdistro).value, Collect(newStanzas, rosdistro).value)
    ensures var d := DiffOf(Collect(oldStanzas, rosdistro).value, Collect(newStanzas, rosdistro).value);
      forall p :: p in d.added + d.updated + d.removed ==> Contains(p, rosdistro)
  {
    CollectNamesContain(oldStanzas, rosdistro);
    CollectNamesContain(newStanzas, rosdistro);
  }

  /** Every named package has a `Maintainer` field. */
  predicate Maintained(newIndex: Index, names: set<string>) {
    forall p :: p in names ==> p in newIndex && "Maintainer" in newIndex[p]
  }

  /** The maintainer names listed for `names`. */
  function MaintainersOf(newIndex: Index, names: set<string>): set<string>
    requires Maintained(newIndex, names)
  {
    set p | p in names :: MaintainerName(newIndex[p]["Maintainer"])
  }

  /** There are never more maintainers than packages they are drawn from. */
  lemma {:induction false} MaintainersAtMost(newIndex: Index, names: set<string>)
    requires Maintained(newIndex, names)
    ensures |MaintainersOf(newIndex, names)| <= |names|
    decreases names
  {
    if names != {} {
      var p :| p in names;
      var rest := names - {p};
      MaintainersAtMost(newIndex, rest);
      assert MaintainersOf(newIndex, names) == MaintainersOf(newIndex, rest) + {MaintainerName(newIndex[p]["Maintainer"])};
    }
  }

  /** The loop of `compute_annoucement` that fills `maintainers`; a package
      without a `Maintainer` raises `KeyError('Maintainer')`. */
  method CollectMaintainers(newIndex: Index, names: set<string>) returns (res: Result<set<string>, string>)
    requires names <= newIndex.Keys
    ensures res == if Maintained(newIndex, names) then Success(MaintainersOf(newIndex, names)) else Failure("Maintainer")
  {
    var todo := names;
    var maintainers := {};
    while todo != {}
      invariant todo <= names
      invariant Maintained(newIndex, names - todo)
      invariant maintainers == MaintainersOf(newIndex, names - todo)
      decreases todo
    {
      var p :| p in todo;
      if "Maintainer" !in newIndex[p] {
        return Failure("Maintainer");
      }
      maintainers := maintainers + {MaintainerName(newIndex[p]["Maintainer"])};
      todo := todo - {p};
      assert names - todo == (names - (todo + {p})) + {p};
    }
    assert names - todo == names;
    return Success(maintainers);
  }

  /** The fixed paragraph that introduces the maintainer lines. */
  const Thanks: string :=
    "Thanks to all ROS maintainers who make packages available to the ROS community. " +
    "The above list of packages was made possible by the work of the following maintainers: "

  /** A section heading such as `Added Packages [3]:`. */
  function CountLine(kind: string, count: nat): string {
    kind + " Packages [" + Decimal(count) + "]:"
  }

  /** The line for an added package, given its core version. */
  function AddedLine(name: string, version: string): string {
    " * " + name + ": " + version
  }

  /** The line for an updated package, given its old and new core versions. */
  function UpdatedLine(name: string, oldVersion: string, newVersion: string): string {
    " * " + name + ": " + oldVersion + " -> " + newVersion
  }

  function RemovedLine(name: string): string {
    "- " + name
  }

  function MaintainerLine(maintainer: string): string {
    " * " + maintainer
  }

  /** The `Version` of package `p` in an index; it is only shown for a
      package that has one, and the empty text stands in otherwise. */
  function VersionIn(index: Index, p: string): string {
    if p in index && "Version" in index[p] then index[p]["Version"] else ""
  }

  /** Every named package has a `Version` in the new index. */
  predicate NewVersioned(newIndex: Index, names: set<string>) {
    forall p :: p in names ==> p in newIndex && "Version" in newIndex[p]
  }

  /** Every named package is in both indexes with a `Version` in each. */
  predicate BothVersioned(oldIndex: Index, newIndex: Index, names: set<string>) {
    forall p :: p in names ==> p in newIndex && p in oldIndex && "Version" in newIndex[p] && "Version" in oldIndex[p]
  }

  /** The added lines of the first `k` names, in order; `core` is the
      normalisation applied to each version (`CoreVersion` in the report). */
  function AddedLines(names: seq<string>, k: nat, newIndex: Index, core: string -> string): (lines: seq<string>)
    requires k <= |names|
    ensures |lines| == k
  {
    if k == 0 then []
    else AddedLines(names, k - 1, newIndex, core) + [AddedLine(names[k - 1], core(VersionIn(newIndex, names[k - 1])))]
  }

  /** Line `i` names the `i`-th package and shows its new version. */
  lemma {:induction false} AddedLinesAt(names: seq<string>, k: nat, newIndex: Index, core: string -> string)
    requires k <= |names| && forall i :: 0 <= i < k ==> names[i] in newIndex && "Version" in newIndex[names[i]]
    ensures forall i :: 0 <= i < k ==>
      AddedLines(names, k, newIndex, core)[i] == AddedLine(names[i], core(newIndex[names[i]]["Version"]))
  {
    if k > 0 {
      AddedLinesAt(names, k - 1, newIndex, core);
    }
  }

  /** The updated lines of the first `k` names, in order, with versions
      normalised by `core`. */
  function UpdatedLines(names: seq<string>, k: nat, oldIndex: Index, newIndex: Index, core: string -> string): (lines: seq<string>)
    requires k <= |names|
    ensures |lines| == k
  {
    if k == 0 then []
    else
      var p := names[k - 1];
      UpdatedLines(names, k - 1, oldIndex, newIndex, core) + [UpdatedLine(p, core(VersionIn(oldIndex, p)), core(VersionIn(newIndex, p)))]
  }

  /** Line `i` names the `i`-th package and shows its old and new versions. */
  lemma {:induction false} UpdatedLinesAt(names: seq<string>, k: nat, oldIndex: Index, newIndex: Index, core: string -> string)
    requires k <= |names|
    requires forall i :: 0 <= i < k ==>
      names[i] in newIndex && names[i] in oldIndex && "Version" in newIndex[names[i]] && "Version" in oldIndex[names[i]]
    ensures forall i :: 0 <= i < k ==>
      (UpdatedLines(names, k, oldIndex, newIndex, core)[i] ==
       UpdatedLine(names[i], core(oldIndex[names[i]]["Version"]), core(newIndex[names[i]]["Version"])))
  {
    if k > 0 {
      UpdatedLinesAt(names, k - 1, oldIndex, newIndex, core);
    }
  }

  /** The removed lines of the first `k` names, in order. */
  function RemovedLines(names: seq<string>, k: nat): (lines: seq<string>)
    requires k <= |names|
    ensures |lines| == k
    ensures forall i :: 0 <= i < k ==> lines[i] == RemovedLine(names[i])
  {
    if k == 0 then [] else RemovedLines(names, k - 1) + [RemovedLine(names[k - 1])]
  }

  /** The maintainer lines of the first `k` names, in order. */
  function MaintainerLines(names: seq<string>, k: nat): (lines: seq<string>)
    requires k <= |names|
    ensures |lines| == k
    ensures forall i :: 0 <= i < k ==> lines[i] == MaintainerLine(names[i])
  {
    if k == 0 then [] else MaintainerLines(names, k - 1) + [MaintainerLine(names[k - 1])]
  }

  /** Each line followed by a newline. */
  function Unlines(lines: seq<string>): string {
    if lines == [] then "" else Unlines(lines[..|lines| - 1]) + lines[|lines| - 1] + "\n"
  }

  /** A text made of a title, three counted sections each followed by an
      empty line, and a closing paragraph with its own lines: where each of
      its lines sits. */
  function Sections(title: string, ca: string, a: seq<string>, cu: string, u: seq<string>,
                    cr: string, r: seq<string>, closing: string, m: seq<string>): (lines: seq<string>)
    ensures var ua, ru, mr := 4 + |a|, 6 + |a| + |u|, 8 + |a| + |u| + |r|;
      && |lines| == mr + |m|
      && lines[0] == title && lines[1] == ca
      && (forall j :: 2 <= j < ua - 2 ==> lines[j] == a[j - 2])
      && lines[ua - 2] == "" && lines[ua - 1] == cu
      && (forall j :: ua <= j < ru - 2 ==> lines[j] == u[j - ua])
      && lines[ru - 2] == "" && lines[ru - 1] == cr
      && (forall j :: ru <= j < mr - 2 ==> lines[j] == r[j - ru])
      && lines[mr - 2] == "" && lines[mr - 1] == closing
      && (forall j :: mr <= j < |lines| ==> lines[j] == m[j - mr])
  {
    [title] + [ca] + a + [""] + [cu] + u + [""] + [cr] + r + [""] + [closing] + m
  }

  /** The lines of the announcement for the given arrangements of the added,
      updated and removed packages and of the maintainers, with versions
      shown through `core` (`CoreVersion` in the announcement). */
  function ReportLines(rosdistro: string, oldIndex: Index, newIndex: Index, a: seq<string>, u: seq<string>,
                       r: seq<string>, m: seq<string>, core: string -> string): seq<string>
  {
    Sections("Updates to " + rosdistro, CountLine("Added", |a|), AddedLines(a, |a|, newIndex, core),
             CountLine("Updated", |u|), UpdatedLines(u, |u|, oldIndex, newIndex, core),
             CountLine("Removed", |r|), RemovedLines(r, |r|), Thanks, MaintainerLines(m, |m|))
  }

  /** The title, then a heading with the number of added, updated and
      removed packages, each section followed by an empty line, and last the
      thanks paragraph before one line per maintainer. */
  lemma ReportHeadings(rosdistro: string, oldIndex: Index, newIndex: Index, a: seq<string>, u: seq<string>,
                     r: seq<string>, m: seq<string>, core: string -> string)
    ensures var lines := ReportLines(rosdistro, oldIndex, newIndex, a, u, r, m, core);
      var ua, ru, mr := 4 + |a|, 6 + |a| + |u|, 8 + |a| + |u| + |r|;
      && |lines| == mr + |m|
      && lines[0] == "Updates to " + rosdistro
      && lines[1] == CountLine("Added", |a|)
      && lines[ua - 2] == "" && lines[ua - 1] == CountLine("Updated", |u|)
      && lines[ru - 2] == "" && lines[ru - 1] == CountLine("Removed", |r|)
      && lines[mr - 2] == "" && lines[mr - 1] == Thanks
  {
  }

  /** One line per removed package, in the order given, after its heading. */
  lemma ReportRemovedLines(rosdistro: string, oldIndex: Index, newIndex: Index, a: seq<string>, u: seq<string>,
                     r: seq<string>, m: seq<string>, core: string -> string)
    ensures var lines := ReportLines(rosdistro, oldIndex, newIndex, a, u, r, m, core);
      |lines| == 8 + |a| + |u| + |r| + |m| &&
      forall i :: 0 <= i < |r| ==> lines[6 + |a| + |u| + i] == RemovedLine(r[i])
  {
  }

  /** One line per maintainer, in the order given, after the thanks paragraph. */
  lemma ReportMaintainerLines(rosdistro: string, oldIndex: Index, newIndex: Index, a: seq<string>, u: seq<string>,
                     r: seq<string>, m: seq<string>, core: string -> string)
    ensures var lines := ReportLines(rosdistro, oldIndex, newIndex, a, u, r, m, core);
      |lines| == 8 + |a| + |u| + |r| + |m| &&
      forall i :: 0 <= i < |m| ==> lines[8 + |a| + |u| + |r| + i] == MaintainerLine(m[i])
  {
  }

  /** The added and updated sections list their packages in the order
      given, each with its stored versions shown through `core`. */
  lemma ReportVersionLines(rosdistro: string, oldIndex: Index, newIndex: Index, a: seq<string>, u: seq<string>,
                           r: seq<string>, m: seq<string>, core: string -> string)
    requires forall i :: 0 <= i < |a| ==> a[i] in newIndex && "Version" in newIndex[a[i]]
    requires forall i :: 0 <= i < |u| ==>
      u[i] in newIndex && u[i] in oldIndex && "Version" in newIndex[u[i]] && "Version" in oldIndex[u[i]]
    ensures var lines := ReportLines(rosdistro, oldIndex, newIndex, a, u, r, m, core);
      && (forall i :: 0 <= i < |a| ==> lines[2 + i] == AddedLine(a[i], core(newIndex[a[i]]["Version"])))
      && (forall i :: 0 <= i < |u| ==>
            lines[4 + |a| + i] == UpdatedLine(u[i], core(oldIndex[u[i]]["Version"]), core(newIndex[u[i]]["Version"])))
  {
    var al, ul := AddedLines(a, |a|, newIndex, core), UpdatedLines(u, |u|, oldIndex, newIndex, core);
    AddedLinesAt(a, |a|, newIndex, core);
    UpdatedLinesAt(u, |u|, oldIndex, newIndex, core);
    var lines := ReportLines(rosdistro, oldIndex, newIndex, a, u, r, m, core);
    forall i | 0 <= i < |a| ensures lines[2 + i] == AddedLine(a[i], core(newIndex[a[i]]["Version"])) {
      assert lines[2 + i] == al[i];
    }
    forall i | 0 <= i < |u|
      ensures lines[4 + |a| + i] == UpdatedLine(u[i], core(oldIndex[u[i]]["Version"]), core(newIndex[u[i]]["Version"]))
    {
      assert lines[4 + |a| + i] == ul[i];
    }
  }

  /** The text of the announcement: every section in ascending name order,
      versions in their core form. */
  ghost function Report(rosdistro: string, oldIndex: Index, newIndex: Index, d: Diff, maintainers: set<string>): string
  {
    Unlines(ReportLines(rosdistro, oldIndex, newIndex, SortedList(d.added), SortedList(d.updated),
                        SortedList(d.removed), SortedList(maintainers), CoreVersion))
  }

  /** Each heading of the announcement counts the packages of its set, and
      the sections list the names of the set in ascending order. */
  lemma ReportCounts(rosdistro: string, oldIndex: Index, newIndex: Index, d: Diff, maintainers: set<string>)
    ensures var a, u, r := SortedList(d.added), SortedList(d.updated), SortedList(d.removed);
      var lines := ReportLines(rosdistro, oldIndex, newIndex, a, u, r, SortedList(maintainers), CoreVersion);
      && Report(rosdistro, oldIndex, newIndex, d, maintainers) == Unlines(lines)
      && Ascending(a) && Ascending(u) && Ascending(r)
      && lines[1] == CountLine("Added", |d.added|)
      && lines[3 + |d.added|] == CountLine("Updated", |d.updated|)
      && lines[5 + |d.added| + |d.updated|] == CountLine("Removed", |d.removed|)
  {
    var a, u, r := SortedList(d.added), SortedList(d.updated), SortedList(d.removed);
    ReportHeadings(rosdistro, oldIndex, newIndex, a, u, r, SortedList(maintainers), CoreVersion);
  }

  /** A set's members all have a `Version` exactly when the members of an
      arrangement of it do. */
  lemma NewVersionedInOrder(newIndex: Index, names: set<string>, order: seq<string>)
    requires forall y :: y in order <==> y in names
    ensures NewVersioned(newIndex, names) <==>
      forall i :: 0 <= i < |order| ==> order[i] in newIndex && "Version" in newIndex[order[i]]
  {
    if forall i :: 0 <= i < |order| ==> order[i] in newIndex && "Version" in newIndex[order[i]] {
      forall p | p in names ensures p in newIndex && "Version" in newIndex[p] {
        var i :| 0 <= i < |order| && order[i] == p;
      }
    }
  }

  lemma BothVersionedInOrder(oldIndex: Index, newIndex: Index, names: set<string>, order: seq<string>)
    requires forall y :: y in order <==> y in names
    requires BothVersioned(oldIndex, newIndex, names)
    ensures forall i :: 0 <= i < |order| ==>
      order[i] in newIndex && order[i] in oldIndex && "Version" in newIndex[order[i]] && "Version" in oldIndex[order[i]]
  {
    forall i | 0 <= i < |order|
      ensures order[i] in newIndex && order[i] in oldIndex && "Version" in newIndex[order[i]] && "Version" in oldIndex[order[i]]
    {
      assert order[i] in names;
    }
  }

  /** The `out += ...` of one line of the announcement. */
  method AppendLine(out: string, ghost lines: seq<string>, line: string) returns (out': string, ghost lines': seq<string>)
    requires out == Unlines(lines)
    ensures lines' == lines + [line] && out' == Unlines(lines')
  {
    lines' := lines + [line];
    assert lines'[..|lines|] == lines;
    out' := out + line + "\n";
  }

  /** The `out += ...` of one more line of a section whose first lines are
      already written after `lines`. */
  method AppendSectionLine(out: string, ghost lines: seq<string>, ghost section: seq<string>, line: string)
    returns (out': string)
    requires out == Unlines(lines + section)
    ensures out' == Unlines(lines + (section + [line]))
  {
    ghost var written;
    out', written := AppendLine(out, lines + section, line);
    assert written == lines + (section + [line]);
  }

  /** The loop over `sorted(added_packages)`; a package without a `Version`
      raises `KeyError('Version')`. */
  method AppendAddedLines(out: string, ghost lines: seq<string>, added: seq<string>, newIndex: Index, core: string -> string)
    returns (res: Result<string, string>, ghost lines': seq<string>)
    requires out == Unlines(lines) && forall i :: 0 <= i < |added| ==> added[i] in newIndex
    ensures (forall i :: 0 <= i < |added| ==> "Version" in newIndex[added[i]]) ==>
      lines' == lines + AddedLines(added, |added|, newIndex, core) && res == Success(Unlines(lines'))
    ensures !(forall i :: 0 <= i < |added| ==> "Version" in newIndex[added[i]]) ==> res == Failure("Version")
  {
    var text := out;
    lines' := lines;
    assert lines + [] == lines;
    for i := 0 to |added|
      invariant forall j :: 0 <= j < i ==> "Version" in newIndex[added[j]]
      invariant text == Unlines(lines + AddedLines(added, i, newIndex, core))
    {
      var p := added[i];
      if "Version" !in newIndex[p] {
        res := Failure("Version");
        return;
      }
      text := AppendSectionLine(text, lines, AddedLines(added, i, newIndex, core), AddedLine(p, core(VersionIn(newIndex, p))));
      assert forall j :: 0 <= j < i + 1 ==> "Version" in newIndex[added[j]] by {
        forall j | 0 <= j < i + 1 ensures "Version" in newIndex[added[j]] {
          if j == i { assert added[j] == p; }
        }
      }
    }
    lines' := lines + AddedLines(added, |added|, newIndex, core);
    res := Success(text);
  }

  /** The loop over `sorted(updated_packages)`. */
  method AppendUpdatedLines(out: string, ghost lines: seq<string>, updated: seq<string>, oldIndex: Index, newIndex: Index, core: string -> string)
    returns (out': string, ghost lines': seq<string>)
    requires out == Unlines(lines)
    requires forall i :: 0 <= i < |updated| ==>
      updated[i] in newIndex && updated[i] in oldIndex && "Version" in newIndex[updated[i]] && "Version" in oldIndex[updated[i]]
    ensures lines' == lines + UpdatedLines(updated, |updated|, oldIndex, newIndex, core) && out' == Unlines(lines')
  {
    out' := out;
    assert lines + [] == lines;
    for i := 0 to |updated|
      invariant out' == Unlines(lines + UpdatedLines(updated, i, oldIndex, newIndex, core))
    {
      var p := updated[i];
      out' := AppendSectionLine(out', lines, UpdatedLines(updated, i, oldIndex, newIndex, core),
                                UpdatedLine(p, core(VersionIn(oldIndex, p)), core(VersionIn(newIndex, p))));
    }
    lines' := lines + UpdatedLines(updated, |updated|, oldIndex, newIndex, core);
  }

  /** The loop over `sorted(removed_packages)`. */
  method AppendRemovedLines(out: string, ghost lines: seq<string>, removed: seq<string>)
    returns (out': string, ghost lines': seq<string>)
    requires out == Unlines(lines)
    ensures lines' == lines + RemovedLines(removed, |removed|) && out' == Unlines(lines')
  {
    out' := out;
    assert lines + [] == lines;
    for i := 0 to |removed|
      invariant out' == Unlines(lines + RemovedLines(removed, i))
    {
      out' := AppendSectionLine(out', lines, RemovedLines(removed, i), RemovedLine(removed[i]));
    }
    lines' := lines + RemovedLines(removed, |removed|);
  }

  /** The loop over `sorted(maintainers)`. */
  method AppendMaintainerLines(out: string, ghost lines: seq<string>, maintainers: seq<string>)
    returns (out': string, ghost lines': seq<string>)
    requires out == Unlines(lines)
    ensures lines' == lines + MaintainerLines(maintainers, |maintainers|) && out' == Unlines(lines')
  {
    out' := out;
    assert lines + [] == lines;
    for i := 0 to |maintainers|
      invariant out' == Unlines(lines + MaintainerLines(maintainers, i))
    {
      out' := AppendSectionLine(out', lines, MaintainerLines(maintainers, i), MaintainerLine(maintainers[i]));
    }
    lines' := lines + MaintainerLines(maintainers, |maintainers|);
  }

  /** The `out += ...` statements of `compute_annoucement`, given the sorted
      sections: an added package without a `Version` raises
      `KeyError('Version')`. */
  method RenderLines(rosdistro: string, oldIndex: Index, newIndex: Index, a: seq<string>, u: seq<string>,
                     r: seq<string>, m: seq<string>) returns (res: Result<string, string>)
    requires forall i :: 0 <= i < |a| ==> a[i] in newIndex
    requires forall i :: 0 <= i < |u| ==>
      u[i] in newIndex && u[i] in oldIndex && "Version" in newIndex[u[i]] && "Version" in oldIndex[u[i]]
    ensures (forall i :: 0 <= i < |a| ==> "Version" in newIndex[a[i]]) ==>
      res == Success(Unlines(ReportLines(rosdistro, oldIndex, newIndex, a, u, r, m, CoreVersion)))
    ensures !(forall i :: 0 <= i < |a| ==> "Version" in newIndex[a[i]]) ==> res == Failure("Version")
  {
    var out := "";
    ghost var lines: seq<string> := [];
    out, lines := AppendLine(out, lines, "Updates to " + rosdistro);
    assert lines == ["Updates to " + rosdistro];
    out, lines := AppendLine(out, lines, CountLine("Added", |a|));
    var addedResult;
    addedResult, lines := AppendAddedLines(out, lines, a, newIndex, CoreVersion);
    if addedResult.Failure? {
      return addedResult;
    }
    out := addedResult.value;
    out, lines := AppendLine(out, lines, "");
    out, lines := AppendLine(out, lines, CountLine("Updated", |u|));
    out, lines := AppendUpdatedLines(out, lines, u, oldIndex, newIndex, CoreVersion);
    out, lines := AppendLine(out, lines, "");
    out, lines := AppendLine(out, lines, CountLine("Removed", |r|));
    out, lines := AppendRemovedLines(out, lines, r);
    out, lines := AppendLine(out, lines, "");
    out, lines := AppendLine(out, lines, Thanks);
    out, lines := AppendMaintainerLines(out, lines, m);
    assert lines == ReportLines(rosdistro, oldIndex, newIndex, a, u, r, m, CoreVersion);
    return Success(out);
  }

  /** The rendering part of `compute_annoucement`: each section is walked in
      `sorted` order, and an added package without a `Version` raises
      `KeyError('Version')`. */
  method Render(rosdistro: string, oldIndex: Index, newIndex: Index, d: Diff, maintainers: set<string>) returns (res: Result<string, string>)
    requires d.added <= newIndex.Keys && BothVersioned(oldIndex, newIndex, d.updated)
    ensures res == if NewVersioned(newIndex, d.added) then Success(Report(rosdistro, oldIndex, newIndex, d, maintainers)) else Failure("Version")
  {
    var added := SortSet(d.added);
    NewVersionedInOrder(newIndex, d.added, added);
    assert forall i :: 0 <= i < |added| ==> added[i] in newIndex by {
      forall i | 0 <= i < |added| ensures added[i] in newIndex {
        assert added[i] in d.added;
      }
    }
    var updated := SortSet(d.updated);
    BothVersionedInOrder(oldIndex, newIndex, d.updated, updated);
    var removed := SortSet(d.removed);
    var names := SortSet(maintainers);
    res := RenderLines(rosdistro, oldIndex, newIndex, added, updated, removed, names);
  }

  /** What `compute_annoucement(rosdistro, pf_old, pf_new)` returns, or the key
      of the `KeyError` it raises. */
  ghost function Announcement(rosdistro: string, oldStanzas: seq<Stanza>, newStanzas: seq<Stanza>): Result<string, string> {
    match Collect(oldStanzas, rosdistro)
    case Failure(e) => Failure(e)
    case Success(oldIndex) =>
      match Collect(newStanzas, rosdistro)
      case Failure(e) => Failure(e)
      case Success(newIndex) =>
        if !Versioned(oldIndex, newIndex) then Failure("Version")
        else
          var d := DiffOf(oldIndex, newIndex);
          if !Maintained(newIndex, d.added + d.updated) then Failure("Maintainer")
          else if !NewVersioned(newIndex, d.added) then Failure("Version")
          else Success(Report(rosdistro, oldIndex, newIndex, d, MaintainersOf(newIndex, d.added + d.updated)))
  }

  /** `compute_annoucement`. */
  method ComputeAnnouncement(rosdistro: string, oldStanzas: seq<Stanza>, newStanzas: seq<Stanza>) returns (res: Result<string, string>)
    ensures res == Announcement(rosdistro, oldStanzas, newStanzas)
  {
    var oldResult := CollectPackages(oldStanzas, rosdistro);
    if oldResult.Failure? {
      return Failure(oldResult.error);
    }
    var oldIndex := oldResult.value;
    var newResult := CollectPackages(newStanzas, rosdistro);
    if newResult.Failure? {
      return Failure(newResult.error);
    }
    var newIndex := newResult.value;
    var updatedResult := ComputeUpdated(oldIndex, newIndex);
    if updatedResult.Failure? {
      return Failure(updatedResult.error);
    }
    var updated := updatedResult.value;
    var added := newIndex.Keys - oldIndex.Keys;
    var removed := oldIndex.Keys - newIndex.Keys;
    var d := Diff(added, updated, removed);
    assert d == DiffOf(oldIndex, newIndex);
    var maintainersResult := CollectMaintainers(newIndex, added + updated);
    if maintainersResult.Failure? {
      return Failure(maintainersResult.error);
    }
    res := Render(rosdistro, oldIndex, newIndex, d, maintainersResult.value);
  }
}
