/** The release entries both scripts read from `releases.xml`, and the
    ordered split of those entries into a stable and a snapshot section that
    both `.each` loops perform. */
module ReleaseData {
  import opened Classifier

  /** One `<release>` element: the text of its `<version>` and the texts of
      its `<value>` children (the Scala versions), in document order. */
  datatype Release = Release(version: string, scalaVersions: seq<string>)

  /** jQuery's `.text()` on a set of matched elements: their texts
      concatenated in document order. */
  function TextOf(nodes: seq<string>): (t: string)
    ensures nodes == [] ==> t == ""
    ensures |nodes| == 1 ==> t == nodes[0]
  {
    if nodes == [] then "" else nodes[0] + TextOf(nodes[1..])
  }

  /** The text of two runs of matched elements is the text of the first
      followed by the text of the second. */
  lemma {:induction false} TextOfAppend(a: seq<string>, b: seq<string>)
    ensures TextOf(a + b) == TextOf(a) + TextOf(b)
  {
    if a == [] {
      assert a + b == b;
    } else {
      assert (a + b)[0] == a[0];
      assert (a + b)[1..] == a[1..] + b;
      TextOfAppend(a[1..], b);
    }
  }

  /** The entry the loops see for one `<release>`: `.find('version').text()`
      and the text of each `<value>`. */
  function ReadRelease(versionNodes: seq<string>, valueNodes: seq<string>): (r: Release)
    ensures r.scalaVersions == valueNodes
    ensures versionNodes == [] ==> r.version == ""
  {
    Release(TextOf(versionNodes), valueNodes)
  }

  /** The number of entries classified stable. */
  function CountStable(rs: seq<Release>): (n: nat)
    ensures n <= |rs|
  {
    if rs == [] then 0
    else (if IsStable(rs[0].version) then 1 else 0) + CountStable(rs[1..])
  }

  /** The fragments, in entry order, of the entries whose classification
      is `stable`: what the loop appends to the stable container (`true`) or to
      the snapshot container (`false`). */
  function Section(rs: seq<Release>, fragment: Release -> string, stable: bool): seq<string>
  {
    if rs == [] then []
    else
      (if IsStable(rs[0].version) == stable then [fragment(rs[0])] else [])
      + Section(rs[1..], fragment, stable)
  }

  /** Where entry `i` lands in the section of its class: after every earlier
      entry of the same class. */
  function Position(rs: seq<Release>, i: nat, stable: bool): nat
    requires i <= |rs|
  {
    if stable then CountStable(rs[..i]) else i - CountStable(rs[..i])
  }

  /** Each section holds one fragment per entry of its class, so the two
      sections together hold one per entry. */
  lemma {:induction false} SectionLength(rs: seq<Release>, fragment: Release -> string, stable: bool)
    ensures |Section(rs, fragment, stable)| == if stable then CountStable(rs) else |rs| - CountStable(rs)
    ensures |Section(rs, fragment, true)| + |Section(rs, fragment, false)| == |rs|
  {
    if rs != [] {
      SectionLength(rs[1..], fragment, true);
      SectionLength(rs[1..], fragment, false);
    }
  }

  lemma {:induction false} CountStableAppend(a: seq<Release>, b: seq<Release>)
    ensures CountStable(a + b) == CountStable(a) + CountStable(b)
  {
    if a == [] {
      assert a + b == b;
    } else {
      assert (a + b)[0] == a[0];
      assert (a + b)[1..] == a[1..] + b;
      CountStableAppend(a[1..], b);
    }
  }

  /** One more entry adds its fragment at the end of its own section and
      leaves the other section as it was. */
  lemma {:induction false} SectionSnoc(rs: seq<Release>, r: Release, fragment: Release -> string, stable: bool)
    ensures Section(rs + [r], fragment, stable)
         == Section(rs, fragment, stable) + (if IsStable(r.version) == stable then [fragment(r)] else [])
  {
    if rs == [] {
      assert rs + [r] == [r];
    } else {
      assert (rs + [r])[1..] == rs[1..] + [r];
      SectionSnoc(rs[1..], r, fragment, stable);
    }
  }

  /** The loop step: one more entry extends the section of its class by its
      fragment and leaves the other section as it was. */
  lemma SectionStep(rs: seq<Release>, n: nat, fragment: Release -> string, stable: bool)
    requires n < |rs|
    ensures IsStable(rs[n].version) == stable
        ==> Section(rs[..n + 1], fragment, stable) == Section(rs[..n], fragment, stable) + [fragment(rs[n])]
    ensures IsStable(rs[n].version) != stable
        ==> Section(rs[..n + 1], fragment, stable) == Section(rs[..n], fragment, stable)
  {
    assert rs[..n + 1] == rs[..n] + [rs[n]];
    SectionSnoc(rs[..n], rs[n], fragment, stable);
    assert Section(rs[..n], fragment, stable) + [] == Section(rs[..n], fragment, stable);
  }

  /** Positions past the first entry are those in the rest, shifted by
      the first entry when it has the same class. */
  lemma PositionCons(rs: seq<Release>, j: nat, stable: bool)
    requires j < |rs|
    ensures Position(rs, j + 1, stable)
         == (if IsStable(rs[0].version) == stable then 1 else 0) + Position(rs[1..], j, stable)
  {
    assert rs[..j + 1] == [rs[0]] + rs[1..][..j];
    CountStableAppend([rs[0]], rs[1..][..j]);
    assert CountStable([rs[0]]) == if IsStable(rs[0].version) then 1 else 0;
  }

  /** Every entry's fragment appears in the section of its class, at the
      position given by the entries of that class before it. */
  lemma {:induction false} PlacedAt(rs: seq<Release>, fragment: Release -> string, i: nat)
    requires i < |rs|
    ensures var stable := IsStable(rs[i].version);
      Position(rs, i, stable) < |Section(rs, fragment, stable)|
      && Section(rs, fragment, stable)[Position(rs, i, stable)] == fragment(rs[i])
  {
    var stable := IsStable(rs[i].version);
    if i == 0 {
      assert rs[..0] == [];
    } else {
      PlacedAt(rs[1..], fragment, i - 1);
      assert rs[1..][i - 1] == rs[i];
      PositionCons(rs, i - 1, stable);
    }
  }

  /** Every slot of a section is the position of some entry of that
      class. */
  lemma {:induction false} SlotOwner(rs: seq<Release>, stable: bool, k: nat)
    requires k < if stable then CountStable(rs) else |rs| - CountStable(rs)
    ensures exists i :: 0 <= i < |rs| && IsStable(rs[i].version) == stable && Position(rs, i, stable) == k
  {
    var head := if IsStable(rs[0].version) == stable then 1 else 0;
    if head == 1 && k == 0 {
      assert rs[..0] == [];
      assert IsStable(rs[0].version) == stable && Position(rs, 0, stable) == 0;
    } else {
      SlotOwner(rs[1..], stable, k - head);
      var j :| 0 <= j < |rs[1..]| && IsStable(rs[1..][j].version) == stable
        && Position(rs[1..], j, stable) == k - head;
      PositionCons(rs, j, stable);
      assert rs[j + 1] == rs[1..][j];
      assert IsStable(rs[j + 1].version) == stable && Position(rs, j + 1, stable) == k;
    }
  }

  /** Every slot of a section holds the fragment of some entry of that
      class: nothing else is appended. */
  lemma SectionFrom(rs: seq<Release>, fragment: Release -> string, stable: bool, k: nat)
    requires k < |Section(rs, fragment, stable)|
    ensures exists i :: (0 <= i < |rs| && IsStable(rs[i].version) == stable
                         && Position(rs, i, stable) == k && Section(rs, fragment, stable)[k] == fragment(rs[i]))
  {
    SectionLength(rs, fragment, stable);
    SlotOwner(rs, stable, k);
    var i :| 0 <= i < |rs| && IsStable(rs[i].version) == stable && Position(rs, i, stable) == k;
    PlacedAt(rs, fragment, i);
  }

  /** Entries of one class keep their relative order in its section. */
  lemma PositionsIncrease(rs: seq<Release>, i: nat, j: nat, stable: bool)
    requires i < j <= |rs|
    requires IsStable(rs[i].version) == stable
    ensures Position(rs, i, stable) < Position(rs, j, stable)
  {
    assert rs[..j] == rs[..i] + [rs[i]] + rs[i + 1..j];
    CountStableAppend(rs[..i] + [rs[i]], rs[i + 1..j]);
    CountStableAppend(rs[..i], [rs[i]]);
    assert CountStable([rs[i]]) == if IsStable(rs[i].version) then 1 else 0;
  }

  /** A release with no `<version>` element reads as the empty version,
      which is a snapshot: its fragment goes to the snapshot section alone. */
  lemma MissingVersionIsSnapshot(valueNodes: seq<string>, fragment: Release -> string)
    ensures var r := ReadRelease([], valueNodes);
      !IsStable(r.version)
      && Section([r], fragment, false) == [fragment(r)]
      && Section([r], fragment, true) == []
  {
  }
}
