/**
 * The `shuffle` action of random_order.py as a state transformer over a
 * directory: a map from file name to content. A directory listing is a
 * sequence naming every entry once, in whatever order the system gives;
 * renaming follows POSIX and silently replaces an existing target; the random
 * shuffle is an arbitrary permutation handed in by the caller.
 */
module RandomOrder {
  import opened Seqs
  import opened RandomOrderPatterns

  /** What a file holds; the passes move it and never look inside. */
  type Content = seq<bv8>

  type Dir = map<string, Content>

  /** `os.rename(src, dst)` on POSIX: the content of src moves to dst, replacing whatever dst held. */
  function Renamed(m: Dir, src: string, dst: string): (r: Dir)
    requires src in m
    ensures r.Keys == (m.Keys - {src}) + {dst}
    ensures r[dst] == m[src]
    ensures forall k :: k in m && k != src && k != dst ==> r[k] == m[k]
  {
    (m - {src})[dst := m[src]]
  }

  // ----- the first pass: sanitising -----

  /** One iteration of the first loop of shuffle: a selected name that sanitising changes is renamed. */
  function SanitizeStep(m: Dir, f: string): Dir
    requires f in m
  {
    if Selected(f) && Sanitize(f) != f then Renamed(m, f, Sanitize(f)) else m
  }

  /** The directory once the first loop has visited the names of `listing`, in order. */
  function SanitizeAll(m: Dir, listing: seq<string>): (r: Dir)
    requires Distinct(listing)
    requires forall i :: 0 <= i < |listing| ==> listing[i] in m
    ensures forall x :: x in m && x !in listing ==> x in r
  {
    if listing == [] then m
    else
      var init := listing[..|listing| - 1];
      assert listing == init + [listing[|listing| - 1]];
      SanitizeStep(SanitizeAll(m, init), listing[|listing| - 1])
  }

  /** The first loop visits the names one at a time: the name at position i is still present when its turn comes. */
  lemma SanitizeAllStep(m: Dir, listing: seq<string>, i: nat)
    requires Distinct(listing) && forall j :: 0 <= j < |listing| ==> listing[j] in m
    requires i < |listing|
    ensures listing[i] in SanitizeAll(m, listing[..i])
    ensures SanitizeAll(m, listing[..i + 1]) == SanitizeStep(SanitizeAll(m, listing[..i]), listing[i])
  {
    assert listing[..i + 1][..i] == listing[..i];
    assert listing[i] !in listing[..i];
  }

  // ----- the second pass: collecting and numbering -----

  predicate DistinctSources(files: seq<(string, string)>)
  {
    forall i, j :: 0 <= i < j < |files| ==> files[i].0 != files[j].0
  }

  predicate DistinctGroups(files: seq<(string, string)>)
  {
    forall i, j :: 0 <= i < j < |files| ==> files[i].1 != files[j].1
  }

  /** Each entry pairs a selected name with its group 2. */
  predicate WellFormed(files: seq<(string, string)>)
  {
    forall k :: 0 <= k < |files| ==> Selected(files[k].0) && files[k].1 == Group2(files[k].0)
  }

  /**
   * The list the second loop of shuffle builds: one (name, group 2) pair per
   * selected name of the listing, in listing order.
   */
  function Collected(listing: seq<string>): (files: seq<(string, string)>)
    ensures WellFormed(files)
  {
    if listing == [] then []
    else
      var init := listing[..|listing| - 1];
      var f := listing[|listing| - 1];
      if Selected(f) then Collected(init) + [(f, Group2(f))] else Collected(init)
  }

  /**
   * The collected list names exactly the selected names of the listing, and
   * names each once when the listing does.
   */
  lemma {:induction false} CollectedFacts(listing: seq<string>)
    ensures forall k :: 0 <= k < |Collected(listing)| ==> Collected(listing)[k].0 in listing
    ensures forall f :: f in listing && Selected(f) ==> exists k :: 0 <= k < |Collected(listing)| && Collected(listing)[k].0 == f
    ensures Distinct(listing) ==> DistinctSources(Collected(listing))
  {
    if listing != [] {
      var init := listing[..|listing| - 1];
      var f := listing[|listing| - 1];
      assert listing == init + [f];
      CollectedFacts(init);
      var c := Collected(init);
      if Selected(f) {
        assert Collected(listing)[|c|].0 == f;
      }
      assert forall k :: 0 <= k < |c| ==> Collected(listing)[k] == c[k];
      if Distinct(listing) {
        assert f !in init;
        assert Distinct(init);
      }
    }
  }

  /** The second loop of shuffle: collect (name, group 2) for each selected name of a listing. */
  method Collect(listing: seq<string>) returns (files: seq<(string, string)>)
    ensures files == Collected(listing)
  {
    files := [];
    for i := 0 to |listing|
      invariant files == Collected(listing[..i])
    {
      var f := listing[i];
      assert listing[..i + 1][..i] == listing[..i];
      var g := ShufflePattern(f);
      if g.Some? {
        files := files + [(f, g.value)];
      }
    }
    assert listing[..|listing|] == listing;
  }

  /**
   * The collected list after `random.shuffle`, with the random choice made
   * explicit as the permutation `perm`.
   */
  function Shuffled(listing: seq<string>, perm: seq<nat>): (files: seq<(string, string)>)
    requires IsPermutation(perm, |Collected(listing)|)
    ensures |files| == |Collected(listing)|
    ensures forall i :: 0 <= i < |files| ==> files[i] == Collected(listing)[perm[i]]
    ensures WellFormed(files)
    ensures forall k :: 0 <= k < |files| ==> files[k].0 in listing
    ensures Distinct(listing) ==> DistinctSources(files)
  {
    CollectedFacts(listing);
    Permuted(Collected(listing), perm)
  }

  /** The names moved by the numbering loop. */
  function SourceSet(files: seq<(string, string)>): set<string>
  {
    if files == [] then {} else SourceSet(files[..|files| - 1]) + {files[|files| - 1].0}
  }

  /** The names the numbering loop gives: position i becomes `{:02d}-` of i + 1 followed by its group 2. */
  function TargetSet(files: seq<(string, string)>): set<string>
  {
    NameSet(files, NewName)
  }

  /**
   * The names a naming function gives the entries of a list, entry k (from
   * 0) being named after k + 1 and its second component.
   */
  function NameSet(files: seq<(string, string)>, name: (nat, string) -> string): set<string>
  {
    if files == [] then {} else NameSet(files[..|files| - 1], name) + {name(|files|, files[|files| - 1].1)}
  }

  lemma {:induction false} NameSetHas(files: seq<(string, string)>, name: (nat, string) -> string, k: nat)
    requires k < |files|
    ensures name(k + 1, files[k].1) in NameSet(files, name)
  {
    var n := |files|;
    if k < n - 1 {
      var init := files[..n - 1];
      NameSetHas(init, name, k);
      assert files[k] == init[k];
    }
  }

  lemma {:induction false} NameSetOnly(files: seq<(string, string)>, name: (nat, string) -> string, x: string) returns (k: nat)
    requires x in NameSet(files, name)
    ensures k < |files| && name(k + 1, files[k].1) == x
  {
    var n := |files|;
    var init := files[..n - 1];
    if x in NameSet(init, name) {
      k := NameSetOnly(init, name, x);
      assert files[k] == init[k];
    } else {
      k := n - 1;
    }
  }

  lemma {:induction false} NameSetAvoids(files: seq<(string, string)>, name: (nat, string) -> string, x: string)
    requires forall k :: 0 <= k < |files| ==> name(k + 1, files[k].1) != x
    ensures x !in NameSet(files, name)
  {
    if x in NameSet(files, name) {
      var k := NameSetOnly(files, name, x);
    }
  }

  /** SourceSet holds the first components of the list and nothing else. */
  lemma {:induction false} SourceSetMembers(files: seq<(string, string)>)
    ensures forall k :: 0 <= k < |files| ==> files[k].0 in SourceSet(files)
    ensures forall x :: x in SourceSet(files) ==> exists k :: 0 <= k < |files| && files[k].0 == x
  {
    if files != [] {
      var init := files[..|files| - 1];
      SourceSetMembers(init);
      assert forall k :: 0 <= k < |init| ==> init[k] == files[k];
    }
  }

  /** TargetSet holds the new name of each position and nothing else. */
  lemma TargetSetMembers(files: seq<(string, string)>)
    ensures forall k :: 0 <= k < |files| ==> NewName(k + 1, files[k].1) in TargetSet(files)
    ensures forall x :: x in TargetSet(files) ==> exists k :: 0 <= k < |files| && NewName(k + 1, files[k].1) == x
  {
    forall k | 0 <= k < |files|
      ensures NewName(k + 1, files[k].1) in TargetSet(files)
    {
      TargetSetHas(files, k);
    }
    forall x | x in TargetSet(files)
      ensures exists k :: 0 <= k < |files| && NewName(k + 1, files[k].1) == x
    {
      var k := TargetSetOnly(files, x);
    }
  }

  lemma TargetSetHas(files: seq<(string, string)>, k: nat)
    requires k < |files|
    ensures NewName(k + 1, files[k].1) in TargetSet(files)
  {
    NameSetHas(files, NewName, k);
  }

  lemma TargetSetOnly(files: seq<(string, string)>, x: string) returns (k: nat)
    requires x in TargetSet(files)
    ensures k < |files| && NewName(k + 1, files[k].1) == x
  {
    k := NameSetOnly(files, NewName, x);
  }

  /** The directory once the numbering loop has renamed the entries of the shuffled list `files`, in order. */
  function PrefixAll(m: Dir, files: seq<(string, string)>): (r: Dir)
    requires DistinctSources(files)
    requires forall k :: 0 <= k < |files| ==> files[k].0 in m
    ensures forall x :: x in m && x !in SourceSet(files) ==> x in r
  {
    if files == [] then m
    else
      var n := |files|;
      var init := files[..n - 1];
      SourceSetMembers(init);
      Renamed(PrefixAll(m, init), files[n - 1].0, NewName(n, files[n - 1].1))
  }

  // ----- what the numbering loop does -----

  /** Distinct positions are given distinct new names. */
  ghost predicate DistinctTargets(files: seq<(string, string)>)
  {
    forall j, k :: 0 <= j < k < |files| ==> NewName(j + 1, files[j].1) != NewName(k + 1, files[k].1)
  }

  /** No entry is renamed onto the current name of another entry. */
  ghost predicate NoChains(files: seq<(string, string)>)
  {
    forall j, k :: 0 <= j < |files| && 0 <= k < |files| && j != k ==> files[j].0 != NewName(k + 1, files[k].1)
  }

  /** No name of the directory that the loop leaves in place is one of the new names. */
  ghost predicate NoStrayTargets(m: Dir, files: seq<(string, string)>)
  {
    forall x :: x in m && x !in SourceSet(files) ==> x !in TargetSet(files)
  }

  /** A name that is no entry's new name is not in TargetSet. */
  lemma NotATarget(files: seq<(string, string)>, x: string)
    requires forall k :: 0 <= k < |files| ==> NewName(k + 1, files[k].1) != x
    ensures x !in TargetSet(files)
  {
    NameSetAvoids(files, NewName, x);
  }

  /** A selected name is never the new name given to a different group 2. */
  lemma NotRenamedOnto(f: string, n: nat, g: string)
    requires Selected(f) && |g| >= 4 && IsPdfAt(g, |g| - 4) && Group2(f) != g
    ensures f != NewName(n, g)
  {
    NewNameParts(n, g);
  }

  /** Well-formed entries with distinct groups never clash: the loop renames each onto a fresh name. */
  lemma GroupsPreventClashes(files: seq<(string, string)>)
    requires WellFormed(files) && DistinctGroups(files)
    ensures DistinctTargets(files) && NoChains(files)
  {
    GroupsPreventChains(files);
    GroupsGiveDistinctTargets(files);
  }

  lemma GroupsPreventChains(files: seq<(string, string)>)
    requires WellFormed(files) && DistinctGroups(files)
    ensures NoChains(files)
  {
    forall j, k | 0 <= j < |files| && 0 <= k < |files| && j != k
      ensures files[j].0 != NewName(k + 1, files[k].1)
    {
      NotRenamedOnto(files[j].0, k + 1, files[k].1);
    }
  }

  lemma GroupsGiveDistinctTargets(files: seq<(string, string)>)
    requires WellFormed(files)
    ensures DistinctTargets(files)
  {
    forall j, k | 0 <= j < k < |files|
      ensures NewName(j + 1, files[j].1) != NewName(k + 1, files[k].1)
    {
      var (f, g) := files[j];
      var (f', g') := files[k];
      Group2Pdf(f, g);
      Group2Pdf(f', g');
      NewNameInjective(j + 1, g, k + 1, g');
    }
  }

  /** The hypotheses of PrefixAllFacts hold of the list without its last entry. */
  lemma InitHypotheses(m: Dir, files: seq<(string, string)>)
    requires |files| > 0
    requires DistinctSources(files) && DistinctTargets(files) && NoChains(files)
    requires NoStrayTargets(m, files)
    ensures var init := files[..|files| - 1];
      && DistinctSources(init) && DistinctTargets(init) && NoChains(init)
      && files[|files| - 1].0 !in SourceSet(init)
      && files[|files| - 1].0 !in TargetSet(init)
      && NewName(|files|, files[|files| - 1].1) !in TargetSet(init)
      && NoStrayTargets(m, init)
  {
    var n := |files|;
    var init := files[..n - 1];
    var s := files[n - 1].0;
    assert forall k :: 0 <= k < |init| ==> init[k] == files[k];
    SourceSetMembers(init);
    forall k | 0 <= k < |init|
      ensures NewName(k + 1, init[k].1) != s
      ensures NewName(k + 1, init[k].1) != NewName(n, files[n - 1].1)
    {
      assert init[k] == files[k];
    }
    NotATarget(init, s);
    NotATarget(init, NewName(n, files[n - 1].1));
  }

  /**
   * One rename of the numbering loop, on any directory: moving a fresh
   * source to a fresh target adds one name to each side of the bookkeeping.
   */
  lemma RenameStep(m: Dir, r0: Dir, moved: set<string>, made: set<string>, s: string, t: string)
    requires r0.Keys == (m.Keys - moved) + made
    requires forall x :: x in m && x !in moved ==> r0[x] == m[x]
    requires s in m && s !in moved && s !in made && t !in made
    requires t in m ==> t in moved || t == s
    ensures s in r0
    ensures Renamed(r0, s, t).Keys == (m.Keys - (moved + {s})) + (made + {t})
    ensures Renamed(r0, s, t)[t] == m[s]
    ensures forall y :: y in made ==> Renamed(r0, s, t)[y] == r0[y]
    ensures forall x :: x in m && x !in moved + {s} && x != t ==> Renamed(r0, s, t)[x] == m[x]
  {
  }

  /**
   * When the new names are distinct, no entry is renamed onto another
   * entry's name and no other name of the directory is one of the new names,
   * the numbering loop is a clean bijection: each moved file turns up under
   * its new name with its own content, and every other entry stays as it
   * was.
   */
  lemma {:induction false} PrefixAllFacts(m: Dir, files: seq<(string, string)>)
    requires DistinctSources(files) && DistinctTargets(files) && NoChains(files)
    requires forall k :: 0 <= k < |files| ==> files[k].0 in m
    requires NoStrayTargets(m, files)
    ensures PrefixAll(m, files).Keys == (m.Keys - SourceSet(files)) + TargetSet(files)
    ensures forall i :: 0 <= i < |files| ==> NewName(i + 1, files[i].1) in PrefixAll(m, files)
    ensures forall i :: 0 <= i < |files| ==> PrefixAll(m, files)[NewName(i + 1, files[i].1)] == m[files[i].0]
    ensures forall x :: x in m && x !in SourceSet(files) ==> PrefixAll(m, files)[x] == m[x]
  {
    var n := |files|;
    if n > 0 {
      var init := files[..n - 1];
      var s := files[n - 1].0;
      var t := NewName(n, files[n - 1].1);
      InitHypotheses(m, files);
      PrefixAllFacts(m, init);
      var r0 := PrefixAll(m, init);
      RenameStep(m, r0, SourceSet(init), TargetSet(init), s, t);
      var r := PrefixAll(m, files);
      assert r == Renamed(r0, s, t);
      assert SourceSet(files) == SourceSet(init) + {s} && TargetSet(files) == TargetSet(init) + {t};
      forall i | 0 <= i < n
        ensures NewName(i + 1, files[i].1) in r && r[NewName(i + 1, files[i].1)] == m[files[i].0]
      {
        if i < n - 1 {
          assert files[i] == init[i];
          TargetSetHas(init, i);
        }
      }
    }
  }

  // ----- what the second pass does to a whole directory -----

  /** The names of a directory that the shuffle pattern selects. */
  function SelectedNames(m: Dir): set<string>
  {
    set x | x in m && Selected(x)
  }

  /** Distinct selected names of the directory have distinct group 2. */
  ghost predicate GroupsDistinct(m: Dir)
  {
    forall x, y :: x in m && y in m && x != y && Selected(x) && Selected(y) ==> Group2(x) != Group2(y)
  }

  /** A list with distinct sources has as many sources as entries. */
  lemma {:induction false} SourceSetSize(files: seq<(string, string)>)
    requires DistinctSources(files)
    ensures |SourceSet(files)| == |files|
  {
    if files != [] {
      var init := files[..|files| - 1];
      assert forall k :: 0 <= k < |init| ==> init[k] == files[k];
      SourceSetSize(init);
      SourceSetMembers(init);
    }
  }

  /** The shuffled list moves exactly the selected names of the directory. */
  lemma ShuffledSources(m: Dir, listing: seq<string>, perm: seq<nat>)
    requires IsListing(listing, m.Keys)
    requires IsPermutation(perm, |Collected(listing)|)
    ensures SourceSet(Shuffled(listing, perm)) == SelectedNames(m)
  {
    ShuffledSourcesSelected(m, listing, perm);
    SelectedAreShuffled(m, listing, perm);
  }

  lemma ShuffledSourcesSelected(m: Dir, listing: seq<string>, perm: seq<nat>)
    requires IsListing(listing, m.Keys)
    requires IsPermutation(perm, |Collected(listing)|)
    ensures SourceSet(Shuffled(listing, perm)) <= SelectedNames(m)
  {
    SourceSetMembers(Shuffled(listing, perm));
  }

  lemma SelectedAreShuffled(m: Dir, listing: seq<string>, perm: seq<nat>)
    requires IsListing(listing, m.Keys)
    requires IsPermutation(perm, |Collected(listing)|)
    ensures SelectedNames(m) <= SourceSet(Shuffled(listing, perm))
  {
    forall x | x in SelectedNames(m)
      ensures x in SourceSet(Shuffled(listing, perm))
    {
      assert x in listing;
      SelectedIsShuffled(listing, perm, x);
    }
  }

  /** A selected name of the listing is moved by the numbering loop, wherever the shuffle puts it. */
  lemma SelectedIsShuffled(listing: seq<string>, perm: seq<nat>, x: string)
    requires IsPermutation(perm, |Collected(listing)|)
    requires x in listing && Selected(x)
    ensures x in SourceSet(Shuffled(listing, perm))
  {
    var c := Collected(listing);
    CollectedFacts(listing);
    var k :| 0 <= k < |c| && c[k].0 == x;
    PermutationHits(perm, |c|, k);
    var i :| 0 <= i < |c| && perm[i] == k;
    var files := Shuffled(listing, perm);
    assert files[i].0 == x;
    SourceSetMembers(files);
  }

  /** Under GroupsDistinct the shuffled list has distinct groups. */
  lemma ShuffledGroupsDistinct(m: Dir, listing: seq<string>, perm: seq<nat>)
    requires IsListing(listing, m.Keys)
    requires IsPermutation(perm, |Collected(listing)|)
    requires GroupsDistinct(m)
    ensures DistinctGroups(Shuffled(listing, perm))
  {
    var files := Shuffled(listing, perm);
    forall i, j | 0 <= i < j < |files|
      ensures files[i].1 != files[j].1
    {
      assert files[i].0 in m && files[j].0 in m;
    }
  }

  /** No name the numbering loop leaves alone is one of its new names. */
  lemma ShuffledNoStray(m: Dir, listing: seq<string>, perm: seq<nat>)
    requires IsListing(listing, m.Keys)
    requires IsPermutation(perm, |Collected(listing)|)
    ensures NoStrayTargets(m, Shuffled(listing, perm))
  {
    var files := Shuffled(listing, perm);
    ShuffledSources(m, listing, perm);
    forall x | x in m && x !in SourceSet(files)
      ensures x !in TargetSet(files)
    {
      assert x !in SelectedNames(m);
      UnselectedIsNoTarget(files, x);
    }
  }

  /** Every new name is selected, so a name that is not is none of them. */
  lemma UnselectedIsNoTarget(files: seq<(string, string)>, x: string)
    requires WellFormed(files) && !Selected(x)
    ensures x !in TargetSet(files)
  {
    forall k | 0 <= k < |files|
      ensures NewName(k + 1, files[k].1) != x
    {
      NewNameParts(k + 1, files[k].1);
    }
    NotATarget(files, x);
  }

  /**
   * The second pass over a directory whose selected names have distinct
   * group 2: it renames every selected name, and only those, to
   * `{:02d}-<group 2>` with the numbers 1, 2, ... in shuffled order, keeps
   * every content, and reports as many files as there are selected names.
   */
  lemma PrefixPassFacts(m: Dir, listing: seq<string>, perm: seq<nat>)
    requires IsListing(listing, m.Keys)
    requires IsPermutation(perm, |Collected(listing)|)
    requires GroupsDistinct(m)
    ensures var files := Shuffled(listing, perm);
      var r := PrefixAll(m, files);
      && |files| == |SelectedNames(m)|
      && r.Keys == (m.Keys - SelectedNames(m)) + TargetSet(files)
      && (forall i :: 0 <= i < |files| ==> NewName(i + 1, files[i].1) in r && r[NewName(i + 1, files[i].1)] == m[files[i].0])
      && (forall x :: x in m && !Selected(x) ==> x in r && r[x] == m[x])
  {
    var files := Shuffled(listing, perm);
    ShuffledSources(m, listing, perm);
    SourceSetSize(files);
    ShuffledGroupsDistinct(m, listing, perm);
    GroupsPreventClashes(files);
    ShuffledNoStray(m, listing, perm);
    PrefixAllFacts(m, files);
  }

  /**
   * Without distinct groups the second pass loses files: when `a.pdf` and
   * `01-a.pdf` are both present and shuffled in that order, the first rename
   * replaces `01-a.pdf`, which is then renamed to `02-a.pdf`.
   */
  lemma PrefixCollision(a: string, c1: Content, c2: Content)
    requires Selected(a) && a != NewName(1, Group2(a))
    ensures var g := Group2(a);
      var b := NewName(1, g);
      PrefixAll(map[a := c1, b := c2], [(a, g), (b, g)]) == map[NewName(2, g) := c1]
  {
    var g := Group2(a);
    var b := NewName(1, g);
    var t := NewName(2, g);
    var m := map[a := c1, b := c2];
    PrefixTwo(m, a, g, b, g);
    var r1 := Renamed(m, a, b);
    assert r1.Keys == {b} && r1[b] == c1;
    var r := Renamed(r1, b, t);
    assert r.Keys == {t} && r[t] == c1 by {
      Group2Pdf(a, g);
      NewNameInjective(1, g, 2, g);
    }
  }

  /** The prefix pass over two files is two renames in list order. */
  lemma PrefixTwo(m: Dir, s1: string, g1: string, s2: string, g2: string)
    requires s1 in m && s2 in m && s1 != s2
    ensures s2 in Renamed(m, s1, NewName(1, g1))
    ensures PrefixAll(m, [(s1, g1), (s2, g2)]) == Renamed(Renamed(m, s1, NewName(1, g1)), s2, NewName(2, g2))
  {
    var files := [(s1, g1), (s2, g2)];
    assert files[..1] == [(s1, g1)] && files[..1][..0] == [];
    assert PrefixAll(m, files[..1]) == Renamed(m, s1, NewName(1, g1));
  }

  /** A file system directory, changed in place by the two passes of shuffle. */
  class Directory {
    var entries: Dir

    constructor (initial: Dir)
      ensures entries == initial
    {
      entries := initial;
    }

    /** `os.rename` on POSIX: an existing target is replaced without a check. */
    method Rename(src: string, dst: string)
      requires src in entries
      modifies this
      ensures entries == Renamed(old(entries), src, dst)
    {
      entries := Renamed(entries, src, dst);
    }

    /** The first loop of shuffle: rename each selected name whose sanitised form differs. */
    method SanitizePass(listing: seq<string>)
      requires IsListing(listing, entries.Keys)
      modifies this
      ensures entries == SanitizeAll(old(entries), listing)
    {
      for i := 0 to |listing|
        invariant entries == SanitizeAll(old(entries), listing[..i])
      {
        var f := listing[i];
        SanitizeAllStep(old(entries), listing, i);
        if Selected(f) {
          var newName := Sanitize(f);
          if newName != f {
            Rename(f, newName);
          }
        }
      }
      assert listing[..|listing|] == listing;
    }

    /**
     * The second and third loops of shuffle: collect (name, group 2) for each
     * selected name of a fresh listing, shuffle the list with `perm`, and
     * rename entry i to `{:02d}-` of i + 1 followed by its group 2. Returns
     * the number of files, which shuffle reports.
     */
    method PrefixPass(listing: seq<string>, perm: seq<nat>) returns (count: nat)
      requires IsListing(listing, entries.Keys)
      requires IsPermutation(perm, |Collected(listing)|)
      modifies this
      ensures count == |Collected(listing)|
      ensures entries == PrefixAll(old(entries), Shuffled(listing, perm))
    {
      var files := Collect(listing);
      files := Permuted(files, perm);
      assert files == Shuffled(listing, perm);
      NumberAll(files);
      count := |files|;
    }

    /** The third loop of shuffle: entry i of the shuffled list is renamed to `{:02d}-` of i + 1 and its group 2. */
    method NumberAll(files: seq<(string, string)>)
      requires DistinctSources(files)
      requires forall k :: 0 <= k < |files| ==> files[k].0 in entries
      modifies this
      ensures entries == PrefixAll(old(entries), files)
    {
      for i := 0 to |files|
        invariant entries == PrefixAll(old(entries), files[..i])
        invariant forall j :: i <= j < |files| ==> files[j].0 in entries
      {
        assert files[..i + 1][..i] == files[..i];
        Rename(files[i].0, NewName(i + 1, files[i].1));
      }
      assert files[..|files|] == files;
    }

    /**
     * `shuffle`: the sanitise pass over one listing, then the numbering pass
     * over a second listing taken afterwards.
     */
    method Shuffle(listing1: seq<string>, listing2: seq<string>, perm: seq<nat>) returns (count: nat)
      requires IsListing(listing1, entries.Keys)
      requires IsListing(listing2, SanitizeAll(entries, listing1).Keys)
      requires IsPermutation(perm, |Collected(listing2)|)
      modifies this
      ensures count == |Collected(listing2)|
      ensures entries == PrefixAll(SanitizeAll(old(entries), listing1), Shuffled(listing2, perm))
    {
      SanitizePass(listing1);
      count := PrefixPass(listing2, perm);
    }
  }

  // ----- what the sanitise pass guarantees -----

  /** Unselected entries are exactly as they were. */
  ghost predicate UnselectedKept(m: Dir, r: Dir)
  {
    forall k :: !Selected(k) ==> (k in r <==> k in m) && (k in r ==> r[k] == m[k])
  }

  /** Every selected entry holds the content of an original file that is either it or, once visited, sanitises to it. */
  ghost predicate SelectedFrom(m: Dir, done: seq<string>, r: Dir)
  {
    forall k :: k in r && Selected(k) ==>
      exists f :: f in m && Selected(f) && r[k] == m[f] && (f == k || (f in done && Sanitize(f) == k))
  }

  /** Each visited selected name has its sanitised form present, and is gone if it was not clean. */
  ghost predicate VisitedDone(done: seq<string>, r: Dir)
  {
    && (forall f :: f in done && Selected(f) ==> Sanitize(f) in r)
    && (forall f :: f in done && Selected(f) && !IsClean(f) ==> f !in r)
  }

  /** Names not yet visited are present, and those that are not clean still hold their own content. */
  ghost predicate PendingKept(m: Dir, done: seq<string>, r: Dir)
  {
    && (forall k :: k in m && k !in done ==> k in r)
    && (forall k :: k in m && k !in done && Selected(k) && !IsClean(k) ==> r[k] == m[k])
  }

  /** What holds of the directory once the first loop has visited the names in `done`. */
  ghost predicate SanitizeInvariant(m: Dir, done: seq<string>, r: Dir)
  {
    UnselectedKept(m, r) && SelectedFrom(m, done, r) && VisitedDone(done, r) && PendingKept(m, done, r)
  }

  lemma RenameKeepsUnselected(m: Dir, x: string, r': Dir)
    requires x in r' && Selected(x) && UnselectedKept(m, r')
    ensures UnselectedKept(m, Renamed(r', x, Sanitize(x)))
  {
    SanitizeFacts(x);
  }

  lemma RenameKeepsSelectedFrom(m: Dir, done: seq<string>, x: string, r': Dir)
    requires x in m && x in r' && r'[x] == m[x] && Selected(x)
    requires SelectedFrom(m, done, r')
    ensures SelectedFrom(m, done + [x], Renamed(r', x, Sanitize(x)))
  {
    var t := Sanitize(x);
    var r := Renamed(r', x, t);
    var done' := done + [x];
    forall k | k in r && Selected(k)
      ensures exists f :: f in m && Selected(f) && r[k] == m[f] && (f == k || (f in done' && Sanitize(f) == k))
    {
      if k == t {
        assert r[k] == m[x] && x in done';
      } else {
        var f :| f in m && Selected(f) && r'[k] == m[f] && (f == k || (f in done && Sanitize(f) == k));
        assert f in done ==> f in done';
      }
    }
  }

  lemma RenameKeepsVisited(done: seq<string>, x: string, r': Dir)
    requires x in r' && Selected(x) && !IsClean(x)
    requires VisitedDone(done, r')
    ensures VisitedDone(done + [x], Renamed(r', x, Sanitize(x)))
  {
    SanitizeFacts(x);
    forall f | f in done && Selected(f)
      ensures Sanitize(f) != x
    {
      SanitizeFacts(f);
    }
  }

  lemma RenameKeepsPending(m: Dir, done: seq<string>, x: string, r': Dir)
    requires x in r' && Selected(x) && !IsClean(x)
    requires PendingKept(m, done, r')
    ensures PendingKept(m, done + [x], Renamed(r', x, Sanitize(x)))
  {
    SanitizeFacts(x);
  }

  /** One rename of the first loop keeps SanitizeInvariant. */
  lemma SanitizeRenameKeeps(m: Dir, done: seq<string>, x: string, r': Dir)
    requires x in m && x !in done && Selected(x) && !IsClean(x)
    requires SanitizeInvariant(m, done, r')
    ensures x in r' && SanitizeInvariant(m, done + [x], Renamed(r', x, Sanitize(x)))
  {
    RenameKeepsUnselected(m, x, r');
    RenameKeepsSelectedFrom(m, done, x, r');
    RenameKeepsVisited(done, x, r');
    RenameKeepsPending(m, done, x, r');
  }

  /** Facts about a partly done first pass, the induction behind SanitizePassResult. */
  lemma {:induction false} SanitizeAllFacts(m: Dir, listing: seq<string>)
    requires Distinct(listing)
    requires forall i :: 0 <= i < |listing| ==> listing[i] in m
    ensures SanitizeInvariant(m, listing, SanitizeAll(m, listing))
  {
    if listing != [] {
      var init := listing[..|listing| - 1];
      var x := listing[|listing| - 1];
      assert listing == init + [x];
      assert x !in init;
      SanitizeAllFacts(m, init);
      SanitizeFacts(x);
      if Selected(x) && Sanitize(x) != x {
        SanitizeRenameKeeps(m, init, x, SanitizeAll(m, init));
      }
    }
  }

  /**
   * After the first pass over a full listing: every selected name is clean;
   * unselected entries are untouched; every selected name has its sanitised
   * form present and is itself gone exactly when it was not clean; and every
   * selected entry holds the content of some file that sanitises to its
   * name. When several files sanitise to one name, the unguarded renames
   * leave only one of them.
   */
  lemma SanitizePassResult(m: Dir, listing: seq<string>)
    requires IsListing(listing, m.Keys)
    ensures var r := SanitizeAll(m, listing);
      && (forall k :: k in r && Selected(k) ==> IsClean(k))
      && (forall k :: !Selected(k) ==> (k in r <==> k in m) && (k in r ==> r[k] == m[k]))
      && (forall f :: f in m && Selected(f) ==> Sanitize(f) in r)
      && (forall f :: f in m && Selected(f) ==> (f in r <==> IsClean(f)))
      && (forall k :: k in r && Selected(k) ==> exists f :: f in m && Selected(f) && Sanitize(f) == k && r[k] == m[f])
  {
    var r := SanitizeAll(m, listing);
    SanitizeAllFacts(m, listing);
    forall f | f in m && Selected(f)
      ensures IsClean(f) ==> f in r
    {
      SanitizeFacts(f);
    }
    forall k | k in r && Selected(k)
      ensures IsClean(k)
      ensures exists f :: f in m && Selected(f) && Sanitize(f) == k && r[k] == m[f]
    {
      var f :| f in m && Selected(f) && r[k] == m[f] && (f == k || (f in listing && Sanitize(f) == k));
      SanitizeFacts(f);
      if f == k {
        assert IsClean(k);
      }
    }
  }

  /** A first pass over a directory whose selected names are already clean renames nothing. */
  lemma {:induction false} SanitizeAllOfClean(m: Dir, listing: seq<string>)
    requires Distinct(listing)
    requires forall i :: 0 <= i < |listing| ==> listing[i] in m
    requires forall k :: k in m && Selected(k) ==> IsClean(k)
    ensures SanitizeAll(m, listing) == m
  {
    if listing != [] {
      var init := listing[..|listing| - 1];
      var x := listing[|listing| - 1];
      assert listing == init + [x];
      SanitizeAllOfClean(m, init);
      SanitizeFacts(x);
    }
  }

  /** Sanitising is idempotent: a second first pass, over any listing, renames nothing. */
  lemma SanitizePassIdempotent(m: Dir, listing: seq<string>, listing2: seq<string>)
    requires IsListing(listing, m.Keys)
    requires IsListing(listing2, SanitizeAll(m, listing).Keys)
    ensures SanitizeAll(SanitizeAll(m, listing), listing2) == SanitizeAll(m, listing)
  {
    SanitizePassResult(m, listing);
    SanitizeAllOfClean(SanitizeAll(m, listing), listing2);
  }

  /**
   * Two names that sanitise alike collapse into one file: the later rename
   * replaces the earlier one's result, so one content is lost.
   */
  lemma SanitizeCollision(a: string, b: string, c1: Content, c2: Content)
    requires a != b && Selected(a) && Selected(b) && !IsClean(a) && !IsClean(b)
    requires Sanitize(a) == Sanitize(b)
    ensures SanitizeAll(map[a := c1, b := c2], [a, b]) == map[Sanitize(a) := c2]
  {
    var m := map[a := c1, b := c2];
    var t := Sanitize(a);
    SanitizeFacts(a);
    SanitizeFacts(b);
    var listing := [a, b];
    assert listing[..0] == [] && listing[..1] == [a] && listing[..2] == listing;
    SanitizeAllStep(m, listing, 0);
    SanitizeAllStep(m, listing, 1);
    TwoRenamesOntoOne(a, b, t, c1, c2);
  }

  /** Renaming two files onto the same new name leaves only the second one's content. */
  lemma TwoRenamesOntoOne(a: string, b: string, t: string, c1: Content, c2: Content)
    requires a != b && t != a && t != b
    ensures b in Renamed(map[a := c1, b := c2], a, t)
    ensures Renamed(Renamed(map[a := c1, b := c2], a, t), b, t) == map[t := c2]
  {
    var r1 := Renamed(map[a := c1, b := c2], a, t);
    assert r1.Keys == {b, t};
    assert Renamed(r1, b, t).Keys == {t};
  }

  /** For instance `a'b.pdf` and `a(b.pdf` both become `a_b.pdf`. */
  lemma SanitizeCollisionExample(f: string)
    requires f == "a'b.pdf" || f == "a(b.pdf"
    ensures Selected(f) && !IsClean(f) && Sanitize(f) == "a_b.pdf"
  {
    assert IsPdfAt(f, 3);
    assert IsUnsafe(f[1]);
    SanitizeIsCharMap(f);
  }
}
