/**
 * The `extract` action of random_order.py: the short names of the numbered
 * PDF files of a directory, in the order of their numbers. The listing is
 * an input, as for shuffle; the printed lines are the result.
 */
module RandomOrderExtract {
  import opened Decimal
  import opened Seqs
  import opened RandomOrderPatterns
  import opened RandomOrder

  /** A number read from a prefix, and the short name after it. */
  type Entry = (nat, string)

  /**
   * How extract_names ends: it prints the names, one per line, or it raises
   * on the first matched name that has no number (`int(None)`), before
   * printing anything.
   */
  datatype Outcome = Printed(lines: seq<string>) | NoNumber(name: string)

  /** The extract pattern matches f. */
  predicate Matched(f: string) { ExtractPattern(f).Some? }

  /** No name of the listing is matched without a number. */
  predicate Numbered(listing: seq<string>)
  {
    forall i :: 0 <= i < |listing| ==> !MissingNumber(listing[i])
  }

  /** The entry the first loop appends for a name matched with a number: `int` of group 2 and group 4. */
  function EntryOf(f: string): (e: Entry)
    requires Matched(f) && !MissingNumber(f)
    ensures e.1 != [] && '_' !in e.1
  {
    ExtractPatternShape(f);
    (ParseDigits(ExtractPattern(f).value.number.value), ExtractPattern(f).value.short)
  }

  /** The name of the listing on which the first loop raises: the first one matched without a number. */
  function FirstMissing(listing: seq<string>): (r: Option<string>)
    ensures r.None? <==> Numbered(listing)
    ensures r.Some? ==> r.value in listing && MissingNumber(r.value)
  {
    if listing == [] then None
    else
      var init := listing[..|listing| - 1];
      var f := listing[|listing| - 1];
      assert listing == init + [f];
      match FirstMissing(init)
      case Some(g) => Some(g)
      case None => if MissingNumber(f) then Some(f) else None
  }

  /** Once a prefix of the listing holds an unnumbered match, the rest does not change the first one. */
  lemma {:induction false} FirstMissingPrefix(listing: seq<string>, j: nat)
    requires j <= |listing| && FirstMissing(listing[..j]).Some?
    ensures FirstMissing(listing) == FirstMissing(listing[..j])
  {
    if j < |listing| {
      var init := listing[..|listing| - 1];
      assert init[..j] == listing[..j];
      FirstMissingPrefix(init, j);
    } else {
      assert listing[..j] == listing;
    }
  }

  /** The loop stops at the first unnumbered match. */
  lemma FirstMissingAt(listing: seq<string>, i: nat)
    requires i < |listing| && Numbered(listing[..i]) && MissingNumber(listing[i])
    ensures FirstMissing(listing[..i + 1]) == Some(listing[i])
  {
    assert listing[..i + 1][..i] == listing[..i];
  }

  /** The list the first loop builds for a listing without unnumbered matches, in listing order. */
  function Entries(listing: seq<string>): seq<Entry>
    requires Numbered(listing)
  {
    if listing == [] then []
    else
      var init := listing[..|listing| - 1];
      var f := listing[|listing| - 1];
      assert forall i :: 0 <= i < |init| ==> init[i] == listing[i];
      if Matched(f) then Entries(init) + [EntryOf(f)] else Entries(init)
  }

  /** One more name of the listing adds at most one entry at the end. */
  lemma EntriesSnoc(listing: seq<string>, i: nat)
    requires i < |listing| && Numbered(listing[..i]) && !MissingNumber(listing[i])
    ensures Numbered(listing[..i + 1])
    ensures Entries(listing[..i + 1])
      == Entries(listing[..i]) + (if Matched(listing[i]) then [EntryOf(listing[i])] else [])
  {
    assert listing[..i + 1] == listing[..i] + [listing[i]];
  }

  // ----- the stable sort -----

  predicate SortedByNumber(es: seq<Entry>)
  {
    forall i, j :: 0 <= i < j < |es| ==> es[i].0 <= es[j].0
  }

  /** The entries with number n, in their order in es. */
  function WithNumber(es: seq<Entry>, n: nat): seq<Entry>
  {
    if es == [] then []
    else WithNumber(es[..|es| - 1], n) + (if es[|es| - 1].0 == n then [es[|es| - 1]] else [])
  }

  /** Insert e into a sorted list after every entry whose number is not larger. */
  function Insert(s: seq<Entry>, e: Entry): (r: seq<Entry>)
    ensures multiset(r) == multiset(s) + multiset{e}
    ensures forall x :: x in r <==> x in s || x == e
  {
    if s == [] || s[|s| - 1].0 <= e.0 then s + [e]
    else
      assert s == s[..|s| - 1] + [s[|s| - 1]];
      Insert(s[..|s| - 1], e) + [s[|s| - 1]]
  }

  /** Insertion keeps a list sorted. */
  lemma {:induction false} InsertSorted(s: seq<Entry>, e: Entry)
    requires SortedByNumber(s)
    ensures SortedByNumber(Insert(s, e))
  {
    if !(s == [] || s[|s| - 1].0 <= e.0) {
      var init := s[..|s| - 1];
      var last := s[|s| - 1];
      InsertSorted(init, e);
      var r := Insert(init, e) + [last];
      forall i | 0 <= i < |r| - 1
        ensures r[i].0 <= last.0
      {
        assert r[i] in Insert(init, e);
      }
    }
  }

  /** `sorted(files, key=lambda x: x[0])`, which is stable: an insertion sort. */
  function SortByNumber(es: seq<Entry>): (r: seq<Entry>)
    ensures SortedByNumber(r)
    ensures multiset(r) == multiset(es)
  {
    if es == [] then []
    else
      assert es == es[..|es| - 1] + [es[|es| - 1]];
      InsertSorted(SortByNumber(es[..|es| - 1]), es[|es| - 1]);
      Insert(SortByNumber(es[..|es| - 1]), es[|es| - 1])
  }

  /** Inserting into a sorted list puts e after the entries with its number. */
  lemma {:induction false} InsertWithNumber(s: seq<Entry>, e: Entry, n: nat)
    requires SortedByNumber(s)
    ensures WithNumber(Insert(s, e), n) == WithNumber(s, n) + (if e.0 == n then [e] else [])
  {
    if s == [] || s[|s| - 1].0 <= e.0 {
      assert (s + [e])[..|s|] == s;
      assert Insert(s, e) == s + [e];
    } else {
      var init := s[..|s| - 1];
      var last := s[|s| - 1];
      assert SortedByNumber(init);
      InsertWithNumber(init, e, n);
      var r := Insert(init, e) + [last];
      assert r[..|r| - 1] == Insert(init, e);
      var lastPart := if last.0 == n then [last] else [];
      var ePart := if e.0 == n then [e] else [];
      assert WithNumber(r, n) == WithNumber(init, n) + ePart + lastPart;
      assert WithNumber(s, n) == WithNumber(init, n) + lastPart;
      if ePart == [] {
        assert WithNumber(init, n) + ePart + lastPart == WithNumber(init, n) + lastPart;
        assert WithNumber(s, n) + ePart == WithNumber(s, n);
      } else {
        assert lastPart == [];
        assert WithNumber(init, n) + ePart + lastPart == WithNumber(init, n) + ePart;
        assert WithNumber(s, n) == WithNumber(init, n);
      }
    }
  }

  /** The sort is stable: the entries with any one number keep their order. */
  lemma {:induction false} SortByNumberStable(es: seq<Entry>, n: nat)
    ensures WithNumber(SortByNumber(es), n) == WithNumber(es, n)
  {
    if es != [] {
      var init := es[..|es| - 1];
      SortByNumberStable(init, n);
      InsertWithNumber(SortByNumber(init), es[|es| - 1], n);
    }
  }

  /** Numbers strictly increase along the list. */
  predicate StrictlySorted(es: seq<Entry>)
  {
    forall i, j :: 0 <= i < j < |es| ==> es[i].0 < es[j].0
  }

  /** A sorted list holding the same entries as a list with strictly increasing numbers is that list. */
  lemma {:induction false} SortedUnique(a: seq<Entry>, b: seq<Entry>)
    requires StrictlySorted(a) && SortedByNumber(b)
    requires multiset(a) == multiset(b)
    ensures a == b
  {
    assert |a| == |multiset(a)| == |multiset(b)| == |b|;
    if a != [] {
      var n := |a|;
      SameLast(a, b);
      MultisetInit(a);
      MultisetInit(b);
      SortedInit(a, b);
      SortedUnique(a[..n - 1], b[..n - 1]);
      assert a == a[..n - 1] + [a[n - 1]];
      assert b == b[..n - 1] + [b[n - 1]];
    }
  }

  /** Both lists end with the entry of the largest number. */
  lemma SameLast(a: seq<Entry>, b: seq<Entry>)
    requires StrictlySorted(a) && SortedByNumber(b)
    requires multiset(a) == multiset(b) && |a| == |b| > 0
    ensures a[|a| - 1] == b[|b| - 1]
  {
    var n := |a|;
    assert b[n - 1] in multiset(a);
    var j :| 0 <= j < n && a[j] == b[n - 1];
    assert a[n - 1] in multiset(b);
    var k :| 0 <= k < n && b[k] == a[n - 1];
  }

  lemma MultisetInit(s: seq<Entry>)
    requires |s| > 0
    ensures multiset(s[..|s| - 1]) == multiset(s) - multiset{s[|s| - 1]}
  {
    assert s == s[..|s| - 1] + [s[|s| - 1]];
  }

  lemma SortedInit(a: seq<Entry>, b: seq<Entry>)
    requires StrictlySorted(a) && SortedByNumber(b) && |a| > 0 && |b| > 0
    ensures StrictlySorted(a[..|a| - 1]) && SortedByNumber(b[..|b| - 1])
  {
  }

  // ----- extract_names -----

  /** The short names of a list of entries, in order: what the printing loop writes. */
  function Shorts(es: seq<Entry>): (r: seq<string>)
    ensures |r| == |es| && forall i :: 0 <= i < |es| ==> r[i] == es[i].1
  {
    if es == [] then [] else Shorts(es[..|es| - 1]) + [es[|es| - 1].1]
  }

  /** What extract_names does with a listing. */
  function ExtractOutput(listing: seq<string>): Outcome
  {
    match FirstMissing(listing)
    case Some(f) => NoNumber(f)
    case None => Printed(Shorts(SortByNumber(Entries(listing))))
  }

  /** extract_names: collect (number, short name) per matched name, sort by number, print the short names. */
  method ExtractNames(listing: seq<string>) returns (out: Outcome)
    ensures out == ExtractOutput(listing)
  {
    var files, missing := CollectEntries(listing);
    if missing.Some? {
      return NoNumber(missing.value);
    }
    files := SortByNumber(files);
    var lines := PrintLines(files);
    out := Printed(lines);
  }

  /**
   * The first loop of extract_names: the entries of the matched names, or
   * the name on which `int(None)` raises.
   */
  method CollectEntries(listing: seq<string>) returns (files: seq<Entry>, missing: Option<string>)
    ensures missing == FirstMissing(listing)
    ensures missing.None? ==> files == Entries(listing)
  {
    files := [];
    for i := 0 to |listing|
      invariant Numbered(listing[..i])
      invariant files == Entries(listing[..i])
    {
      var f := listing[i];
      var m := ExtractPattern(f);
      if m.Some? && m.value.number.None? {
        FirstMissingAt(listing, i);
        FirstMissingPrefix(listing, i + 1);
        return files, Some(f);
      }
      EntriesSnoc(listing, i);
      if m.Some? {
        files := files + [EntryOf(f)];
      }
    }
    assert listing[..|listing|] == listing;
    missing := None;
  }

  /** The last loop of extract_names: one line per entry, its short name. */
  method PrintLines(files: seq<Entry>) returns (lines: seq<string>)
    ensures lines == Shorts(files)
  {
    lines := [];
    for i := 0 to |files|
      invariant lines == Shorts(files[..i])
    {
      assert files[..i + 1][..i] == files[..i];
      lines := lines + [files[i].1];
    }
    assert files[..|files|] == files;
  }

  // ----- extract after shuffle -----

  /** A numbered name whose group 2 has a short name yields its number and that short name. */
  lemma EntryOfNewName(n: nat, g: string)
    requires |g| >= 4 && IsPdfAt(g, |g| - 4) && HasShortName(g)
    ensures Matched(NewName(n, g)) && !MissingNumber(NewName(n, g))
    ensures EntryOf(NewName(n, g)) == (n, ShortName(g))
  {
    ExtractNewName(n, g);
    Pad2Facts(n);
  }

  /** Every matched name of the listing contributes its entry, and nothing else is in the list. */
  lemma {:induction false} EntriesMembers(listing: seq<string>)
    requires Numbered(listing)
    ensures forall i :: 0 <= i < |listing| && Matched(listing[i]) ==> EntryOf(listing[i]) in Entries(listing)
    ensures forall e :: e in Entries(listing) ==>
      exists i :: 0 <= i < |listing| && Matched(listing[i]) && EntryOf(listing[i]) == e
  {
    forall i | 0 <= i < |listing| && Matched(listing[i])
      ensures EntryOf(listing[i]) in Entries(listing)
    {
      EntriesHas(listing, i);
    }
    forall e | e in Entries(listing)
      ensures exists i :: 0 <= i < |listing| && Matched(listing[i]) && EntryOf(listing[i]) == e
    {
      var i := EntriesOnly(listing, e);
    }
  }

  lemma {:induction false} EntriesHas(listing: seq<string>, i: nat)
    requires Numbered(listing) && i < |listing| && Matched(listing[i])
    ensures EntryOf(listing[i]) in Entries(listing)
  {
    var n := |listing|;
    var init := listing[..n - 1];
    if i < n - 1 {
      assert init[i] == listing[i];
      assert Numbered(init);
      EntriesHas(init, i);
    }
  }

  lemma {:induction false} EntriesOnly(listing: seq<string>, e: Entry) returns (i: nat)
    requires Numbered(listing) && e in Entries(listing)
    ensures i < |listing| && Matched(listing[i]) && EntryOf(listing[i]) == e
  {
    var n := |listing|;
    var init := listing[..n - 1];
    assert Numbered(init);
    if e in Entries(init) {
      i := EntriesOnly(init, e);
      assert init[i] == listing[i];
    } else {
      i := n - 1;
    }
  }

  /** Matched names of the listing carry pairwise different numbers. */
  ghost predicate NumbersDistinct(listing: seq<string>)
    requires Numbered(listing)
  {
    forall i, j :: 0 <= i < j < |listing| && Matched(listing[i]) && Matched(listing[j]) ==>
      EntryOf(listing[i]).0 != EntryOf(listing[j]).0
  }

  /** When the numbers of the matched names differ, so do the numbers in the collected list. */
  lemma {:induction false} EntriesDistinctNumbers(listing: seq<string>)
    requires Numbered(listing) && NumbersDistinct(listing)
    ensures forall a, b :: 0 <= a < b < |Entries(listing)| ==> Entries(listing)[a].0 != Entries(listing)[b].0
  {
    if listing != [] {
      var n := |listing|;
      var init := listing[..n - 1];
      var f := listing[n - 1];
      assert forall i :: 0 <= i < |init| ==> init[i] == listing[i];
      assert NumbersDistinct(init);
      EntriesDistinctNumbers(init);
      var es := Entries(init);
      if Matched(f) {
        var e := EntryOf(f);
        assert Entries(listing) == es + [e];
        EntriesMembers(init);
        forall a | 0 <= a < |es|
          ensures es[a].0 != e.0
        {
          assert es[a] in es;
          var i :| 0 <= i < |init| && Matched(init[i]) && EntryOf(init[i]) == es[a];
          assert init[i] == listing[i];
        }
        forall a, b | 0 <= a < b < |es| + 1
          ensures (es + [e])[a].0 != (es + [e])[b].0
        {
          if b < |es| {
            assert (es + [e])[a] == es[a] && (es + [e])[b] == es[b];
          } else {
            assert (es + [e])[a] == es[a] && (es + [e])[b] == e;
          }
        }
      } else {
        assert Entries(listing) == es;
      }
    }
  }

  /** The entries extract should find after the numbering loop: position i holds number i + 1. */
  function Expected(files: seq<(string, string)>): (t: seq<Entry>)
    requires forall k :: 0 <= k < |files| ==> HasShortName(files[k].1)
    ensures StrictlySorted(t)
  {
    seq(|files|, i requires 0 <= i < |files| => (i + 1, ShortName(files[i].1)))
  }

  /** Each new name of the numbering loop is matched with its position's number and short name. */
  lemma TargetEntry(files: seq<(string, string)>, x: string) returns (k: nat)
    requires WellFormed(files) && forall k :: 0 <= k < |files| ==> HasShortName(files[k].1)
    requires x in TargetSet(files)
    ensures Matched(x) && !MissingNumber(x)
    ensures k < |files| && x == NewName(k + 1, files[k].1) && EntryOf(x) == Expected(files)[k]
    ensures EntryOf(x).0 == k + 1
  {
    k := TargetSetOnly(files, x);
    ExpectedAt(files, k);
    assert Expected(files)[k].0 == k + 1;
  }

  /**
   * The directory after the numbering loop: its new names, plus names the
   * shuffle pattern does not select.
   */
  ghost predicate AfterNumbering(files: seq<(string, string)>, keys: set<string>)
  {
    && TargetSet(files) <= keys
    && forall x :: x in keys && x !in TargetSet(files) ==> !Selected(x)
  }

  /** In such a directory every name is numbered, and the matched names are exactly the new names. */
  lemma ListingNumbered(files: seq<(string, string)>, keys: set<string>, listing: seq<string>)
    requires WellFormed(files) && forall k :: 0 <= k < |files| ==> HasShortName(files[k].1)
    requires AfterNumbering(files, keys) && IsListing(listing, keys)
    ensures Numbered(listing)
    ensures forall i :: 0 <= i < |listing| ==> (Matched(listing[i]) <==> listing[i] in TargetSet(files))
  {
    forall i | 0 <= i < |listing|
      ensures !MissingNumber(listing[i])
      ensures Matched(listing[i]) <==> listing[i] in TargetSet(files)
    {
      if listing[i] in TargetSet(files) {
        var _ := TargetEntry(files, listing[i]);
      } else if Matched(listing[i]) {
        ExtractImpliesSelected(listing[i]);
      }
    }
  }

  /** Different new names carry different numbers. */
  lemma ListingNumbersDistinct(files: seq<(string, string)>, listing: seq<string>)
    requires WellFormed(files) && forall k :: 0 <= k < |files| ==> HasShortName(files[k].1)
    requires Distinct(listing) && Numbered(listing)
    requires forall i :: 0 <= i < |listing| && Matched(listing[i]) ==> listing[i] in TargetSet(files)
    ensures NumbersDistinct(listing)
  {
    forall i, j | 0 <= i < j < |listing| && Matched(listing[i]) && Matched(listing[j])
      ensures EntryOf(listing[i]).0 != EntryOf(listing[j]).0
    {
      assert listing[i] != listing[j];
      TargetNumbersDistinct(files, listing[i], listing[j]);
    }
  }

  /** Two different new names carry different numbers. */
  lemma TargetNumbersDistinct(files: seq<(string, string)>, x: string, y: string)
    requires WellFormed(files) && forall k :: 0 <= k < |files| ==> HasShortName(files[k].1)
    requires x in TargetSet(files) && y in TargetSet(files) && x != y
    ensures Matched(x) && Matched(y) && !MissingNumber(x) && !MissingNumber(y)
    ensures EntryOf(x).0 != EntryOf(y).0
  {
    var kx := TargetEntry(files, x);
    var ky := TargetEntry(files, y);
  }

  /** Every collected entry is an expected one. */
  lemma EntriesWithinExpected(files: seq<(string, string)>, listing: seq<string>)
    requires WellFormed(files) && forall k :: 0 <= k < |files| ==> HasShortName(files[k].1)
    requires Numbered(listing)
    requires forall i :: 0 <= i < |listing| && Matched(listing[i]) ==> listing[i] in TargetSet(files)
    ensures forall e :: e in Entries(listing) ==> e in Expected(files)
  {
    EntriesMembers(listing);
    forall e | e in Entries(listing)
      ensures e in Expected(files)
    {
      var i :| 0 <= i < |listing| && Matched(listing[i]) && EntryOf(listing[i]) == e;
      var k := TargetEntry(files, listing[i]);
    }
  }

  /** Every expected entry is collected: its new name is in the listing. */
  lemma ExpectedWithinEntries(files: seq<(string, string)>, keys: set<string>, listing: seq<string>)
    requires WellFormed(files) && forall k :: 0 <= k < |files| ==> HasShortName(files[k].1)
    requires TargetSet(files) <= keys && IsListing(listing, keys)
    requires Numbered(listing)
    ensures forall e :: e in Expected(files) ==> e in Entries(listing)
  {
    var t := Expected(files);
    EntriesMembers(listing);
    TargetSetMembers(files);
    forall k | 0 <= k < |files|
      ensures t[k] in Entries(listing)
    {
      var x := NewName(k + 1, files[k].1);
      assert x in keys;
      var i :| 0 <= i < |listing| && listing[i] == x;
      ExpectedAt(files, k);
    }
  }

  /** The new name of position k is matched with the expected entry of position k. */
  lemma ExpectedAt(files: seq<(string, string)>, k: nat)
    requires WellFormed(files) && forall k :: 0 <= k < |files| ==> HasShortName(files[k].1)
    requires k < |files|
    ensures Matched(NewName(k + 1, files[k].1)) && !MissingNumber(NewName(k + 1, files[k].1))
    ensures EntryOf(NewName(k + 1, files[k].1)) == Expected(files)[k]
  {
    var f := files[k].0;
    var g := files[k].1;
    Group2Pdf(f, g);
    assert HasShortName(g);
    EntryOfNewName(k + 1, g);
  }

  /** Printing the expected entries prints the short names in list order. */
  lemma ShortsOfExpected(files: seq<(string, string)>)
    requires forall k :: 0 <= k < |files| ==> HasShortName(files[k].1)
    ensures Shorts(Expected(files)) == seq(|files|, i requires 0 <= i < |files| => ShortName(files[i].1))
  {
  }

  /** Entries with pairwise different numbers are pairwise different. */
  lemma DistinctByNumber(es: seq<Entry>)
    requires forall a, b :: 0 <= a < b < |es| ==> es[a].0 != es[b].0
    ensures Distinct(es)
  {
  }

  /** Sorting distinct entries that are, as a set, a strictly sorted list yields that list. */
  lemma SortsTo(es: seq<Entry>, t: seq<Entry>)
    requires Distinct(es) && StrictlySorted(t)
    requires forall e :: e in es <==> e in t
    ensures SortByNumber(es) == t
  {
    assert Distinct(t);
    SameMembersSameMultiset(es, t);
    SortedUnique(t, SortByNumber(es));
  }

  /**
   * Extract after the numbering loop: whatever order the directory lists
   * its names in, extract prints the short names in the order the shuffle
   * chose, provided each group 2 has a short name and the new names are
   * distinct.
   */
  lemma ExtractAfterNumbering(files: seq<(string, string)>, keys: set<string>, listing: seq<string>)
    requires WellFormed(files) && forall k :: 0 <= k < |files| ==> HasShortName(files[k].1)
    requires AfterNumbering(files, keys) && IsListing(listing, keys)
    ensures ExtractOutput(listing) == Printed(seq(|files|, i requires 0 <= i < |files| => ShortName(files[i].1)))
  {
    ListingNumbered(files, keys, listing);
    ListingNumbersDistinct(files, listing);
    EntriesWithinExpected(files, listing);
    ExpectedWithinEntries(files, keys, listing);
    EntriesDistinctNumbers(listing);
    var es := Entries(listing);
    var t := Expected(files);
    DistinctByNumber(es);
    SortsTo(es, t);
    ShortsOfExpected(files);
    assert FirstMissing(listing) == None;
    assert ExtractOutput(listing) == Printed(Shorts(t));
  }

  /**
   * Shuffle followed by extract: when the selected names of the directory
   * have distinct group 2 and each group 2 has a short name, extract prints
   * the short names in the order the shuffle chose, whatever order the
   * directory lists the renamed names in.
   */
  lemma ShuffleThenExtract(m: Dir, listing: seq<string>, perm: seq<nat>, after: seq<string>)
    requires IsListing(listing, m.Keys)
    requires IsPermutation(perm, |Collected(listing)|)
    requires GroupsDistinct(m)
    requires forall x :: x in m && Selected(x) ==> HasShortName(Group2(x))
    requires IsListing(after, PrefixAll(m, Shuffled(listing, perm)).Keys)
    ensures var files := Shuffled(listing, perm);
      ExtractOutput(after) == Printed(seq(|files|, i requires 0 <= i < |files| => ShortName(files[i].1)))
  {
    var files := Shuffled(listing, perm);
    ShuffledShortNames(m, listing, perm);
    ShuffledAfterNumbering(m, listing, perm);
    ExtractAfterNumbering(files, PrefixAll(m, files).Keys, after);
  }

  /** Every shuffled name is a selected name of the directory, so its group 2 has a short name. */
  lemma ShuffledShortNames(m: Dir, listing: seq<string>, perm: seq<nat>)
    requires IsListing(listing, m.Keys)
    requires IsPermutation(perm, |Collected(listing)|)
    requires forall x :: x in m && Selected(x) ==> HasShortName(Group2(x))
    ensures var files := Shuffled(listing, perm);
      forall k :: 0 <= k < |files| ==> HasShortName(files[k].1)
  {
    var files := Shuffled(listing, perm);
    forall k | 0 <= k < |files|
      ensures HasShortName(files[k].1)
    {
      assert files[k].0 in m;
    }
  }

  /** After the prefix pass the directory holds the new names and names the shuffle pattern does not select. */
  lemma ShuffledAfterNumbering(m: Dir, listing: seq<string>, perm: seq<nat>)
    requires IsListing(listing, m.Keys)
    requires IsPermutation(perm, |Collected(listing)|)
    requires GroupsDistinct(m)
    ensures var files := Shuffled(listing, perm);
      AfterNumbering(files, PrefixAll(m, files).Keys)
  {
    PrefixPassFacts(m, listing, perm);
  }

  /**
   * A name with a number prefix but an empty short name (`01-_x.pdf`): the
   * prefix group leaves nothing before the '_', so the match falls back to
   * the start of the name, takes the digits and '-' as the short name and
   * has no number.
   */
  lemma EmptyShortNameFallsBack(d: string, tail: string)
    requires d != [] && AllDigits(d)
    requires |tail| >= 4 && IsPdfAt(tail, |tail| - 4)
    ensures ExtractPattern(d + "-_" + tail) == Some(ExtractMatch(None, d + "-"))
  {
    var f := d + "-_" + tail;
    NumeralDashPrefix(d, tail);
    UnderscoreFirst(f[|d| + 1..]);
    NumeralDashShortName(d, tail);
  }

  /** The digits of d and the '-' after them form the number prefix. */
  lemma NumeralDashPrefix(d: string, tail: string)
    requires d != [] && AllDigits(d)
    ensures PrefixLength(d + "-_" + tail) == |d| + 1
  {
    var f := d + "-_" + tail;
    assert f == d + ("-_" + tail);
    DigitRunOfNumeral(d, "-_" + tail);
    assert f[|d|] == '-';
  }

  /** A rest starting with '_' has an empty text before its first '_', so `([^_]+)_` fails on it. */
  lemma UnderscoreFirst(r: string)
    requires r != [] && r[0] == '_'
    ensures ShortNamePattern(r).None?
  {
    assert FirstUnderscore(r) == Some(0);
  }

  /** Read from the start of the name, the digits and '-' are the text before the first '_'. */
  lemma NumeralDashShortName(d: string, tail: string)
    requires d != [] && AllDigits(d)
    requires |tail| >= 4 && IsPdfAt(tail, |tail| - 4)
    ensures ShortNamePattern(d + "-_" + tail) == Some(d + "-")
  {
    var f := d + "-_" + tail;
    var p := |d| + 1;
    assert f[..p] == d + "-";
    assert '_' !in f[..p] by {
      forall i | 0 <= i < p ensures f[i] != '_' {
        if i < |d| { assert IsDigit(d[i]); }
      }
    }
    assert f[p] == '_';
    assert IsPdfAt(f, |f| - 4) by {
      assert f[p + 1..] == tail;
      var j := |tail| - 4;
      assert f[p + 1 + j] == tail[j] && f[p + 2 + j] == tail[j + 1];
      assert f[p + 3 + j] == tail[j + 2] && f[p + 4 + j] == tail[j + 3];
    }
    ShortNameAt(f, p, |f| - 4);
  }

  lemma EmptyShortNameUnnumbered()
    ensures ExtractPattern("01-_x.pdf") == Some(ExtractMatch(None, "01-"))
  {
    assert "01-_x.pdf" == "01" + "-_" + "x.pdf";
    assert "01" + "-" == "01-";
    EmptyShortNameFallsBack("01", "x.pdf");
  }

  /** Extract raises on such a name. */
  lemma EmptyShortNameCrashes()
    ensures ExtractOutput(["01-_x.pdf"]) == NoNumber("01-_x.pdf")
  {
    EmptyShortNameUnnumbered();
    var l: seq<string> := ["01-_x.pdf"];
    assert l[..0] == [];
  }

  /** Digits followed by '_' rather than '-' are no prefix: they become the short name. */
  lemma UnderscoreAfterDigitsUnnumbered()
    ensures ExtractPattern("01_x.pdf") == Some(ExtractMatch(None, "01"))
  {
    var f := "01_x.pdf";
    assert f == "01" + "_x.pdf";
    DigitRunOfNumeral("01", "_x.pdf");
    assert PrefixLength(f) == 0;
    assert f[..2] == "01";
    ShortNameAt(f, 2, 4);
  }

  /** Extract raises on such a name. */
  lemma UnderscoreAfterDigitsCrashes()
    ensures ExtractOutput(["01_x.pdf"]) == NoNumber("01_x.pdf")
  {
    UnderscoreAfterDigitsUnnumbered();
    var l: seq<string> := ["01_x.pdf"];
    assert l[..0] == [];
  }

  /** A name with no number prefix at all is matched without a number. */
  lemma PlainNameUnnumbered()
    ensures ExtractPattern("Alice_exam.pdf") == Some(ExtractMatch(None, "Alice"))
  {
    var f := "Alice_exam.pdf";
    assert PrefixLength(f) == 0;
    assert f == "Alice" + "_exam.pdf";
    assert f[..5] == "Alice";
    ShortNameAt(f, 5, 10);
  }

  /** Extract raises on such a name. */
  lemma PlainNameCrashes()
    ensures ExtractOutput(["Alice_exam.pdf"]) == NoNumber("Alice_exam.pdf")
  {
    PlainNameUnnumbered();
    var l: seq<string> := ["Alice_exam.pdf"];
    assert l[..0] == [];
  }
}
