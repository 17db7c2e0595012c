/**
 * The per-name parsing of random_order.py, written as string functions: the
 * two regular expressions it matches file names against and the character
 * clean-up it applies before numbering. File names are matched as if `.`
 * in a pattern matched every character (names hold no newline).
 */
module RandomOrderPatterns {
  import opened Decimal
  import opened Seqs

  /** The number of ASCII digits at the start of s: what `[0-9]+` takes, greedily. */
  function DigitRun(s: string): (n: nat)
    ensures n <= |s| && AllDigits(s[..n])
    ensures n < |s| ==> !IsDigit(s[n])
  {
    if s != [] && IsDigit(s[0]) then
      var n := 1 + DigitRun(s[1..]);
      assert s[..n] == [s[0]] + s[1..][..n - 1];
      n
    else 0
  }

  /** A numeral followed by a non-digit: the digit run stops exactly at the end of the numeral. */
  lemma {:induction false} DigitRunOfNumeral(d: string, rest: string)
    requires AllDigits(d) && rest != [] && !IsDigit(rest[0])
    ensures DigitRun(d + rest) == |d|
  {
    if d != [] {
      assert (d + rest)[1..] == d[1..] + rest;
      DigitRunOfNumeral(d[1..], rest);
    }
  }

  /**
   * The length of the text the optional group `([0-9]+-)?` takes when it
   * takes something: the leading digit run together with the dash after it.
   * It is 0 when the name does not start with digits and a dash.
   */
  function PrefixLength(s: string): (n: nat)
    ensures n <= |s|
    ensures n != 0 <==> DigitRun(s) > 0 && DigitRun(s) < |s| && s[DigitRun(s)] == '-'
    ensures n != 0 ==> n >= 2 && s[n - 1] == '-' && AllDigits(s[..n - 1])
  {
    var d := DigitRun(s);
    if 0 < d < |s| && s[d] == '-' then d + 1 else 0
  }

  /** `\.pdf` with re.IGNORECASE matches at position i of s. */
  predicate IsPdfAt(s: string, i: int)
  {
    && 0 <= i && i + 4 <= |s|
    && s[i] == '.'
    && (s[i + 1] == 'p' || s[i + 1] == 'P')
    && (s[i + 2] == 'd' || s[i + 2] == 'D')
    && (s[i + 3] == 'f' || s[i + 3] == 'F')
  }

  /** s contains ".pdf" in some letter case. */
  predicate HasPdf(s: string)
  {
    exists i | 0 <= i <= |s| - 4 :: IsPdfAt(s, i)
  }

  lemma HasPdfInSuffix(s: string, j: nat)
    requires j <= |s| && HasPdf(s[j..])
    ensures HasPdf(s)
  {
    var i :| 0 <= i <= |s[j..]| - 4 && IsPdfAt(s[j..], i);
    assert IsPdfAt(s, i + j);
  }

  /** A ".pdf" never lies inside a `digits-` prefix, since '.' is neither a digit nor a dash. */
  lemma PdfAfterPrefix(s: string, i: int)
    requires IsPdfAt(s, i)
    ensures PrefixLength(s) <= i
  {
  }

  /**
   * Where `.*\.pdf` stops, searching s[..j]: just after the last ".pdf"
   * (the greedy `.*` backs off only as far as it must).
   */
  function LastPdfEnd(s: string, j: nat): (e: Option<nat>)
    requires j <= |s|
    ensures e.Some? ==> 4 <= e.value <= j && IsPdfAt(s, e.value - 4)
    ensures e.Some? ==> forall i :: e.value - 4 < i && i + 4 <= j ==> !IsPdfAt(s, i)
    ensures e.None? ==> forall i :: 0 <= i && i + 4 <= j ==> !IsPdfAt(s, i)
  {
    if j < 4 then None
    else if IsPdfAt(s, j - 4) then Some(j)
    else LastPdfEnd(s, j - 1)
  }

  lemma NothingAfterLastPdf(f: string, e: nat)
    requires 4 <= e <= |f|
    requires forall i :: e - 4 < i && i + 4 <= |f| ==> !IsPdfAt(f, i)
    ensures !HasPdf(f[e - 3..])
  {
    if HasPdf(f[e - 3..]) {
      var i :| 0 <= i <= |f[e - 3..]| - 4 && IsPdfAt(f[e - 3..], i);
      assert IsPdfAt(f, i + e - 3);
    }
  }

  /**
   * `re.match("^([0-9]+-)?(.*\\.pdf)", f, re.IGNORECASE)` (random_order.py,
   * both passes of shuffle): group 2 of the match, or None when there is none.
   */
  function ShufflePattern(f: string): (g: Option<string>)
    ensures g.Some? <==> HasPdf(f)
    ensures g.Some? ==> |g.value| >= 4 && IsPdfAt(g.value, |g.value| - 4)
  {
    match LastPdfEnd(f, |f|)
    case None =>
      None
    case Some(e) =>
      PdfAfterPrefix(f, e - 4);
      assert IsPdfAt(f, e - 4);
      var g := f[PrefixLength(f)..e];
      assert IsPdfAt(g, |g| - 4);
      Some(g)
  }

  /**
   * The pattern matches exactly the names holding ".pdf" in some letter case;
   * group 2 starts right after the `digits-` prefix and runs to the end of
   * the last ".pdf".
   */
  lemma ShufflePatternShape(f: string)
    ensures ShufflePattern(f).Some? ==>
      var g := ShufflePattern(f).value;
      && PrefixLength(f) + |g| <= |f| && g <= f[PrefixLength(f)..]
      && !HasPdf(f[PrefixLength(f) + |g| - 3..])
  {
    match LastPdfEnd(f, |f|)
    case None =>
    case Some(e) =>
      PdfAfterPrefix(f, e - 4);
      NothingAfterLastPdf(f, e);
  }

  /** The match is anchored at the start only: `x.pdf.bak` is selected, and group 2 stops after ".pdf". */
  lemma TrailingTextDropped()
    ensures ShufflePattern("x.pdf.bak") == Some("x.pdf")
  {
    var f := "x.pdf.bak";
    assert IsPdfAt(f, 1);
    assert !IsPdfAt(f, 5) && !IsPdfAt(f, 4) && !IsPdfAt(f, 3) && !IsPdfAt(f, 2);
    assert LastPdfEnd(f, |f|) == Some(5);
    assert DigitRun(f) == 0 && PrefixLength(f) == 0;
    assert f == "x.pdf" + ".bak";
    assert f[0..5] == "x.pdf";
  }

  /** Only one `digits-` prefix is dropped, and the letter case of ".pdf" is kept. */
  lemma OnePrefixDropped()
    ensures ShufflePattern("01-02-a.PDF") == Some("02-a.PDF")
  {
    var f := "01-02-a.PDF";
    assert f == "01" + "-02-a.PDF";
    DigitRunOfNumeral("01", "-02-a.PDF");
    assert IsPdfAt(f, 7);
    assert LastPdfEnd(f, |f|) == Some(11);
    assert f[3..11] == "02-a.PDF";
  }

  /** The shuffle passes consider a name exactly when it contains ".pdf" in some letter case. */
  predicate Selected(f: string) { HasPdf(f) }

  /** Group 2 of the shuffle pattern: the name without its `digits-` prefix, cut after its last ".pdf". */
  function Group2(f: string): string
    requires Selected(f)
  {
    ShufflePattern(f).value
  }

  /** Group 2 of a selected name ends with ".pdf". */
  lemma Group2Pdf(f: string, g: string)
    requires Selected(f) && g == Group2(f)
    ensures |g| >= 4 && IsPdfAt(g, |g| - 4)
  {
  }

  /** The name the prefix pass gives to the file at position n - 1. */
  function NewName(n: nat, g: string): string
  {
    Pad2(n) + "-" + g
  }

  lemma NewNamePrefix(n: nat, g: string)
    ensures PrefixLength(NewName(n, g)) == |Pad2(n)| + 1
    ensures NewName(n, g)[..|Pad2(n)|] == Pad2(n) && NewName(n, g)[|Pad2(n)| + 1..] == g
  {
    assert NewName(n, g) == Pad2(n) + ("-" + g);
    DigitRunOfNumeral(Pad2(n), "-" + g);
  }

  /** A name that ends in ".pdf" has its last ".pdf" at its end. */
  lemma EndsWithPdf(f: string)
    requires |f| >= 4 && IsPdfAt(f, |f| - 4)
    ensures LastPdfEnd(f, |f|) == Some(|f|)
  {
  }

  /**
   * A numbered name keeps its group 2: its prefix is exactly the numeral and
   * the dash, and its last ".pdf" is the one group 2 ends with.
   */
  lemma NewNameParts(n: nat, g: string)
    requires |g| >= 4 && IsPdfAt(g, |g| - 4)
    ensures PrefixLength(NewName(n, g)) == |Pad2(n)| + 1
    ensures Selected(NewName(n, g)) && Group2(NewName(n, g)) == g
  {
    var f := NewName(n, g);
    NewNamePrefix(n, g);
    assert f[|f| - 4..] == g[|g| - 4..];
    EndsWithPdf(f);
  }

  /** Two renamed files get the same name only when they have the same number and the same group 2. */
  lemma NewNameInjective(n: nat, g: string, n': nat, g': string)
    requires |g| >= 4 && IsPdfAt(g, |g| - 4)
    requires |g'| >= 4 && IsPdfAt(g', |g'| - 4)
    ensures NewName(n, g) == NewName(n', g') <==> n == n' && g == g'
  {
    if NewName(n, g) == NewName(n', g') {
      NewNameParts(n, g);
      NewNameParts(n', g');
      NewNameNumber(n, g);
      NewNameNumber(n', g');
    }
  }

  /** The value of the `digits-` prefix of a name that has one. */
  function PrefixNumber(f: string): nat
    requires PrefixLength(f) > 0
  {
    ParseDigits(f[..PrefixLength(f) - 1])
  }

  /** A renamed file carries its number in its prefix, written with at least two digits (`01-`, ..., `100-`). */
  lemma NewNameNumber(n: nat, g: string)
    requires |g| >= 4 && IsPdfAt(g, |g| - 4)
    ensures PrefixLength(NewName(n, g)) >= 3
    ensures PrefixNumber(NewName(n, g)) == n
  {
    NewNameParts(n, g);
    Pad2Facts(n);
    assert NewName(n, g)[..|Pad2(n)|] == Pad2(n);
  }

  // ----- sanitising -----

  /** `s.replace(a, b)` for one-character a and b: every a becomes b, nothing else moves. */
  function Replace(s: string, a: char, b: char): string
  {
    seq(|s|, i requires 0 <= i < |s| => if s[i] == a then b else s[i])
  }

  /** The four replacements of the first pass, in the order random_order.py applies them. */
  function Sanitize(f: string): string
  {
    Replace(Replace(Replace(Replace(f, ' ', '-'), '\'', '_'), '(', '_'), ')', '_')
  }

  /** What sanitising does to one character. */
  function SanitizeChar(c: char): char
  {
    if c == ' ' then '-' else if c == '\'' || c == '(' || c == ')' then '_' else c
  }

  predicate IsUnsafe(c: char) { c == ' ' || c == '\'' || c == '(' || c == ')' }

  /** A name with no space, quote or parenthesis. */
  predicate IsClean(f: string) { forall i :: 0 <= i < |f| ==> !IsUnsafe(f[i]) }

  /** The chain of replacements is one map applied to each character: length and order are kept. */
  lemma SanitizeIsCharMap(f: string)
    ensures |Sanitize(f)| == |f|
    ensures forall i :: 0 <= i < |f| ==> Sanitize(f)[i] == SanitizeChar(f[i])
  {
  }

  lemma SanitizeCleans(f: string)
    ensures IsClean(Sanitize(f))
    ensures Sanitize(f) == f <==> IsClean(f)
  {
    SanitizeIsCharMap(f);
    if !IsClean(f) {
      var i :| 0 <= i < |f| && IsUnsafe(f[i]);
      assert Sanitize(f)[i] != f[i];
    }
  }

  lemma SanitizeKeepsPdf(f: string)
    ensures forall i :: IsPdfAt(Sanitize(f), i) <==> IsPdfAt(f, i)
  {
    SanitizeIsCharMap(f);
  }

  /**
   * Sanitising leaves a clean name, changes a name exactly when it is not
   * clean, is idempotent, and keeps whether a name is selected.
   */
  lemma SanitizeFacts(f: string)
    ensures IsClean(Sanitize(f))
    ensures Sanitize(f) == f <==> IsClean(f)
    ensures Sanitize(Sanitize(f)) == Sanitize(f)
    ensures Selected(Sanitize(f)) == Selected(f)
  {
    SanitizeCleans(f);
    SanitizeCleans(Sanitize(f));
    SanitizeKeepsPdf(f);
    assert HasPdf(Sanitize(f)) == HasPdf(f);
  }

  // ----- the extract pattern -----

  /** The index of the first '_' in s, if there is one. */
  function FirstUnderscore(s: string): (k: Option<nat>)
    ensures k.Some? ==> k.value < |s| && s[k.value] == '_' && '_' !in s[..k.value]
    ensures k.None? ==> '_' !in s
  {
    if s == [] then None
    else if s[0] == '_' then Some(0)
    else match FirstUnderscore(s[1..])
      case None => None
      case Some(k) =>
        assert s[..k + 1] == [s[0]] + s[1..][..k];
        Some(k + 1)
  }

  /**
   * `([^_]+)_.*\.pdf` at the start of r: group 4, the non-empty text before
   * the first '_', provided a ".pdf" follows that '_'.
   */
  function ShortNamePattern(r: string): (short: Option<string>)
    ensures short.Some? ==> short.value != [] && '_' !in short.value
    ensures short.Some? ==> short.value + "_" <= r && HasPdf(r[|short.value| + 1..])
    ensures short.None? ==> forall k :: 0 < k < |r| && r[k] == '_' && '_' !in r[..k] ==> !HasPdf(r[k + 1..])
  {
    match FirstUnderscore(r)
    case None => None
    case Some(k) =>
      if k > 0 && HasPdf(r[k + 1..]) then
        assert r[..k] + "_" == r[..k + 1];
        Some(r[..k])
      else
        assert forall k' :: 0 <= k' < |r| && r[k'] == '_' && '_' !in r[..k'] ==> k' == k by {
          forall k' | 0 <= k' < |r| && r[k'] == '_' && '_' !in r[..k']
            ensures k' == k
          {
          }
        }
        None
  }

  /** Groups 2 and 4 of the extract pattern: the prefix digits (None when the group did not take part) and the short name. */
  datatype ExtractMatch = ExtractMatch(number: Option<string>, short: string)

  /**
   * `re.match("^(([0-9]+)-)?(([^_]+)_.*\\.pdf)", f, re.IGNORECASE)`
   * (random_order.py, extract_names). The optional prefix group is tried
   * first; when the rest then fails to match, the match is retried from the
   * start of the name without it, so the prefix group is left empty.
   */
  function ExtractPattern(f: string): (m: Option<ExtractMatch>)
    ensures m.Some? ==> m.value.short != [] && '_' !in m.value.short
  {
    var p := PrefixLength(f);
    if p > 0 && ShortNamePattern(f[p..]).Some? then
      Some(ExtractMatch(Some(f[..p - 1]), ShortNamePattern(f[p..]).value))
    else
      match ShortNamePattern(f)
      case Some(short) => Some(ExtractMatch(None, short))
      case None => None
  }

  /**
   * A match lies at the start of the name: the digits and '-' of the prefix
   * when it took part, then the short name and '_', and a ".pdf" after them.
   */
  lemma ExtractPatternShape(f: string)
    ensures ExtractPattern(f).Some? ==> HasPdf(f)
    ensures ExtractPattern(f).Some? && ExtractPattern(f).value.number.Some? ==>
      var d := ExtractPattern(f).value.number.value;
      d != [] && AllDigits(d) && d + "-" + ExtractPattern(f).value.short + "_" <= f
    ensures ExtractPattern(f).Some? && ExtractPattern(f).value.number.None? ==>
      ExtractPattern(f).value.short + "_" <= f
  {
    var p := PrefixLength(f);
    if p > 0 && ShortNamePattern(f[p..]).Some? {
      ExtractWithPrefix(f, p, ShortNamePattern(f[p..]).value);
    } else if ShortNamePattern(f).Some? {
      HasPdfInSuffix(f, |ShortNamePattern(f).value| + 1);
    }
  }

  /** r has its first '_' at k > 0, and a ".pdf" after it: the form `([^_]+)_.*\.pdf` matches. */
  predicate ShortNameSplit(r: string, k: int)
  {
    0 < k < |r| && r[k] == '_' && '_' !in r[..k] && HasPdf(r[k + 1..])
  }

  ghost predicate ShortNameForm(r: string)
  {
    exists k :: ShortNameSplit(r, k)
  }

  /** `([^_]+)_.*\.pdf` matches at the start of r exactly when r has that form. */
  lemma ShortNamePatternForm(r: string)
    ensures ShortNamePattern(r).Some? <==> ShortNameForm(r)
    ensures ShortNamePattern(r).Some? ==> ShortNameSplit(r, |ShortNamePattern(r).value|)
  {
    if ShortNamePattern(r).Some? {
      var short := ShortNamePattern(r).value;
      assert r[..|short|] == short;
      assert ShortNameSplit(r, |short|);
    }
  }

  /**
   * The extract pattern matches exactly the names whose first '_' comes
   * after at least one character and is followed by a ".pdf"; the optional
   * prefix never makes a name match that would not match without it.
   */
  lemma ExtractPatternForm(f: string)
    ensures ExtractPattern(f).Some? <==> ShortNameForm(f)
  {
    ShortNamePatternForm(f);
    var p := PrefixLength(f);
    if p > 0 && ShortNamePattern(f[p..]).Some? {
      ShortNamePatternForm(f[p..]);
      SplitAfterPrefix(f, p, |ShortNamePattern(f[p..]).value|);
    }
  }

  /** A short-name split after the prefix digits and '-' is one of the whole name. */
  lemma SplitAfterPrefix(f: string, p: nat, k: int)
    requires 2 <= p <= |f| && f[p - 1] == '-' && AllDigits(f[..p - 1])
    requires ShortNameSplit(f[p..], k)
    ensures ShortNameSplit(f, p + k)
  {
    var r := f[p..];
    assert '_' !in f[..p] by {
      assert f[..p] == f[..p - 1] + ['-'];
    }
    assert f[..p + k] == f[..p] + r[..k];
    assert f[p + k + 1..] == r[k + 1..];
  }

  /**
   * The numbered reading is taken exactly when the prefix group matches and
   * the rest of the name after it has the short-name form; its number is
   * then the digits before the '-'.
   */
  lemma ExtractNumbered(f: string)
    ensures (ExtractPattern(f).Some? && ExtractPattern(f).value.number.Some?)
      <==> PrefixLength(f) > 0 && ShortNameForm(f[PrefixLength(f)..])
    ensures PrefixLength(f) > 0 && ShortNameForm(f[PrefixLength(f)..]) ==>
      ExtractPattern(f).value.number == Some(f[..PrefixLength(f) - 1])
  {
    var p := PrefixLength(f);
    ShortNamePatternForm(f[p..]);
  }

  lemma ExtractWithPrefix(f: string, p: nat, short: string)
    requires 2 <= p <= |f| && f[p - 1] == '-'
    requires short + "_" <= f[p..] && HasPdf(f[p..][|short| + 1..])
    ensures HasPdf(f)
    ensures f[..p - 1] + "-" + short + "_" <= f
  {
    HasPdfInSuffix(f[p..], |short| + 1);
    HasPdfInSuffix(f, p);
    assert f[..p - 1] + "-" == f[..p];
    assert f == f[..p] + f[p..];
  }

  /** Every name the extract pattern matches is also one the shuffle passes select. */
  lemma ExtractImpliesSelected(f: string)
    requires ExtractPattern(f).Some?
    ensures Selected(f)
  {
    ExtractPatternShape(f);
  }

  /** A name the extract pattern matches without a prefix number: `int(None)` raises on it. */
  predicate MissingNumber(f: string)
  {
    ExtractPattern(f).Some? && ExtractPattern(f).value.number.None?
  }

  /** Whether a group 2 yields a short name: it holds a '_' that is not its first character. */
  predicate HasShortName(g: string)
  {
    FirstUnderscore(g).Some? && FirstUnderscore(g).value > 0
  }

  function ShortName(g: string): string
    requires HasShortName(g)
  {
    g[..FirstUnderscore(g).value]
  }

  /**
   * A numbered name whose group 2 holds a '_' after its first character is
   * matched by extract with its number and the text before that '_'.
   */
  lemma {:induction false} ExtractNewName(n: nat, g: string)
    requires |g| >= 4 && IsPdfAt(g, |g| - 4)
    requires HasShortName(g)
    ensures ExtractPattern(NewName(n, g)) == Some(ExtractMatch(Some(Pad2(n)), ShortName(g)))
  {
    var f := NewName(n, g);
    NewNamePrefix(n, g);
    ShortNameOfGroup(g);
    assert f[..PrefixLength(f) - 1] == Pad2(n);
  }

  /** `([^_]+)_.*\.pdf` matches when the first '_' is at k > 0 and a ".pdf" starts after it. */
  lemma ShortNameAt(r: string, k: nat, j: nat)
    requires 0 < k < j && j + 4 <= |r|
    requires r[k] == '_' && '_' !in r[..k] && IsPdfAt(r, j)
    ensures ShortNamePattern(r) == Some(r[..k])
  {
    assert FirstUnderscore(r) == Some(k);
    assert IsPdfAt(r[k + 1..], j - k - 1);
  }

  /** A name ending in ".pdf" whose first '_' is not its first character matches `([^_]+)_.*\.pdf`. */
  lemma ShortNameOfGroup(g: string)
    requires |g| >= 4 && IsPdfAt(g, |g| - 4)
    requires HasShortName(g)
    ensures ShortNamePattern(g) == Some(ShortName(g))
  {
    var k := FirstUnderscore(g).value;
    assert k < |g| - 4;
    assert IsPdfAt(g[k + 1..], |g| - 4 - (k + 1));
  }
}
