/**
 * latex-build: turning the command-line target (`foo`, `foo.tex`,
 * `foo.pdf`, possibly with a directory) into the base path, the name of the
 * PDF to build, the working directory and the TeX file to look for.
 *
 * Paths follow CPython 3.13 `pathlib.PurePosixPath`: a path is an anchor
 * ("", "/" or "//") and a list of components, none of them empty, "." or
 * holding a slash.
 */
module LatexBuild {
  import opened Seqs


  /** The two ValueErrors that `with_suffix` and `with_name` raise. */
  datatype PathError = EmptyName | InvalidName(name: string)

  datatype Result<T> = Ok(value: T) | Err(error: PathError)

  datatype PurePath = PurePath(root: string, parts: seq<string>)

  /** A component that parsing keeps. */
  predicate IsComponent(c: string) { c != "" && c != "." && '/' !in c }

  predicate Valid(p: PurePath)
  {
    && (p.root == "" || p.root == "/" || p.root == "//")
    && forall i :: 0 <= i < |p.parts| ==> IsComponent(p.parts[i])
  }

  // ---------------------------------------------------------------------
  // Parsing and printing

  /** `s.split("/")`: the pieces between slashes, empty ones included. */
  function Split(s: string): (r: seq<string>)
    ensures |r| >= 1
    ensures forall i :: 0 <= i < |r| ==> '/' !in r[i]
    decreases |s|
  {
    if s == [] then [""]
    else if s[0] == '/' then [""] + Split(s[1..])
    else
      var t := Split(s[1..]);
      [[s[0]] + t[0]] + t[1..]
  }

  /** Joining the pieces of a split gives back the string. */
  lemma {:induction false} JoinSplit(s: string)
    ensures Join(Split(s), "/") == s
    decreases |s|
  {
    if s == [] {
    } else if s[0] == '/' {
      JoinSplit(s[1..]);
      assert s == "/" + s[1..];
    } else {
      var t := Split(s[1..]);
      JoinSplit(s[1..]);
      if |t| == 1 {
        assert s == [s[0]] + s[1..];
      } else {
        assert t == [t[0]] + t[1..];
        assert Join(t, "/") == t[0] + ("/" + Join(t[1..], "/"));
        assert s == [s[0]] + s[1..];
      }
    }
  }

  lemma {:induction false} SplitComponent(c: string)
    requires '/' !in c
    ensures Split(c) == [c]
    decreases |c|
  {
    if c != [] {
      SplitComponent(c[1..]);
      assert c == [c[0]] + c[1..];
    }
  }

  /** Splitting at a slash splits the two sides independently. */
  lemma {:induction false} SplitAppend(a: string, b: string)
    ensures Split(a + ("/" + b)) == Split(a) + Split(b)
    decreases |a|
  {
    if a == [] {
      assert a + ("/" + b) == "/" + b;
      assert ("/" + b)[1..] == b;
    } else {
      assert (a + ("/" + b))[1..] == a[1..] + ("/" + b);
      SplitAppend(a[1..], b);
    }
  }

  /** Splitting the join of slash-free pieces gives the pieces back. */
  lemma {:induction false} SplitJoin(cs: seq<string>)
    requires |cs| >= 1
    requires forall i :: 0 <= i < |cs| ==> '/' !in cs[i]
    ensures Split(Join(cs, "/")) == cs
    decreases |cs|
  {
    if |cs| == 1 {
      SplitComponent(cs[0]);
    } else {
      SplitComponent(cs[0]);
      SplitJoin(cs[1..]);
      SplitAppend(cs[0], Join(cs[1..], "/"));
      assert cs == [cs[0]] + cs[1..];
    }
  }

  /** The comprehension `[x for x in pieces if x and x != '.']`. */
  function Clean(cs: seq<string>): (r: seq<string>)
    ensures |r| <= |cs|
    ensures forall i :: 0 <= i < |r| ==> r[i] != "" && r[i] != "." && r[i] in cs
  {
    if cs == [] then []
    else
      var last := cs[|cs| - 1];
      var init := Clean(cs[..|cs| - 1]);
      if last != "" && last != "." then init + [last] else init
  }

  lemma {:induction false} CleanAppend(a: seq<string>, b: seq<string>)
    ensures Clean(a + b) == Clean(a) + Clean(b)
    decreases |b|
  {
    if b == [] {
      assert a + b == a;
    } else {
      var b' := b[..|b| - 1];
      assert (a + b)[..|a + b| - 1] == a + b';
      CleanAppend(a, b');
    }
  }

  lemma {:induction false} CleanKeeps(cs: seq<string>)
    requires forall i :: 0 <= i < |cs| ==> IsComponent(cs[i])
    ensures Clean(cs) == cs
    decreases |cs|
  {
    if cs != [] {
      CleanKeeps(cs[..|cs| - 1]);
    }
  }

  /** `posixpath.splitroot` without the drive: the anchor and the rest. */
  function SplitRoot(s: string): (r: (string, string))
    ensures r.0 + r.1 == s
    ensures r.0 == "" || r.0 == "/" || r.0 == "//"
    ensures r.0 == "" <==> (s == [] || s[0] != '/')
    ensures r.0 == "//" <==> (|s| >= 2 && s[0] == '/' && s[1] == '/' && (|s| == 2 || s[2] != '/'))
  {
    if s == [] || s[0] != '/' then ("", s)
    else if |s| == 1 || s[1] != '/' || (|s| >= 3 && s[2] == '/') then ("/", s[1..])
    else ("//", s[2..])
  }

  /** `PurePosixPath(s)`. */
  function Parse(s: string): (p: PurePath)
    ensures Valid(p)
  {
    if s == "" then PurePath("", [])
    else
      var (root, rel) := SplitRoot(s);
      PurePath(root, Clean(Split(rel)))
  }

  /** `str(p)`: the anchor followed by the components, or "." for the empty path. */
  function Str(p: PurePath): (s: string)
    ensures s != ""
  {
    var s := p.root + Join(p.parts, "/");
    if s == "" then "." else s
  }

  lemma {:induction false} JoinHead(cs: seq<string>)
    requires |cs| >= 1 && cs[0] != ""
    ensures Join(cs, "/") != "" && Join(cs, "/")[0] == cs[0][0]
  {
    if |cs| > 1 {
      assert Join(cs, "/") == cs[0] + ("/" + Join(cs[1..], "/"));
    }
  }

  /** For a valid path, the root and the rest are where printing put them. */
  lemma StrSplitsAtRoot(p: PurePath, tail: string)
    requires Valid(p) && p.parts != []
    ensures SplitRoot(p.root + Join(p.parts, "/") + tail) == (p.root, Join(p.parts, "/") + tail)
  {
    JoinHead(p.parts);
    var j := Join(p.parts, "/");
    var s := p.root + j + tail;
    assert p.parts[0][0] != '/' by { assert p.parts[0][0] in p.parts[0]; }
    assert s[|p.root|] == j[0];
    assert s[|p.root|..] == j + tail;
    if p.root == "/" {
      assert s[0] == '/' && s[1] != '/';
    } else if p.root == "//" {
      assert s[0] == '/' && s[1] == '/' && s[2] != '/';
    }
  }

  /** Parsing what `str` prints gives the path back. */
  lemma ParseStr(p: PurePath)
    requires Valid(p)
    ensures Parse(Str(p)) == p
  {
    if p.parts == [] {
      if p.root == "" {
        assert Split(".") == ["."] by { SplitComponent("."); }
      } else {
        assert Str(p) == p.root;
      }
    } else {
      var j := Join(p.parts, "/");
      StrSplitsAtRoot(p, "");
      JoinHead(p.parts);
      assert p.root + j + "" == p.root + j == Str(p);
      assert SplitRoot(Str(p)) == (p.root, j + "");
      assert j + "" == j;
      assert SplitRoot(Str(p)).1 == j;
      assert Parse(Str(p)) == PurePath(p.root, Clean(Split(j)));
      SplitJoin(p.parts);
      CleanKeeps(p.parts);
    }
  }

  /** A bare component parses to a one-component relative path. */
  lemma ParseComponent(n: string)
    requires IsComponent(n)
    ensures Parse(n) == PurePath("", [n])
  {
    SplitComponent(n);
    CleanKeeps([n]);
  }

  /** `posixpath.join(d, n)` for a relative `n`. */
  function PosixJoin(d: string, n: string): (s: string)
    ensures |s| >= |d| + |n|
  {
    if d == "" || d[|d| - 1] == '/' then d + n else d + ("/" + n)
  }

  /** `p / n` for a single component n: the component is appended. */
  lemma ParseJoin(p: PurePath, n: string)
    requires Valid(p) && IsComponent(n)
    ensures Parse(PosixJoin(Str(p), n)) == PurePath(p.root, p.parts + [n])
  {
    if p.parts == [] {
      assert p.parts + [n] == [n];
      if p.root == "" {
        JoinOntoDot(n);
      } else {
        JoinOntoRoot(p.root, n);
      }
    } else {
      JoinOntoParts(p, n);
    }
  }

  /** `Path(".") / n` is the bare `n`. */
  lemma JoinOntoDot(n: string)
    requires IsComponent(n)
    ensures Parse(PosixJoin(".", n)) == PurePath("", [n])
  {
    var s := PosixJoin(".", n);
    assert s == "." + ("/" + n);
    assert SplitRoot(s) == ("", s);
    SplitComponent(n);
    SplitAppend(".", n);
    SplitComponent(".");
    CleanAppend(["."], [n]);
    CleanKeeps([n]);
    assert Clean(["."]) == [];
  }

  /** `Path("/") / n` and `Path("//") / n` keep their anchor. */
  lemma JoinOntoRoot(root: string, n: string)
    requires (root == "/" || root == "//") && IsComponent(n)
    ensures Parse(PosixJoin(root, n)) == PurePath(root, [n])
  {
    var s := PosixJoin(root, n);
    assert s == root + n;
    assert s[|root|] == n[0];
    assert SplitRoot(s) == (root, n);
    SplitComponent(n);
    CleanKeeps([n]);
  }

  /** Joining onto a path with components appends one more. */
  lemma JoinOntoParts(p: PurePath, n: string)
    requires Valid(p) && p.parts != [] && IsComponent(n)
    ensures Parse(PosixJoin(Str(p), n)) == PurePath(p.root, p.parts + [n])
  {
    var j := Join(p.parts, "/");
    var s := PosixJoin(Str(p), n);
    JoinLast(p.parts);
    assert s == p.root + j + ("/" + n);
    StrSplitsAtRoot(p, "/" + n);
    SplitAppendComponent(p.parts, n);
  }

  /** Splitting and cleaning the components of a path followed by one more gives them all. */
  lemma SplitAppendComponent(parts: seq<string>, n: string)
    requires parts != [] && IsComponent(n)
    requires forall i :: 0 <= i < |parts| ==> IsComponent(parts[i])
    ensures Clean(Split(Join(parts, "/") + ("/" + n))) == parts + [n]
  {
    var whole := Join(parts, "/") + ("/" + n);
    assert Split(whole) == parts + [n] by {
      SplitComponent(n);
      SplitAppend(Join(parts, "/"), n);
      SplitJoin(parts);
    }
    assert Clean(parts + [n]) == parts + [n] by {
      CleanKeeps(parts + [n]);
    }
  }

  /** The joined string ends with the last piece. */
  lemma {:induction false} JoinLast(cs: seq<string>)
    requires |cs| >= 1 && cs[|cs| - 1] != "" && '/' !in cs[|cs| - 1]
    ensures Join(cs, "/") != "" && Join(cs, "/")[|Join(cs, "/")| - 1] != '/'
    decreases |cs|
  {
    if |cs| > 1 {
      JoinLast(cs[1..]);
    }
  }

  // ---------------------------------------------------------------------
  // Name, suffix, stem, parent

  /** `p.name`: the last component, or "" when there is none. */
  function Name(p: PurePath): (n: string)
    ensures Valid(p) && p.parts != [] ==> IsComponent(n)
    ensures n == "" <==> p.parts == [] || p.parts[|p.parts| - 1] == ""
  {
    if p.parts == [] then "" else p.parts[|p.parts| - 1]
  }

  /** `p.parent`: the path without its last component; the empty path is its own parent. */
  function Parent(p: PurePath): (q: PurePath)
    ensures q.root == p.root
    ensures Valid(p) ==> Valid(q)
    ensures p.parts != [] ==> p.parts == q.parts + [Name(p)]
    ensures p.parts == [] ==> q == p
  {
    if p.parts == [] then p else PurePath(p.root, p.parts[..|p.parts| - 1])
  }

  /** `s.rfind(".")`. */
  function LastDot(s: string): (i: int)
    ensures -1 <= i < |s|
    ensures i >= 0 ==> s[i] == '.'
    ensures forall j :: i < j < |s| ==> s[j] != '.'
  {
    if s == [] then -1
    else if s[|s| - 1] == '.' then |s| - 1
    else LastDot(s[..|s| - 1])
  }

  /** The dot that starts a suffix: the last one, if it is neither the first nor the last character. */
  predicate HasSuffix(name: string)
  {
    0 < LastDot(name) < |name| - 1
  }

  /** `PurePath.suffix` of a path whose name is `name`. */
  function Suffix(name: string): (s: string)
    ensures s == "" || (|s| >= 2 && s[0] == '.' && '.' !in s[1..])
    ensures s != "" ==> |s| < |name| && name[|name| - |s|..] == s
  {
    if HasSuffix(name) then name[LastDot(name)..] else ""
  }

  /** `PurePath.stem`: the name without its suffix. */
  function Stem(name: string): (s: string)
    ensures s + Suffix(name) == name
    ensures name != "" ==> s != ""
  {
    if HasSuffix(name) then name[..LastDot(name)] else name
  }

  /** Appending a suffix to a non-empty name makes it the suffix, and the name the stem. */
  lemma SuffixOfAppended(n: string, ext: string)
    requires n != "" && |ext| >= 2 && ext[0] == '.' && '.' !in ext[1..]
    ensures Suffix(n + ext) == ext && Stem(n + ext) == n
  {
    var s := n + ext;
    var i := LastDot(s);
    assert s[|n|] == '.';
    forall j | |n| < j < |s| ensures s[j] != '.' {
      assert s[j] == ext[1..][j - |n| - 1];
    }
    assert i == |n|;
    assert s[i..] == ext;
  }

  // ---------------------------------------------------------------------
  // with_name, with_suffix

  /** `p.with_name(name)`. */
  function WithName(p: PurePath, name: string): (r: Result<PurePath>)
    ensures r.Err? <==> name == "" || '/' in name || name == "." || p.parts == []
    ensures r.Ok? ==> Name(r.value) == name && Parent(r.value) == Parent(p)
    ensures r.Ok? && Valid(p) ==> Valid(r.value)
  {
    if name == "" || '/' in name || name == "." then Err(InvalidName(name))
    else if p.parts == [] then Err(EmptyName)
    else Ok(PurePath(p.root, p.parts[..|p.parts| - 1] + [name]))
  }

  /** A suffix argument `with_suffix` accepts without complaint. */
  predicate IsSuffixArgument(suffix: string)
  {
    suffix == "" || (|suffix| >= 2 && suffix[0] == '.' && '/' !in suffix)
  }

  /** `p.with_suffix(suffix)`: the name's suffix replaced, or the suffix appended when there is none. */
  function WithSuffix(p: PurePath, suffix: string): (r: Result<PurePath>)
    requires IsSuffixArgument(suffix)
    ensures Valid(p) ==>
      (r.Err? <==> Name(p) == "" || Stem(Name(p)) + suffix == ".")
    ensures r.Ok? ==> Name(r.value) == Stem(Name(p)) + suffix && Parent(r.value) == Parent(p)
    ensures r.Ok? && Valid(p) ==> Valid(r.value)
  {
    var stem := Stem(Name(p));
    if stem == "" then Err(EmptyName)
    else WithName(p, stem + suffix)
  }

  // ---------------------------------------------------------------------
  // _normalize_target

  function AsciiUpper(c: char): char
  {
    if 'a' <= c <= 'z' then (c as int - 32) as char else c
  }

  /**
   * `s.lower() == t` for a target `t` of ASCII lower-case letters and dots.
   * For the letters of "pdf" and "tex" the only characters whose lower
   * case is that letter are the letter and its ASCII capital, and no
   * character lowers to two of them, so the comparison is exact.
   */
  predicate LowerIs(s: string, t: string)
  {
    |s| == |t| && forall i :: 0 <= i < |s| ==> s[i] == t[i] || s[i] == AsciiUpper(t[i])
  }

  /** The suffixes `_normalize_target` strips: ".tex" and ".pdf" in any letter case. */
  predicate IsTexOrPdf(suffix: string)
  {
    LowerIs(suffix, ".pdf") || LowerIs(suffix, ".tex")
  }

  /** The base: the target without a ".tex" or ".pdf" suffix. */
  function Base(path: PurePath): (r: Result<PurePath>)
  {
    if IsTexOrPdf(Suffix(Name(path))) then WithSuffix(path, "") else Ok(path)
  }

  /** `_normalize_target` applied to a parsed path: the base and the PDF file name. */
  function NormalizePath(path: PurePath): Result<(PurePath, string)>
  {
    match Base(path)
    case Err(e) => Err(e)
    case Ok(base) =>
      match WithSuffix(base, ".pdf")
      case Err(e) => Err(e)
      case Ok(pdf) => Ok((base, Name(pdf)))
  }

  /** `_normalize_target(target)`. */
  function NormalizeTarget(target: string): Result<(PurePath, string)>
  {
    NormalizePath(Parse(target))
  }

  /**
   * Normalisation fails exactly when the target has no final component
   * (".", "/", "") or when removing ".tex"/".pdf" would leave the name ".",
   * which `with_name` refuses (a target such as "..tex").
   */
  lemma NormalizeFails(path: PurePath)
    requires Valid(path)
    ensures NormalizePath(path).Err? <==>
      Name(path) == "" || (IsTexOrPdf(Suffix(Name(path))) && Stem(Name(path)) == ".")
  {
  }

  /**
   * What a successful normalisation gives: the base stays in the target's
   * directory; its name is the target's name with a ".tex"/".pdf" suffix
   * removed, and otherwise unchanged; the PDF name is a bare component
   * ending in ".pdf": the base's name with its own last suffix replaced.
   */
  lemma NormalizedShape(path: PurePath)
    requires Valid(path) && NormalizePath(path).Ok?
    ensures var (base, pdf) := NormalizePath(path).value;
      var name := Name(path);
      && Valid(base) && Parent(base) == Parent(path) && base.parts != []
      && Name(base) == (if IsTexOrPdf(Suffix(name)) then Stem(name) else name)
      && (!IsTexOrPdf(Suffix(name)) ==> base == path)
      && pdf == Stem(Name(base)) + ".pdf"
      && IsComponent(pdf) && |pdf| > 4 && pdf[|pdf| - 4..] == ".pdf"
  {
    var (base, pdf) := NormalizePath(path).value;
    assert pdf[|pdf| - 4..] == ".pdf";
  }

  /**
   * Accepted forms: a name with ".tex" or ".pdf" (in any letter case)
   * appended, in any directory, gives that name in that directory as the
   * base and the name's stem with ".pdf" as the PDF name. Only the one
   * suffix is removed.
   */
  lemma StripsOneSuffix(dir: PurePath, n: string, ext: string)
    requires IsComponent(n) && IsTexOrPdf(ext)
    ensures NormalizePath(PurePath(dir.root, dir.parts + [n + ext]))
      == Ok((PurePath(dir.root, dir.parts + [n]), Stem(n) + ".pdf"))
  {
    var path := PurePath(dir.root, dir.parts + [n + ext]);
    var base := PurePath(dir.root, dir.parts + [n]);
    assert Base(path) == Ok(base) by {
      assert '.' !in ext[1..];
      SuffixOfAppended(n, ext);
      assert Name(path) == n + ext;
      assert n + "" == n;
      assert path.parts[..|path.parts| - 1] + [n] == base.parts;
    }
    PdfNameOf(dir, n);
  }

  /** Replacing the suffix of a component by ".pdf" gives a component. */
  lemma PdfNameOf(dir: PurePath, n: string)
    requires IsComponent(n)
    ensures WithSuffix(PurePath(dir.root, dir.parts + [n]), ".pdf")
      == Ok(PurePath(dir.root, dir.parts + [Stem(n) + ".pdf"]))
  {
    var base := PurePath(dir.root, dir.parts + [n]);
    var stem := Stem(n);
    var pdf := stem + ".pdf";
    assert IsSuffixArgument(".pdf");
    assert '/' !in stem by {
      assert n == stem + Suffix(n);
      forall i | 0 <= i < |stem| ensures stem[i] != '/' {
        assert stem[i] == n[i];
      }
    }
    assert '/' !in pdf;
    assert Name(base) == n;
    assert base.parts[..|base.parts| - 1] + [pdf] == dir.parts + [pdf];
  }

  /** A name without a ".tex"/".pdf" suffix is itself the base. */
  lemma KeepsOtherName(dir: PurePath, n: string)
    requires Valid(dir) && IsComponent(n) && !IsTexOrPdf(Suffix(n))
    ensures NormalizePath(PurePath(dir.root, dir.parts + [n]))
      == Ok((PurePath(dir.root, dir.parts + [n]), Stem(n) + ".pdf"))
  {
  }

  /** A bare name with ".tex" or ".pdf" appended: the name is the base. */
  lemma BareWithSuffix(n: string, ext: string)
    requires IsComponent(n) && IsTexOrPdf(ext)
    ensures NormalizeTarget(n + ext) == Ok((PurePath("", [n]), Stem(n) + ".pdf"))
  {
    var empty := PurePath("", []);
    assert '/' !in ext;
    ParseComponent(n + ext);
    assert empty.parts + [n + ext] == [n + ext];
    assert empty.parts + [n] == [n];
    StripsOneSuffix(empty, n, ext);
  }

  /** A bare name without such a suffix is itself the base. */
  lemma BareOther(n: string)
    requires IsComponent(n) && !IsTexOrPdf(Suffix(n))
    ensures NormalizeTarget(n) == Ok((PurePath("", [n]), Stem(n) + ".pdf"))
  {
    var empty := PurePath("", []);
    ParseComponent(n);
    assert empty.parts + [n] == [n];
    KeepsOtherName(empty, n);
  }

  /** `foo` with ".tex" or ".pdf" in any letter case gives base `foo` and PDF `foo.pdf`. */
  lemma FooWith(ext: string)
    requires IsTexOrPdf(ext)
    ensures NormalizeTarget("foo" + ext) == Ok((PurePath("", ["foo"]), "foo.pdf"))
  {
    assert LastDot("foo") == -1;
    assert Stem("foo") == "foo";
    assert "foo" + ".pdf" == "foo.pdf";
    BareWithSuffix("foo", ext);
  }

  /** `foo` itself gives base `foo` and PDF `foo.pdf`. */
  lemma PlainForm()
    ensures NormalizeTarget("foo") == Ok((PurePath("", ["foo"]), "foo.pdf"))
  {
    assert LastDot("foo") == -1;
    assert Stem("foo") == "foo";
    assert "foo" + ".pdf" == "foo.pdf";
    BareOther("foo");
  }

  /** `foo.tex` and `foo.pdf` give the same base and PDF as `foo`. */
  lemma SuffixedForms()
    ensures NormalizeTarget("foo.tex") == Ok((PurePath("", ["foo"]), "foo.pdf"))
    ensures NormalizeTarget("foo.pdf") == Ok((PurePath("", ["foo"]), "foo.pdf"))
  {
    assert "foo.tex" == "foo" + ".tex";
    FooWith(".tex");
    assert "foo.pdf" == "foo" + ".pdf";
    FooWith(".pdf");
  }

  /** The suffix is compared without regard to letter case: `foo.TEX` and `foo.Pdf` too. */
  lemma CaseInsensitiveForms()
    ensures NormalizeTarget("foo.TEX") == Ok((PurePath("", ["foo"]), "foo.pdf"))
    ensures NormalizeTarget("foo.Pdf") == Ok((PurePath("", ["foo"]), "foo.pdf"))
  {
    UpperTex();
    UpperPdf();
  }

  lemma UpperTex()
    ensures NormalizeTarget("foo.TEX") == Ok((PurePath("", ["foo"]), "foo.pdf"))
  {
    assert "foo.TEX" == "foo" + ".TEX";
    assert LowerIs(".TEX", ".tex");
    FooWith(".TEX");
  }

  lemma UpperPdf()
    ensures NormalizeTarget("foo.Pdf") == Ok((PurePath("", ["foo"]), "foo.pdf"))
  {
    assert "foo.Pdf" == "foo" + ".Pdf";
    assert LowerIs(".Pdf", ".pdf");
    FooWith(".Pdf");
  }

  /** Only one suffix is removed: `foo.tex.pdf` gives base `foo.tex`, whose own suffix the PDF name replaces. */
  lemma DoubleSuffix()
    ensures NormalizeTarget("foo.tex.pdf") == Ok((PurePath("", ["foo.tex"]), "foo.pdf"))
  {
    assert "foo" + ".pdf" == "foo.pdf";
    SuffixOfAppended("foo", ".tex");
    assert "foo.tex" == "foo" + ".tex";
    assert "foo.tex.pdf" == "foo.tex" + ".pdf";
    BareWithSuffix("foo.tex", ".pdf");
  }

  /**
   * A target such as `a/foo.v2.tex`: the base keeps the directory and the
   * inner suffix (`a/foo.v2`), but the PDF name loses both (`foo.pdf`).
   */
  lemma InnerSuffixKept(dir: PurePath, stem: string, inner: string, ext: string)
    requires IsComponent(stem + inner) && IsTexOrPdf(ext)
    requires stem != "" && |inner| >= 2 && inner[0] == '.' && '.' !in inner[1..]
    ensures NormalizePath(PurePath(dir.root, dir.parts + [stem + inner + ext]))
      == Ok((PurePath(dir.root, dir.parts + [stem + inner]), stem + ".pdf"))
  {
    SuffixOfAppended(stem, inner);
    StripsOneSuffix(dir, stem + inner, ext);
  }

  // ---------------------------------------------------------------------
  // The working directory and the TeX file (main, lines 33-35)

  /** `base.parent if str(base.parent) not in {"", "."} else None`. */
  function WorkDir(base: PurePath): Option<PurePath>
  {
    var parent := Parent(base);
    var printed := Str(parent);
    if printed != "" && printed != "." then Some(parent) else None
  }

  /** `Path(".")`: the empty relative path. */
  const CurrentDir := PurePath("", [])

  lemma ParseDot()
    ensures Parse(".") == CurrentDir
  {
    SplitComponent(".");
  }

  /** `(cwd or Path(".")) / f"{base.name}.tex"`. */
  function TexPath(base: PurePath): PurePath
  {
    var dir := match WorkDir(base) case Some(d) => d case None => CurrentDir;
    Parse(PosixJoin(Str(dir), Name(base) + ".tex"))
  }

  /** Only the empty path prints as ".". */
  lemma PrintsDot(p: PurePath)
    requires Valid(p)
    ensures Str(p) == "." <==> p.root == "" && p.parts == []
  {
    if p.parts != [] {
      JoinHead(p.parts);
      assert Join(p.parts, "/") != "." by {
        SplitJoin(p.parts);
        SplitComponent(".");
      }
      assert Str(p) == p.root + Join(p.parts, "/");
    } else if p.root != "" {
      assert Str(p) == p.root + "";
      assert Str(p)[0] == '/';
    }
  }

  /**
   * The working directory is the base's parent, and there is none exactly
   * when that parent is the empty relative path (a bare name such as
   * `foo` or `./foo`).
   */
  lemma WorkDirIsParent(base: PurePath)
    requires Valid(base)
    ensures WorkDir(base) == None <==> Parent(base).root == "" && Parent(base).parts == []
    ensures WorkDir(base).Some? ==> WorkDir(base).value == Parent(base)
  {
    PrintsDot(Parent(base));
  }

  /** The TeX file looked for is the base's sibling named after the base with ".tex" appended. */
  lemma TexPathIsSibling(base: PurePath)
    requires Valid(base) && base.parts != []
    ensures TexPath(base) == PurePath(base.root, Parent(base).parts + [Name(base) + ".tex"])
  {
    var tex := Name(base) + ".tex";
    assert IsComponent(tex);
    WorkDirIsParent(base);
    match WorkDir(base)
    case Some(d) =>
      ParseJoin(d, tex);
    case None =>
      ParseJoin(CurrentDir, tex);
  }

  /** What lines 33-35 compute before the TeX file is looked up. */
  datatype BuildPlan = BuildPlan(base: PurePath, pdfName: string, cwd: Option<PurePath>, texPath: PurePath)

  function Plan(target: string): Result<BuildPlan>
  {
    match NormalizeTarget(target)
    case Err(e) => Err(e)
    case Ok((base, pdfName)) => Ok(BuildPlan(base, pdfName, WorkDir(base), TexPath(base)))
  }

  /**
   * The plan for a target: the TeX file sits in the target's directory and
   * is named after the target with a ".tex"/".pdf" suffix replaced by
   * ".tex" (any other name gets ".tex" appended), so a target ending in
   * ".tex" is itself the TeX file; the build runs in the target's directory,
   * or in the current one for a bare name.
   */
  lemma PlanShape(target: string)
    requires Plan(target).Ok?
    ensures var path := Parse(target);
      var plan := Plan(target).value;
      var name := Name(path);
      var texName := (if IsTexOrPdf(Suffix(name)) then Stem(name) else name) + ".tex";
      && plan.texPath == PurePath(path.root, Parent(path).parts + [texName])
      && (plan.cwd == None <==> path.root == "" && |path.parts| == 1)
      && (plan.cwd.Some? ==> plan.cwd.value == Parent(path))
      && (Suffix(name) == ".tex" ==> plan.texPath == path)
  {
    var path := Parse(target);
    NormalizedShape(path);
    var base := NormalizeTarget(target).value.0;
    TexPathIsSibling(base);
    WorkDirIsParent(base);
    var name := Name(path);
    if Suffix(name) == ".tex" {
      assert IsTexOrPdf(".tex");
      assert Stem(name) + ".tex" == name;
      assert path.parts == Parent(path).parts + [name];
    }
  }
}
