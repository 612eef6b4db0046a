/** Splitting a file name into base name and extension, as the standard
    path-splitting call does for a name without a directory separator: the
    extension runs from the last dot, unless that dot belongs to the run of
    dots the name starts with. */
module PathSplit {

  /** Every character of `s` is a dot (true of the empty string). */
  predicate AllDots(s: string)
  {
    forall k :: 0 <= k < |s| ==> s[k] == '.'
  }

  /** The index of the last occurrence of `c` in `s`, or -1 when there is none. */
  function LastIndexOf(s: string, c: char): (r: int)
    ensures -1 <= r < |s|
    ensures r >= 0 ==> s[r] == c && forall k :: r < k < |s| ==> s[k] != c
    ensures r == -1 ==> forall k :: 0 <= k < |s| ==> s[k] != c
  {
    if |s| == 0 then -1
    else if s[|s| - 1] == c then |s| - 1
    else LastIndexOf(s[..|s| - 1], c)
  }

  /** The split of `name` into (base, extension): cut at the last dot unless
      only dots precede it. SplitExtIsSplit states what the result satisfies. */
  function SplitExt(name: string): (string, string)
  {
    var d := LastIndexOf(name, '.');
    if d >= 0 && !AllDots(name[..d]) then (name[..d], name[d..]) else (name, "")
  }

  /** The split meets IsSplit: the parts make up the name and the extension is
      either empty or runs from the last dot that follows a non-dot. */
  lemma SplitExtIsSplit(name: string)
    ensures IsSplit(name, SplitExt(name).0, SplitExt(name).1)
  {
    var d := LastIndexOf(name, '.');
    if d >= 0 && !AllDots(name[..d]) {
      assert name[..d] + name[d..] == name;
    } else {
      assert name + "" == name;
    }
  }

  /** What a split must satisfy, independent of how it is computed: the two
      parts make up the name; a non-empty extension starts at a dot, holds no
      other dot, and follows a base that is not just dots; an empty extension
      means every dot of the name lies in its leading run of dots. */
  ghost predicate IsSplit(name: string, base: string, ext: string)
  {
    && base + ext == name
    && (ext != "" ==> ext[0] == '.' && (forall k :: 1 <= k < |ext| ==> ext[k] != '.') && !AllDots(base))
    && (ext == "" ==> forall k :: 0 <= k < |name| && name[k] == '.' ==> AllDots(name[..k]))
  }

  /** The conditions of IsSplit determine the split: SplitExt is the only one. */
  lemma SplitIsUnique(name: string, base: string, ext: string)
    requires IsSplit(name, base, ext)
    ensures SplitExt(name) == (base, ext)
  {
    var d := LastIndexOf(name, '.');
    if ext != "" {
      var b := |base|;
      assert name[b] == ext[0] == '.';
      assert forall k :: b < k < |name| ==> name[k] == ext[k - b];
      assert d == b;
      assert name[..d] == base;
      assert name[d..] == ext;
    } else {
      assert base == name;
      if d >= 0 {
        assert AllDots(name[..d]);
      }
    }
  }

  /** A name that starts with a dot and has no other dot has no extension. */
  lemma DotFileExample()
    ensures SplitExt(".gitignore") == (".gitignore", "")
  {
    var n := ".gitignore";
    assert forall k :: 0 <= k < |n| && n[k] == '.' ==> k == 0;
    assert forall k :: 0 <= k < |n| && n[k] == '.' ==> AllDots(n[..k]);
    assert n + "" == n;
    SplitIsUnique(n, n, "");
  }

  /** Only the last dot starts the extension. */
  lemma MultiDotExample()
    ensures SplitExt("a.b.pdf") == ("a.b", ".pdf")
  {
    assert "a.b" + ".pdf" == "a.b.pdf";
    assert !AllDots("a.b") by { assert "a.b"[0] != '.'; }
    SplitIsUnique("a.b.pdf", "a.b", ".pdf");
  }
}
