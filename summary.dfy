/** The end-of-run summary: the categories in alphabetical order, the ones
    with a positive count, and the total number of files moved. */
module Summary {
  import opened Classifier

  /** Lexicographic order on strings by character code, as Python compares `str`. */
  predicate LexLess(a: string, b: string)
  {
    if |a| == 0 then |b| > 0
    else if |b| == 0 then false
    else if a[0] != b[0] then a[0] < b[0]
    else LexLess(a[1..], b[1..])
  }

  lemma {:induction false} LexLessIrreflexive(a: string)
    ensures !LexLess(a, a)
  {
    if |a| > 0 {
      LexLessIrreflexive(a[1..]);
    }
  }

  lemma {:induction false} LexLessTransitive(a: string, b: string, c: string)
    requires LexLess(a, b) && LexLess(b, c)
    ensures LexLess(a, c)
  {
    if |a| > 0 && |b| > 0 && |c| > 0 && a[0] == b[0] == c[0] {
      LexLessTransitive(a[1..], b[1..], c[1..]);
    }
  }

  /** Strictly increasing: sorted and without repeats. */
  ghost predicate StrictlySorted(s: seq<string>)
  {
    forall i, j :: 0 <= i < j < |s| ==> LexLess(s[i], s[j])
  }

  lemma SortedNeighbours()
    ensures LexLess("Archives", "Audio") && LexLess("Audio", "Code") && LexLess("Code", "Documents")
    ensures LexLess("Documents", "Executables") && LexLess("Executables", "Images")
    ensures LexLess("Images", "Other") && LexLess("Other", "Video")
  {
    assert "Archives"[1..] == "rchives" && "Audio"[1..] == "udio";
  }

  /** What `sorted()` returns for the keys of the count map, which are always
      exactly the provisioned category names: the same names (a strictly
      sorted sequence has no repeats, so this is a permutation) in order. */
  function SortedCategoryNames(): (r: seq<string>)
    ensures |r| == |CategoryNames|
    ensures forall x :: x in r <==> x in CategoryNames
    ensures StrictlySorted(r)
    ensures Distinct(r)
  {
    var r := ["Archives", "Audio", "Code", "Documents", "Executables", "Images", "Other", "Video"];
    SortedNeighbours();
    SortedByNeighbours(r);
    forall a, b | 0 <= a < b < |r| ensures r[a] != r[b] {
      LexLessIrreflexive(r[a]);
    }
    r
  }

  /** Increasing neighbours make the whole sequence increasing. */
  lemma {:induction false} SortedByNeighbours(s: seq<string>)
    requires forall i :: 0 <= i < |s| - 1 ==> LexLess(s[i], s[i + 1])
    ensures StrictlySorted(s)
  {
    if |s| > 1 {
      SortedByNeighbours(s[1..]);
      forall j | 1 < j < |s|
        ensures LexLess(s[0], s[j])
      {
        assert LexLess(s[1..][0], s[1..][j - 1]);
        LexLessTransitive(s[0], s[1], s[j]);
      }
    }
  }

  /** No name occurs twice. */
  predicate Distinct(s: seq<string>)
  {
    forall i, j :: 0 <= i < j < |s| ==> s[i] != s[j]
  }

  /** The sum of the counts of the names in `names`. */
  function Total(counts: map<string, nat>, names: seq<string>): nat
    requires forall c :: c in names ==> c in counts
  {
    if names == [] then 0 else Total(counts, names[..|names| - 1]) + counts[names[|names| - 1]]
  }

  /** Bumping the count of one listed name bumps the total by one. */
  lemma {:induction false} TotalIncrement(counts: map<string, nat>, names: seq<string>, c: string)
    requires forall x :: x in names ==> x in counts
    requires Distinct(names) && c in names
    ensures Total(counts[c := counts[c] + 1], names) == Total(counts, names) + 1
  {
    var counts' := counts[c := counts[c] + 1];
    var last := names[|names| - 1];
    var init := names[..|names| - 1];
    if last == c {
      assert c !in init;
      TotalUnchanged(counts, init, c);
    } else {
      assert c in init;
      TotalIncrement(counts, init, c);
    }
  }

  /** Bumping the count of an unlisted name leaves the total alone. */
  lemma {:induction false} TotalUnchanged(counts: map<string, nat>, names: seq<string>, c: string)
    requires forall x :: x in names ==> x in counts
    requires c in counts && c !in names
    ensures Total(counts[c := counts[c] + 1], names) == Total(counts, names)
  {
    if names != [] {
      TotalUnchanged(counts, names[..|names| - 1], c);
    }
  }

  /** A total is zero exactly when every listed count is zero. */
  lemma {:induction false} TotalZero(counts: map<string, nat>, names: seq<string>)
    requires forall x :: x in names ==> x in counts
    ensures Total(counts, names) == 0 <==> forall x :: x in names ==> counts[x] == 0
  {
    if names != [] {
      TotalZero(counts, names[..|names| - 1]);
      assert forall x :: x in names ==> x in names[..|names| - 1] || x == names[|names| - 1];
    }
  }

  /** After the first `k` sorted names: `lines` lists, in order, the names
      among them with a positive count, and `total` is the sum of their counts. */
  ghost predicate Summarized(counts: map<string, nat>, sorted: seq<string>, k: nat,
                             lines: seq<(string, nat)>, total: nat)
  {
    && k <= |sorted|
    && (forall c :: c in sorted ==> c in counts)
    && (forall c, n :: (c, n) in lines <==> c in sorted[..k] && n == counts[c] && n > 0)
    && (forall i :: 0 <= i < |lines| ==> lines[i].0 in sorted[..k])
    && (forall i, j :: 0 <= i < j < |lines| ==> LexLess(lines[i].0, lines[j].0))
    && total == Total(counts, sorted[..k])
  }

  /** A name with a positive count is appended and added to the total. */
  lemma SummarizedAdd(counts: map<string, nat>, sorted: seq<string>, k: nat, lines: seq<(string, nat)>, total: nat)
    requires Summarized(counts, sorted, k, lines, total) && StrictlySorted(sorted)
    requires k < |sorted| && counts[sorted[k]] > 0
    ensures Summarized(counts, sorted, k + 1, lines + [(sorted[k], counts[sorted[k]])], total + counts[sorted[k]])
  {
    var c := sorted[k];
    assert sorted[..k + 1] == sorted[..k] + [c];
    forall i | 0 <= i < |lines|
      ensures LexLess(lines[i].0, c)
    {
      var m :| 0 <= m < k && sorted[..k][m] == lines[i].0;
    }
  }

  /** A name with a zero count is passed over. */
  lemma SummarizedSkip(counts: map<string, nat>, sorted: seq<string>, k: nat, lines: seq<(string, nat)>, total: nat)
    requires Summarized(counts, sorted, k, lines, total)
    requires k < |sorted| && counts[sorted[k]] == 0
    ensures Summarized(counts, sorted, k + 1, lines, total)
  {
    assert sorted[..k + 1] == sorted[..k] + [sorted[k]];
  }

  /** Once every name is seen, the lines are the positive counts in order and
      the total is zero exactly when no line is printed. */
  lemma SummarizedAll(counts: map<string, nat>, sorted: seq<string>, lines: seq<(string, nat)>, total: nat)
    requires Summarized(counts, sorted, |sorted|, lines, total)
    ensures forall c, n :: (c, n) in lines <==> c in sorted && n == counts[c] && n > 0
    ensures total == Total(counts, sorted)
    ensures total == 0 <==> lines == []
  {
    assert sorted[..|sorted|] == sorted;
    TotalZero(counts, sorted);
    forall x | x in sorted && counts[x] > 0
      ensures (x, counts[x]) in lines
    {
    }
    if lines != [] {
      assert lines[0] in lines;
    }
  }

  /** The summary loop over the sorted keys of the count map: list each name
      with a positive count, in key order, and add it to the total. */
  method Summarize(counts: map<string, nat>, sorted: seq<string>) returns (lines: seq<(string, nat)>, total: nat)
    requires forall c :: c in sorted ==> c in counts
    requires StrictlySorted(sorted)
    ensures forall c, n :: (c, n) in lines <==> c in sorted && n == counts[c] && n > 0
    ensures forall i, j :: 0 <= i < j < |lines| ==> LexLess(lines[i].0, lines[j].0)
    ensures total == Total(counts, sorted)
    ensures total == 0 <==> lines == []
  {
    lines, total := [], 0;
    for k := 0 to |sorted|
      invariant Summarized(counts, sorted, k, lines, total)
    {
      var c := sorted[k];
      var count := counts[c];
      if count > 0 {
        SummarizedAdd(counts, sorted, k, lines, total);
        lines := lines + [(c, count)];
        total := total + count;
      } else {
        SummarizedSkip(counts, sorted, k, lines, total);
      }
    }
    SummarizedAll(counts, sorted, lines, total);
  }
}
