/** Collision-free destination names: the candidate `{base}_{n}{ext}` for a
    counter n, and the probe loop that takes the original name when it is free
    and otherwise the first free candidate for n = 1, 2, 3, ... */
module Naming {

  /** The decimal digit for `d`. */
  function DigitChar(d: nat): (c: char)
    requires d < 10
    ensures '0' <= c <= '9' && c as int - '0' as int == d
  {
    (d + '0' as int) as char
  }

  /** The decimal form of `n`, as `str(n)` prints a non-negative integer. */
  function NatToString(n: nat): (s: string)
    ensures |s| >= 1
    ensures forall i :: 0 <= i < |s| ==> '0' <= s[i] <= '9'
    ensures s[0] == '0' ==> n == 0
  {
    if n < 10 then [DigitChar(n)] else NatToString(n / 10) + [DigitChar(n % 10)]
  }

  /** Reads a string of decimal digits back as a number. */
  function ParseNat(s: string): nat
    requires forall i :: 0 <= i < |s| ==> '0' <= s[i] <= '9'
  {
    if s == [] then 0 else ParseNat(s[..|s| - 1]) * 10 + (s[|s| - 1] as int - '0' as int)
  }

  /** Reading the decimal form gives the number back. */
  lemma {:induction false} ParseNatToString(n: nat)
    ensures ParseNat(NatToString(n)) == n
  {
    var s := NatToString(n);
    if n >= 10 {
      ParseNatToString(n / 10);
      assert s[..|s| - 1] == NatToString(n / 10);
    }
  }

  /** Distinct numbers have distinct decimal forms. */
  lemma NatToStringInjective(n: nat, m: nat)
    requires NatToString(n) == NatToString(m)
    ensures n == m
  {
    ParseNatToString(n);
    ParseNatToString(m);
  }

  /** The renamed destination `{base}_{n}{ext}`. */
  function Candidate(base: string, n: nat, ext: string): string
  {
    base + "_" + NatToString(n) + ext
  }

  /** For a fixed base and extension, candidates for distinct counters are distinct. */
  lemma CandidateInjective(base: string, ext: string, n: nat, m: nat)
    requires Candidate(base, n, ext) == Candidate(base, m, ext)
    ensures n == m
  {
    var c := Candidate(base, n, ext);
    var lo := |base| + 1;
    assert |NatToString(n)| == |NatToString(m)|;
    assert c[lo..|c| - |ext|] == NatToString(n);
    assert Candidate(base, m, ext)[lo..|c| - |ext|] == NatToString(m);
    NatToStringInjective(n, m);
  }

  /** The first `n` candidates. */
  function CandidateSet(base: string, ext: string, n: nat): set<string>
  {
    set k: nat | 1 <= k <= n :: Candidate(base, k, ext)
  }

  /** The first `n` candidates are `n` different names. */
  lemma {:induction false} CandidateSetSize(base: string, ext: string, n: nat)
    ensures |CandidateSet(base, ext, n)| == n
  {
    if n == 0 {
      assert CandidateSet(base, ext, 0) == {};
    } else {
      CandidateSetSize(base, ext, n - 1);
      var c := Candidate(base, n, ext);
      assert CandidateSet(base, ext, n) == CandidateSet(base, ext, n - 1) + {c};
      if c in CandidateSet(base, ext, n - 1) {
        var k: nat :| 1 <= k <= n - 1 && Candidate(base, k, ext) == c;
        CandidateInjective(base, ext, k, n);
      }
    }
  }

  /** A folder can block at most as many candidates as it holds names, so the
      probe loop stops after at most |existing| failed probes. */
  lemma ProbesBounded(existing: set<string>, base: string, ext: string, n: nat)
    requires forall k: nat :: 1 <= k <= n ==> Candidate(base, k, ext) in existing
    ensures n <= |existing|
  {
    var probed := CandidateSet(base, ext, n);
    CandidateSetSize(base, ext, n);
    assert existing == probed + (existing - probed);
    assert |existing| == |probed| + |existing - probed|;
  }

  /** `name` is the destination the probe loop must choose for `item` (split
      into `base` and `ext`) in a folder already holding `existing`. */
  ghost predicate IsResolved(existing: set<string>, item: string, base: string, ext: string, name: string)
  {
    && name !in existing
    && (item !in existing ==> name == item)
    && (item in existing ==>
          exists n: nat :: 1 <= n && name == Candidate(base, n, ext)
                        && forall k: nat :: 1 <= k < n ==> Candidate(base, k, ext) in existing)
  }

  /** At most one name satisfies IsResolved. */
  lemma ResolvedIsUnique(existing: set<string>, item: string, base: string, ext: string, a: string, b: string)
    requires IsResolved(existing, item, base, ext, a)
    requires IsResolved(existing, item, base, ext, b)
    ensures a == b
  {
    if item in existing {
      var n: nat :| 1 <= n && a == Candidate(base, n, ext)
                 && forall k: nat :: 1 <= k < n ==> Candidate(base, k, ext) in existing;
      var m: nat :| 1 <= m && b == Candidate(base, m, ext)
                 && forall k: nat :: 1 <= k < m ==> Candidate(base, k, ext) in existing;
      assert !(n < m) && !(m < n);
    }
  }

  /** The probe loop: keep `item` if it is free, otherwise try
      `{base}_1{ext}`, `{base}_2{ext}`, ... until a name is free. */
  method ResolveName(existing: set<string>, item: string, base: string, ext: string) returns (name: string)
    ensures IsResolved(existing, item, base, ext, name)
  {
    name := item;
    var counter: nat := 1;
    while name in existing
      invariant 1 <= counter
      invariant counter == 1 ==> name == item
      invariant counter > 1 ==> item in existing && name == Candidate(base, counter - 1, ext)
      invariant forall k: nat :: 1 <= k < counter - 1 ==> Candidate(base, k, ext) in existing
      invariant counter <= |existing| + 2
      decreases |existing| + 2 - counter
    {
      ProbesBounded(existing, base, ext, counter - 1);
      name := Candidate(base, counter, ext);
      counter := counter + 1;
    }
  }

  /** A name clash in the destination gives `{base}_1{ext}`. */
  lemma FirstRenameExample()
    ensures IsResolved({"report.pdf"}, "report.pdf", "report", ".pdf", "report_1.pdf")
  {
    assert NatToString(1) == "1";
    assert Candidate("report", 1, ".pdf") == "report_1.pdf";
  }

  /** With `_1` taken as well, the third copy gets `{base}_2{ext}`. */
  lemma SecondRenameExample()
    ensures IsResolved({"report.pdf", "report_1.pdf"}, "report.pdf", "report", ".pdf", "report_2.pdf")
  {
    assert NatToString(1) == "1";
    assert NatToString(2) == "2";
    assert Candidate("report", 1, ".pdf") == "report_1.pdf";
    assert Candidate("report", 2, ".pdf") == "report_2.pdf";
  }
}
