/** The brute-force task of the password service
    (2lab/app/services/tasks.py): it tries every password over the
    character set, shortest first and in `itertools.product` order within
    one length, stops at the password "test", and reports its progress
    every thousand candidates. */
module BruteForce {

  /** `b ** e`: positive for a positive base, 0 for base 0 and a positive
      exponent. */
  function Pow(b: nat, e: nat): (r: nat)
    ensures b > 0 ==> r > 0
    ensures b == 0 && e > 0 ==> r == 0
  {
    if e == 0 then 1 else b * Pow(b, e - 1)
  }

  /** `total`: the sum of `len(charset) ** i` for i = 1..max_length. It is 0
      exactly when the character set is empty or the length is not
      positive. */
  function Total(n: nat, maxLength: int): (r: nat)
    ensures r == 0 <==> n == 0 || maxLength <= 0
    decreases maxLength
  {
    if maxLength <= 0 then 0 else Total(n, maxLength - 1) + Pow(n, maxLength)
  }

  /** The induction step of `TotalGeometric`, as plain arithmetic. */
  lemma GeometricStep(m: int, t: int, p: int)
    requires m * t == p - (m + 1)
    ensures m * (t + p) == (m + 1) * p - (m + 1)
  {
    assert m * (t + p) == m * t + m * p;
    assert (m + 1) * p == m * p + p;
  }

  /** The closed form of the geometric sum. */
  lemma {:induction false} TotalGeometric(n: nat, maxLength: nat)
    ensures (n - 1) * Total(n, maxLength) == Pow(n, maxLength + 1) - n
  {
    if maxLength > 0 {
      TotalGeometric(n, maxLength - 1);
      var t, p := Total(n, maxLength - 1), Pow(n, maxLength);
      assert Total(n, maxLength) == t + p;
      assert Pow(n, maxLength + 1) == n * p;
      GeometricStep(n - 1, t, p);
    }
  }

  /** Each tail with the character `c` put in front. */
  function Prefixed(c: char, tails: seq<string>): seq<string> {
    if tails == [] then [] else [[c] + tails[0]] + Prefixed(c, tails[1..])
  }

  lemma {:induction false} PrefixedAt(c: char, tails: seq<string>)
    ensures |Prefixed(c, tails)| == |tails|
    ensures forall i :: 0 <= i < |tails| ==> Prefixed(c, tails)[i] == [c] + tails[i]
  {
    if tails != [] {
      PrefixedAt(c, tails[1..]);
    }
  }

  /** One more position of `itertools.product`: for each character of `cs`
      in turn, that character in front of every tail. */
  function Extend(cs: string, tails: seq<string>): seq<string> {
    if cs == [] then [] else Prefixed(cs[0], tails) + Extend(cs[1..], tails)
  }

  lemma {:induction false} ExtendCount(cs: string, tails: seq<string>)
    ensures |Extend(cs, tails)| == |cs| * |tails|
  {
    if cs != [] {
      PrefixedAt(cs[0], tails);
      ExtendCount(cs[1..], tails);
      assert |cs| * |tails| == |tails| + (|cs| - 1) * |tails|;
    }
  }

  /** `itertools.product(charset, repeat=length)`, each tuple joined: one
      length contributes exactly len(charset)^length candidates. */
  function Product(cs: string, length: nat): (r: seq<string>)
    ensures |r| == Pow(|cs|, length)
  {
    if length == 0 then [""]
    else
      var tails := Product(cs, length - 1);
      ExtendCount(cs, tails);
      Extend(cs, tails)
  }

  /** The candidates in the order the task tries them: all of length 1,
      then all of length 2, and so on up to `maxLength`. There are exactly
      `total` of them. */
  function Candidates(cs: string, maxLength: int): (r: seq<string>)
    ensures |r| == Total(|cs|, maxLength)
    decreases maxLength
  {
    if maxLength <= 0 then [] else Candidates(cs, maxLength - 1) + Product(cs, maxLength)
  }

  lemma {:induction false} ExtendAt(cs: string, tails: seq<string>, c: nat, j: nat)
    requires c < |cs| && j < |tails|
    ensures c * |tails| + j < |Extend(cs, tails)|
    ensures Extend(cs, tails)[c * |tails| + j] == [cs[c]] + tails[j]
  {
    var p := Prefixed(cs[0], tails);
    PrefixedAt(cs[0], tails);
    if c > 0 {
      ExtendAt(cs[1..], tails, c - 1, j);
      assert c * |tails| + j == |p| + ((c - 1) * |tails| + j);
    }
  }

  /** Within one length the candidates are in lexicographic order of
      character positions: the first character varies slowest. Candidate
      number `c * |cs|^n + j` of length n + 1 is `cs[c]` followed by
      candidate number j of length n. */
  lemma ProductAt(cs: string, n: nat, c: nat, j: nat)
    requires c < |cs| && j < |Product(cs, n)|
    ensures |Product(cs, n)| == Pow(|cs|, n) && |Product(cs, n + 1)| == Pow(|cs|, n + 1)
    ensures c * Pow(|cs|, n) + j < Pow(|cs|, n + 1)
    ensures Product(cs, n + 1)[c * Pow(|cs|, n) + j] == [cs[c]] + Product(cs, n)[j]
  {
    ExtendCount(cs, Product(cs, n));
    ExtendAt(cs, Product(cs, n), c, j);
  }

  lemma {:induction false} ExtendMember(cs: string, tails: seq<string>, w: string)
    ensures w in Extend(cs, tails) <==> |w| > 0 && w[0] in cs && w[1..] in tails
  {
    if cs != [] {
      ExtendMember(cs[1..], tails, w);
      var p := Prefixed(cs[0], tails);
      PrefixedAt(cs[0], tails);
      if w in p {
        var i :| 0 <= i < |p| && p[i] == w;
        assert w[1..] == tails[i];
      }
      if |w| > 0 && w[0] == cs[0] && w[1..] in tails {
        var i :| 0 <= i < |tails| && tails[i] == w[1..];
        assert w == [w[0]] + w[1..];
        assert p[i] == w;
      }
    }
  }

  /** The candidates of one length are exactly the words of that length
      over the character set. */
  lemma {:induction false} ProductMember(cs: string, n: nat, w: string)
    ensures w in Product(cs, n) <==> |w| == n && forall i :: 0 <= i < |w| ==> w[i] in cs
  {
    if n == 0 {
      assert |w| == 0 ==> w == "";
    } else {
      ExtendMember(cs, Product(cs, n - 1), w);
      if |w| > 0 {
        ProductMember(cs, n - 1, w[1..]);
        assert forall i :: 1 <= i < |w| ==> w[i] == w[1..][i - 1];
      }
    }
  }

  /** A candidate of the whole task is a word of length 1..maxLength over
      the character set, and every such word is a candidate. */
  lemma {:induction false} CandidateMember(cs: string, maxLength: int, w: string)
    ensures w in Candidates(cs, maxLength) <==>
      1 <= |w| <= maxLength && forall i :: 0 <= i < |w| ==> w[i] in cs
    decreases maxLength
  {
    if maxLength > 0 {
      CandidateMember(cs, maxLength - 1, w);
      ProductMember(cs, maxLength, w);
    }
  }

  lemma ProductLengths(cs: string, n: nat)
    ensures forall k :: 0 <= k < |Product(cs, n)| ==> |Product(cs, n)[k]| == n
  {
    forall k | 0 <= k < |Product(cs, n)| ensures |Product(cs, n)[k]| == n {
      ProductMember(cs, n, Product(cs, n)[k]);
    }
  }

  lemma CandidatesShorter(cs: string, maxLength: int)
    ensures forall k :: 0 <= k < |Candidates(cs, maxLength)| ==> |Candidates(cs, maxLength)[k]| <= maxLength
  {
    forall k | 0 <= k < |Candidates(cs, maxLength)| ensures |Candidates(cs, maxLength)[k]| <= maxLength {
      CandidateMember(cs, maxLength, Candidates(cs, maxLength)[k]);
    }
  }

  predicate ByLength(s: seq<string>) {
    forall a, b :: 0 <= a <= b < |s| ==> |s[a]| <= |s[b]|
  }

  lemma ConcatByLength(prev: seq<string>, p: seq<string>, n: int)
    requires ByLength(prev)
    requires forall k :: 0 <= k < |prev| ==> |prev[k]| < n
    requires forall k :: 0 <= k < |p| ==> |p[k]| == n
    ensures ByLength(prev + p)
  {
    var s := prev + p;
    forall a, b | 0 <= a <= b < |s| ensures |s[a]| <= |s[b]| {
      if b < |prev| {
        assert s[a] == prev[a] && s[b] == prev[b];
      } else if a < |prev| {
        assert s[a] == prev[a] && s[b] == p[b - |prev|];
      } else {
        assert s[a] == p[a - |prev|] && s[b] == p[b - |prev|];
      }
    }
  }

  /** Shorter candidates come first. */
  lemma {:induction false} CandidatesByLength(cs: string, maxLength: int)
    ensures ByLength(Candidates(cs, maxLength))
    decreases maxLength
  {
    if maxLength > 0 {
      CandidatesByLength(cs, maxLength - 1);
      CandidatesShorter(cs, maxLength - 1);
      ProductLengths(cs, maxLength);
      ConcatByLength(Candidates(cs, maxLength - 1), Product(cs, maxLength), maxLength);
    }
  }

  /** The candidates up to a shorter length are a prefix of those up to a
      longer one. */
  lemma {:induction false} CandidatesPrefix(cs: string, a: int, b: int)
    requires a <= b
    ensures |Candidates(cs, a)| <= |Candidates(cs, b)|
    ensures Candidates(cs, b)[..|Candidates(cs, a)|] == Candidates(cs, a)
    decreases b
  {
    if a < b && b > 0 {
      CandidatesPrefix(cs, a, b - 1);
    }
  }

  /** "test" is reachable exactly when the length allows four characters and
      't', 'e' and 's' are all in the character set. */
  lemma TestReachable(cs: string, maxLength: int)
    ensures "test" in Candidates(cs, maxLength) <==>
      maxLength >= 4 && 't' in cs && 'e' in cs && 's' in cs
  {
    CandidateMember(cs, maxLength, "test");
    var w := "test";
    assert w[0] == 't' && w[1] == 'e' && w[2] == 's' && w[3] == 't';
  }

  /** The dictionary the task returns. */
  datatype TaskOutput = TaskOutput(result: string, progress: int, status: string)

  const Completed := TaskOutput("test", 100, "completed")
  const Failed := TaskOutput("", 100, "failed")

  /** The task's return value: it depends on the character set and the
      length only, never on the archive hash. */
  function Outcome(cs: string, maxLength: int): (r: TaskOutput)
    ensures r == Completed <==> maxLength >= 4 && 't' in cs && 'e' in cs && 's' in cs
    ensures r != Completed ==> r == Failed
  {
    TestReachable(cs, maxLength);
    if "test" in Candidates(cs, maxLength) then Completed else Failed
  }

  /** The position of the first `x` in `s`, or `|s|`. */
  function IndexOf(s: seq<string>, x: string): (r: nat)
    ensures r <= |s|
    ensures r < |s| ==> s[r] == x
    ensures forall k :: 0 <= k < r ==> s[k] != x
  {
    if s == [] then 0 else if s[0] == x then 0 else 1 + IndexOf(s[1..], x)
  }

  /** Searching past a part without `x`. */
  lemma {:induction false} IndexOfAfter(a: seq<string>, b: seq<string>, x: string)
    requires x !in a
    ensures IndexOf(a + b, x) == |a| + IndexOf(b, x)
  {
    if a == [] {
      assert a + b == b;
    } else {
      assert (a + b)[1..] == a[1..] + b;
      IndexOfAfter(a[1..], b, x);
    }
  }

  /** Searching a part that holds `x` never looks past it. */
  lemma {:induction false} IndexOfBefore(a: seq<string>, b: seq<string>, x: string)
    requires x in a
    ensures IndexOf(a + b, x) == IndexOf(a, x)
  {
    if a[0] != x {
      assert (a + b)[1..] == a[1..] + b;
      IndexOfBefore(a[1..], b, x);
    }
  }

  lemma IndexOfAbsent(s: seq<string>, x: string)
    requires x !in s
    ensures IndexOf(s, x) == |s|
  {
  }

  /** How many candidates are counted before the task stops without
      reporting: the position of "test", or all of them. */
  function Scanned(cs: string, maxLength: int): (r: nat)
    ensures r <= Total(|cs|, maxLength)
  {
    IndexOf(Candidates(cs, maxLength), "test")
  }

  /** The values sent by `update_state` while `checked` runs from 1 to `k`:
      one report at each multiple of 1000 reached, of `checked * 100 / total`. */
  function Reports(k: nat, total: nat): (r: seq<int>)
    requires k <= total
    ensures |r| == k / 1000
  {
    ReportsUpTo(k / 1000, total)
  }

  /** The first `n` reports, the last one sent when `checked` is `n * 1000`. */
  function ReportsUpTo(n: nat, total: nat): (r: seq<int>)
    requires n * 1000 <= total
    ensures |r| == n
  {
    if n == 0 then [] else ReportsUpTo(n - 1, total) + [Progress(n * 1000, total)]
  }

  /** `int(checked / total * 100)`, computed exactly: a percentage while
      `checked` is within `total`. */
  function Progress(checked: nat, total: nat): (r: int)
    requires 0 < total
    ensures checked <= total ==> 0 <= r <= 100
  {
    PercentBound(checked, total);
    checked * 100 / total
  }

  lemma MulMonotone(d: int, x: int, y: int)
    requires d >= 0 && x <= y
    ensures d * x <= d * y
  {
    assert d * y - d * x == d * (y - x);
  }

  lemma DivMonotone(a: int, b: int, d: int)
    requires 0 <= a <= b && 0 < d
    ensures a / d <= b / d
  {
    var qa, qb := a / d, b / d;
    assert d * qa + a % d == a;
    assert d * qb + b % d == b;
    if qb < qa {
      MulMonotone(d, qb + 1, qa);
      assert false;
    }
  }

  lemma DivExact(a: nat, d: int)
    requires 0 < d
    ensures a * d / d == a
  {
    var q, r := a * d / d, a * d % d;
    assert d * q + r == a * d;
    if q < a {
      MulMonotone(d, q + 1, a);
      assert false;
    } else if q > a {
      MulMonotone(d, a + 1, q);
      assert false;
    }
  }

  /** Report number j is sent when `checked` reaches (j + 1) * 1000. */
  lemma {:induction false} ReportsAt(k: nat, total: nat)
    requires k <= total
    ensures |Reports(k, total)| == k / 1000
    ensures forall j :: 0 <= j < |Reports(k, total)| ==>
      (j + 1) * 1000 <= total && Reports(k, total)[j] == Progress((j + 1) * 1000, total)
  {
    ReportsUpToAt(k / 1000, total);
  }

  lemma {:induction false} ReportsUpToAt(n: nat, total: nat)
    requires n * 1000 <= total
    ensures |ReportsUpTo(n, total)| == n
    ensures forall j :: 0 <= j < n ==> ReportsUpTo(n, total)[j] == Progress((j + 1) * 1000, total)
  {
    if n > 0 {
      ReportsUpToAt(n - 1, total);
    }
  }

  /** A count within the total gives a percentage. */
  lemma PercentBound(c: nat, total: nat)
    requires 0 < total
    ensures c <= total ==> 0 <= c * 100 / total <= 100
  {
    if c <= total {
      MulMonotone(100, c, total);
      DivMonotone(c * 100, total * 100, total);
      DivExact(100, total);
    }
  }

  /** Progress grows with the count. */
  lemma ProgressMonotone(a: nat, b: nat, total: nat)
    requires 0 < total && a <= b
    ensures Progress(a, total) <= Progress(b, total)
  {
    MulMonotone(100, a, b);
    DivMonotone(a * 100, b * 100, total);
  }

  /** The reports lie in 0..100 and never decrease. */
  lemma ReportsShape(k: nat, total: nat)
    requires k <= total
    ensures |Reports(k, total)| == k / 1000
    ensures forall j :: 0 <= j < |Reports(k, total)| ==> 0 <= Reports(k, total)[j] <= 100
    ensures forall i, j :: 0 <= i <= j < |Reports(k, total)| ==> Reports(k, total)[i] <= Reports(k, total)[j]
  {
    ReportsAt(k, total);
    var r := Reports(k, total);
    forall i, j | 0 <= i <= j < |r| ensures r[i] <= r[j] {
      ProgressMonotone((i + 1) * 1000, (j + 1) * 1000, total);
    }
  }

  /** Where the scan of one length meets "test", it has counted every
      earlier candidate. */
  lemma FoundAt(cs: string, maxLength: int, length: nat)
    requires 1 <= length <= maxLength
    requires "test" !in Candidates(cs, length - 1) && "test" in Product(cs, length)
    ensures Outcome(cs, maxLength) == Completed
    ensures Scanned(cs, maxLength) == |Candidates(cs, length - 1)| + IndexOf(Product(cs, length), "test")
  {
    CandidatesPrefix(cs, length, maxLength);
    assert Candidates(cs, length) == Candidates(cs, length - 1) + Product(cs, length);
    FirstInMiddle(Candidates(cs, length - 1), Product(cs, length), Candidates(cs, maxLength), "test");
  }

  lemma FirstInMiddle(before: seq<string>, p: seq<string>, all: seq<string>, x: string)
    requires |before| + |p| <= |all| && all[..|before| + |p|] == before + p
    requires x !in before && x in p
    ensures x in all && IndexOf(all, x) == |before| + IndexOf(p, x)
  {
    var rest := all[|before| + |p|..];
    assert all == before + (p + rest) by {
      assert all == all[..|before| + |p|] + rest;
    }
    IndexOfAfter(before, p + rest, x);
    IndexOfBefore(p, rest, x);
  }

  /** Moving on to the next length appends its candidates, and they still
      fit within `total`. */
  lemma NextLength(cs: string, maxLength: int, length: nat)
    requires 1 <= length <= maxLength
    ensures Candidates(cs, length) == Candidates(cs, length - 1) + Product(cs, length)
    ensures |Candidates(cs, length)| <= Total(|cs|, maxLength)
  {
    CandidatesPrefix(cs, length, maxLength);
  }

  /** Counting one more candidate sends one more report exactly at a
      multiple of 1000. */
  lemma ReportsNext(k: nat, total: nat)
    requires 0 < k <= total
    ensures k % 1000 == 0 ==> Reports(k, total) == Reports(k - 1, total) + [Progress(k, total)]
    ensures k % 1000 != 0 ==> Reports(k, total) == Reports(k - 1, total)
  {
    if k % 1000 == 0 {
      assert k / 1000 == (k - 1) / 1000 + 1 && k / 1000 * 1000 == k;
    } else {
      assert k / 1000 == (k - 1) / 1000;
    }
  }

  /** A scan that meets no "test" counts every candidate and fails. */
  lemma ScannedAll(cs: string, maxLength: int, length: nat)
    requires 1 <= length && (maxLength >= 1 ==> length == maxLength + 1) && (maxLength < 1 ==> length == 1)
    requires "test" !in Candidates(cs, length - 1)
    ensures Scanned(cs, maxLength) == |Candidates(cs, length - 1)|
    ensures Outcome(cs, maxLength) == Failed
  {
    assert Candidates(cs, length - 1) == Candidates(cs, maxLength);
    IndexOfAbsent(Candidates(cs, maxLength), "test");
  }

  /** The inner loop of `brut_force_task`: it scans the candidates of one
      length, counting each before comparing it with "test" and reporting
      at every multiple of 1000 it passes. */
  method ScanLength(candidates: seq<string>, checked0: nat, total: nat, reports0: seq<int>)
    returns (found: bool, checked: nat, reports: seq<int>)
    requires checked0 + |candidates| <= total && reports0 == Reports(checked0, total)
    ensures found <==> "test" in candidates
    ensures checked == checked0 + (if found then IndexOf(candidates, "test") + 1 else |candidates|)
    ensures reports == Reports(checked0 + IndexOf(candidates, "test"), total)
  {
    found, checked, reports := false, checked0, reports0;
    var i := 0;
    while i < |candidates|
      invariant 0 <= i <= |candidates|
      invariant checked == checked0 + i
      invariant "test" !in candidates[..i]
      invariant reports == Reports(checked, total)
    {
      var password := candidates[i];
      checked := checked + 1;
      if password == "test" {
        assert candidates == candidates[..i] + candidates[i..];
        IndexOfAfter(candidates[..i], candidates[i..], "test");
        found := true;
        return;
      }
      ReportsNext(checked, total);
      if checked % 1000 == 0 {
        reports := reports + [Progress(checked, total)];
      }
      assert candidates[..i + 1] == candidates[..i] + [password];
      i := i + 1;
    }
    assert candidates[..i] == candidates;
    IndexOfAbsent(candidates, "test");
  }

  /** One pass of the outer loop of `brut_force_task`: the candidates of
      one length, scanned after those of every shorter length. It either
      meets "test", which settles the outcome and the reports, or moves the
      scan on to the next length. */
  method ScanNextLength(charset: string, maxLength: int, length: nat, checked0: nat, reports0: seq<int>)
    returns (found: bool, checked: nat, reports: seq<int>)
    requires 1 <= length <= maxLength
    requires checked0 == |Candidates(charset, length - 1)| && "test" !in Candidates(charset, length - 1)
    requires checked0 <= Total(|charset|, maxLength)
    requires reports0 == Reports(checked0, Total(|charset|, maxLength))
    ensures found ==> Outcome(charset, maxLength) == Completed
    ensures found ==> reports == Reports(Scanned(charset, maxLength), Total(|charset|, maxLength))
    ensures !found ==> checked == |Candidates(charset, length)| <= Total(|charset|, maxLength)
    ensures !found ==> "test" !in Candidates(charset, length)
    ensures !found ==> reports == Reports(checked, Total(|charset|, maxLength))
  {
    var total := Total(|charset|, maxLength);
    var candidates := Product(charset, length);
    NextLength(charset, maxLength, length);
    found, checked, reports := ScanLength(candidates, checked0, total, reports0);
    if found {
      FoundAt(charset, maxLength, length);
    }
  }

  /** `brut_force_task`: the return value, and the progress values it sends
      through `update_state`, in order. */
  method BrutForceTask(archiveHash: string, charset: string, maxLength: int)
    returns (r: TaskOutput, reports: seq<int>)
    ensures r == Outcome(charset, maxLength)
    ensures reports == Reports(Scanned(charset, maxLength), Total(|charset|, maxLength))
  {
    var total := Total(|charset|, maxLength);
    var checked := 0;
    reports := [];
    var length := 1;
    while length <= maxLength
      invariant 1 <= length && (maxLength >= 1 ==> length <= maxLength + 1)
      invariant maxLength < 1 ==> length == 1
      invariant checked == |Candidates(charset, length - 1)| <= total
      invariant "test" !in Candidates(charset, length - 1)
      invariant reports == Reports(checked, total)
    {
      var found;
      found, checked, reports := ScanNextLength(charset, maxLength, length, checked, reports);
      if found {
        r := Completed;
        return;
      }
      length := length + 1;
    }
    ScannedAll(charset, maxLength, length);
    r := Failed;
  }
}
