/** The output archive of the supervisor (1lab/server.py): a program's run
    artifacts, read back by `get_output` in file-name order and joined, each
    under a delimiter line that names its file. */
module OutputArchive {

  /** One run artifact: its file name and the text stored in it. */
  type Artifact = (string, string)

  /** Python's `a <= b` on `str`: lexicographic by code point, a proper
      prefix ordered first. */
  predicate NameLe(a: string, b: string) {
    a == [] || (b != [] && (a[0] < b[0] || (a[0] == b[0] && NameLe(a[1..], b[1..]))))
  }

  lemma {:induction false} NameLeTotal(a: string, b: string)
    ensures NameLe(a, b) || NameLe(b, a)
  {
    if a != [] && b != [] && a[0] == b[0] {
      NameLeTotal(a[1..], b[1..]);
    }
  }

  lemma {:induction false} NameLeTrans(a: string, b: string, c: string)
    requires NameLe(a, b) && NameLe(b, c)
    ensures NameLe(a, c)
  {
    if a != [] && b != [] && c != [] && a[0] == b[0] == c[0] {
      NameLeTrans(a[1..], b[1..], c[1..]);
    }
  }

  lemma {:induction false} NameLeAntisymmetric(a: string, b: string)
    requires NameLe(a, b) && NameLe(b, a)
    ensures a == b
  {
    if a != [] && b != [] {
      NameLeAntisymmetric(a[1..], b[1..]);
      assert a == [a[0]] + a[1..] && b == [b[0]] + b[1..];
    }
  }

  lemma {:induction false} NameLeReflexive(a: string)
    ensures NameLe(a, a)
  {
    if a != [] { NameLeReflexive(a[1..]); }
  }

  /** A file name identifies one artifact, as in one directory. */
  predicate NamesIdentify(s: seq<Artifact>) {
    forall x, y :: x in s && y in s && x.0 == y.0 ==> x == y
  }

  predicate SortedByName(s: seq<Artifact>) {
    forall i, j :: 0 <= i < j < |s| ==> NameLe(s[i].0, s[j].0)
  }

  /** Places `x` before the first artifact whose name is not below it. */
  function Insert(x: Artifact, s: seq<Artifact>): seq<Artifact> {
    if s == [] || NameLe(x.0, s[0].0) then [x] + s else [s[0]] + Insert(x, s[1..])
  }

  /** Every artifact of `s` is named at or above `n`. */
  predicate AllAbove(n: string, s: seq<Artifact>) {
    forall j :: 0 <= j < |s| ==> NameLe(n, s[j].0)
  }

  lemma {:induction false} InsertMultiset(x: Artifact, s: seq<Artifact>)
    ensures multiset(Insert(x, s)) == multiset(s) + multiset{x}
  {
    if s != [] && !NameLe(x.0, s[0].0) {
      InsertMultiset(x, s[1..]);
      assert s == [s[0]] + s[1..];
    }
  }

  lemma {:induction false} InsertAbove(n: string, x: Artifact, s: seq<Artifact>)
    requires AllAbove(n, s) && NameLe(n, x.0)
    ensures AllAbove(n, Insert(x, s))
  {
    if s != [] && !NameLe(x.0, s[0].0) {
      InsertAbove(n, x, s[1..]);
      var r := Insert(x, s[1..]);
      forall j | 0 <= j < |[s[0]] + r| ensures NameLe(n, ([s[0]] + r)[j].0) {
        if j > 0 { assert ([s[0]] + r)[j] == r[j - 1]; }
      }
    }
  }

  lemma {:induction false} ConsSorted(y: Artifact, t: seq<Artifact>)
    requires SortedByName(t) && AllAbove(y.0, t)
    ensures SortedByName([y] + t)
  {
    var r := [y] + t;
    forall i, j | 0 <= i < j < |r| ensures NameLe(r[i].0, r[j].0) {
      assert r[j] == t[j - 1];
      if i > 0 { assert r[i] == t[i - 1]; }
    }
  }

  lemma {:induction false} SortedHead(s: seq<Artifact>)
    requires s != [] && SortedByName(s)
    ensures AllAbove(s[0].0, s[1..])
  {
    forall j | 0 <= j < |s[1..]| ensures NameLe(s[0].0, s[1..][j].0) {
      assert s[1..][j] == s[j + 1];
    }
  }

  lemma {:induction false} InsertSorted(x: Artifact, s: seq<Artifact>)
    requires SortedByName(s)
    ensures SortedByName(Insert(x, s))
    ensures multiset(Insert(x, s)) == multiset(s) + multiset{x}
  {
    InsertMultiset(x, s);
    if s == [] {
    } else if NameLe(x.0, s[0].0) {
      forall j | 0 <= j < |s| ensures NameLe(x.0, s[j].0) {
        if j > 0 { NameLeTrans(x.0, s[0].0, s[j].0); }
      }
      ConsSorted(x, s);
    } else {
      NameLeTotal(x.0, s[0].0);
      SortedTail(s);
      SortedHead(s);
      InsertSorted(x, s[1..]);
      InsertAbove(s[0].0, x, s[1..]);
      ConsSorted(s[0], Insert(x, s[1..]));
    }
  }

  /** `sorted(...)` of a directory listing: the same artifacts, by name. */
  function SortByName(s: seq<Artifact>): (r: seq<Artifact>)
    ensures SortedByName(r)
    ensures multiset(r) == multiset(s)
  {
    if s == [] then []
    else
      var sortedTail := SortByName(s[1..]);
      InsertSorted(s[0], sortedTail);
      assert s == [s[0]] + s[1..];
      Insert(s[0], sortedTail)
  }

  lemma {:induction false} SortedTail(s: seq<Artifact>)
    requires s != [] && SortedByName(s)
    ensures SortedByName(s[1..])
  {
    var t := s[1..];
    forall i, j | 0 <= i < j < |t| ensures NameLe(t[i].0, t[j].0) {
      assert t[i] == s[i + 1] && t[j] == s[j + 1];
    }
  }

  lemma {:induction false} MultisetTail(s: seq<Artifact>)
    requires s != []
    ensures multiset(s[1..]) == multiset(s) - multiset{s[0]}
  {
    assert s == [s[0]] + s[1..];
  }

  lemma {:induction false} NamesIdentifyTail(s: seq<Artifact>)
    requires s != [] && NamesIdentify(s)
    ensures NamesIdentify(s[1..])
  {
    forall x, y | x in s[1..] && y in s[1..] && x.0 == y.0 ensures x == y {
      assert x in s && y in s;
    }
  }

  lemma SameTail(a: seq<Artifact>, b: seq<Artifact>)
    requires a != [] && b != [] && a[0] == b[0] && multiset(a) == multiset(b)
    requires NamesIdentify(a) && SortedByName(a) && SortedByName(b)
    ensures multiset(a[1..]) == multiset(b[1..])
    ensures NamesIdentify(a[1..]) && SortedByName(a[1..]) && SortedByName(b[1..])
  {
    MultisetTail(a);
    MultisetTail(b);
    NamesIdentifyTail(a);
    SortedTail(a);
    SortedTail(b);
  }

  /** Two name-sorted orderings of one directory's artifacts are the same. */
  lemma {:induction false} SortedUnique(a: seq<Artifact>, b: seq<Artifact>)
    requires SortedByName(a) && SortedByName(b) && NamesIdentify(a)
    requires multiset(a) == multiset(b)
    ensures a == b
  {
    if a == [] {
      assert |b| == |multiset(b)| == 0;
    } else {
      assert |b| == |multiset(b)| == |multiset(a)| == |a|;
      assert a[0] in multiset(b) && b[0] in multiset(a);
      var k :| 0 <= k < |b| && b[k] == a[0];
      var m :| 0 <= m < |a| && a[m] == b[0];
      NameLeReflexive(a[0].0);
      NameLeReflexive(b[0].0);
      assert NameLe(a[0].0, b[0].0) by {
        if m > 0 { assert NameLe(a[0].0, a[m].0); }
      }
      assert NameLe(b[0].0, a[0].0) by {
        if k > 0 { assert NameLe(b[0].0, b[k].0); }
      }
      NameLeAntisymmetric(a[0].0, b[0].0);
      assert a[0] == b[0];
      SameTail(a, b);
      SortedUnique(a[1..], b[1..]);
    }
  }

  /** The response of `get_output` does not depend on the order in which the
      directory listing returns the files. */
  lemma ListingOrderIrrelevant(a: seq<Artifact>, b: seq<Artifact>)
    requires NamesIdentify(a) && multiset(a) == multiset(b)
    ensures Combined(SortByName(a)) == Combined(SortByName(b))
  {
    var sa := SortByName(a);
    forall x, y | x in sa && y in sa && x.0 == y.0 ensures x == y {
      assert x in multiset(sa) && y in multiset(sa);
      assert x in multiset(a) && y in multiset(a);
    }
    SortedUnique(sa, SortByName(b));
  }

  /** What `get_output` appends for one artifact (1lab/server.py:136). */
  function Section(a: Artifact): (r: string)
    // the delimiter line names the file; its content follows, up to a
    // final line feed
    ensures |r| == |a.0| + |a.1| + 13
    ensures r[6..6 + |a.0|] == a.0
    ensures r[|r| - 1 - |a.1|..|r| - 1] == a.1 && r[|r| - 1] == '\n'
  {
    "\n==== " + a.0 + " ====\n" + a.1 + "\n"
  }

  /** The sections of `files`, in the order given. */
  function Combined(files: seq<Artifact>): (r: string)
    // the output is empty exactly for an empty folder
    ensures r == "" <==> files == []
  {
    if files == [] then "" else Section(files[0]) + Combined(files[1..])
  }

  /** Combining two listings one after the other gives the output of the
      first followed by that of the second. */
  lemma {:induction false} CombinedAppend(a: seq<Artifact>, b: seq<Artifact>)
    ensures Combined(a + b) == Combined(a) + Combined(b)
  {
    if a == [] {
      assert a + b == b;
    } else {
      assert (a + b)[1..] == a[1..] + b;
      CombinedAppend(a[1..], b);
    }
  }

  /** The accumulation loop of `get_output` (1lab/server.py:133-136). */
  method Concatenate(files: seq<Artifact>) returns (combined: string)
    ensures combined == Combined(files)
  {
    combined := "";
    for i := 0 to |files|
      invariant combined == Combined(files[..i])
    {
      assert files[..i + 1] == files[..i] + [files[i]];
      CombinedAppend(files[..i], [files[i]]);
      assert Combined([files[i]]) == Section(files[i]) + Combined([]);
      combined := combined + Section(files[i]);
    }
    assert files[..|files|] == files;
  }
}
