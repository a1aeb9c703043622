/**
 Video discovery order and total size in concat_go.py: `cmp_vids`, the sort
 in `find_vids` and `total_files_size`. The results of `glob.glob` and
 `os.stat` are passed in as data: each video carries its path, modification
 time and size.
 */
module Videos {

  datatype Video = Video(path: string, mtime: int, size: nat)

  /** `cmp_vids`: a three-way comparison of modification times. */
  function CmpVids(a: Video, b: Video): (r: int)
    ensures r == 0 <==> a.mtime == b.mtime
    ensures r == -1 <==> a.mtime < b.mtime
    ensures r == 1 <==> a.mtime > b.mtime
  {
    if a.mtime == b.mtime then 0
    else if a.mtime < b.mtime then -1
    else 1
  }

  /** The comparator is antisymmetric and transitive, so it is a valid
      ordering for Python's `sorted`. */
  lemma CmpVidsIsOrdering(a: Video, b: Video, c: Video)
    ensures CmpVids(a, b) == -CmpVids(b, a)
    ensures CmpVids(a, b) <= 0 && CmpVids(b, c) <= 0 ==> CmpVids(a, c) <= 0
  {
  }

  /** Nondecreasing modification times. */
  predicate Sorted(s: seq<Video>)
  {
    forall i, j :: 0 <= i < j < |s| ==> s[i].mtime <= s[j].mtime
  }

  /** Places `v` in front of the first element not older than it: the
      insertion step of a stable sort that consumes its input from the back. */
  function Insert(v: Video, s: seq<Video>): (r: seq<Video>)
    requires Sorted(s)
    ensures Sorted(r)
    ensures multiset(r) == multiset(s) + multiset{v}
    ensures |r| == |s| + 1
    ensures r[0] == v || (s != [] && r[0] == s[0])
  {
    if s == [] then [v]
    else if CmpVids(v, s[0]) <= 0 then [v] + s
    else
      var rest := Insert(v, s[1..]);
      assert s == [s[0]] + s[1..];
      SortedCons(s[0], rest);
      [s[0]] + rest
  }

  /** Prepending a video no newer than the head keeps a sequence sorted. */
  lemma SortedCons(x: Video, s: seq<Video>)
    requires Sorted(s)
    requires s != [] ==> x.mtime <= s[0].mtime
    ensures Sorted([x] + s)
  {
    var r := [x] + s;
    forall i, j | 0 <= i < j < |r|
      ensures r[i].mtime <= r[j].mtime
    {
      if i == 0 && j > 1 {
        assert r[j] == s[j - 1];
        assert s[0].mtime <= s[j - 1].mtime;
      }
    }
  }

  /** Python's `sorted(vids, cmp_vids)`: stable sort by modification time. */
  function SortVids(s: seq<Video>): (r: seq<Video>)
    ensures Sorted(r)
    ensures multiset(r) == multiset(s)
  {
    if s == [] then []
    else
      assert s == [s[0]] + s[1..];
      Insert(s[0], SortVids(s[1..]))
  }

  /** The videos of `s` whose modification time is `m`, in order. */
  function WithMtime(s: seq<Video>, m: int): (r: seq<Video>)
    ensures |r| <= |s|
  {
    if s == [] then []
    else (if s[0].mtime == m then [s[0]] else []) + WithMtime(s[1..], m)
  }

  lemma {:induction false} InsertKeepsTies(v: Video, s: seq<Video>, m: int)
    requires Sorted(s)
    ensures WithMtime(Insert(v, s), m) == (if v.mtime == m then [v] else []) + WithMtime(s, m)
  {
    if s == [] {
      WithMtimeCons(v, [], m);
    } else if CmpVids(v, s[0]) <= 0 {
      assert Insert(v, s) == [v] + s;
      WithMtimeCons(v, s, m);
    } else {
      InsertKeepsTies(v, s[1..], m);
      TiesPassOlderHead(s[0], v, Insert(v, s[1..]), s[1..], m);
      assert Insert(v, s) == [s[0]] + Insert(v, s[1..]);
      assert s == [s[0]] + s[1..];
    }
  }

  /** A strictly older head shares no modification time with `v`, so it
      does not disturb where `v` sits among the ties. */
  lemma TiesPassOlderHead(x: Video, v: Video, r: seq<Video>, s: seq<Video>, m: int)
    requires x.mtime < v.mtime
    requires WithMtime(r, m) == (if v.mtime == m then [v] else []) + WithMtime(s, m)
    ensures WithMtime([x] + r, m) == (if v.mtime == m then [v] else []) + WithMtime([x] + s, m)
  {
    WithMtimeCons(x, r, m);
    WithMtimeCons(x, s, m);
    if v.mtime != m {
      assert [] + WithMtime([x] + s, m) == WithMtime([x] + s, m);
      assert WithMtime(r, m) == WithMtime(s, m);
    }
  }

  /** WithMtime of a sequence with one more video in front. */
  lemma WithMtimeCons(x: Video, s: seq<Video>, m: int)
    ensures WithMtime([x] + s, m) == (if x.mtime == m then [x] else []) + WithMtime(s, m)
  {
    assert ([x] + s)[1..] == s;
  }

  /** Stability: videos with equal modification times keep their input
      order, so sorting changes nothing but the order between distinct times. */
  lemma {:induction false} SortVidsIsStable(s: seq<Video>, m: int)
    ensures WithMtime(SortVids(s), m) == WithMtime(s, m)
  {
    if s != [] {
      SortVidsIsStable(s[1..], m);
      InsertKeepsTies(s[0], SortVids(s[1..]), m);
    }
  }

  /** `find_vids`: the four case variants of the `.mp4` glob, concatenated in
      the order the source tries them, then sorted by modification time. */
  function FindVids(mp: seq<Video>, capMp: seq<Video>, mCapP: seq<Video>, capMP: seq<Video>): (r: seq<Video>)
    ensures Sorted(r)
    ensures multiset(r) == multiset(mp + capMp + mCapP + capMP)
    ensures forall m :: WithMtime(r, m) == WithMtime(mp + capMp + mCapP + capMP, m)
  {
    var all := mp + capMp + mCapP + capMP;
    forall m
      ensures WithMtime(SortVids(all), m) == WithMtime(all, m)
    {
      SortVidsIsStable(all, m);
    }
    SortVids(all)
  }

  /** The sum of the sizes, defined over the sequence. */
  function SumSizes(s: seq<Video>): (total: nat)
  {
    if s == [] then 0 else s[0].size + SumSizes(s[1..])
  }

  /** `total_files_size`: the running total over the files. */
  method TotalFilesSize(files: seq<Video>) returns (total: nat)
    ensures total == SumSizes(files)
    ensures forall i :: 0 <= i < |files| ==> files[i].size <= total
  {
    total := 0;
    var k := 0;
    while k < |files|
      invariant 0 <= k <= |files|
      invariant total == SumSizes(files[..k])
      invariant forall i :: 0 <= i < k ==> files[i].size <= total
    {
      SumSizesAppend(files[..k], files[k]);
      assert files[..k + 1] == files[..k] + [files[k]];
      total := total + files[k].size;
      k := k + 1;
    }
    assert files[..|files|] == files;
  }

  /** Adding one more file at the end adds its size to the sum. */
  lemma {:induction false} SumSizesAppend(s: seq<Video>, v: Video)
    ensures SumSizes(s + [v]) == SumSizes(s) + v.size
  {
    if s != [] {
      SumSizesAppend(s[1..], v);
      assert (s + [v])[1..] == s[1..] + [v];
    }
  }

  lemma {:induction false} SumSizesInsert(v: Video, s: seq<Video>)
    requires Sorted(s)
    ensures SumSizes(Insert(v, s)) == v.size + SumSizes(s)
  {
    if s != [] && CmpVids(v, s[0]) > 0 {
      SumSizesInsert(v, s[1..]);
      assert Insert(v, s)[1..] == Insert(v, s[1..]);
    } else if s != [] {
      assert ([v] + s)[1..] == s;
    }
  }

  /** The expected byte count does not depend on the order the videos were
      found in: it is the same before and after sorting. */
  lemma {:induction false} TotalSizeIgnoresOrder(s: seq<Video>)
    ensures SumSizes(SortVids(s)) == SumSizes(s)
  {
    if s != [] {
      TotalSizeIgnoresOrder(s[1..]);
      SumSizesInsert(s[0], SortVids(s[1..]));
    }
  }

  /** Three files of 10, 20 and 30 MiB make 60 MiB expected. */
  method TotalSizeExample() returns (total: nat)
    ensures total == 60 * 1024 * 1024
  {
    var mib := 1_048_576;
    var files := [Video("a.mp4", 1, 10 * mib), Video("b.mp4", 2, 20 * mib), Video("c.mp4", 3, 30 * mib)];
    assert SumSizes(files[2..]) == 30 * mib by { assert files[2..][1..] == []; }
    assert SumSizes(files[1..]) == 50 * mib by { assert files[1..][1..] == files[2..]; }
    total := TotalFilesSize(files);
  }
}
