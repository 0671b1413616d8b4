/** Pruning of old recordings: expired files go first, then the oldest until the rest fits.  Times are
    real numbers of seconds. */
module Retention {
  import opened Text

  /** Two days. */
  const RETENTION := 172800.0
  const MAX_TOTAL := 5 * 1024 * 1024 * 1024

  /** A directory entry; the modification time may be unreadable. */
  datatype Entry = Entry(path: string, mp4: bool, size: nat, modified: Option<real>)

  datatype File = File(path: string, size: nat, modified: real)

  predicate Listed(e: Entry)
  {
    e.mp4 && e.modified.Some?
  }

  /** A file from the future has no age. */
  predicate Expired(e: Entry, now: real)
  {
    Listed(e) && now >= e.modified.value && now - e.modified.value > RETENTION
  }

  function Fresh(entries: seq<Entry>, now: real): seq<File>
  {
    if entries == [] then []
    else
      var rest, e := Fresh(entries[..|entries| - 1], now), entries[|entries| - 1];
      if Listed(e) && !Expired(e, now) then rest + [File(e.path, e.size, e.modified.value)] else rest
  }

  function Size(files: seq<File>): nat
  {
    if files == [] then 0 else files[0].size + Size(files[1..])
  }

  lemma {:induction false} SizeConcat(a: seq<File>, b: seq<File>)
    ensures Size(a + b) == Size(a) + Size(b)
  {
    if a == [] {
      assert a + b == b;
    } else {
      SizeConcat(a[1..], b);
      assert (a + b)[1..] == a[1..] + b;
    }
  }

  // ---------- Oldest first ----------

  predicate OldestFirst(files: seq<File>)
  {
    forall i, j :: 0 <= i < j < |files| ==> files[i].modified <= files[j].modified
  }

  function Insert(f: File, files: seq<File>): seq<File>
  {
    if files == [] || f.modified < files[0].modified then [f] + files
    else [files[0]] + Insert(f, files[1..])
  }

  /** A stable sort by modification time. */
  function Sort(files: seq<File>): seq<File>
  {
    if files == [] then [] else Insert(files[|files| - 1], Sort(files[..|files| - 1]))
  }

  lemma {:induction false} InsertPermutes(f: File, files: seq<File>)
    ensures multiset(Insert(f, files)) == multiset(files) + multiset{f}
  {
    if files != [] && f.modified >= files[0].modified {
      InsertPermutes(f, files[1..]);
      assert files == [files[0]] + files[1..];
    }
  }

  lemma SizeCons(f: File, files: seq<File>)
    ensures Size([f] + files) == f.size + Size(files)
  {
    assert ([f] + files)[1..] == files;
  }

  lemma {:induction false} InsertSize(f: File, files: seq<File>)
    ensures Size(Insert(f, files)) == Size(files) + f.size
  {
    if files == [] || f.modified < files[0].modified {
      SizeCons(f, files);
    } else {
      InsertSize(f, files[1..]);
      SizeCons(files[0], Insert(f, files[1..]));
    }
  }

  /** Nothing newer than `t` gets in front of what is not older than `t`. */
  lemma {:induction false} InsertNotOlder(f: File, files: seq<File>, t: real)
    requires f.modified >= t && forall i :: 0 <= i < |files| ==> files[i].modified >= t
    ensures forall i :: 0 <= i < |Insert(f, files)| ==> Insert(f, files)[i].modified >= t
  {
    if files != [] && f.modified >= files[0].modified {
      InsertNotOlder(f, files[1..], t);
    }
  }

  lemma {:induction false} InsertOrdered(f: File, files: seq<File>)
    requires OldestFirst(files)
    ensures OldestFirst(Insert(f, files))
  {
    if files != [] && f.modified >= files[0].modified {
      InsertOrdered(f, files[1..]);
      InsertNotOlder(f, files[1..], files[0].modified);
    }
  }

  /** The sort loses nothing. */
  lemma {:induction false} SortPermutes(files: seq<File>)
    ensures multiset(Sort(files)) == multiset(files)
  {
    if files != [] {
      var init, last := files[..|files| - 1], files[|files| - 1];
      SortPermutes(init);
      InsertPermutes(last, Sort(init));
      assert files == init + [last];
    }
  }

  lemma SizeSnoc(files: seq<File>)
    requires files != []
    ensures Size(files) == Size(files[..|files| - 1]) + files[|files| - 1].size
  {
    var init, last := files[..|files| - 1], files[|files| - 1];
    SizeConcat(init, [last]);
    SizeCons(last, []);
    assert [last] + [] == [last];
    assert files == init + [last];
  }

  lemma {:induction false} SortSize(files: seq<File>)
    ensures Size(Sort(files)) == Size(files)
  {
    if files != [] {
      var init, last := files[..|files| - 1], files[|files| - 1];
      SortSize(init);
      InsertSize(last, Sort(init));
      SizeSnoc(files);
    }
  }

  lemma {:induction false} SortOrdered(files: seq<File>)
    ensures OldestFirst(Sort(files))
  {
    if files != [] {
      SortOrdered(files[..|files| - 1]);
      InsertOrdered(files[|files| - 1], Sort(files[..|files| - 1]));
    }
  }

  lemma SortMember(files: seq<File>, f: File)
    requires f in files
    ensures f in Sort(files)
  {
    SortPermutes(files);
    assert f in multiset(files);
    assert f in multiset(Sort(files));
  }

  // ---------- What goes ----------

  function SaturatingSub(a: nat, b: nat): nat
  {
    if a < b then 0 else a - b
  }

  /** Files for which removal is tried: from the oldest on, until what is left fits.  Files that
      cannot be removed still count. */
  function Tried(files: seq<File>, total: nat, removable: string -> bool): seq<File>
  {
    if files == [] || total <= MAX_TOTAL then []
    else
      var f := files[0];
      var total' := if removable(f.path) then SaturatingSub(total, f.size) else total;
      [f] + Tried(files[1..], total', removable)
  }

  function Removed(tried: seq<File>, removable: string -> bool): seq<File>
  {
    if tried == [] then []
    else if removable(tried[0].path) then [tried[0]] + Removed(tried[1..], removable)
    else Removed(tried[1..], removable)
  }

  method CleanupOldFiles(entries: seq<Entry>, now: real, removable: string -> bool)
    returns (expired: seq<string>, tried: seq<File>, total: nat)
    ensures forall i :: 0 <= i < |entries| && Expired(entries[i], now) ==> entries[i].path in expired
    ensures forall p :: p in expired ==> exists i :: 0 <= i < |entries| && entries[i].path == p && Expired(entries[i], now)
    ensures tried == Tried(Sort(Fresh(entries, now)), Size(Fresh(entries, now)), removable)
    ensures total + Size(Removed(tried, removable)) == Size(Fresh(entries, now))
    ensures total <= MAX_TOTAL || tried == Sort(Fresh(entries, now))
  {
    var files: seq<File> := [];
    expired, tried, total := [], [], 0;
    for n := 0 to |entries|
      invariant files == Fresh(entries[..n], now) && total == Size(files)
      invariant forall i :: 0 <= i < n && Expired(entries[i], now) ==> entries[i].path in expired
      invariant forall p :: p in expired ==> exists i :: 0 <= i < n && entries[i].path == p && Expired(entries[i], now)
    {
      var e := entries[n];
      assert entries[..n + 1][..n] == entries[..n];
      if Listed(e) {
        if Expired(e, now) {
          expired := expired + [e.path];
        } else {
          var f := File(e.path, e.size, e.modified.value);
          SizeConcat(files, [f]);
          files := files + [f];
          total := total + e.size;
        }
      }
    }
    assert entries[..|entries|] == entries;
    var sorted := Sort(files);
    SortSize(files);
    if total > MAX_TOTAL {
      tried, total := RemoveOldest(sorted, total, removable);
    }
  }

  method RemoveOldest(sorted: seq<File>, size: nat, removable: string -> bool) returns (tried: seq<File>, total: nat)
    requires size == Size(sorted)
    ensures tried == Tried(sorted, size, removable)
    ensures total + Size(Removed(tried, removable)) == size
    ensures total <= MAX_TOTAL || tried == sorted
  {
    total := size;
    var k := 0;
    while k < |sorted|
      invariant 0 <= k <= |sorted|
      invariant sorted[..k] + Tried(sorted[k..], total, removable) == Tried(sorted, size, removable)
      invariant total + Size(Removed(sorted[..k], removable)) == size
      invariant Size(sorted[k..]) <= total
    {
      if total <= MAX_TOTAL {
        return sorted[..k], total;
      }
      var f := sorted[k];
      TriedNext(sorted, k, total, removable);
      RemovedNext(sorted, k, removable);
      if removable(f.path) {
        total := SaturatingSub(total, f.size);
      }
      k := k + 1;
    }
    tried := sorted;
    assert sorted[..k] == sorted;
  }

  lemma {:induction false} RemovedConcat(a: seq<File>, b: seq<File>, removable: string -> bool)
    ensures Removed(a + b, removable) == Removed(a, removable) + Removed(b, removable)
  {
    if a == [] {
      assert a + b == b;
    } else {
      RemovedConcat(a[1..], b, removable);
      assert (a + b)[1..] == a[1..] + b;
    }
  }

  lemma TriedNext(files: seq<File>, k: nat, total: nat, removable: string -> bool)
    requires k < |files| && total > MAX_TOTAL
    ensures var total' := if removable(files[k].path) then SaturatingSub(total, files[k].size) else total;
      files[..k] + Tried(files[k..], total, removable) == files[..k + 1] + Tried(files[k + 1..], total', removable)
    ensures Size(files[k..]) == files[k].size + Size(files[k + 1..])
  {
    assert files[k..][0] == files[k] && files[k..][1..] == files[k + 1..];
    assert files[..k + 1] == files[..k] + [files[k]];
  }

  lemma RemovedNext(files: seq<File>, k: nat, removable: string -> bool)
    requires k < |files|
    ensures Size(Removed(files[..k + 1], removable))
         == Size(Removed(files[..k], removable)) + if removable(files[k].path) then files[k].size else 0
  {
    var f := files[k];
    assert files[..k + 1] == files[..k] + [f];
    RemovedConcat(files[..k], [f], removable);
    SizeConcat(Removed(files[..k], removable), Removed([f], removable));
  }

  // ---------- What that means ----------

  /** The tried files are a run of oldest files. */
  lemma {:induction false} TriedIsPrefix(files: seq<File>, total: nat, removable: string -> bool)
    ensures Tried(files, total, removable) <= files
  {
    if files != [] && total > MAX_TOTAL {
      var f := files[0];
      var total' := if removable(f.path) then SaturatingSub(total, f.size) else total;
      TriedIsPrefix(files[1..], total', removable);
      assert files == [f] + files[1..];
    }
  }

  /** No file is tried while a strictly older one is spared. */
  lemma OlderGoesFirst(files: seq<File>, total: nat, removable: string -> bool, f: File, g: File)
    requires f in Tried(Sort(files), total, removable) && g in files && g.modified < f.modified
    ensures g in Tried(Sort(files), total, removable)
  {
    var sorted := Sort(files);
    SortOrdered(files);
    TriedIsPrefix(sorted, total, removable);
    SortMember(files, g);
    PrefixOfSorted(sorted, |Tried(sorted, total, removable)|, f, g);
  }

  lemma PrefixOfSorted(sorted: seq<File>, n: nat, f: File, g: File)
    requires OldestFirst(sorted) && n <= |sorted|
    requires f in sorted[..n] && g in sorted && g.modified < f.modified
    ensures g in sorted[..n]
  {
    var i :| 0 <= i < n && sorted[..n][i] == f;
    var j :| 0 <= j < |sorted| && sorted[j] == g;
    assert sorted[i] == f;
    assert j < i;
    assert sorted[..n][j] == g;
  }

  /** Without the first `n` files the rest fits, and without fewer it does not. */
  predicate ShortestRun(files: seq<File>, n: nat)
  {
    && n <= |files| && Size(files[n..]) <= MAX_TOTAL
    && forall k :: 0 <= k < n ==> Size(files[k..]) > MAX_TOTAL
  }

  lemma ShortestRunNext(files: seq<File>, n: nat)
    requires files != [] && n > 0 && Size(files) > MAX_TOTAL && ShortestRun(files[1..], n - 1)
    ensures ShortestRun(files, n)
  {
    assert files[n..] == files[1..][n - 1..];
    forall k | 0 <= k < n
      ensures Size(files[k..]) > MAX_TOTAL
    {
      if k > 0 {
        assert files[k..] == files[1..][k - 1..];
      } else {
        assert files[0..] == files;
      }
    }
  }

  lemma TriedFirst(files: seq<File>, removable: string -> bool)
    requires files != [] && Size(files) > MAX_TOTAL && removable(files[0].path)
    ensures Tried(files, Size(files), removable) == [files[0]] + Tried(files[1..], Size(files[1..]), removable)
  {
  }

  lemma {:induction false} TriedShortest(files: seq<File>, removable: string -> bool)
    requires forall p :: removable(p)
    ensures ShortestRun(files, |Tried(files, Size(files), removable)|)
  {
    if files != [] && Size(files) > MAX_TOTAL {
      TriedShortest(files[1..], removable);
      TriedFirst(files, removable);
      ShortestRunNext(files, |Tried(files, Size(files), removable)|);
    } else {
      assert files[0..] == files;
    }
  }

  /** If every removal succeeds, the files removed are the shortest run of oldest files whose
      removal makes the rest fit. */
  lemma ShortestPrefix(files: seq<File>, removable: string -> bool)
    requires forall p :: removable(p)
    ensures var tried := Tried(files, Size(files), removable);
      tried <= files && ShortestRun(files, |tried|)
  {
    TriedIsPrefix(files, Size(files), removable);
    TriedShortest(files, removable);
  }

  // ---------- Which files, and in what order ----------

  /** Of each entry, in order: its file is kept in the list if it is a recording with a readable time
      that is not more than two days old. */
  lemma {:induction false} FreshConcat(a: seq<Entry>, b: seq<Entry>, now: real)
    ensures Fresh(a + b, now) == Fresh(a, now) + Fresh(b, now)
    decreases |b|
  {
    if b == [] {
      assert a + b == a;
    } else {
      var n := |b| - 1;
      FreshConcat(a, b[..n], now);
      assert (a + b)[..|a + b| - 1] == a + b[..n];
    }
  }

  lemma FreshOne(e: Entry, now: real)
    ensures Fresh([e], now) ==
      if e.mp4 && e.modified.Some? && now - e.modified.value <= 172800.0 then [File(e.path, e.size, e.modified.value)] else []
  {
    assert [e][..0] == [];
  }

  /** The files with one modification time. */
  function At(files: seq<File>, t: real): seq<File>
  {
    if files == [] then [] else (if files[0].modified == t then [files[0]] else []) + At(files[1..], t)
  }

  lemma {:induction false} AtSnoc(files: seq<File>, f: File, t: real)
    ensures At(files + [f], t) == At(files, t) + if f.modified == t then [f] else []
  {
    if files == [] {
      assert files + [f] == [f];
    } else {
      AtSnoc(files[1..], f, t);
      assert (files + [f])[1..] == files[1..] + [f];
    }
  }

  lemma {:induction false} NoneAt(files: seq<File>, t: real)
    requires forall i :: 0 <= i < |files| ==> files[i].modified > t
    ensures At(files, t) == []
  {
    if files != [] {
      NoneAt(files[1..], t);
    }
  }

  lemma {:induction false} InsertAt(f: File, files: seq<File>, t: real)
    requires OldestFirst(files)
    ensures At(Insert(f, files), t) == At(files, t) + if f.modified == t then [f] else []
  {
    if files == [] || f.modified < files[0].modified {
      assert ([f] + files)[1..] == files;
      if f.modified == t {
        NoneAt(files, t);
      }
    } else {
      var rest := Insert(f, files[1..]);
      InsertAt(f, files[1..], t);
      assert ([files[0]] + rest)[1..] == rest;
    }
  }

  /** Files of the same age stay in the order of the directory. */
  lemma {:induction false} SortStable(files: seq<File>, t: real)
    ensures At(Sort(files), t) == At(files, t)
  {
    if files != [] {
      var init, last := files[..|files| - 1], files[|files| - 1];
      SortStable(init, t);
      SortOrdered(init);
      InsertAt(last, Sort(init), t);
      AtSnoc(init, last, t);
      assert files == init + [last];
    }
  }

  /** What is left after trying the first `k` files is over the limit. */
  predicate StillOver(files: seq<File>, total: nat, k: nat, removable: string -> bool)
    requires k <= |files|
  {
    total > 5_368_709_120 + Size(Removed(files[..k], removable))
  }

  lemma StillOverNext(files: seq<File>, total: nat, total': nat, k: nat, removable: string -> bool)
    requires 0 < k <= |files| && total' == if removable(files[0].path) then total - files[0].size else total
    ensures StillOver(files, total, k, removable) <==> StillOver(files[1..], total', k - 1, removable)
  {
    assert files[..k][0] == files[0] && files[..k][1..] == files[1..][..k - 1];
  }

  /** However many removals fail: files are tried, oldest first, for exactly as long as what is left is
      over the limit. */
  lemma {:induction false} TriedWhileOver(files: seq<File>, total: nat, removable: string -> bool, k: nat)
    requires Size(files) <= total && k <= |files|
    ensures var n := |Tried(files, total, removable)|;
      && n <= |files|
      && (k < n ==> StillOver(files, total, k, removable))
      && (k == n < |files| ==> !StillOver(files, total, k, removable))
  {
    if files != [] && total > MAX_TOTAL {
      var total' := if removable(files[0].path) then total - files[0].size else total;
      assert Tried(files, total, removable) == [files[0]] + Tried(files[1..], total', removable);
      TriedWhileOver(files[1..], total', removable, if k > 0 then k - 1 else 0);
      if k > 0 {
        StillOverNext(files, total, total', k, removable);
      }
    }
  }
}
