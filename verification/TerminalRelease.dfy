/** The replay buffer in the release build, where the byte count wraps: when it does the same as in a
    checked build, when it hangs, and output that makes it hang. */
module TerminalRelease {
  import opened Text
  import opened TerminalBuffer

  // ---------- The release build against the checked one ----------

  /** Once the count has wrapped it stays far above its limit until every line is gone, and then the
      loop turns for ever. */
  lemma {:induction false} WrappedNeverEnds(lines: seq<Bytes>, total: Word)
    requires MAX_SIZE + |Flatten(lines)| < total
    ensures ReleaseTrimmed(lines, total).None?
  {
    if lines != [] {
      WrappedNeverEnds(lines[1..], total - |lines[0]|);
    }
  }

  /** Dropping: where the checked build fails the release build never ends, otherwise they agree. */
  lemma {:induction false} TrimmedAgree(lines: seq<Bytes>, total: Word)
    requires total <= |Flatten(lines)| < WORD - MAX_SIZE
    ensures ReleaseTrimmed(lines, total) == Trimmed(lines, total)
  {
    if !(total <= MAX_SIZE && |lines| <= MAX_LINES) && lines != [] {
      if total < |lines[0]| {
        WrappedNeverEnds(lines[1..], Wrap(total - |lines[0]|));
      } else {
        TrimmedAgree(lines[1..], total - |lines[0]|);
      }
    }
  }

  /** What is in memory stays below the size of the address space, less the buffer's own limit. */
  predicate Fits(b: Buffer, data: Bytes)
  {
    |Flatten(b.lines)| + |data| < WORD - MAX_SIZE
  }

  /** An append of the release build never returns if and only if the count would go below zero;
      otherwise both builds do the same. */
  lemma ReleaseAppendAgrees(b: Buffer, data: Bytes)
    requires b.total <= |Flatten(b.lines)| && Fits(b, data)
    ensures ReleaseAppend(b, data) == Append(b, data)
  {
    GrownHolds(b, data);
    if !AddsNoLine(b, data) {
      var g := Grown(b, data);
      TrimmedAgree(g.lines, g.total);
    }
  }

  function ReleaseRun(chunks: seq<Bytes>): Option<Buffer>
  {
    if chunks == [] then Some(EMPTY)
    else match ReleaseRun(chunks[..|chunks| - 1])
      case None => None
      case Some(b) => ReleaseAppend(b, chunks[|chunks| - 1])
  }

  /** Every step of a run fits into memory. */
  predicate RunFits(chunks: seq<Bytes>)
  {
    chunks != [] ==>
      var before := chunks[..|chunks| - 1];
      RunFits(before) && (Run(before).Some? ==> Fits(Run(before).value, chunks[|chunks| - 1]))
  }

  /** Over every run: the release build hangs exactly where the checked one would stop, and in every
      other run holds the same lines and the same count. */
  lemma {:induction false} ReleaseRunAgrees(chunks: seq<Bytes>)
    requires RunFits(chunks)
    ensures ReleaseRun(chunks) == Run(chunks)
  {
    if chunks != [] {
      var before := chunks[..|chunks| - 1];
      ReleaseRunAgrees(before);
      if Run(before).Some? {
        RunKeepsTheEnd(before);
        ReleaseAppendAgrees(Run(before).value, chunks[|chunks| - 1]);
      }
    }
  }

  /** So the release build hangs somewhere in a run if and only if some chunk finds a count that does
      not cover the lines it pushes out. */
  lemma ReleaseHangsIff(chunks: seq<Bytes>)
    requires RunFits(chunks)
    ensures ReleaseRun(chunks).None? <==> !AlwaysSuffices(chunks)
  {
    ReleaseRunAgrees(chunks);
    RunIff(chunks);
  }

  predicate ShortLinesAt(chunks: seq<Bytes>, k: nat)
    requires k < |chunks|
  {
    Run(chunks[..k]).Some? ==> ShortLines(Grown(Run(chunks[..k]).value, chunks[k]).lines)
  }

  /** Chunk `k` of a run adds no line, or finds a count that covers the lines beyond the limit. */
  predicate CoversAt(chunks: seq<Bytes>, k: nat)
    requires k < |chunks|
  {
    Run(chunks[..k]).Some? ==>
      var b := Run(chunks[..k]).value;
      AddsNoLine(b, chunks[k]) || CoversSurplus(Grown(b, chunks[k]).lines, Grown(b, chunks[k]).total)
  }

  lemma SufficesClosedForm(chunks: seq<Bytes>, k: nat)
    requires k < |chunks| && ShortLinesAt(chunks, k)
    ensures SufficesAt(chunks, k) <==> CoversAt(chunks, k)
  {
    if Run(chunks[..k]).Some? {
      var b := Run(chunks[..k]).value;
      RunKeepsTheEnd(chunks[..k]);
      AppendIff(b, chunks[k], Missing(chunks[..k]));
      AppendClosedForm(b, chunks[k]);
    }
  }

  /** In closed form: with lines within the size limit, the release build hangs if and only if some
      chunk adds a line while the count does not cover the lines beyond the limit of lines. */
  lemma HangsClosedForm(chunks: seq<Bytes>)
    requires RunFits(chunks) && forall k :: 0 <= k < |chunks| ==> ShortLinesAt(chunks, k)
    ensures ReleaseRun(chunks).None? <==> exists k :: 0 <= k < |chunks| && !CoversAt(chunks, k)
  {
    ReleaseHangsIff(chunks);
    forall k | 0 <= k < |chunks|
      ensures SufficesAt(chunks, k) <==> CoversAt(chunks, k)
    {
      SufficesClosedForm(chunks, k);
    }
  }

  lemma {:induction false} SmallRunFits(chunks: seq<Bytes>)
    requires |Flatten(chunks)| < WORD - MAX_SIZE
    ensures RunFits(chunks)
  {
    if chunks != [] {
      var before := chunks[..|chunks| - 1];
      FlattenSnoc(chunks);
      SmallRunFits(before);
      if Run(before).Some? {
        RunKeepsTheEnd(before);
      }
    }
  }

  // ---------- A run that fails ----------

  /** Lines written in two halves: first `p`, then `q` with the line feed. */
  function Halves(p: Bytes, q: Bytes, n: nat): (chunks: seq<Bytes>)
    ensures |chunks| == 2 * n
  {
    if n == 0 then [] else Halves(p, q, n - 1) + [p, q + [NEWLINE]]
  }

  function Copies(line: Bytes, n: nat): (lines: seq<Bytes>)
    ensures |lines| == n
  {
    seq(n, i => line)
  }

  function WriteHalves(b: Buffer, p: Bytes, q: Bytes): Option<Buffer>
  {
    match Append(b, p)
    case None => None
    case Some(b') => Append(b', q + [NEWLINE])
  }

  lemma RunSnoc(chunks: seq<Bytes>, data: Bytes)
    ensures Run(chunks + [data]) == if Run(chunks).None? then None else Append(Run(chunks).value, data)
  {
    assert (chunks + [data])[..|chunks|] == chunks;
  }

  lemma HalvesStep(p: Bytes, q: Bytes, n: nat)
    requires n > 0
    ensures var r := Run(Halves(p, q, n - 1));
      Run(Halves(p, q, n)) == if r.None? then None else WriteHalves(r.value, p, q)
  {
    var before, chunks := Halves(p, q, n - 1), Halves(p, q, n);
    RunSnoc(before, p);
    RunSnoc(before + [p], q + [NEWLINE]);
    assert chunks == before + [p] + [q + [NEWLINE]];
  }

  lemma OneLine(p: Bytes)
    requires p != [] && NEWLINE !in p
    ensures Lines(p) == [p] && p[|p| - 1] != NEWLINE
  {
    assert p[|p| - 1] in p;
  }

  /** The first half of a line is counted; while there is room nothing goes. */
  lemma FirstHalf(line: Bytes, p: Bytes, n: nat, total: nat)
    requires p != [] && NEWLINE !in p && total + |p| <= MAX_SIZE && n < MAX_LINES
    ensures Append(Buffer(Copies(line, n), total, false), p) == Some(Buffer(Copies(line, n) + [p], total + |p|, true))
  {
    OneLine(p);
  }

  /** Otherwise one old line goes. */
  lemma FirstHalfDrops(line: Bytes, p: Bytes, total: nat)
    requires p != [] && NEWLINE !in p && total + |p| <= MAX_SIZE && |p| < |line|
    ensures Append(Buffer(Copies(line, MAX_LINES), total, false), p) ==
      if total + |p| < |line| then None
      else Some(Buffer(Copies(line, MAX_LINES - 1) + [p], total + |p| - |line|, true))
  {
    OneLine(p);
    var lines, count := Copies(line, MAX_LINES) + [p], total + |p|;
    assert lines[1..] == Copies(line, MAX_LINES - 1) + [p];
    assert lines[0] == line;
    assert count >= |line| ==> Trimmed(lines, count) == Trimmed(lines[1..], count - |line|);
  }

  lemma FindFeed(q: Bytes)
    requires NEWLINE !in q
    ensures IndexOf(q + [NEWLINE]) == |q|
  {
    assert (q + [NEWLINE])[|q|] == NEWLINE;
  }

  /** The second half: not counted. */
  lemma SecondHalf(p: Bytes, q: Bytes, line: Bytes, n: nat, total: nat)
    requires NEWLINE !in q && 0 < n <= MAX_LINES && total <= MAX_SIZE && line == p + q + [NEWLINE]
    ensures Append(Buffer(Copies(line, n - 1) + [p], total, true), q + [NEWLINE])
      == Some(Buffer(Copies(line, n), total, false))
  {
    var data := q + [NEWLINE];
    var b := Buffer(Copies(line, n - 1) + [p], total, true);
    FindFeed(q);
    assert data[..|q| + 1] == data && data[|q| + 1..] == [];
    assert p + data == line;
    assert Extend(b.lines, data) == Copies(line, n);
    assert Copies(line, n) + Lines([]) == Copies(line, n);
  }

  /** A buffer of `m` lines written in halves. */
  function Filled(p: Bytes, q: Bytes, m: nat, total: nat): Option<Buffer>
  {
    Some(Buffer(Copies(p + q + [NEWLINE], m), total, false))
  }

  /** One more such line while there is room for it. */
  lemma OneMore(p: Bytes, q: Bytes, m: nat, before: nat, total: nat)
    requires p != [] && NEWLINE !in p && NEWLINE !in q
    requires 0 < m <= MAX_LINES && total == before + |p| <= MAX_SIZE
    ensures WriteHalves(Filled(p, q, m - 1, before).value, p, q) == Filled(p, q, m, total)
  {
    FirstHalf(p + q + [NEWLINE], p, m - 1, before);
    SecondHalf(p, q, p + q + [NEWLINE], m, total);
  }

  /** And when there is none. */
  lemma OneTooMany(p: Bytes, q: Bytes, before: nat, count: int)
    requires p != [] && NEWLINE !in p && NEWLINE !in q
    requires before + |p| <= MAX_SIZE && count == before - (|q| + 1)
    ensures WriteHalves(Filled(p, q, MAX_LINES, before).value, p, q) == Full(p, q, count)
  {
    FirstHalfDrops(p + q + [NEWLINE], p, before);
    if count >= 0 {
      SecondHalf(p, q, p + q + [NEWLINE], MAX_LINES, count);
    }
  }

  function Times(n: nat, a: nat): nat
  {
    if n == 0 then 0 else Times(n - 1, a) + a
  }

  lemma {:induction false} TimesIs(n: nat, a: nat)
    ensures Times(n, a) == n * a
  {
    if n > 0 {
      TimesIs(n - 1, a);
      assert n * a == (n - 1) * a + a;
    }
  }

  lemma TimesBelow(n: nat, m: nat, a: nat, c: nat)
    requires n <= m && a <= c
    ensures Times(n, a) <= m * c
  {
    TimesIs(n, a);
    assert n * a <= m * a <= m * c;
  }

  lemma FillNone(p: Bytes, q: Bytes)
    ensures Run(Halves(p, q, 0)) == Filled(p, q, 0, 0)
  {
    assert Halves(p, q, 0) == [];
    assert Copies(p + q + [NEWLINE], 0) == EMPTY.lines;
  }

  lemma FillStep(p: Bytes, q: Bytes, n: nat, before: nat, total: nat)
    requires p != [] && NEWLINE !in p && NEWLINE !in q && 0 < n <= MAX_LINES
    requires Run(Halves(p, q, n - 1)) == Filled(p, q, n - 1, before) && total == before + |p| <= MAX_SIZE
    ensures Run(Halves(p, q, n)) == Filled(p, q, n, total)
  {
    HalvesStep(p, q, n);
    OneMore(p, q, n, before, total);
  }

  /** Up to the limit of lines each line counts as its first half only. */
  lemma {:induction false} HalvesFill(p: Bytes, q: Bytes, n: nat, total: nat)
    requires p != [] && NEWLINE !in p && NEWLINE !in q && n <= MAX_LINES && |p| <= 104
    requires total == Times(n, |p|)
    ensures Run(Halves(p, q, n)) == Filled(p, q, n, total)
  {
    if n == 0 {
      FillNone(p, q);
    } else {
      var before := Times(n - 1, |p|);
      HalvesFill(p, q, n - 1, before);
      TimesBelow(n, MAX_LINES, |p|, 104);
      FillStep(p, q, n, before, total);
    }
  }

  /** A full buffer with that count, if there is such a count. */
  function Full(p: Bytes, q: Bytes, count: int): Option<Buffer>
  {
    if count < 0 then None else Filled(p, q, MAX_LINES, count)
  }

  lemma FullStart(p: Bytes, q: Bytes, count: nat)
    requires p != [] && NEWLINE !in p && NEWLINE !in q && |p| <= 104 && count == Times(MAX_LINES, |p|)
    ensures Run(Halves(p, q, MAX_LINES)) == Full(p, q, count)
  {
    HalvesFill(p, q, MAX_LINES, count);
  }

  lemma FullStep(p: Bytes, q: Bytes, n: nat, before: int, count: int)
    requires p != [] && NEWLINE !in p && NEWLINE !in q && |p| <= 104 && before <= MAX_LINES * 104
    requires n > 0 && Run(Halves(p, q, n - 1)) == Full(p, q, before) && count == before - (|q| + 1)
    ensures Run(Halves(p, q, n)) == Full(p, q, count)
  {
    HalvesStep(p, q, n);
    if before >= 0 {
      OneTooMany(p, q, before, count);
    }
  }

  lemma {:induction false} HalvesDrain(p: Bytes, q: Bytes, n: nat, j: nat, full: nat, count: int)
    requires p != [] && NEWLINE !in p && NEWLINE !in q && |p| <= 104
    requires n == MAX_LINES + j && full == Times(MAX_LINES, |p|) && count == full - Times(j, |q| + 1)
    ensures Run(Halves(p, q, n)) == Full(p, q, count)
  {
    if j == 0 {
      FullStart(p, q, count);
    } else {
      var before := full - Times(j - 1, |q| + 1);
      HalvesDrain(p, q, n - 1, j - 1, full, before);
      TimesBelow(MAX_LINES, MAX_LINES, |p|, 104);
      FullStep(p, q, n, before, count);
    }
  }

  /** From then on each line takes its whole length off a count to which it added its first half.
      The run fails as soon as the second halves of the surplus lines outweigh what was counted. */
  lemma HalvesRunIff(p: Bytes, q: Bytes, j: nat)
    requires p != [] && NEWLINE !in p && NEWLINE !in q && |p| <= 104
    ensures Run(Halves(p, q, MAX_LINES + j)) == Full(p, q, MAX_LINES * |p| - j * (|q| + 1))
  {
    TimesIs(MAX_LINES, |p|);
    TimesIs(j, |q| + 1);
    HalvesDrain(p, q, MAX_LINES + j, j, MAX_LINES * |p|, MAX_LINES * |p| - j * (|q| + 1));
  }

  lemma {:induction false} HalvesSize(p: Bytes, q: Bytes, n: nat)
    ensures |Flatten(Halves(p, q, n))| == n * (|p| + |q| + 1)
    ensures forall k :: 0 <= k < 2 * n ==> |Halves(p, q, n)[k]| <= if |p| > |q| then |p| else |q| + 1
  {
    if n > 0 {
      HalvesSize(p, q, n - 1);
      FlattenConcat(Halves(p, q, n - 1), [p, q + [NEWLINE]]);
      assert Flatten([p, q + [NEWLINE]]) == p + Flatten([q + [NEWLINE]]);
      FlattenOne(q + [NEWLINE]);
      assert (n - 1) * (|p| + |q| + 1) + (|p| + |q| + 1) == n * (|p| + |q| + 1);
    }
  }

  /** Within the size of a read: lines of one character and 4095 more, written in two halves, make
      the release build hang at line 10003 and not before. */
  lemma ReleaseHangs(c: Byte, q: Bytes)
    requires c != NEWLINE && NEWLINE !in q && |q| == READ_SIZE - 1
    ensures forall k :: 0 <= k < 20006 ==> |Halves([c], q, 10003)[k]| <= READ_SIZE
    ensures ReleaseRun(Halves([c], q, 10003)).None? && ReleaseRun(Halves([c], q, 10002)).Some?
  {
    HalvesSize([c], q, 10003);
    HalvesSize([c], q, 10002);
    HalvesRunIff([c], q, 3);
    HalvesRunIff([c], q, 2);
    SmallRunFits(Halves([c], q, 10003));
    SmallRunFits(Halves([c], q, 10002));
    ReleaseRunAgrees(Halves([c], q, 10003));
    ReleaseRunAgrees(Halves([c], q, 10002));
  }

  /** Short lines do it too: a character, then its line feed, twenty thousand times and once more. */
  lemma ShortLinesHang(c: Byte)
    requires c != NEWLINE
    ensures ReleaseRun(Halves([c], [], 20001)).None? && ReleaseRun(Halves([c], [], 20000)).Some?
  {
    HalvesSize([c], [], 20001);
    HalvesSize([c], [], 20000);
    HalvesRunIff([c], [], 10001);
    HalvesRunIff([c], [], 10000);
    SmallRunFits(Halves([c], [], 20001));
    SmallRunFits(Halves([c], [], 20000));
    ReleaseRunAgrees(Halves([c], [], 20001));
    ReleaseRunAgrees(Halves([c], [], 20000));
  }

  // ---------- When the loop of the release build ends, for any lines and count ----------

  /** Dropping in the release build ends if and only if some number of lines can go after which
      both the wrapped count and the number of lines are within their limits. */
  ghost predicate EndsAfter(lines: seq<Bytes>, total: nat, d: nat)
    requires d <= |lines|
  {
    |lines| - d <= MAX_LINES && Wrap(total - |Flatten(lines[..d])|) <= MAX_SIZE
  }

  lemma EndsAfterStep(lines: seq<Bytes>, total: Word, d: nat)
    requires d < |lines|
    ensures EndsAfter(lines, total, d + 1) == EndsAfter(lines[1..], Wrap(total - |lines[0]|), d)
  {
    assert lines[..d + 1] == [lines[0]] + lines[1..][..d];
    WrapAdd(total - |lines[0]|, -|Flatten(lines[1..][..d])|);
  }

  lemma {:induction false} ReleaseEndsIff(lines: seq<Bytes>, total: Word)
    ensures ReleaseTrimmed(lines, total).Some? <==> exists d :: 0 <= d <= |lines| && EndsAfter(lines, total, d)
  {
    assert EndsAfter(lines, total, 0) <==> total <= MAX_SIZE && |lines| <= MAX_LINES;
    if !(total <= MAX_SIZE && |lines| <= MAX_LINES) && lines != [] {
      var rest, total' := lines[1..], Wrap(total - |lines[0]|);
      ReleaseEndsIff(rest, total');
      forall d | 0 <= d < |lines|
        ensures EndsAfter(lines, total, d + 1) == EndsAfter(rest, total', d)
      {
        EndsAfterStep(lines, total, d);
      }
      if d :| 0 <= d <= |rest| && EndsAfter(rest, total', d) {
        assert EndsAfter(lines, total, d + 1);
      }
      if d :| 0 <= d <= |lines| && EndsAfter(lines, total, d) {
        assert EndsAfter(rest, total', d - 1);
      }
    }
  }
}
