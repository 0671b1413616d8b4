/** The replay buffer of a terminal session: output kept as lines, the oldest lines dropped when
    there is too much, and a running count of bytes that decides how much is too much.

    The count is an unsigned machine word.  `Append` is the reading of a checked build, which stops
    where the count would go below zero; `ReleaseAppend` is the reading of the release build, where
    it wraps.  The class follows the release build. */
module TerminalBuffer {
  import opened Text

  type Bytes = seq<Byte>

  const NEWLINE: Byte := 10
  const MAX_SIZE := 0x10_0000
  const MAX_LINES := 10000
  /** Numbers that a machine word can hold. */
  const WORD := 0x1_0000_0000_0000_0000
  type Word = n: nat | n < WORD
  /** Output reaches the buffer in reads of at most this many bytes. */
  const READ_SIZE := 4096

  function Flatten(lines: seq<Bytes>): Bytes
  {
    if lines == [] then [] else lines[0] + Flatten(lines[1..])
  }

  /** Position of the first line feed, or -1. */
  function IndexOf(data: Bytes): (k: int)
    ensures -1 <= k < |data|
    ensures k >= 0 ==> data[k] == NEWLINE && forall i :: 0 <= i < k ==> data[i] != NEWLINE
    ensures k < 0 ==> NEWLINE !in data
  {
    if data == [] then -1
    else if data[0] == NEWLINE then 0
    else
      var k := IndexOf(data[1..]);
      if k < 0 then -1 else k + 1
  }

  /** The lines of a text, each with its line feed, except perhaps the last. */
  function Lines(data: Bytes): seq<Bytes>
    decreases |data|
  {
    if data == [] then []
    else
      var k := IndexOf(data);
      if k < 0 then [data] else [data[..k + 1]] + Lines(data[k + 1..])
  }

  /** Pieces between line feeds, without them; one more piece than there are line feeds. */
  function Pieces(data: Bytes): (p: seq<Bytes>)
    ensures p != []
    decreases |data|
  {
    var k := IndexOf(data);
    if k < 0 then [data] else [data[..k]] + Pieces(data[k + 1..])
  }

  datatype Buffer = Buffer(lines: seq<Bytes>, total: nat, incomplete: bool)

  const EMPTY := Buffer([], 0, false)

  /** Drops lines from the front while there are too many bytes or lines.  No result stands for a
      byte count that would have to go below zero. */
  function Trimmed(lines: seq<Bytes>, total: nat): Option<(seq<Bytes>, nat)>
  {
    if total <= MAX_SIZE && |lines| <= MAX_LINES then Some((lines, total))
    else if lines == [] || total < |lines[0]| then None
    else Trimmed(lines[1..], total - |lines[0]|)
  }

  /** New data completes the last line. */
  predicate Completes(b: Buffer, data: Bytes)
  {
    b.incomplete && b.lines != [] && IndexOf(data) >= 0
  }

  function Extend(lines: seq<Bytes>, more: Bytes): seq<Bytes>
    requires lines != []
  {
    lines[..|lines| - 1] + [lines[|lines| - 1] + more]
  }

  /** The rest of `data` as new lines, and whether the last of them still waits for its line feed;
      if it ends in a line feed the flag is left as it was. */
  function AddLines(b: Buffer, data: Bytes): Buffer
  {
    Buffer(b.lines + Lines(data), b.total + |data|,
           b.incomplete || (data != [] && data[|data| - 1] != NEWLINE))
  }

  /** The buffer just before old lines are dropped. */
  function Grown(b: Buffer, data: Bytes): Buffer
  {
    var k := IndexOf(data);
    if Completes(b, data) then AddLines(Buffer(Extend(b.lines, data[..k + 1]), b.total, false), data[k + 1..])
    else if b.incomplete && b.lines != [] then Buffer(Extend(b.lines, data), b.total + |data|, true)
    else AddLines(b, data)
  }

  /** No new line, so nothing is dropped either. */
  predicate AddsNoLine(b: Buffer, data: Bytes)
  {
    data == [] || (b.incomplete && b.lines != [] && IndexOf(data) < 0)
  }

  function Append(b: Buffer, data: Bytes): Option<Buffer>
  {
    var g := Grown(b, data);
    if data == [] then Some(b)
    else if AddsNoLine(b, data) then Some(g)
    else match Trimmed(g.lines, g.total)
      case None => None
      case Some((lines, total)) => Some(Buffer(lines, total, g.incomplete))
  }

  // ---------- The release build ----------

  function Wrap(n: int): (w: Word)
    ensures 0 <= n < WORD ==> w == n
  {
    n % WORD
  }

  lemma WrapAdd(a: int, b: int)
    ensures Wrap(Wrap(a) + b) == Wrap(a + b)
  {
  }

  /** The same loop with a count that wraps.  Nothing is taken off an empty buffer, so there the
      loop turns for ever; no result stands for that. */
  function ReleaseTrimmed(lines: seq<Bytes>, total: nat): Option<(seq<Bytes>, nat)>
  {
    if total <= MAX_SIZE && |lines| <= MAX_LINES then Some((lines, total))
    else if lines == [] then None
    else ReleaseTrimmed(lines[1..], Wrap(total - |lines[0]|))
  }

  function ReleaseAppend(b: Buffer, data: Bytes): Option<Buffer>
  {
    var g := Grown(b, data);
    if data == [] then Some(b)
    else if AddsNoLine(b, data) then Some(g.(total := Wrap(g.total)))
    else match ReleaseTrimmed(g.lines, Wrap(g.total))
      case None => None
      case Some((lines, total)) => Some(Buffer(lines, total, g.incomplete))
  }

  class OutputBuffer {
    var lines: seq<Bytes>
    var totalSize: Word
    var lastLineIncomplete: bool

    constructor ()
      ensures Buffer(lines, totalSize, lastLineIncomplete) == EMPTY
    {
      lines, totalSize, lastLineIncomplete := [], 0, false;
    }

    /** `done` is false where the call never returns. */
    method AppendData(data: Bytes) returns (done: bool)
      modifies this
      ensures var r := ReleaseAppend(old(Buffer(lines, totalSize, lastLineIncomplete)), data);
        done == r.Some? && (done ==> Buffer(lines, totalSize, lastLineIncomplete) == r.value)
    {
      if data == [] {
        return true;
      }
      var start := 0;
      if lastLineIncomplete && lines != [] {
        var pos := IndexOf(data);
        var last := lines[|lines| - 1];
        if pos >= 0 {
          lines := lines[..|lines| - 1] + [last + data[..pos + 1]];
          start := pos + 1;
          lastLineIncomplete := false;
        } else {
          lines := lines[..|lines| - 1] + [last + data];
          totalSize := Wrap(totalSize + |data|);
          return true;
        }
      }
      assert data[0..] == data;
      PushLines(data[start..]);
      done := TrimLines();
    }

    method PushLines(remaining: Bytes)
      modifies this
      ensures var b := AddLines(old(Buffer(lines, totalSize, lastLineIncomplete)), remaining);
        Buffer(lines, totalSize, lastLineIncomplete) == b.(total := Wrap(b.total))
    {
      var endsWithNewline := remaining != [] && remaining[|remaining| - 1] == NEWLINE;
      LastPiece(remaining);
      PushPieces(Pieces(remaining), endsWithNewline);
      PiecesAndLines(remaining);
      FlattenLines(remaining);
    }

    /** The loop over the pieces between line feeds. */
    method PushPieces(pieces: seq<Bytes>, endsWithNewline: bool)
      requires pieces != [] && (endsWithNewline ==> LastOf(pieces) == [])
      modifies this
      ensures lines == old(lines) + LinesOf(pieces)
      ensures totalSize == Counted(old(totalSize), LinesOf(pieces))
      ensures lastLineIncomplete == (old(lastLineIncomplete) || LastOf(pieces) != [])
    {
      ghost var start, count, pushed: seq<Bytes> := lines, totalSize, [];
      assert pieces[0..] == pieces;
      for i := 0 to |pieces|
        invariant lines == start + pushed && totalSize == Counted(count, pushed)
        invariant pushed + LinesOf(pieces[i..]) == LinesOf(pieces)
        invariant lastLineIncomplete == (old(lastLineIncomplete) || (i == |pieces| && LastOf(pieces) != []))
      {
        var line := pieces[i];
        LinesOfStep(pieces, i, pushed);
        if i == |pieces| - 1 && !endsWithNewline && line != [] {
          lastLineIncomplete := true;
        }
        if line != [] || i < |pieces| - 1 {
          var lineData := line;
          if i < |pieces| - 1 || endsWithNewline {
            lineData := lineData + [NEWLINE];
          }
          CountedStep(count, pushed, lineData);
          totalSize := Wrap(totalSize + |lineData|);
          lines := lines + [lineData];
          pushed := pushed + [lineData];
        }
      }
      assert pushed == LinesOf(pieces);
    }

    method TrimLines() returns (done: bool)
      modifies this`lines, this`totalSize
      ensures var r := ReleaseTrimmed(old(lines), old(totalSize));
        done == r.Some? && (done ==> (lines, totalSize) == r.value)
    {
      while totalSize > MAX_SIZE || |lines| > MAX_LINES
        invariant ReleaseTrimmed(lines, totalSize) == ReleaseTrimmed(old(lines), old(totalSize))
        decreases |lines|
      {
        if lines == [] {
          return false;
        }
        totalSize := Wrap(totalSize - |lines[0]|);
        lines := lines[1..];
      }
      return true;
    }

    /** The newest whole lines that fit. */
    method GetRecent(maxBytes: nat) returns (result: Bytes)
      ensures result == Flatten(Recent(lines, maxBytes))
    {
      result := [];
      var size := 0;
      var i := |lines|;
      while i > 0
        invariant 0 <= i <= |lines|
        invariant result == Flatten(lines[i..]) && size == |result| <= maxBytes
      {
        if size + |lines[i - 1]| > maxBytes {
          RecentFrom(lines, i, maxBytes);
          return;
        }
        assert lines[i - 1..][1..] == lines[i..];
        size := size + |lines[i - 1]|;
        result := lines[i - 1] + result;
        i := i - 1;
      }
      assert lines[0..] == lines;
      RecentFrom(lines, 0, maxBytes);
    }
  }

  // ---------- Lines and bytes ----------

  /** The lines that pieces stand for: each with its line feed, except the last one, which is a line
      only if there is something in it. */
  ghost function LinesOf(pieces: seq<Bytes>): seq<Bytes>
  {
    if pieces == [] then []
    else if |pieces| == 1 then if pieces[0] != [] then [pieces[0]] else []
    else [pieces[0] + [NEWLINE]] + LinesOf(pieces[1..])
  }

  lemma LinesOfStep(pieces: seq<Bytes>, i: nat, before: seq<Bytes>)
    requires i < |pieces|
    ensures var p, rest := pieces[i], pieces[i + 1..];
      before + LinesOf(pieces[i..]) ==
        if i < |pieces| - 1 then before + [p + [NEWLINE]] + LinesOf(rest)
        else if p != [] then before + [p] + LinesOf(rest)
        else before + LinesOf(rest)
  {
    assert pieces[i..][1..] == pieces[i + 1..];
    assert i < |pieces| - 1 ==>
      before + ([pieces[i] + [NEWLINE]] + LinesOf(pieces[i + 1..])) == before + [pieces[i] + [NEWLINE]] + LinesOf(pieces[i + 1..]);
  }

  lemma {:induction false} FlattenConcat(a: seq<Bytes>, b: seq<Bytes>)
    ensures Flatten(a + b) == Flatten(a) + Flatten(b)
  {
    if a == [] {
      assert a + b == b;
    } else {
      FlattenConcat(a[1..], b);
      assert (a + b)[1..] == a[1..] + b;
      Regroup(a[0], Flatten(a[1..]), Flatten(b));
    }
  }

  lemma FlattenOne(line: Bytes)
    ensures Flatten([line]) == line
  {
    assert Flatten([line]) == line + Flatten([]);
  }

  /** The byte count after some lines. */
  ghost function Counted(start: nat, lines: seq<Bytes>): Word
  {
    Wrap(start + |Flatten(lines)|)
  }

  lemma CountedStep(start: nat, lines: seq<Bytes>, line: Bytes)
    ensures Counted(start, lines + [line]) == Wrap(Counted(start, lines) + |line|)
  {
    FlattenConcat(lines, [line]);
    FlattenOne(line);
    WrapAdd(start + |Flatten(lines)|, |line|);
  }

  /** Cutting into lines loses nothing. */
  lemma {:induction false} FlattenLines(data: Bytes)
    ensures Flatten(Lines(data)) == data
    decreases |data|
  {
    if data != [] {
      var k := IndexOf(data);
      if k < 0 {
        FlattenOne(data);
      } else {
        var head, tail := data[..k + 1], data[k + 1..];
        FlattenLines(tail);
        assert Lines(data) == [head] + Lines(tail);
        FlattenConcat([head], Lines(tail));
        FlattenOne(head);
        assert head + tail == data;
      }
    }
  }

  /** A line is not empty, has a line feed at its end or nowhere, and only the last one may have none. */
  lemma {:induction false} LinesShape(data: Bytes, i: nat)
    requires i < |Lines(data)|
    ensures var l := Lines(data)[i];
      l != [] && NEWLINE !in l[..|l| - 1] && (i < |Lines(data)| - 1 ==> l[|l| - 1] == NEWLINE)
    decreases |data|
  {
    var k := IndexOf(data);
    if k >= 0 {
      var head, rest := data[..k + 1], Lines(data[k + 1..]);
      assert Lines(data) == [head] + rest;
      if i > 0 {
        assert Lines(data)[i] == rest[i - 1];
        LinesShape(data[k + 1..], i - 1);
      } else {
        assert head[..|head| - 1] == data[..k];
      }
    }
  }

  /** Pushing the pieces with their line feeds is pushing the lines. */
  lemma {:induction false} PiecesAndLines(data: Bytes)
    ensures LinesOf(Pieces(data)) == Lines(data)
    decreases |data|
  {
    var k := IndexOf(data);
    if k >= 0 {
      var head, rest := data[..k], Pieces(data[k + 1..]);
      PiecesAndLines(data[k + 1..]);
      assert ([head] + rest)[1..] == rest;
      assert head + [NEWLINE] == data[..k + 1];
    }
  }

  predicate EndsOpen(data: Bytes)
  {
    data != [] && data[|data| - 1] != NEWLINE
  }

  lemma EndsOpenAfter(data: Bytes, k: nat)
    requires k < |data| && data[k] == NEWLINE
    ensures EndsOpen(data) <==> EndsOpen(data[k + 1..])
  {
    assert k + 1 < |data| ==> data[k + 1..][|data| - k - 2] == data[|data| - 1];
  }

  function LastOf(p: seq<Bytes>): Bytes
    requires p != []
  {
    p[|p| - 1]
  }

  lemma LastOfCons(p: Bytes, rest: seq<Bytes>)
    requires rest != []
    ensures LastOf([p] + rest) == LastOf(rest)
  {
  }

  /** The last piece is not empty exactly if the data does not end in a line feed. */
  lemma {:induction false} LastPiece(data: Bytes)
    ensures LastOf(Pieces(data)) != [] <==> EndsOpen(data)
    decreases |data|
  {
    var k := IndexOf(data);
    if k >= 0 {
      LastPiece(data[k + 1..]);
      EndsOpenAfter(data, k);
      LastOfCons(data[..k], Pieces(data[k + 1..]));
    } else if data != [] {
      assert data[|data| - 1] in data;
    }
  }

  /** The longest run of last lines within a size. */
  function Recent(lines: seq<Bytes>, maxBytes: nat): (r: seq<Bytes>)
    ensures |Flatten(r)| <= maxBytes
  {
    if |Flatten(lines)| <= maxBytes then lines else Recent(lines[1..], maxBytes)
  }

  lemma {:induction false} RecentFrom(lines: seq<Bytes>, i: nat, maxBytes: nat)
    requires i <= |lines| && |Flatten(lines[i..])| <= maxBytes
    requires i > 0 ==> |Flatten(lines[i - 1..])| > maxBytes
    ensures Recent(lines, maxBytes) == lines[i..]
  {
    if i == 0 {
      assert lines[0..] == lines;
    } else {
      FlattenConcat(lines[..i - 1], lines[i - 1..]);
      assert lines[..i - 1] + lines[i - 1..] == lines;
      assert lines[1..][i - 1..] == lines[i..];
      assert i > 1 ==> lines[1..][i - 2..] == lines[i - 1..];
      RecentFrom(lines[1..], i - 1, maxBytes);
    }
  }

  // ---------- What is kept ----------

  lemma SuffixOfSuffix(a: Bytes, b: Bytes, c: Bytes)
    requires IsSuffix(a, b) && IsSuffix(b, c)
    ensures IsSuffix(a, c)
  {
    assert c[|c| - |a|..] == c[|c| - |b|..][|b| - |a|..];
  }

  lemma SuffixExtended(a: Bytes, b: Bytes, more: Bytes)
    requires IsSuffix(a, b)
    ensures IsSuffix(a + more, b + more)
  {
    assert (b + more)[|b + more| - |a + more|..] == b[|b| - |a|..] + more;
  }

  lemma {:induction false} TrimmedSuffix(lines: seq<Bytes>, total: nat)
    requires Trimmed(lines, total).Some?
    ensures IsSuffix(Flatten(Trimmed(lines, total).value.0), Flatten(lines))
  {
    if !(total <= MAX_SIZE && |lines| <= MAX_LINES) {
      TrimmedSuffix(lines[1..], total - |lines[0]|);
      assert Flatten(lines) == lines[0] + Flatten(lines[1..]);
      SuffixOfSuffix(Flatten(Trimmed(lines, total).value.0), Flatten(lines[1..]), Flatten(lines));
    }
  }

  lemma FlattenExtend(lines: seq<Bytes>, more: Bytes)
    requires lines != []
    ensures Flatten(Extend(lines, more)) == Flatten(lines) + more
  {
    var init, last := lines[..|lines| - 1], lines[|lines| - 1];
    assert lines == init + [last];
    FlattenConcat(init, [last]);
    FlattenConcat(init, [last + more]);
    FlattenOne(last);
    FlattenOne(last + more);
    Regroup(Flatten(init), last, more);
  }

  lemma FlattenAdd(b: Buffer, data: Bytes)
    ensures Flatten(AddLines(b, data).lines) == Flatten(b.lines) + data
  {
    FlattenConcat(b.lines, Lines(data));
    FlattenLines(data);
  }

  /** Bytes that completing a line adds to the buffer but not to the count. */
  function Uncounted(b: Buffer, data: Bytes): nat
  {
    if Completes(b, data) then IndexOf(data) + 1 else 0
  }

  lemma Regroup(a: Bytes, b: Bytes, c: Bytes)
    ensures a + b + c == a + (b + c)
  {
  }

  lemma FlattenCompleted(lines: seq<Bytes>, head: Bytes, tail: Bytes)
    requires lines != []
    ensures Flatten(Extend(lines, head) + Lines(tail)) == Flatten(lines) + (head + tail)
  {
    FlattenConcat(Extend(lines, head), Lines(tail));
    FlattenLines(tail);
    FlattenExtend(lines, head);
    Regroup(Flatten(lines), head, tail);
  }

  lemma GrownByCompletion(b: Buffer, data: Bytes)
    requires Completes(b, data)
    ensures Flatten(Grown(b, data).lines) == Flatten(b.lines) + data
  {
    var k := IndexOf(data);
    FlattenCompleted(b.lines, data[..k + 1], data[k + 1..]);
    assert data[..k + 1] + data[k + 1..] == data;
  }

  lemma GrownHolds(b: Buffer, data: Bytes)
    ensures Flatten(Grown(b, data).lines) == Flatten(b.lines) + data
    ensures Grown(b, data).total + Uncounted(b, data) == b.total + |data|
  {
    if Completes(b, data) {
      GrownByCompletion(b, data);
    } else if b.incomplete && b.lines != [] {
      FlattenExtend(b.lines, data);
    } else {
      FlattenAdd(b, data);
    }
  }

  lemma {:induction false} TrimmedCounts(lines: seq<Bytes>, total: nat)
    requires Trimmed(lines, total).Some?
    ensures var (lines', total') := Trimmed(lines, total).value;
      total' + |Flatten(lines)| == total + |Flatten(lines')|
  {
    if !(total <= MAX_SIZE && |lines| <= MAX_LINES) {
      TrimmedCounts(lines[1..], total - |lines[0]|);
    }
  }

  /** One append: the bytes kept are the newest of what there was and what came, and the count
      falls behind by exactly the bytes that completed a line. */
  lemma AppendKeeps(b: Buffer, data: Bytes)
    requires Append(b, data).Some?
    ensures var b' := Append(b, data).value;
      && IsSuffix(Flatten(b'.lines), Flatten(b.lines) + data)
      && b'.total + |Flatten(b.lines)| + Uncounted(b, data) == b.total + |Flatten(b'.lines)|
  {
    var g := Grown(b, data);
    GrownHolds(b, data);
    if data == [] {
      assert Flatten(b.lines) + data == Flatten(b.lines);
    } else if !AddsNoLine(b, data) {
      TrimmedSuffix(g.lines, g.total);
      TrimmedCounts(g.lines, g.total);
    }
  }

  // ---------- Whole runs ----------

  function Run(chunks: seq<Bytes>): Option<Buffer>
  {
    if chunks == [] then Some(EMPTY)
    else match Run(chunks[..|chunks| - 1])
      case None => None
      case Some(b) => Append(b, chunks[|chunks| - 1])
  }

  /** All bytes over a run that completed a line. */
  function Missing(chunks: seq<Bytes>): nat
    requires Run(chunks).Some?
  {
    if chunks == [] then 0
    else
      var before := chunks[..|chunks| - 1];
      Missing(before) + Uncounted(Run(before).value, chunks[|chunks| - 1])
  }

  lemma FlattenSnoc(chunks: seq<Bytes>)
    requires chunks != []
    ensures Flatten(chunks) == Flatten(chunks[..|chunks| - 1]) + chunks[|chunks| - 1]
  {
    var init, last := chunks[..|chunks| - 1], chunks[|chunks| - 1];
    assert chunks == init + [last];
    FlattenConcat(init, [last]);
    FlattenOne(last);
  }

  /** Over every run: the buffer holds the end of everything the terminal has written, and the
      count is short by exactly the bytes that ever completed a line; nothing repairs it. */
  lemma {:induction false} RunKeepsTheEnd(chunks: seq<Bytes>)
    requires Run(chunks).Some?
    ensures var b := Run(chunks).value;
      IsSuffix(Flatten(b.lines), Flatten(chunks)) && b.total + Missing(chunks) == |Flatten(b.lines)|
  {
    if chunks != [] {
      var before, data := chunks[..|chunks| - 1], chunks[|chunks| - 1];
      RunKeepsTheEnd(before);
      var b, b' := Run(before).value, Run(chunks).value;
      AppendKeeps(b, data);
      FlattenSnoc(chunks);
      SuffixExtended(Flatten(b.lines), Flatten(before), data);
      SuffixOfSuffix(Flatten(b'.lines), Flatten(b.lines) + data, Flatten(chunks));
    }
  }

  /** Chunk `k` of a run completes a line. */
  predicate CompletesAt(chunks: seq<Bytes>, k: nat)
    requires k < |chunks|
  {
    Run(chunks[..k]).Some? && Completes(Run(chunks[..k]).value, chunks[k])
  }

  ghost predicate NeverCompletes(chunks: seq<Bytes>)
  {
    forall k :: 0 <= k < |chunks| ==> !CompletesAt(chunks, k)
  }

  lemma {:induction false} MissingNothing(chunks: seq<Bytes>)
    requires Run(chunks).Some?
    ensures Missing(chunks) == 0 <==> NeverCompletes(chunks)
  {
    if chunks != [] {
      MissingNothing(chunks[..|chunks| - 1]);
      NeverCompletesSnoc(chunks);
    }
  }

  lemma CompletesAtPrefix(chunks: seq<Bytes>, n: nat, k: nat)
    requires k < n <= |chunks|
    ensures CompletesAt(chunks[..n], k) == CompletesAt(chunks, k)
  {
    assert chunks[..n][..k] == chunks[..k];
  }

  lemma NeverCompletesSnoc(chunks: seq<Bytes>)
    requires chunks != []
    ensures var n := |chunks| - 1;
      NeverCompletes(chunks) <==> NeverCompletes(chunks[..n]) && !CompletesAt(chunks, n)
  {
    var n := |chunks| - 1;
    forall k | 0 <= k < n
      ensures CompletesAt(chunks[..n], k) == CompletesAt(chunks, k)
    {
      CompletesAtPrefix(chunks, n, k);
    }
  }

  /** The byte count is right after a run if and only if no chunk of it completed a line. */
  lemma CountExactIff(chunks: seq<Bytes>)
    requires Run(chunks).Some?
    ensures Run(chunks).value.total == |Flatten(Run(chunks).value.lines)| <==> NeverCompletes(chunks)
  {
    RunKeepsTheEnd(chunks);
    MissingNothing(chunks);
  }

  // ---------- Dropping lines ----------

  /** How many lines go, with a count that may run below zero. */
  function Surplus(lines: seq<Bytes>, count: int): (d: nat)
    ensures d <= |lines|
  {
    if lines == [] || (count <= MAX_SIZE && |lines| <= MAX_LINES) then 0
    else 1 + Surplus(lines[1..], count - |lines[0]|)
  }

  lemma {:induction false} SurplusMore(lines: seq<Bytes>, d: nat)
    requires d < |lines|
    ensures |Flatten(lines[1..][d..])| <= |Flatten(lines[1..])|
  {
    FlattenConcat(lines[1..][..d], lines[1..][d..]);
    assert lines[1..][..d] + lines[1..][d..] == lines[1..];
  }

  /** Dropping succeeds if and only if at least as many bytes stay as the count is short. */
  lemma {:induction false} TrimmedIff(lines: seq<Bytes>, total: nat, missing: nat)
    requires total + missing == |Flatten(lines)|
    ensures var d := Surplus(lines, total);
      && (Trimmed(lines, total).Some? <==> |Flatten(lines[d..])| >= missing)
      && (Trimmed(lines, total).Some? ==> Trimmed(lines, total).value.0 == lines[d..])
  {
    if total <= MAX_SIZE && |lines| <= MAX_LINES {
      assert lines[0..] == lines;
    } else if lines != [] {
      var rest, d := lines[1..], Surplus(lines[1..], total - |lines[0]|);
      assert lines[1 + d..] == rest[d..];
      if total >= |lines[0]| {
        TrimmedIff(rest, total - |lines[0]|, missing);
      } else {
        SurplusMore(lines, d);
      }
    }
  }

  lemma ExactTrims(lines: seq<Bytes>, total: nat)
    requires total == |Flatten(lines)|
    ensures Trimmed(lines, total).Some?
    ensures var (lines', total') := Trimmed(lines, total).value;
      |lines'| <= MAX_LINES && total' == |Flatten(lines')| <= MAX_SIZE
  {
    TrimmedIff(lines, total, 0);
    TrimmedCounts(lines, total);
    TrimmedLimits(lines, total);
  }

  /** With a right count one append never fails, and what stays is within both limits, except that
      an unfinished line may grow. */
  lemma ExactAppend(b: Buffer, data: Bytes)
    requires b.total == |Flatten(b.lines)| && !Completes(b, data)
    ensures Append(b, data).Some?
    ensures !AddsNoLine(b, data) ==>
      |Append(b, data).value.lines| <= MAX_LINES && |Flatten(Append(b, data).value.lines)| <= MAX_SIZE
  {
    if !AddsNoLine(b, data) {
      GrownHolds(b, data);
      ExactTrims(AddLines(b, data).lines, AddLines(b, data).total);
    }
  }

  /** A run in which no chunk completes a line never fails. */
  lemma {:induction false} ExactNeverFails(chunks: seq<Bytes>)
    requires NeverCompletes(chunks)
    ensures Run(chunks).Some?
    ensures chunks != [] && !AddsNoLine(Run(chunks[..|chunks| - 1]).value, chunks[|chunks| - 1]) ==>
      |Run(chunks).value.lines| <= 10000 && |Flatten(Run(chunks).value.lines)| <= 0x10_0000
  {
    if chunks != [] {
      var n := |chunks| - 1;
      NeverCompletesSnoc(chunks);
      ExactNeverFails(chunks[..n]);
      CountExactIff(chunks[..n]);
      ExactAppend(Run(chunks[..n]).value, chunks[n]);
    }
  }

  /** The count of a buffer covers the lines that `data` would push out of it. */
  predicate CountSuffices(b: Buffer, data: Bytes)
  {
    var g := Grown(b, data);
    AddsNoLine(b, data) || |Flatten(g.lines[..Surplus(g.lines, g.total)])| <= g.total
  }

  lemma FlattenParts(lines: seq<Bytes>, d: nat)
    requires d <= |lines|
    ensures |Flatten(lines)| == |Flatten(lines[..d])| + |Flatten(lines[d..])|
  {
    FlattenConcat(lines[..d], lines[d..]);
    assert lines[..d] + lines[d..] == lines;
  }

  /** An append works if and only if the count covers the lines that are dropped; that is, if and
      only if at least as many bytes stay as the count is then short. */
  lemma AppendIff(b: Buffer, data: Bytes, missing: nat)
    requires b.total + missing == |Flatten(b.lines)|
    ensures Append(b, data).Some? <==> CountSuffices(b, data)
    ensures var g := Grown(b, data);
      !AddsNoLine(b, data) ==>
        (Append(b, data).Some? <==>
          |Flatten(g.lines[Surplus(g.lines, g.total)..])| >= missing + Uncounted(b, data))
  {
    if !AddsNoLine(b, data) {
      var g := Grown(b, data);
      GrownHolds(b, data);
      TrimmedIff(g.lines, g.total, missing + Uncounted(b, data));
      FlattenParts(g.lines, Surplus(g.lines, g.total));
    }
  }

  predicate ShortLines(lines: seq<Bytes>)
  {
    forall i :: 0 <= i < |lines| ==> |lines[i]| <= MAX_SIZE
  }

  /** The count covers the lines beyond the limit of lines. */
  predicate CoversSurplus(lines: seq<Bytes>, total: nat)
  {
    |lines| <= MAX_LINES || |Flatten(lines[..|lines| - MAX_LINES])| <= total
  }

  lemma SurplusStep(lines: seq<Bytes>, total: nat)
    requires |lines| > MAX_LINES
    ensures |Flatten(lines[..|lines| - MAX_LINES])| >= |lines[0]|
    ensures total >= |lines[0]| ==> (CoversSurplus(lines, total) <==> CoversSurplus(lines[1..], total - |lines[0]|))
  {
    var e := |lines| - MAX_LINES;
    var first, rest := lines[..e], lines[1..];
    assert first[0] == lines[0] && first[1..] == rest[..e - 1];
  }

  /** In closed form, for lines within the size limit: dropping works if and only if the count covers
      the lines beyond the limit of lines.  Dropping for size alone never fails. */
  lemma {:induction false} TrimmedClosedForm(lines: seq<Bytes>, total: nat)
    requires ShortLines(lines) && total <= |Flatten(lines)|
    ensures Trimmed(lines, total).Some? <==> CoversSurplus(lines, total)
  {
    if !(total <= MAX_SIZE && |lines| <= MAX_LINES) {
      if |lines| > MAX_LINES {
        SurplusStep(lines, total);
      }
      if total >= |lines[0]| {
        TrimmedClosedForm(lines[1..], total - |lines[0]|);
      }
    }
  }

  /** The same for an append, with the lines there are once the data is in. */
  lemma AppendClosedForm(b: Buffer, data: Bytes)
    requires b.total <= |Flatten(b.lines)| && ShortLines(Grown(b, data).lines)
    ensures Append(b, data).Some? <==> AddsNoLine(b, data) || CoversSurplus(Grown(b, data).lines, Grown(b, data).total)
  {
    GrownHolds(b, data);
    TrimmedClosedForm(Grown(b, data).lines, Grown(b, data).total);
  }

  /** Chunk `k` of a run finds a count that suffices. */
  predicate SufficesAt(chunks: seq<Bytes>, k: nat)
    requires k < |chunks|
  {
    Run(chunks[..k]).Some? ==> CountSuffices(Run(chunks[..k]).value, chunks[k])
  }

  ghost predicate AlwaysSuffices(chunks: seq<Bytes>)
  {
    forall k :: 0 <= k < |chunks| ==> SufficesAt(chunks, k)
  }

  lemma SufficesAtPrefix(chunks: seq<Bytes>, n: nat, k: nat)
    requires k < n <= |chunks|
    ensures SufficesAt(chunks[..n], k) == SufficesAt(chunks, k)
  {
    assert chunks[..n][..k] == chunks[..k];
  }

  lemma AlwaysSufficesSnoc(chunks: seq<Bytes>)
    requires chunks != []
    ensures var n := |chunks| - 1;
      AlwaysSuffices(chunks) <==> AlwaysSuffices(chunks[..n]) && SufficesAt(chunks, n)
  {
    var n := |chunks| - 1;
    forall k | 0 <= k < n
      ensures SufficesAt(chunks[..n], k) == SufficesAt(chunks, k)
    {
      SufficesAtPrefix(chunks, n, k);
    }
  }

  /** A run works if and only if the count suffices at every chunk. */
  lemma {:induction false} RunIff(chunks: seq<Bytes>)
    ensures Run(chunks).Some? <==> AlwaysSuffices(chunks)
  {
    if chunks != [] {
      var n := |chunks| - 1;
      RunIff(chunks[..n]);
      AlwaysSufficesSnoc(chunks);
      if Run(chunks[..n]).Some? {
        RunKeepsTheEnd(chunks[..n]);
        AppendIff(Run(chunks[..n]).value, chunks[n], Missing(chunks[..n]));
      }
    }
  }

  lemma {:induction false} TrimmedLimits(lines: seq<Bytes>, total: nat)
    requires Trimmed(lines, total).Some?
    ensures |Trimmed(lines, total).value.0| <= MAX_LINES && Trimmed(lines, total).value.1 <= MAX_SIZE
  {
    if !(total <= MAX_SIZE && |lines| <= MAX_LINES) {
      TrimmedLimits(lines[1..], total - |lines[0]|);
    }
  }

  lemma {:induction false} RecentIsSuffix(lines: seq<Bytes>, maxBytes: nat)
    ensures IsSuffix(Flatten(Recent(lines, maxBytes)), Flatten(lines))
  {
    if |Flatten(lines)| > maxBytes {
      RecentIsSuffix(lines[1..], maxBytes);
      assert Flatten(lines) == lines[0] + Flatten(lines[1..]);
      SuffixOfSuffix(Flatten(Recent(lines, maxBytes)), Flatten(lines[1..]), Flatten(lines));
    }
  }

  /** What is replayed to someone who comes back is, after every run, the very end of all output. */
  lemma ReplayIsTheEnd(chunks: seq<Bytes>, maxBytes: nat)
    requires Run(chunks).Some?
    ensures var r := Flatten(Recent(Run(chunks).value.lines, maxBytes));
      |r| <= maxBytes && IsSuffix(r, Flatten(chunks))
  {
    var b := Run(chunks).value;
    RunKeepsTheEnd(chunks);
    RecentIsSuffix(b.lines, maxBytes);
    SuffixOfSuffix(Flatten(Recent(b.lines, maxBytes)), Flatten(b.lines), Flatten(chunks));
  }

  // ---------- What the lines and the flag mean ----------

  predicate IsLine(l: Bytes)
  {
    l != [] && NEWLINE !in l[..|l| - 1]
  }

  predicate Closed(l: Bytes)
  {
    l != [] && l[|l| - 1] == NEWLINE
  }

  /** Lines as they come out of a text: all but the last are closed. */
  predicate WellLined(lines: seq<Bytes>)
  {
    && (forall i :: 0 <= i < |lines| ==> IsLine(lines[i]))
    && (forall i :: 0 <= i < |lines| - 1 ==> Closed(lines[i]))
  }

  predicate LastOpen(lines: seq<Bytes>)
  {
    lines != [] && !Closed(lines[|lines| - 1])
  }

  lemma LinesWellLined(data: Bytes)
    ensures WellLined(Lines(data))
  {
    forall i | 0 <= i < |Lines(data)|
      ensures IsLine(Lines(data)[i]) && (i < |Lines(data)| - 1 ==> Closed(Lines(data)[i]))
    {
      LinesShape(data, i);
    }
  }

  lemma LastOpenCons(l: Bytes, rest: seq<Bytes>)
    requires Closed(l)
    ensures LastOpen([l] + rest) <==> LastOpen(rest)
  {
  }

  lemma {:induction false} LastLineOpen(data: Bytes)
    ensures LastOpen(Lines(data)) <==> EndsOpen(data)
    decreases |data|
  {
    var k := IndexOf(data);
    if k >= 0 {
      var rest := data[k + 1..];
      LastLineOpen(rest);
      EndsOpenAfter(data, k);
      LastOpenCons(data[..k + 1], Lines(rest));
    } else if data != [] {
      assert data[|data| - 1] in data;
    }
  }

  lemma FirstFeed(l: Bytes, rest: Bytes)
    requires IsLine(l) && Closed(l)
    ensures IndexOf(l + rest) == |l| - 1
  {
    var s, k := l + rest, |l| - 1;
    assert s[k] == NEWLINE;
    assert forall i :: 0 <= i < k ==> s[i] == l[..k][i];
    assert IndexOf(s) >= 0;
  }

  /** Such lines are the lines of the text they make up. */
  lemma {:induction false} LinesOfFlatten(lines: seq<Bytes>)
    requires WellLined(lines)
    ensures Lines(Flatten(lines)) == lines
  {
    if lines != [] {
      var l, rest := lines[0], lines[1..];
      LinesOfFlatten(rest);
      if Closed(l) {
        FirstFeed(l, Flatten(rest));
        assert (l + Flatten(rest))[..|l|] == l && (l + Flatten(rest))[|l|..] == Flatten(rest);
        assert [l] + rest == lines;
      } else {
        assert rest == [];
        assert Flatten(lines) == l;
        OneOpenLine(l);
        assert lines == [l];
      }
    }
  }

  lemma OneOpenLine(l: Bytes)
    requires IsLine(l) && !Closed(l)
    ensures Lines(l) == [l]
  {
    assert l == l[..|l| - 1] + [l[|l| - 1]];
  }

  lemma WellLinedConcat(a: seq<Bytes>, b: seq<Bytes>)
    requires WellLined(a) && WellLined(b) && !LastOpen(a)
    ensures WellLined(a + b) && (LastOpen(a + b) <==> LastOpen(b))
  {
  }

  lemma ExtendOpen(lines: seq<Bytes>, more: Bytes)
    requires WellLined(lines) && LastOpen(lines) && IsLine(more)
    ensures WellLined(Extend(lines, more)) && (LastOpen(Extend(lines, more)) <==> !Closed(more))
  {
    var last := lines[|lines| - 1];
    var l := last + more;
    assert l[..|l| - 1] == last + more[..|more| - 1];
    assert last == last[..|last| - 1] + [last[|last| - 1]];
    assert l[|l| - 1] == more[|more| - 1];
  }

  /** The lines are lines, and the flag says whether the last one still waits for its line feed. */
  predicate Meant(b: Buffer)
  {
    WellLined(b.lines) && (b.incomplete <==> LastOpen(b.lines))
  }

  lemma AddLinesMeant(b: Buffer, data: Bytes)
    requires Meant(b) && !b.incomplete
    ensures Meant(AddLines(b, data)) && (b.incomplete || EndsOpen(data) <==> AddLines(b, data).incomplete)
  {
    LinesWellLined(data);
    LastLineOpen(data);
    WellLinedConcat(b.lines, Lines(data));
  }

  lemma NoFeedIsLine(data: Bytes)
    requires data != [] && NEWLINE !in data
    ensures IsLine(data) && !Closed(data)
  {
    assert data[|data| - 1] in data;
  }

  lemma UpToFeedIsLine(data: Bytes, k: nat)
    requires k < |data| && IndexOf(data) == k
    ensures IsLine(data[..k + 1]) && Closed(data[..k + 1])
  {
    assert data[..k + 1][..k] == data[..k];
  }

  lemma GrownMeant(b: Buffer, data: Bytes)
    requires Meant(b) && data != []
    ensures Meant(Grown(b, data))
  {
    var k := IndexOf(data);
    if Completes(b, data) {
      UpToFeedIsLine(data, k);
      ExtendOpen(b.lines, data[..k + 1]);
      AddLinesMeant(Buffer(Extend(b.lines, data[..k + 1]), b.total, false), data[k + 1..]);
    } else if b.incomplete {
      NoFeedIsLine(data);
      ExtendOpen(b.lines, data);
    } else {
      AddLinesMeant(b, data);
    }
  }

  lemma AddedOpenLine(b: Buffer, tail: Bytes)
    requires Meant(b) && !b.incomplete && AddLines(b, tail).incomplete
    ensures AddLines(b, tail).lines != [] && |LastOf(AddLines(b, tail).lines)| <= |tail|
  {
    AddLinesMeant(b, tail);
    LastLineOpen(tail);
    FlattenLines(tail);
    LineWithin(Lines(tail));
  }

  /** If the data adds a line that is left open, that line is no longer than the data. */
  lemma OpenLineIsNew(b: Buffer, data: Bytes)
    requires !AddsNoLine(b, data) && Meant(b) && Grown(b, data).incomplete
    ensures Grown(b, data).lines != [] && |LastOf(Grown(b, data).lines)| <= |data|
  {
    if Completes(b, data) {
      var k := IndexOf(data);
      UpToFeedIsLine(data, k);
      ExtendOpen(b.lines, data[..k + 1]);
      AddedOpenLine(Buffer(Extend(b.lines, data[..k + 1]), b.total, false), data[k + 1..]);
    } else {
      AddedOpenLine(b, data);
    }
  }

  lemma LineWithin(lines: seq<Bytes>)
    requires lines != []
    ensures |LastOf(lines)| <= |Flatten(lines)|
  {
    FlattenSnoc(lines);
  }

  /** A last line within the size limit is never dropped. */
  lemma {:induction false} TrimmedKeepsLast(lines: seq<Bytes>, total: nat)
    requires lines != [] && |LastOf(lines)| <= MAX_SIZE && total <= |Flatten(lines)| && Trimmed(lines, total).Some?
    ensures var kept := Trimmed(lines, total).value.0; kept != [] && LastOf(kept) == LastOf(lines)
  {
    if !(total <= MAX_SIZE && |lines| <= MAX_LINES) {
      if |lines| == 1 {
        assert lines == [lines[0]];
        FlattenOne(lines[0]);
      } else {
        TrimmedKeepsLast(lines[1..], total - |lines[0]|);
      }
    }
  }

  lemma {:induction false} TrimmedWellLined(lines: seq<Bytes>, total: nat)
    requires WellLined(lines) && Trimmed(lines, total).Some?
    ensures WellLined(Trimmed(lines, total).value.0)
    ensures LastOpen(Trimmed(lines, total).value.0) ==> LastOpen(lines)
  {
    if !(total <= MAX_SIZE && |lines| <= MAX_LINES) {
      TrimmedWellLined(lines[1..], total - |lines[0]|);
    }
  }

  lemma AppendMeant(b: Buffer, data: Bytes)
    requires Meant(b) && b.total <= |Flatten(b.lines)| && |data| <= MAX_SIZE && Append(b, data).Some?
    ensures Meant(Append(b, data).value)
  {
    if data != [] {
      var g := Grown(b, data);
      GrownMeant(b, data);
      GrownHolds(b, data);
      if !AddsNoLine(b, data) {
        TrimmedWellLined(g.lines, g.total);
        if g.incomplete {
          OpenLineIsNew(b, data);
          TrimmedKeepsLast(g.lines, g.total);
        }
      }
    }
  }

  /** Over every run of chunks within a megabyte: the buffer is cut into the lines of the text it holds,
      and its flag says whether that text ends in the middle of a line. */
  lemma {:induction false} BufferHoldsLines(chunks: seq<Bytes>)
    requires Run(chunks).Some? && forall k :: 0 <= k < |chunks| ==> |chunks[k]| <= MAX_SIZE
    ensures var b := Run(chunks).value;
      Meant(b) && b.lines == Lines(Flatten(b.lines)) && (b.incomplete <==> EndsOpen(Flatten(b.lines)))
  {
    if chunks != [] {
      var before := chunks[..|chunks| - 1];
      BufferHoldsLines(before);
      RunKeepsTheEnd(before);
      AppendMeant(Run(before).value, chunks[|chunks| - 1]);
    }
    LinesOfFlatten(Run(chunks).value.lines);
    LastLineOpen(Flatten(Run(chunks).value.lines));
  }

  /** A chunk with a line feed in it leaves the buffer within both limits, as far as it can count. */
  lemma LimitsHold(b: Buffer, data: Bytes)
    requires NEWLINE in data && Append(b, data).Some?
    ensures |Append(b, data).value.lines| <= 10000 && Append(b, data).value.total <= 0x10_0000
  {
    var g := Grown(b, data);
    assert IndexOf(data) >= 0;
    TrimmedLimits(g.lines, g.total);
  }
}
