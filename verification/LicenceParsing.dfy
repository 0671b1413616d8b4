/** Finding a printed licence in a file name: whatever marker precedes it and however the file was
    renamed, the parser returns the licence that was printed. */
module LicenceParsing {
  import opened Text
  import opened Base64Url
  import opened LicenceName

  /** What may follow the payload: nothing, a `--` comment, or blanks and a parenthesis as added
      by an operating system that renames duplicates. */
  datatype Tail = NoTail | Comment(rest: string) | Renamed(spaces: string, rest: string)

  predicate ValidTail(tail: Tail)
  {
    tail.Renamed? ==> forall i :: 0 <= i < |tail.spaces| ==> IsSpace(tail.spaces[i])
  }

  function TailText(tail: Tail): string
  {
    match tail
    case NoTail => ""
    case Comment(rest) => "--" + rest
    case Renamed(spaces, rest) => spaces + "(" + rest
  }

  predicate TailStart(t: string)
  {
    t == "" || t[0] == '-' || t[0] == '(' || IsSpace(t[0])
  }

  predicate IsMarker(m: string)
  {
    m == "--" || m == MARK1 || m == MARK2 || m == MARK3
  }

  function NameText(p: string, m: string, payload: string, tail: Tail): string
  {
    p + (m + (payload + TailText(tail)))
  }

  predicate IsPattern(pat: string)
  {
    pat == MARK1 || pat == MARK2 || pat == MARK3
  }

  // ---------- Replacement leaves payloads alone ----------

  lemma NotInsidePayload(p: string, t: string, pat: string, i: nat)
    requires PayloadShape(p) && TailStart(t) && IsPattern(pat)
    requires i < |p|
    ensures !OccursAt(p + t, pat, i)
  {
    var s := p + t;
    if OccursAt(s, pat, i) {
      OccursChar(s, pat, i, 0);
      OccursChar(s, pat, i, 9);
      var j := |p| - 1 - i;
      if j < 9 {
        OccursChar(s, pat, i, j);
        OccursChar(s, pat, i, j + 1);
      }
    }
  }

  lemma ReplacePayload(p: string, t: string, pat: string)
    requires PayloadShape(p) && TailStart(t) && IsPattern(pat)
    ensures Replace(p + t, pat, "--") == p + Replace(t, pat, "--")
  {
    forall i | 0 <= i < |p|
      ensures !OccursAt(p + t, pat, i)
    {
      NotInsidePayload(p, t, pat, i);
    }
    ReplaceSkip(p, t, pat, "--");
  }

  /** A marker that is not the pattern, and not longer than it, is copied. */
  lemma NotInsideMarker(m: string, r: string, pat: string, i: nat)
    requires IsMarker(m) && IsPattern(pat) && m != pat && |m| <= |pat|
    requires r != "" && r[0] in {'Q', '0', '9'}
    requires i < |m|
    ensures !OccursAt(m + r, pat, i)
  {
    var s := m + r;
    if OccursAt(s, pat, i) {
      OccursChar(s, pat, i, 0);
      OccursChar(s, pat, i, 1);
      if i == 0 {
        OccursChar(s, pat, 0, |m|);
      }
    }
  }

  /** A prefix that neither holds nor completes a separator, with the dash that follows it. */
  predicate PlainPrefixed(p: string)
  {
    !Contains(p + "-", "--") && !Contains(p + "-", MARK1)
  }

  lemma NoneBeforeDash(p: string, t: string, pat: string, i: nat)
    requires t != "" && t[0] == '-' && pat != "" && !Contains(p + "-", pat) && i + |pat| <= |p| + 1
    ensures !OccursAt(p + t, pat, i)
  {
    if OccursAt(p + t, pat, i) {
      assert (p + "-")[i..i + |pat|] == (p + t)[i..i + |pat|];
      FindFirst(p + "-", pat, i);
    }
  }

  /** No pattern starts inside such a prefix: to reach past the dash it would have to have a dash
      where the patterns have letters. */
  lemma NotInsidePrefix(p: string, t: string, pat: string, i: nat)
    requires PlainPrefixed(p) && t != "" && t[0] == '-' && IsPattern(pat) && i < |p|
    ensures !OccursAt(p + t, pat, i)
  {
    if OccursAt(p + t, pat, i) {
      if i + |MARK1| <= |p| + 1 {
        assert (p + t)[i..i + |MARK1|] == (p + t)[i..i + |pat|][..|MARK1|];
        NoneBeforeDash(p, t, MARK1, i);
      } else {
        OccursChar(p + t, pat, i, |p| - i);
      }
    }
  }

  lemma PrefixCopied(p: string, t: string, pat: string)
    requires PlainPrefixed(p) && t != "" && t[0] == '-' && IsPattern(pat)
    ensures Replace(p + t, pat, "--") == p + Replace(t, pat, "--")
  {
    forall i | 0 <= i < |p|
      ensures !OccursAt(p + t, pat, i)
    {
      NotInsidePrefix(p, t, pat, i);
    }
    ReplaceSkip(p, t, pat, "--");
  }

  lemma MarkerStep(p: string, m: string, r: string, pat: string)
    requires PlainPrefixed(p)
    requires IsMarker(m) && IsPattern(pat) && |m| <= |pat|
    requires r != "" && r[0] in {'Q', '0', '9'}
    ensures Replace(p + (m + r), pat, "--")
         == p + ((if m == pat then "--" else m) + Replace(r, pat, "--"))
  {
    PrefixCopied(p, m + r, pat);
    if m == pat {
      ReplaceHit(r, pat, "--");
    } else {
      forall i | 0 <= i < |m|
        ensures !OccursAt(m + r, pat, i)
      {
        NotInsideMarker(m, r, pat, i);
      }
      ReplaceSkip(m, r, pat, "--");
    }
  }

  lemma CommentStep(rest: string, pat: string) returns (rest': string)
    requires IsPattern(pat)
    ensures Replace("--" + rest, pat, "--") == "--" + rest'
  {
    var t := "-" + ("-" + rest);
    assert t == "--" + rest;
    assert |pat| <= |t| ==> t[0..|pat|][1] == '-';
    ReplaceSkip("-", "-" + rest, pat, "--");
    var u := Replace("-" + rest, pat, "--");
    assert u != "" && u[0] == '-';
    rest' := u[1..];
    assert "-" + u == "--" + rest';
  }

  /** Replacement maps a tail to a tail of the same kind with the same blanks. */
  lemma TailStep(tail: Tail, pat: string) returns (tail': Tail)
    requires ValidTail(tail) && IsPattern(pat)
    ensures ValidTail(tail') && Replace(TailText(tail), pat, "--") == TailText(tail')
    ensures tail.NoTail? == tail'.NoTail? && tail.Comment? == tail'.Comment?
    ensures tail.Renamed? ==> tail'.spaces == tail.spaces
  {
    match tail
    case NoTail =>
      tail' := NoTail;
    case Comment(rest) =>
      var rest' := CommentStep(rest, pat);
      tail' := Comment(rest');
    case Renamed(spaces, rest) =>
      ReplaceSkipPlain(spaces + "(", rest, pat, "--");
      tail' := Renamed(spaces, Replace(rest, pat, "--"));
  }

  lemma TailStarts(tail: Tail)
    requires ValidTail(tail)
    ensures TailStart(TailText(tail))
  {
  }

  /** One replacement pass over a whole name. */
  lemma Pass(p: string, m: string, payload: string, tail: Tail, pat: string) returns (tail': Tail)
    requires PlainPrefixed(p) && IsMarker(m) && PayloadShape(payload) && ValidTail(tail)
    requires IsPattern(pat) && |m| <= |pat|
    ensures ValidTail(tail')
    ensures tail.NoTail? == tail'.NoTail? && tail.Comment? == tail'.Comment?
    ensures tail.Renamed? ==> tail'.spaces == tail.spaces
    ensures Replace(NameText(p, m, payload, tail), pat, "--")
         == p + ((if m == pat then "--" else m) + (payload + TailText(tail')))
  {
    var r := payload + TailText(tail);
    MarkerStep(p, m, r, pat);
    TailStarts(tail);
    ReplacePayload(payload, TailText(tail), pat);
    tail' := TailStep(tail, pat);
  }

  /** All three passes reduce any marker to `--` and keep prefix and payload. */
  lemma Normalised(p: string, m: string, payload: string, tail: Tail) returns (tail': Tail)
    requires PlainPrefixed(p) && IsMarker(m) && PayloadShape(payload) && ValidTail(tail)
    ensures ValidTail(tail')
    ensures tail.NoTail? == tail'.NoTail? && tail.Comment? == tail'.Comment?
    ensures Normalise(NameText(p, m, payload, tail)) == p + ("--" + (payload + TailText(tail')))
  {
    var t1 := Pass(p, m, payload, tail, MARK3);
    var m1 := if m == MARK3 then "--" else m;
    var t2 := Pass(p, m1, payload, t1, MARK2);
    var m2 := if m1 == MARK2 then "--" else m1;
    tail' := Pass(p, m2, payload, t2, MARK1);
  }

  // ---------- Splitting ----------

  /** No `--` starts inside a payload, even at its seam with a tail. */
  lemma NoDoubleDash(payload: string, t: string, i: nat)
    requires PayloadShape(payload) && i < |payload|
    ensures !OccursAt(payload + t, "--", i)
  {
    var s := payload + t;
    if OccursAt(s, "--", i) {
      OccursChar(s, "--", i, 0);
      OccursChar(s, "--", i, 1);
    }
  }

  lemma FindInTail(payload: string, t: string)
    requires PayloadShape(payload)
    ensures Find(payload + t, "--") == if Find(t, "--") < 0 then -1 else |payload| + Find(t, "--")
  {
    forall i | 0 <= i < |payload|
      ensures !OccursAt(payload + t, "--", i)
    {
      NoDoubleDash(payload, t, i);
    }
    FindSkip(payload, t, "--");
  }

  /** The segment after the marker: the payload alone, or the payload with blanks and `(`. */
  lemma PayloadSegment(payload: string, tail: Tail)
    requires PayloadShape(payload) && ValidTail(tail)
    ensures var first := Split(payload + TailText(tail), "--")[0];
      if tail.Renamed? then payload + tail.spaces + "(" <= first else first == payload
  {
    var t := TailText(tail);
    FindInTail(payload, t);
    match tail
    case NoTail =>
      assert payload + t == payload;
    case Comment(rest) =>
      assert StartsWith(t, "--");
    case Renamed(spaces, rest) =>
      FindSkipPlain(spaces + "(", rest, "--");
      assert payload + t == payload + spaces + "(" + rest;
  }

  lemma SplitName(p: string, payload: string, tail: Tail)
    requires PlainPrefixed(p)
    ensures Split(p + ("--" + (payload + TailText(tail))), "--")
         == [p] + Split(payload + TailText(tail), "--")
  {
    var r := payload + TailText(tail);
    forall i | 0 <= i < |p|
      ensures !OccursAt(p + ("--" + r), "--", i)
    {
      NoneBeforeDash(p, "--" + r, "--", i);
    }
    SplitFirst(p, r, "--");
  }

  // ---------- Searching the segments ----------

  lemma ForeignCharacterRejected(libs: Libraries, s: string, c: char)
    requires c in s && !InAlphabet(c)
    ensures FromConfigString(libs, s) == None
  {
    var i :| 0 <= i < |s| && s[i] == c;
    assert Rev(s)[|s| - 1 - i] == c;
  }

  lemma PayloadTrims(payload: string, w: string)
    requires PayloadShape(payload)
    requires forall i :: 0 <= i < |w| ==> IsSpace(w[i])
    ensures Trim(payload + w) == payload
  {
    assert InAlphabet(payload[0]);
    TrimTail(payload, w);
  }

  /** Blanks and a parenthesis after the payload: the whole segment is refused, its first piece
      is the payload. */
  lemma RenamedSegment(libs: Libraries, payload: string, spaces: string, b: string)
    requires PayloadShape(payload)
    requires forall i :: 0 <= i < |spaces| ==> IsSpace(spaces[i])
    ensures var seg := payload + spaces + "(" + b;
      && FromConfigString(libs, Trim(seg)).None?
      && Contains(seg, "(")
      && Split(seg, "(")[0] == payload + spaces
  {
    var a := payload + spaces;
    var seg := a + ("(" + b);
    assert payload + spaces + "(" + b == seg;
    assert seg[|a|] == '(';
    TrimKeeps(seg, |a|);
    ForeignCharacterRejected(libs, Trim(seg), '(');
    assert '(' !in a by {
      assert forall i :: 0 <= i < |payload| ==> InAlphabet(payload[i]);
    }
    SplitFirstPlain(a, b, "(");
    FindSkipPlain(a, "(" + b, "(");
  }

  lemma SegmentYields(libs: Libraries, payload: string, tail: Tail, seg: string, rest: seq<string>)
    requires PayloadShape(payload) && ValidTail(tail)
    requires FromConfigString(libs, payload).Some?
    requires if tail.Renamed? then payload + tail.spaces + "(" <= seg else seg == payload
    ensures FromSegments(libs, [seg] + rest) == FromConfigString(libs, payload)
  {
    if !tail.Renamed? {
      PayloadTrims(payload, "");
      assert payload + "" == payload;
    } else {
      var a := payload + tail.spaces + "(";
      assert seg == a + seg[|a|..];
      RenamedSegment(libs, payload, tail.spaces, seg[|a|..]);
      PayloadTrims(payload, tail.spaces);
    }
  }

  /** A prefix that is skipped: it holds no separator and is no licence itself, neither as a whole
      nor in the pieces between parentheses. */
  predicate SkippedPrefix(libs: Libraries, p: string)
  {
    PlainPrefixed(p) && FromSegments(libs, [p]).None?
  }

  /** For instance any prefix with single dashes and a character such as a dot that no licence
      holds, like a product name with a version. */
  lemma ForeignPrefixSkipped(libs: Libraries, p: string, c: char)
    requires PlainPrefixed(p) && '(' !in p && c in p && !InAlphabet(c) && !IsSpace(c)
    ensures SkippedPrefix(libs, p)
  {
    var i :| 0 <= i < |p| && p[i] == c;
    TrimKeeps(p, i);
    ForeignCharacterRejected(libs, Trim(p), c);
    FindSkipPlain(p, "", "(");
    assert p + "" == p;
  }

  lemma SegmentsAfter(libs: Libraries, p: string, parts: seq<string>)
    requires FromSegments(libs, [p]).None?
    ensures FromSegments(libs, [p] + parts) == FromSegments(libs, parts)
  {
    assert ([p] + parts)[1..] == parts;
  }

  lemma LicensedNameFound(libs: Libraries, p: string, m: string, payload: string, tail: Tail)
    requires SkippedPrefix(libs, p) && IsMarker(m) && PayloadShape(payload) && ValidTail(tail)
    requires FromConfigString(libs, payload).Some?
    ensures FromLicensedName(libs, NameText(p, m, payload, tail)) == FromConfigString(libs, payload)
  {
    var tail' := Normalised(p, m, payload, tail);
    SplitName(p, payload, tail');
    PayloadSegment(payload, tail');
    var parts := Split(payload + TailText(tail'), "--");
    assert [parts[0]] + parts[1..] == parts;
    SegmentYields(libs, payload, tail', parts[0], parts[1..]);
    SegmentsAfter(libs, p, parts);
  }
}
