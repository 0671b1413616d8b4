/** Options, bytes, and the string operations of the source's standard library that the codecs
    below lean on: reversal, ASCII lower-casing, trimming, first match, replacement and splitting. */
module Text {

  datatype Option<+T> = None | Some(value: T)

  type Byte = b: int | 0 <= b < 256

  function Rev<T>(s: seq<T>): (r: seq<T>)
    ensures |r| == |s|
    ensures forall i :: 0 <= i < |s| ==> r[i] == s[|s| - 1 - i]
  {
    if s == [] then [] else Rev(s[1..]) + [s[0]]
  }

  lemma RevInvolution<T>(s: seq<T>)
    ensures Rev(Rev(s)) == s
  {
  }

  predicate IsSuffix<T(==)>(a: seq<T>, b: seq<T>)
  {
    |a| <= |b| && b[|b| - |a|..] == a
  }

  function LowerChar(c: char): (r: char)
  {
    if 'A' <= c <= 'Z' then (c as int + 32) as char else c
  }

  /** `to_lowercase` on ASCII text. */
  function Lower(s: string): (r: string)
    ensures |r| == |s|
    ensures forall i :: 0 <= i < |s| ==> r[i] == LowerChar(s[i])
  {
    seq(|s|, i requires 0 <= i < |s| => LowerChar(s[i]))
  }

  lemma LowerConcat(a: string, b: string)
    ensures Lower(a + b) == Lower(a) + Lower(b)
  {
  }

  predicate IsSpace(c: char)
  {
    c == ' ' || '\t' <= c <= '\r'
  }

  function TrimLeft(s: string): string
  {
    if s != "" && IsSpace(s[0]) then TrimLeft(s[1..]) else s
  }

  function TrimRight(s: string): string
  {
    if s != "" && IsSpace(s[|s| - 1]) then TrimRight(s[..|s| - 1]) else s
  }

  function Trim(s: string): string
  {
    TrimRight(TrimLeft(s))
  }

  predicate StartsWith(s: string, pat: string)
  {
    pat <= s
  }

  /** `pat` occurs in `s` at index `i`. */
  predicate OccursAt(s: string, pat: string, i: int)
  {
    0 <= i && i + |pat| <= |s| && s[i..i + |pat|] == pat
  }

  /** Index of the first occurrence, or -1. */
  function Find(s: string, pat: string): (k: int)
    requires pat != ""
    ensures -1 <= k && (k >= 0 ==> k + |pat| <= |s|)
  {
    if |s| < |pat| then -1
    else if StartsWith(s, pat) then 0
    else
      var k := Find(s[1..], pat);
      if k < 0 then -1 else k + 1
  }

  lemma OccursDrop(a: string, b: string, pat: string, i: nat)
    ensures OccursAt(a + b, pat, |a| + i) <==> OccursAt(b, pat, i)
  {
    if i + |pat| <= |b| {
      assert (a + b)[|a| + i..|a| + i + |pat|] == b[i..i + |pat|];
    }
  }

  lemma OccursStart(s: string, pat: string)
    ensures OccursAt(s, pat, 0) <==> StartsWith(s, pat)
  {
    assert |pat| <= |s| ==> s[0..|pat|] == s[..|pat|];
  }

  lemma {:induction false} FindOccurs(s: string, pat: string)
    requires pat != "" && Find(s, pat) >= 0
    ensures OccursAt(s, pat, Find(s, pat))
  {
    OccursStart(s, pat);
    if !StartsWith(s, pat) {
      FindOccurs(s[1..], pat);
      assert s == s[..1] + s[1..];
      OccursDrop(s[..1], s[1..], pat, Find(s[1..], pat));
    }
  }

  lemma {:induction false} FindFirst(s: string, pat: string, i: nat)
    requires pat != "" && OccursAt(s, pat, i)
    ensures 0 <= Find(s, pat) <= i
  {
    OccursStart(s, pat);
    if !StartsWith(s, pat) {
      assert s == s[..1] + s[1..];
      OccursDrop(s[..1], s[1..], pat, i - 1);
      FindFirst(s[1..], pat, i - 1);
    }
  }

  predicate Contains(s: string, pat: string)
    requires pat != ""
  {
    Find(s, pat) >= 0
  }

  /** `replace`: every leftmost non-overlapping occurrence, scanning once from the left. */
  function Replace(s: string, pat: string, to: string): string
    requires pat != ""
  {
    if |s| < |pat| then s
    else if StartsWith(s, pat) then to + Replace(s[|pat|..], pat, to)
    else [s[0]] + Replace(s[1..], pat, to)
  }

  function Split(s: string, pat: string): (parts: seq<string>)
    requires pat != ""
    ensures parts != []
  {
    var k := Find(s, pat);
    if k < 0 then [s] else [s[..k]] + Split(s[k + |pat|..], pat)
  }

  function Join(parts: seq<string>, sep: string): string
  {
    if parts == [] then ""
    else if |parts| == 1 then parts[0]
    else parts[0] + sep + Join(parts[1..], sep)
  }

  /** No occurrence of `pat` in `a + b` starts inside `a`. */
  predicate NoneStarts(a: string, b: string, pat: string)
  {
    forall i :: 0 <= i < |a| ==> !OccursAt(a + b, pat, i)
  }

  lemma NoneStartsTail(a: string, b: string, pat: string)
    requires a != "" && NoneStarts(a, b, pat)
    ensures (a + b)[1..] == a[1..] + b && !StartsWith(a + b, pat)
    ensures NoneStarts(a[1..], b, pat)
  {
    OccursStart(a + b, pat);
    forall i | 0 <= i < |a[1..]|
      ensures !OccursAt(a[1..] + b, pat, i)
    {
      assert a + b == a[..1] + (a[1..] + b);
      OccursDrop(a[..1], a[1..] + b, pat, i);
      assert !OccursAt(a + b, pat, i + 1);
    }
  }

  /** The first occurrence in `a + b`, when none starts inside `a`. */
  lemma {:induction false} FindSkip(a: string, b: string, pat: string)
    requires pat != "" && NoneStarts(a, b, pat)
    ensures Find(a + b, pat) == if Find(b, pat) < 0 then -1 else |a| + Find(b, pat)
    decreases |a|
  {
    if a == "" {
      assert a + b == b;
    } else {
      NoneStartsTail(a, b, pat);
      FindSkip(a[1..], b, pat);
    }
  }

  /** Replacement copies a prefix inside which no occurrence starts. */
  lemma {:induction false} ReplaceSkip(a: string, b: string, pat: string, to: string)
    requires pat != "" && NoneStarts(a, b, pat)
    ensures Replace(a + b, pat, to) == a + Replace(b, pat, to)
    decreases |a|
  {
    if a == "" {
      assert a + b == b;
    } else if |pat| <= |a + b| {
      NoneStartsTail(a, b, pat);
      ReplaceSkip(a[1..], b, pat, to);
      assert [a[0]] + (a[1..] + Replace(b, pat, to)) == a + Replace(b, pat, to);
    }
  }

  /** A prefix without the pattern's first character. */
  lemma PlainPrefix(a: string, b: string, pat: string)
    requires pat != "" && pat[0] !in a
    ensures NoneStarts(a, b, pat)
  {
    forall i | 0 <= i < |a|
      ensures !OccursAt(a + b, pat, i)
    {
      NoStart(a + b, pat, i);
    }
  }

  lemma ReplaceSkipPlain(a: string, b: string, pat: string, to: string)
    requires pat != "" && pat[0] !in a
    ensures Replace(a + b, pat, to) == a + Replace(b, pat, to)
  {
    PlainPrefix(a, b, pat);
    ReplaceSkip(a, b, pat, to);
  }

  lemma FindSkipPlain(a: string, b: string, pat: string)
    requires pat != "" && pat[0] !in a
    ensures Find(a + b, pat) == if Find(b, pat) < 0 then -1 else |a| + Find(b, pat)
  {
    PlainPrefix(a, b, pat);
    FindSkip(a, b, pat);
  }

  lemma ReplaceHit(b: string, pat: string, to: string)
    requires pat != ""
    ensures Replace(pat + b, pat, to) == to + Replace(b, pat, to)
  {
    assert (pat + b)[|pat|..] == b;
  }

  /** No occurrence can start at a character other than the pattern's first one. */
  lemma NoStart(s: string, pat: string, i: int)
    requires pat != ""
    requires 0 <= i < |s| && s[i] != pat[0]
    ensures !OccursAt(s, pat, i)
  {
    assert i + |pat| <= |s| ==> s[i..i + |pat|][0] == s[i];
  }

  /** What an occurrence says about single characters. */
  lemma OccursChar(s: string, pat: string, i: int, j: int)
    requires OccursAt(s, pat, i) && 0 <= j < |pat|
    ensures s[i + j] == pat[j]
  {
    assert s[i + j] == s[i..i + |pat|][j];
  }

  lemma {:induction false} SplitFirst(a: string, b: string, pat: string)
    requires pat != "" && NoneStarts(a, pat + b, pat)
    ensures Split(a + (pat + b), pat) == [a] + Split(b, pat)
  {
    var s := a + (pat + b);
    FindSkip(a, pat + b, pat);
    assert Find(s, pat) == |a|;
    assert s[..|a|] == a && s[|a| + |pat|..] == b;
  }

  lemma SplitFirstPlain(a: string, b: string, pat: string)
    requires pat != "" && pat[0] !in a
    ensures Split(a + (pat + b), pat) == [a] + Split(b, pat)
  {
    PlainPrefix(a, pat + b, pat);
    SplitFirst(a, b, pat);
  }

  /** Splitting on one character undoes joining with it. */
  lemma {:induction false} SplitJoin(parts: seq<string>, c: char)
    requires parts != []
    requires forall i :: 0 <= i < |parts| ==> c !in parts[i]
    ensures Split(Join(parts, [c]), [c]) == parts
  {
    if |parts| == 1 {
      FindSkipPlain(parts[0], "", [c]);
      assert parts[0] + "" == parts[0];
    } else {
      var rest := Join(parts[1..], [c]);
      SplitJoin(parts[1..], c);
      SplitFirstPlain(parts[0], rest, [c]);
      assert parts[0] + ([c] + rest) == Join(parts, [c]);
      assert [parts[0]] + parts[1..] == parts;
    }
  }

  /** Trimming removes exactly a run of spaces after text that neither starts nor ends with one. */
  lemma {:induction false} TrimTail(s: string, w: string)
    requires s != "" ==> !IsSpace(s[0]) && !IsSpace(s[|s| - 1])
    requires forall i :: 0 <= i < |w| ==> IsSpace(w[i])
    requires s != "" || w == ""
    ensures Trim(s + w) == s
    decreases |w|
  {
    if w == "" {
      assert s + w == s;
    } else {
      var w' := w[..|w| - 1];
      TrimTail(s, w');
      assert (s + w)[..|s + w| - 1] == s + w';
      assert TrimLeft(s + w) == s + w && TrimLeft(s + w') == s + w';
    }
  }

  /** Trimming removes the spaces on both sides and nothing else. */
  lemma {:induction false} TrimBoth(v: string, s: string, w: string)
    requires s != "" && !IsSpace(s[0]) && !IsSpace(s[|s| - 1])
    requires forall i :: 0 <= i < |v| ==> IsSpace(v[i])
    requires forall i :: 0 <= i < |w| ==> IsSpace(w[i])
    ensures Trim(v + (s + w)) == s
  {
    if v == "" {
      assert v + (s + w) == s + w;
      TrimTail(s, w);
    } else {
      TrimBoth(v[1..], s, w);
      assert (v + (s + w))[1..] == v[1..] + (s + w);
    }
  }

  /** A character that is not a space survives trimming. */
  lemma {:induction false} TrimKeeps(s: string, i: nat)
    requires i < |s| && !IsSpace(s[i])
    ensures s[i] in Trim(s)
  {
    var j := TrimLeftKeeps(s, i);
    TrimRightKeeps(TrimLeft(s), j);
  }

  lemma {:induction false} TrimLeftKeeps(s: string, i: nat) returns (j: nat)
    requires i < |s| && !IsSpace(s[i])
    ensures j < |TrimLeft(s)| && TrimLeft(s)[j] == s[i]
  {
    if IsSpace(s[0]) {
      j := TrimLeftKeeps(s[1..], i - 1);
    } else {
      j := i;
    }
  }

  lemma {:induction false} TrimRightKeeps(s: string, i: nat)
    requires i < |s| && !IsSpace(s[i])
    ensures s[i] in TrimRight(s)
    decreases |s|
  {
    if IsSpace(s[|s| - 1]) {
      TrimRightKeeps(s[..|s| - 1], i);
    }
  }

  // ---------- What the words mean ----------

  /** Only the capital letters change, each to its small one. */
  lemma LowerLetters(c: char, k: nat)
    requires k < 26
    ensures LowerChar((65 + k) as char) == (97 + k) as char
    ensures !(65 <= c as int < 91) ==> LowerChar(c) == c
  {
  }

  /** Blank, tab, line feed, vertical tab, form feed and carriage return. */
  lemma SpaceCharacters(c: char)
    ensures IsSpace(c) <==> c as int in {9, 10, 11, 12, 13, 32}
  {
  }

  lemma ContainsIff(s: string, pat: string)
    requires pat != ""
    ensures Contains(s, pat) <==> exists i :: OccursAt(s, pat, i)
  {
    if Contains(s, pat) {
      FindOccurs(s, pat);
    }
    if i :| OccursAt(s, pat, i) {
      FindFirst(s, pat, i);
    }
  }

  lemma SuffixIff<T>(a: seq<T>, b: seq<T>)
    ensures IsSuffix(a, b) <==> exists x :: b == x + a
  {
    if IsSuffix(a, b) {
      assert b == b[..|b| - |a|] + a;
    }
    if x :| b == x + a {
      assert b[|b| - |a|..] == a;
    }
  }
}
