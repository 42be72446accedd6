/**
  String handling the service relies on: whitespace splitting and joining
  (`' '.join(s.split())`), lower-casing and stripping.

  Whitespace is the ASCII part of what Python's `str.isspace` accepts, and
  lower-casing maps only `A`..`Z`; the rest of Unicode is not modelled.
 */
module Text {

  /** A character Python's `str.split()` and `str.strip()` treat as whitespace. */
  predicate IsSpace(c: char) {
    c == ' ' || (0x09 <= c as int <= 0x0D) || (0x1C <= c as int <= 0x1F)
  }

  /** Empty or all whitespace: what `s.strip()` reduces to nothing. */
  predicate IsBlank(s: string) {
    forall k :: 0 <= k < |s| ==> IsSpace(s[k])
  }

  /** Lower-case one character (ASCII letters only). */
  function LowerChar(c: char): (d: char)
    ensures IsSpace(d) <==> IsSpace(c)
    ensures IsSpace(c) ==> d == c
    ensures !('A' <= d <= 'Z')
  {
    if 'A' <= c <= 'Z' then (c as int + 32) as char else c
  }

  /** `s.lower()`. */
  function Lower(s: string): (r: string)
    ensures |r| == |s|
    ensures forall i :: 0 <= i < |s| ==> r[i] == LowerChar(s[i])
  {
    seq(|s|, i requires 0 <= i < |s| => LowerChar(s[i]))
  }

  predicate IsLower(s: string) {
    forall i :: 0 <= i < |s| ==> !('A' <= s[i] <= 'Z')
  }

  /** Lower-casing leaves a lower-case string; in particular it is idempotent. */
  lemma LowerIsLower(s: string)
    ensures IsLower(Lower(s))
    ensures IsLower(s) ==> Lower(s) == s
  {
  }

  /** `s.lstrip()`: drops exactly the longest all-whitespace prefix. */
  function TrimLeft(s: string): (r: string)
    ensures |r| <= |s| && r == s[|s| - |r|..]
    ensures forall k :: 0 <= k < |s| - |r| ==> IsSpace(s[k])
    ensures |r| > 0 ==> !IsSpace(r[0])
  {
    if |s| > 0 && IsSpace(s[0]) then TrimLeft(s[1..]) else s
  }

  /** `s.rstrip()`: drops exactly the longest all-whitespace suffix. */
  function TrimRight(s: string): (r: string)
    ensures |r| <= |s| && r == s[..|r|]
    ensures forall k :: |r| <= k < |s| ==> IsSpace(s[k])
    ensures |r| > 0 ==> !IsSpace(r[|r| - 1])
  {
    if |s| > 0 && IsSpace(s[|s| - 1]) then TrimRight(s[..|s| - 1]) else s
  }

  /** `r` is `s` with `i` whitespace characters cut from the front and the rest of the cut from the back. */
  predicate SliceBetweenSpaces(s: string, r: string, i: int) {
    0 <= i <= |s| - |r| && r == s[i..i + |r|]
    && (forall k :: 0 <= k < i ==> IsSpace(s[k]))
    && (forall k :: i + |r| <= k < |s| ==> IsSpace(s[k]))
  }

  /** Trimming whitespace from the front and then from the back leaves a slice between spaces. */
  lemma TrimmedSlice(s: string, t: string, r: string)
    requires |t| <= |s| && t == s[|s| - |t|..]
    requires forall k :: 0 <= k < |s| - |t| ==> IsSpace(s[k])
    requires |r| <= |t| && r == t[..|r|]
    requires forall k :: |r| <= k < |t| ==> IsSpace(t[k])
    ensures SliceBetweenSpaces(s, r, |s| - |t|)
  {
    var i := |s| - |t|;
    assert r == s[i..i + |r|];
    forall k | i + |r| <= k < |s|
      ensures IsSpace(s[k])
    {
      assert s[k] == t[k - i];
    }
  }

  /** `s.strip()`: the slice of `s` left after removing whitespace at both ends. */
  function Strip(s: string): (r: string)
    ensures |r| > 0 ==> !IsSpace(r[0]) && !IsSpace(r[|r| - 1])
    ensures exists i :: SliceBetweenSpaces(s, r, i)
  {
    var t := TrimLeft(s);
    var r := TrimRight(t);
    TrimmedSlice(s, t, r);
    r
  }

  /** A string strips to nothing exactly when it is all whitespace. */
  lemma StripEmptyIff(s: string)
    ensures Strip(s) == [] <==> IsBlank(s)
  {
    if Strip(s) != [] {
      var r := Strip(s);
      var i :| SliceBetweenSpaces(s, r, i);
      assert s[i] == r[0];
    }
  }

  /** Stripping a string with no whitespace at either end changes nothing. */
  lemma StripNoEdges(s: string)
    requires |s| > 0 ==> !IsSpace(s[0]) && !IsSpace(s[|s| - 1])
    ensures Strip(s) == s
  {
    assert TrimLeft(s) == s;
    assert TrimRight(s) == s;
  }

  /** A non-empty run of non-whitespace characters: one item of `s.split()`. */
  predicate IsWord(w: string) {
    |w| > 0 && forall k :: 0 <= k < |w| ==> !IsSpace(w[k])
  }

  /** Length of the leading run of non-whitespace characters of `s`. */
  function WordLength(s: string): (n: nat)
    ensures n <= |s|
    ensures forall k :: 0 <= k < n ==> !IsSpace(s[k])
    ensures n < |s| ==> IsSpace(s[n])
  {
    if |s| == 0 || IsSpace(s[0]) then 0 else 1 + WordLength(s[1..])
  }

  /** `s.split()` with no separator: the maximal whitespace-free runs, in order. */
  function Split(s: string): seq<string>
    decreases |s|
  {
    var t := TrimLeft(s);
    if |t| == 0 then []
    else
      var n := WordLength(t);
      [t[..n]] + Split(t[n..])
  }

  /** Every item `Split` returns is a non-empty, whitespace-free word. */
  lemma {:induction false} SplitGivesWords(s: string)
    ensures forall k :: 0 <= k < |Split(s)| ==> IsWord(Split(s)[k])
    decreases |s|
  {
    var t := TrimLeft(s);
    if |t| > 0 {
      var n := WordLength(t);
      SplitGivesWords(t[n..]);
    }
  }

  /** `' '.join(ws)`. */
  function Join(ws: seq<string>): string {
    if |ws| == 0 then []
    else if |ws| == 1 then ws[0]
    else ws[0] + " " + Join(ws[1..])
  }

  /** `' '.join(s.split())`: whitespace runs collapsed to one space, ends trimmed. */
  function Collapse(s: string): string {
    Join(Split(s))
  }

  /**
    The shape `Collapse` produces: every whitespace character is a plain
    space that is neither first nor last, and no two whitespace characters
    are adjacent.
   */
  predicate IsCollapsed(s: string) {
    && (forall k :: 0 <= k < |s| && IsSpace(s[k]) ==> s[k] == ' ' && 0 < k < |s| - 1)
    && (forall i, j :: 0 <= i < j < |s| && IsSpace(s[i]) && IsSpace(s[j]) ==> i + 1 < j)
  }

  /** The non-whitespace characters of `s`, in order. */
  function NonSpace(s: string): string {
    if |s| == 0 then []
    else (if IsSpace(s[0]) then [] else [s[0]]) + NonSpace(s[1..])
  }

  function Concat(ws: seq<string>): string {
    if |ws| == 0 then [] else ws[0] + Concat(ws[1..])
  }

  lemma {:induction false} NonSpaceAppend(a: string, b: string)
    ensures NonSpace(a + b) == NonSpace(a) + NonSpace(b)
  {
    if |a| == 0 {
      assert a + b == b;
    } else {
      assert (a + b)[1..] == a[1..] + b;
      NonSpaceAppend(a[1..], b);
    }
  }

  lemma {:induction false} NonSpaceOfSpaces(s: string)
    requires IsBlank(s)
    ensures NonSpace(s) == []
  {
    if |s| > 0 {
      NonSpaceOfSpaces(s[1..]);
    }
  }

  lemma {:induction false} NonSpaceOfWord(w: string)
    requires forall k :: 0 <= k < |w| ==> !IsSpace(w[k])
    ensures NonSpace(w) == w
  {
    if |w| > 0 {
      NonSpaceOfWord(w[1..]);
    }
  }

  /** Leading whitespace contributes nothing to `NonSpace`. */
  lemma NonSpaceAfterSpaces(s: string, i: nat)
    requires i <= |s| && forall k :: 0 <= k < i ==> IsSpace(s[k])
    ensures NonSpace(s) == NonSpace(s[i..])
  {
    assert s == s[..i] + s[i..];
    NonSpaceAppend(s[..i], s[i..]);
    NonSpaceOfSpaces(s[..i]);
  }

  /** A leading whitespace-free run is kept whole by `NonSpace`. */
  lemma NonSpaceWordFirst(t: string, n: nat)
    requires n <= |t| && forall k :: 0 <= k < n ==> !IsSpace(t[k])
    ensures NonSpace(t) == t[..n] + NonSpace(t[n..])
  {
    assert t == t[..n] + t[n..];
    NonSpaceAppend(t[..n], t[n..]);
    NonSpaceOfWord(t[..n]);
  }

  lemma ConcatCons(w: string, ws: seq<string>)
    ensures Concat([w] + ws) == w + Concat(ws)
  {
    assert ([w] + ws)[1..] == ws;
  }

  /** Splitting keeps every non-whitespace character, in order, and nothing else. */
  lemma {:induction false} SplitKeepsText(s: string)
    ensures Concat(Split(s)) == NonSpace(s)
    decreases |s|
  {
    var t := TrimLeft(s);
    NonSpaceAfterSpaces(s, |s| - |t|);
    if |t| > 0 {
      var n := WordLength(t);
      NonSpaceWordFirst(t, n);
      SplitKeepsText(t[n..]);
      ConcatCons(t[..n], Split(t[n..]));
    }
  }

  /** Joining words with single spaces keeps exactly the words' characters. */
  lemma {:induction false} JoinKeepsText(ws: seq<string>)
    requires forall k :: 0 <= k < |ws| ==> IsWord(ws[k])
    ensures NonSpace(Join(ws)) == Concat(ws)
  {
    if |ws| == 1 {
      NonSpaceOfWord(ws[0]);
      assert Concat(ws) == ws[0] + Concat([]);
    } else if |ws| > 1 {
      NonSpaceOfWord(ws[0]);
      NonSpaceAppend(ws[0] + " ", Join(ws[1..]));
      NonSpaceAppend(ws[0], " ");
      JoinKeepsText(ws[1..]);
    }
  }

  /** Joining non-empty whitespace-free words with single spaces gives a collapsed string. */
  lemma {:induction false} JoinIsCollapsed(ws: seq<string>)
    requires forall k :: 0 <= k < |ws| ==> IsWord(ws[k])
    ensures IsCollapsed(Join(ws))
    ensures |ws| > 0 ==> |Join(ws)| > 0 && !IsSpace(Join(ws)[0])
  {
    if |ws| > 1 {
      JoinIsCollapsed(ws[1..]);
      var w := ws[0];
      var rest := Join(ws[1..]);
      var s := w + " " + rest;
      forall k | 0 <= k < |s| && IsSpace(s[k])
        ensures s[k] == ' ' && 0 < k < |s| - 1
      {
        if k > |w| {
          assert s[k] == rest[k - |w| - 1];
        }
      }
      forall i, j | 0 <= i < j < |s| && IsSpace(s[i]) && IsSpace(s[j])
        ensures i + 1 < j
      {
        if j > |w| + 1 {
          assert s[j] == rest[j - |w| - 1];
          if i > |w| {
            assert s[i] == rest[i - |w| - 1];
          }
        }
      }
    }
  }

  /** `Collapse` produces a collapsed string holding the same non-whitespace characters. */
  lemma CollapseSpec(s: string)
    ensures IsCollapsed(Collapse(s))
    ensures NonSpace(Collapse(s)) == NonSpace(s)
    ensures Split(Collapse(s)) == Split(s)
  {
    CollapseKeepsWords(s);
    SplitGivesWords(s);
    JoinIsCollapsed(Split(s));
    JoinKeepsText(Split(s));
    SplitKeepsText(s);
  }

  /** The text after the first space of a collapsed string is itself collapsed. */
  lemma CollapsedTail(s: string, n: nat)
    requires IsCollapsed(s) && n < |s| && IsSpace(s[n])
    ensures n + 1 < |s| && !IsSpace(s[n + 1])
    ensures IsCollapsed(s[n + 1..])
  {
    var rest := s[n + 1..];
    forall k | 0 <= k < |rest| && IsSpace(rest[k])
      ensures rest[k] == ' ' && 0 < k < |rest| - 1
    {
      assert rest[k] == s[n + 1 + k];
    }
    forall i, j | 0 <= i < j < |rest| && IsSpace(rest[i]) && IsSpace(rest[j])
      ensures i + 1 < j
    {
      assert rest[i] == s[n + 1 + i];
      assert rest[j] == s[n + 1 + j];
    }
  }

  /** From a non-whitespace character, `Split` takes the leading word first. */
  lemma SplitAtWord(s: string)
    requires |s| > 0 && !IsSpace(s[0])
    ensures Split(s) == [s[..WordLength(s)]] + Split(s[WordLength(s)..])
  {
    assert TrimLeft(s) == s;
  }

  /** Whitespace in front of a word does not change what `Split` returns. */
  lemma SplitSkipsSpace(s: string)
    requires |s| > 1 && IsSpace(s[0]) && !IsSpace(s[1])
    ensures Split(s) == Split(s[1..])
  {
    assert TrimLeft(s[1..]) == s[1..];
    assert TrimLeft(s) == s[1..];
  }

  /** A collapsed string made of one word splits into just that word. */
  lemma SplitCollapsedWord(s: string)
    requires |s| > 0 && !IsSpace(s[0]) && WordLength(s) == |s|
    ensures Split(s) == [s]
  {
    SplitAtWord(s);
    assert s[..|s|] == s;
    assert Split(s[|s|..]) == [];
  }

  /** A word followed by a single whitespace character: `Split` takes the word and continues after it. */
  lemma SplitWordThenSpace(s: string, n: nat)
    requires |s| > 0 && !IsSpace(s[0]) && n == WordLength(s)
    requires n + 1 < |s| && !IsSpace(s[n + 1])
    ensures Split(s) == [s[..n]] + Split(s[n + 1..])
  {
    SplitAtWord(s);
    SplitSkipsSpace(s[n..]);
    assert s[n..][1..] == s[n + 1..];
  }

  /** Whitespace in front of the text does not change what `TrimLeft` returns. */
  lemma {:induction false} TrimLeftSkip(s: string, i: nat)
    requires i <= |s| && forall k :: 0 <= k < i ==> IsSpace(s[k])
    ensures TrimLeft(s) == TrimLeft(s[i..])
  {
    if i > 0 {
      TrimLeftSkip(s[1..], i - 1);
      assert s[1..][i - 1..] == s[i..];
    }
  }

  /** Whitespace in front of the text does not change what `Split` returns. */
  lemma SplitSkip(s: string, i: nat)
    requires i <= |s| && forall k :: 0 <= k < i ==> IsSpace(s[k])
    ensures Split(s) == Split(s[i..])
  {
    TrimLeftSkip(s, i);
  }

  /** `WordLength` is the position of the first whitespace character, or the length. */
  lemma {:induction false} WordLengthIs(s: string, n: nat)
    requires n <= |s| && (forall k :: 0 <= k < n ==> !IsSpace(s[k]))
    requires n < |s| ==> IsSpace(s[n])
    ensures WordLength(s) == n
  {
    if n > 0 {
      WordLengthIs(s[1..], n - 1);
    }
  }

  /** A word of length `n` at the very start: `Split` returns it first. */
  lemma SplitWordOfLength(t: string, n: nat)
    requires 0 < n <= |t|
    requires forall k :: 0 <= k < n ==> !IsSpace(t[k])
    requires n < |t| ==> IsSpace(t[n])
    ensures Split(t) == [t[..n]] + Split(t[n..])
  {
    WordLengthIs(t, n);
    SplitAtWord(t);
  }

  lemma SplitRebase(s: string, i: nat, n: nat)
    requires i + n <= |s|
    requires Split(s[i..]) == [s[i..][..n]] + Split(s[i..][n..])
    ensures Split(s[i..]) == [s[i..i + n]] + Split(s[i + n..])
  {
    assert s[i..][..n] == s[i..i + n];
    assert s[i..][n..] == s[i + n..];
  }

  /** A word of length `n` starting at position `i`: splitting from there returns it first. */
  lemma SplitWordAt(s: string, i: nat, n: nat)
    requires i + n <= |s| && n > 0
    requires forall k :: i <= k < i + n ==> !IsSpace(s[k])
    requires i + n < |s| ==> IsSpace(s[i + n])
    ensures Split(s[i..]) == [s[i..i + n]] + Split(s[i + n..])
  {
    var t := s[i..];
    forall k | 0 <= k < n
      ensures !IsSpace(t[k])
    {
      assert t[k] == s[i + k];
    }
    if n < |t| {
      assert t[n] == s[i + n];
    }
    SplitWordOfLength(t, n);
    SplitRebase(s, i, n);
  }

  /** After `i` whitespace characters comes a word of length `n`: `Split` returns it first. */
  lemma SplitNextWord(s: string, i: nat, n: nat)
    requires i + n <= |s| && n > 0
    requires forall k :: 0 <= k < i ==> IsSpace(s[k])
    requires forall k :: i <= k < i + n ==> !IsSpace(s[k])
    requires i + n < |s| ==> IsSpace(s[i + n])
    ensures Split(s) == [s[i..i + n]] + Split(s[i + n..])
  {
    SplitSkip(s, i);
    SplitWordAt(s, i, n);
  }

  /** A collapsed string starts with a non-whitespace character, and its first whitespace is a plain space. */
  lemma CollapsedEdges(s: string, n: nat)
    requires IsCollapsed(s) && |s| > 0 && n < |s| && IsSpace(s[n])
    ensures !IsSpace(s[0]) && s[n] == ' '
  {
  }

  lemma SplitAround(s: string, n: nat)
    requires n < |s|
    ensures s == s[..n] + [s[n]] + s[n + 1..]
  {
  }

  /** On a collapsed string, `Split` takes the first word and continues after the single space. */
  lemma SplitCollapsedStep(s: string, n: nat)
    requires IsCollapsed(s) && |s| > 0 && n == WordLength(s) && n < |s|
    ensures n + 1 < |s| && IsCollapsed(s[n + 1..])
    ensures Split(s) == [s[..n]] + Split(s[n + 1..])
    ensures s == s[..n] + " " + s[n + 1..]
  {
    CollapsedTail(s, n);
    CollapsedEdges(s, n);
    SplitWordThenSpace(s, n);
    SplitAround(s, n);
  }

  /** A collapsed string is left unchanged by `Collapse`. */
  lemma {:induction false} CollapseFixesCollapsed(s: string)
    requires IsCollapsed(s)
    ensures Collapse(s) == s
    ensures |s| > 0 ==> |Split(s)| > 0
    decreases |s|
  {
    if |s| > 0 {
      var n := WordLength(s);
      if n == |s| {
        SplitCollapsedWord(s);
      } else {
        SplitCollapsedStep(s, n);
        var rest := s[n + 1..];
        CollapseFixesCollapsed(rest);
        var ws := Split(rest);
        assert ([s[..n]] + ws)[1..] == ws;
      }
    }
  }

  /** `' '.join(s.split())` is idempotent. */
  lemma CollapseIdempotent(s: string)
    ensures Collapse(Collapse(s)) == Collapse(s)
  {
    CollapseSpec(s);
    CollapseFixesCollapsed(Collapse(s));
  }

  /** `seps[0] + ws[0] + seps[1] + ... + ws[n-1] + seps[n]`. */
  function Interleave(seps: seq<string>, ws: seq<string>): string
    requires |seps| == |ws| + 1
    decreases |ws|
  {
    if |ws| == 0 then seps[0] else seps[0] + ws[0] + Interleave(seps[1..], ws[1..])
  }

  /**
    `ws` are the maximal whitespace-free runs of `s`: `s` is the words
    interleaved with whitespace separators, and the separators between two
    words are not empty.
   */
  predicate RunsOf(s: string, seps: seq<string>, ws: seq<string>) {
    && |seps| == |ws| + 1
    && (forall k :: 0 <= k < |ws| ==> IsWord(ws[k]))
    && (forall k :: 0 <= k < |seps| ==> IsBlank(seps[k]))
    && (forall k :: 0 < k < |ws| ==> |seps[k]| > 0)
    && Interleave(seps, ws) == s
  }

  /** Dropping the first separator and word of a decomposition leaves a decomposition of the rest. */
  lemma RunsOfTail(s: string, seps: seq<string>, ws: seq<string>)
    requires RunsOf(s, seps, ws) && |ws| > 0
    ensures RunsOf(Interleave(seps[1..], ws[1..]), seps[1..], ws[1..])
    ensures s == seps[0] + ws[0] + Interleave(seps[1..], ws[1..])
  {
    var ss, ww := seps[1..], ws[1..];
    forall k | 0 <= k < |ww|
      ensures IsWord(ww[k])
    {
      assert ww[k] == ws[k + 1];
    }
    forall k | 0 <= k < |ss|
      ensures IsBlank(ss[k])
    {
      assert ss[k] == seps[k + 1];
    }
    forall k | 0 < k < |ww|
      ensures |ss[k]| > 0
    {
      assert ss[k] == seps[k + 1];
    }
  }

  /** The rest after a word starts with whitespace, unless it is empty. */
  lemma RunsAfterWord(u: string, seps: seq<string>, ws: seq<string>)
    requires RunsOf(u, seps, ws) && |u| > 0
    requires |ws| > 0 ==> |seps[0]| > 0
    ensures IsSpace(u[0])
  {
    if |ws| == 0 {
      assert u == seps[0];
    } else {
      assert u == seps[0] + (ws[0] + Interleave(seps[1..], ws[1..]));
      assert u[0] == seps[0][0];
    }
  }

  /** A whitespace-only string has no words. */
  lemma SplitBlank(s: string)
    requires IsBlank(s)
    ensures Split(s) == []
  {
    SplitSkip(s, |s|);
    assert TrimLeft(s[|s|..]) == [];
  }

  /** Where the first word of a decomposition sits: after the first separator, and followed by whitespace or the end. */
  lemma RunsFirstWord(s: string, seps: seq<string>, ws: seq<string>)
    requires RunsOf(s, seps, ws) && |ws| > 0
    ensures var i, n := |seps[0]|, |ws[0]|;
      && 0 < n && i + n <= |s|
      && (forall k :: 0 <= k < i ==> IsSpace(s[k]))
      && (forall k :: i <= k < i + n ==> !IsSpace(s[k]))
      && (i + n < |s| ==> IsSpace(s[i + n]))
      && s[i..i + n] == ws[0]
      && RunsOf(s[i + n..], seps[1..], ws[1..])
  {
    RunsOfTail(s, seps, ws);
    var rest := Interleave(seps[1..], ws[1..]);
    var i, n := |seps[0]|, |ws[0]|;
    forall k | 0 <= k < i
      ensures IsSpace(s[k])
    {
      assert s[k] == seps[0][k];
    }
    forall k | i <= k < i + n
      ensures !IsSpace(s[k])
    {
      assert s[k] == ws[0][k - i];
    }
    assert s[i + n..] == rest;
    if |rest| > 0 {
      RunsAfterWord(rest, seps[1..], ws[1..]);
      assert s[i + n] == rest[0];
    }
  }

  lemma ConsEq(a: seq<string>, w: string, rest: seq<string>, ws: seq<string>)
    requires |ws| > 0 && a == [w] + rest && w == ws[0] && rest == ws[1..]
    ensures a == ws
  {
    assert ws == [ws[0]] + ws[1..];
  }

  /** One step of `Split` over a decomposition: it returns the first word, then splits the rest. */
  lemma SplitRunsStep(s: string, seps: seq<string>, ws: seq<string>)
    requires RunsOf(s, seps, ws) && |ws| > 0
    ensures |seps[0]| + |ws[0]| <= |s|
    ensures Split(s) == [ws[0]] + Split(s[|seps[0]| + |ws[0]|..])
    ensures RunsOf(s[|seps[0]| + |ws[0]|..], seps[1..], ws[1..])
  {
    RunsFirstWord(s, seps, ws);
    SplitNextWord(s, |seps[0]|, |ws[0]|);
  }

  /** Any decomposition into maximal runs is the one `Split` returns. */
  lemma {:induction false} RunsAreSplit(s: string, seps: seq<string>, ws: seq<string>)
    requires RunsOf(s, seps, ws)
    ensures Split(s) == ws
    decreases |ws|
  {
    if |ws| == 0 {
      SplitBlank(s);
    } else {
      SplitRunsStep(s, seps, ws);
      var rest := s[|seps[0]| + |ws[0]|..];
      RunsAreSplit(rest, seps[1..], ws[1..]);
      ConsEq(Split(s), ws[0], Split(rest), ws);
    }
  }

  /** The first character of a decomposition with a word comes from the first separator, or else from the first word. */
  lemma RunsHead(u: string, seps: seq<string>, ws: seq<string>)
    requires RunsOf(u, seps, ws) && |ws| > 0
    ensures |u| > 0 && u[0] == (if |seps[0]| > 0 then seps[0][0] else ws[0][0])
  {
    RunsOfTail(u, seps, ws);
    var rest := Interleave(seps[1..], ws[1..]);
    if |seps[0]| > 0 {
      assert u == seps[0] + (ws[0] + rest);
    } else {
      assert u == ws[0] + rest;
    }
  }

  /** Adding a whitespace separator and a word in front of a decomposition gives a decomposition. */
  lemma RunsCons(sep: string, w: string, u: string, ss: seq<string>, ws: seq<string>)
    requires IsBlank(sep) && IsWord(w) && RunsOf(u, ss, ws)
    requires |ws| > 0 ==> |ss[0]| > 0
    ensures RunsOf(sep + w + u, [sep] + ss, [w] + ws)
  {
    var seps, words := [sep] + ss, [w] + ws;
    assert seps[1..] == ss && words[1..] == ws;
    forall k | 0 <= k < |words|
      ensures IsWord(words[k])
    {
      if k > 0 { assert words[k] == ws[k - 1]; }
    }
    forall k | 0 <= k < |seps|
      ensures IsBlank(seps[k])
    {
      if k > 0 { assert seps[k] == ss[k - 1]; }
    }
    forall k | 0 < k < |words|
      ensures |seps[k]| > 0
    {
      assert seps[k] == ss[k - 1];
    }
  }

  /** One step of `Split`: leading whitespace, the first word, and the rest. */
  lemma SplitFirst(s: string, i: nat, n: nat)
    requires |TrimLeft(s)| > 0 && i == |s| - |TrimLeft(s)| && n == WordLength(TrimLeft(s))
    ensures 0 < n && i + n <= |s|
    ensures IsBlank(s[..i]) && IsWord(s[i..i + n])
    ensures s == s[..i] + s[i..i + n] + s[i + n..]
    ensures Split(s) == [s[i..i + n]] + Split(s[i + n..])
    ensures |s[i + n..]| > 0 ==> IsSpace(s[i + n..][0])
    ensures |s[i + n..]| == 0 ==> Split(s[i + n..]) == []
  {
    TrimLeftWord(s, i, n);
    SplitNextWord(s, i, n);
    SplitFirstShape(s, i, n);
    if i + n < |s| {
      assert s[i + n..][0] == s[i + n];
    } else {
      SplitBlank(s[i + n..]);
    }
  }

  /** Where the first word sits after the leading whitespace. */
  lemma TrimLeftWord(s: string, i: nat, n: nat)
    requires |TrimLeft(s)| > 0 && i == |s| - |TrimLeft(s)| && n == WordLength(TrimLeft(s))
    ensures 0 < n && i + n <= |s|
    ensures forall k :: 0 <= k < i ==> IsSpace(s[k])
    ensures forall k :: i <= k < i + n ==> !IsSpace(s[k])
    ensures i + n < |s| ==> IsSpace(s[i + n])
  {
    WordInside(s, TrimLeft(s), i, n);
  }

  /** A word at the start of `t == s[i..]` sits at `i` in `s`. */
  lemma WordInside(s: string, t: string, i: nat, n: nat)
    requires i <= |s| && t == s[i..] && |t| > 0 && !IsSpace(t[0]) && n == WordLength(t)
    ensures 0 < n && i + n <= |s|
    ensures forall k :: i <= k < i + n ==> !IsSpace(s[k])
    ensures i + n < |s| ==> IsSpace(s[i + n])
  {
    forall k | i <= k < i + n
      ensures !IsSpace(s[k])
    {
      assert s[k] == t[k - i];
    }
    if i + n < |s| {
      assert s[i + n] == t[n];
    }
  }


  lemma SplitFirstShape(s: string, i: nat, n: nat)
    requires i + n <= |s|
    requires forall k :: 0 <= k < i ==> IsSpace(s[k])
    requires forall k :: i <= k < i + n ==> !IsSpace(s[k])
    ensures IsBlank(s[..i]) && (n > 0 ==> IsWord(s[i..i + n]))
    ensures s == s[..i] + s[i..i + n] + s[i + n..]
  {
  }

  /** A string with no words is its own single separator. */
  lemma RunsOfBlank(s: string)
    requires |TrimLeft(s)| == 0
    ensures RunsOf(s, [s], Split(s)) && Gaps(s) == [s]
  {
    SplitBlank(s);
    assert Interleave([s], []) == s;
  }

  /** A separator, a word and a decomposition of a rest that starts with whitespace make a decomposition. */
  lemma RunsStep(s: string, sep: string, w: string, u: string, ss: seq<string>, ws: seq<string>, all: seq<string>)
    requires s == sep + w + u && IsBlank(sep) && IsWord(w)
    requires RunsOf(u, ss, ws)
    requires |u| > 0 ==> IsSpace(u[0])
    requires |u| == 0 ==> ws == []
    requires all == [w] + ws
    ensures RunsOf(s, [sep] + ss, all)
  {
    if |ws| > 0 {
      RunsHead(u, ss, ws);
    }
    RunsCons(sep, w, u, ss, ws);
  }

  /** The whitespace around and between the words `Split` returns. */
  function Gaps(s: string): seq<string>
    decreases |s|
  {
    var t := TrimLeft(s);
    if |t| == 0 then [s]
    else [s[..|s| - |t|]] + Gaps(t[WordLength(t)..])
  }

  /** `Split` returns a decomposition of its input into maximal runs, with `Gaps` between them. */
  lemma {:induction false} SplitHasRuns(s: string)
    ensures RunsOf(s, Gaps(s), Split(s))
    decreases |s|
  {
    if |TrimLeft(s)| == 0 {
      RunsOfBlank(s);
    } else {
      var i, n := |s| - |TrimLeft(s)|, WordLength(TrimLeft(s));
      SplitFirst(s, i, n);
      var u := s[i + n..];
      SplitHasRuns(u);
      assert Gaps(s) == [s[..i]] + Gaps(u) by {
        assert TrimLeft(s)[n..] == u;
      }
      RunsStep(s, s[..i], s[i..i + n], u, Gaps(u), Split(u), Split(s));
    }
  }

  /** `s.split()` is exactly the sequence of maximal whitespace-free runs of `s`. */
  lemma SplitIsRuns(s: string, ws: seq<string>)
    ensures Split(s) == ws <==> exists seps :: RunsOf(s, seps, ws)
  {
    SplitHasRuns(s);
    assert Split(s) == ws ==> RunsOf(s, Gaps(s), ws);
    if exists seps :: RunsOf(s, seps, ws) {
      var seps :| RunsOf(s, seps, ws);
      RunsAreSplit(s, seps, ws);
    }
  }

  /** A single word splits into itself. */
  lemma SplitWord(w: string)
    requires IsWord(w)
    ensures Split(w) == [w]
  {
    SplitWordOfLength(w, |w|);
    assert w[..|w|] == w;
    SplitBlank(w[|w|..]);
  }

  /** A word followed by a space: `Split` returns the word, then splits the rest. */
  lemma SplitWordSpace(w: string, rest: string)
    requires IsWord(w)
    ensures Split(w + " " + rest) == [w] + Split(rest)
  {
    WordSpaceShape(w, rest);
    SplitNextWord(w + " " + rest, 0, |w|);
    SplitSkip(" " + rest, 1);
  }

  lemma WordSpaceShape(w: string, rest: string)
    requires IsWord(w)
    ensures var s := w + " " + rest;
      && (forall k :: 0 <= k < |w| ==> !IsSpace(s[k]))
      && |w| < |s| && IsSpace(s[|w|])
      && s[0..|w|] == w && s[|w|..] == " " + rest
      && (" " + rest)[1..] == rest
  {
    var s := w + " " + rest;
    forall k | 0 <= k < |w|
      ensures !IsSpace(s[k])
    {
      assert s[k] == w[k];
    }
  }

  /** Splitting words joined with single spaces gives the words back. */
  lemma {:induction false} SplitJoin(ws: seq<string>)
    requires forall k :: 0 <= k < |ws| ==> IsWord(ws[k])
    ensures Split(Join(ws)) == ws
  {
    if |ws| == 0 {
      SplitBlank([]);
    } else if |ws| == 1 {
      SplitWord(ws[0]);
    } else {
      SplitWordSpace(ws[0], Join(ws[1..]));
      SplitJoin(ws[1..]);
    }
  }

  /** Collapsing whitespace keeps the words: `Collapse(s).split() == s.split()`. */
  lemma CollapseKeepsWords(s: string)
    ensures Split(Collapse(s)) == Split(s)
  {
    SplitGivesWords(s);
    SplitJoin(Split(s));
  }

  /** Lower-casing keeps a string collapsed, since it maps whitespace to itself. */
  lemma LowerKeepsCollapsed(s: string)
    requires IsCollapsed(s)
    ensures IsCollapsed(Lower(s))
  {
  }
}
