/** Files as the control scripts see them: Python text-mode reading, str.count and str.replace.

    A file is its decoded UTF-8 text. Text-mode reading turns every line ending into '\n'; text-mode
    writing on the scripts' platforms writes what it is given. */
module TextFiles {
  type Path = string
  type Files = map<Path, string>

  /** What open(path).read() returns for a file holding `s`: universal newlines. */
  function ReadText(s: string): string {
    if s == "" then ""
    else if s[0] != '\r' then [s[0]] + ReadText(s[1..])
    else if |s| > 1 && s[1] == '\n' then "\n" + ReadText(s[2..])
    else "\n" + ReadText(s[1..])
  }

  lemma {:induction false} ReadTextHasNoReturn(s: string)
    ensures '\r' !in ReadText(s)
  {
    if s != "" {
      if s[0] == '\r' && |s| > 1 && s[1] == '\n' {
        ReadTextHasNoReturn(s[2..]);
      } else {
        ReadTextHasNoReturn(s[1..]);
      }
    }
  }

  lemma {:induction false} ReadTextKeeps(s: string)
    requires '\r' !in s
    ensures ReadText(s) == s
  {
    if s != "" {
      assert s[0] in s && s == [s[0]] + s[1..];
      ReadTextKeeps(s[1..]);
    }
  }

  /** Reading in text mode gives back the file exactly when it holds no carriage return. */
  lemma {:induction false} ReadTextExactly(s: string)
    ensures ReadText(s) == s <==> '\r' !in s
    ensures ReadText(ReadText(s)) == ReadText(s)
  {
    ReadTextHasNoReturn(s);
    ReadTextKeeps(ReadText(s));
    if '\r' !in s {
      ReadTextKeeps(s);
    }
  }

  /** Each line ending, of one or two characters, becomes one newline. */
  lemma {:induction false} ReadTextLine(line: string, rest: string)
    requires '\r' !in line
    ensures ReadText(line + "\r\n" + rest) == line + "\n" + ReadText(rest)
    ensures rest == "" || rest[0] != '\n' ==> ReadText(line + "\r" + rest) == line + "\n" + ReadText(rest)
  {
    if line == "" {
      assert ("" + "\r\n" + rest)[2..] == rest && ("" + "\r" + rest)[1..] == rest;
    } else {
      ReadTextLine(line[1..], rest);
      assert (line + "\r\n" + rest)[1..] == line[1..] + "\r\n" + rest;
      assert (line + "\r" + rest)[1..] == line[1..] + "\r" + rest;
      assert line[0] in line && line == [line[0]] + line[1..];
    }
  }

  // ---------------------------------------------------------------------------
  // str.count and str.replace

  /** s.count(anchor): occurrences found from the left, each after the end of the one before. */
  function Count(s: string, anchor: string): nat
    decreases |s|
  {
    if anchor == "" then |s| + 1
    else if |s| < |anchor| then 0
    else if anchor <= s then 1 + Count(s[|anchor|..], anchor)
    else Count(s[1..], anchor)
  }

  /** s.replace(anchor, new, 1) */
  function ReplaceFirst(s: string, anchor: string, replacement: string): string {
    if anchor <= s then replacement + s[|anchor|..]
    else if s == "" then ""
    else [s[0]] + ReplaceFirst(s[1..], anchor, replacement)
  }

  predicate OccursAt(s: string, anchor: string, i: int) {
    0 <= i <= |s| && anchor <= s[i..]
  }

  lemma OccursInTail(s: string, anchor: string, k: nat, i: int)
    requires k <= |s| && i >= 0
    ensures OccursAt(s[k..], anchor, i) <==> OccursAt(s, anchor, k + i)
  {
  }

  lemma {:induction false} CountZero(s: string, anchor: string)
    requires anchor != ""
    ensures Count(s, anchor) == 0 <==> forall i :: !OccursAt(s, anchor, i)
    decreases |s|
  {
    if |s| < |anchor| {
    } else if anchor <= s {
      assert s[0..] == s;
      assert OccursAt(s, anchor, 0);
    } else {
      CountZero(s[1..], anchor);
      assert s[0..] == s;
      forall i ensures OccursAt(s, anchor, i) <==> i > 0 && OccursAt(s[1..], anchor, i - 1) {
        if i > 0 {
          OccursInTail(s, anchor, 1, i - 1);
        }
      }
      if i :| OccursAt(s[1..], anchor, i) {
        OccursInTail(s, anchor, 1, i);
        assert OccursAt(s, anchor, i + 1);
      }
    }
  }

  /** An anchor that is no prefix occurs one place further on than in the tail. */
  lemma OccursLater(s: string, anchor: string, i: int)
    requires s != "" && !(anchor <= s)
    ensures OccursAt(s, anchor, i) <==> i > 0 && OccursAt(s[1..], anchor, i - 1)
  {
  }

  /** `p` is where the leftmost occurrence starts. */
  ghost predicate Leftmost(s: string, anchor: string, p: int) {
    OccursAt(s, anchor, p) && forall i | OccursAt(s, anchor, i) :: p <= i
  }

  lemma LeftmostAtStart(s: string, anchor: string, p: int)
    requires anchor <= s
    ensures Leftmost(s, anchor, p) <==> p == 0
  {
    assert s[0..] == s;
    assert OccursAt(s, anchor, 0);
  }

  lemma LeftmostInTail(s: string, anchor: string, p: int)
    requires s != "" && !(anchor <= s)
    ensures Leftmost(s, anchor, p) <==> Leftmost(s[1..], anchor, p - 1)
  {
    forall i ensures OccursAt(s, anchor, i) <==> i > 0 && OccursAt(s[1..], anchor, i - 1) {
      OccursLater(s, anchor, i);
    }
    if Leftmost(s, anchor, p) {
      forall i | OccursAt(s[1..], anchor, i) ensures p - 1 <= i {
        assert OccursAt(s, anchor, i + 1);
      }
    }
  }

  lemma {:induction false} LeftmostOccurrence(s: string, anchor: string) returns (p: nat)
    requires anchor != "" && Count(s, anchor) > 0
    ensures Leftmost(s, anchor, p)
    decreases |s|
  {
    if anchor <= s {
      p := 0;
      LeftmostAtStart(s, anchor, p);
    } else {
      CountInTail(s, anchor);
      var q := LeftmostOccurrence(s[1..], anchor);
      p := q + 1;
      LeftmostInTail(s, anchor, p);
    }
  }

  lemma {:induction false} CountFromLeftmost(s: string, anchor: string, p: nat, rest: string)
    requires anchor != "" && Leftmost(s, anchor, p)
    requires p + |anchor| <= |s| && rest == s[p + |anchor|..]
    ensures Count(s, anchor) == 1 + Count(rest, anchor)
    decreases |s|
  {
    if anchor <= s {
      LeftmostAtStart(s, anchor, p);
    } else {
      NotAtStart(s, anchor, p);
      LeftmostInTail(s, anchor, p);
      CountInTail(s, anchor);
      DropTwice(s, p - 1 + |anchor|);
      CountFromLeftmost(s[1..], anchor, p - 1, rest);
    }
  }

  lemma CountInTail(s: string, anchor: string)
    requires anchor != "" && !(anchor <= s)
    ensures s == "" ==> Count(s, anchor) == 0
    ensures s != "" ==> Count(s, anchor) == Count(s[1..], anchor)
  {
  }

  lemma DropTwice(s: string, n: nat)
    requires n + 1 <= |s|
    ensures s[1..][n..] == s[n + 1..]
  {
  }

  /** The leftmost occurrence is the one replaced. */
  lemma {:induction false} ReplacedAtLeftmost(s: string, anchor: string, replacement: string, p: nat)
    requires Leftmost(s, anchor, p)
    ensures ReplaceFirst(s, anchor, replacement) == s[..p] + replacement + s[p + |anchor|..]
    decreases |s|
  {
    if anchor <= s {
      LeftmostAtStart(s, anchor, p);
      assert s[..0] + replacement == replacement;
    } else {
      NotAtStart(s, anchor, p);
      LeftmostInTail(s, anchor, p);
      ReplacedAtLeftmost(s[1..], anchor, replacement, p - 1);
      Reassemble(s, p, |anchor|, replacement, ReplaceFirst(s[1..], anchor, replacement));
    }
  }

  lemma NotAtStart(s: string, anchor: string, p: nat)
    requires OccursAt(s, anchor, p) && !(anchor <= s)
    ensures p > 0 && s != "" && p + |anchor| <= |s|
  {
  }

  lemma Reassemble(s: string, p: nat, n: nat, replacement: string, tail: string)
    requires 0 < p && p + n <= |s|
    requires tail == s[1..][..p - 1] + replacement + s[1..][p - 1 + n..]
    ensures [s[0]] + tail == s[..p] + replacement + s[p + n..]
  {
  }

  /** An anchor counted once occurs, and all its occurrences overlap the one that is replaced; only for an
      anchor that cannot overlap itself does that mean a single place. */
  lemma CountOneMeans(s: string, anchor: string)
    requires anchor != ""
    ensures Count(s, anchor) == 1 <==>
            exists p :: OccursAt(s, anchor, p) && forall i | OccursAt(s, anchor, i) :: p <= i < p + |anchor|
  {
    if Count(s, anchor) == 0 {
      CountZero(s, anchor);
    } else {
      var p := LeftmostOccurrence(s, anchor);
      var rest := s[p + |anchor|..];
      CountFromLeftmost(s, anchor, p, rest);
      CountZero(rest, anchor);
      forall i | i >= p + |anchor| ensures OccursAt(s, anchor, i) <==> OccursAt(rest, anchor, i - p - |anchor|) {
        OccursInTail(s, anchor, p + |anchor|, i - p - |anchor|);
      }
      if Count(s, anchor) > 1 {
        var j :| OccursAt(rest, anchor, j);
        assert OccursAt(s, anchor, p + |anchor| + j);
      }
    }
  }
}
