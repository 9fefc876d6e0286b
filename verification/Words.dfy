/** The shell's line splitter: words are cut out of the line in place. */
module Words {
  import opened Bytes
  import opened Kernel

  datatype Word = Word(start: nat, end: nat)

  /** The first place from `i` on that is not a space. */
  function Start(s: string, i: nat): (k: nat)
    requires i <= |s|
    ensures i <= k <= |s| && (k < |s| ==> s[k] != ' ')
    decreases |s| - i
  {
    if i < |s| && s[i] == ' ' then Start(s, i + 1) else i
  }

  /** The first place from `i` on that is a space. */
  function End(s: string, i: nat): (k: nat)
    requires i <= |s|
    ensures i <= k <= |s| && (k < |s| ==> s[k] == ' ') && (i < |s| && s[i] != ' ' ==> i < k)
    decreases |s| - i
  {
    if i < |s| && s[i] != ' ' then End(s, i + 1) else i
  }

  lemma {:induction false} OnlySpacesBefore(s: string, i: nat, p: nat)
    requires i <= p < |s|
    ensures p < Start(s, i) ==> s[p] == ' '
    ensures p < End(s, i) ==> s[p] != ' '
    decreases |s| - i
  {
    if i < p {
      OnlySpacesBefore(s, i + 1, p);
    }
  }

  /** The words of `s` from place `i` on. */
  function WordsFrom(s: string, i: nat): (ws: seq<Word>)
    requires i <= |s|
    ensures forall k :: 0 <= k < |ws| ==> i <= ws[k].start < ws[k].end <= |s|
    decreases |s| - i
  {
    var a := Start(s, i);
    if a == |s| then [] else [Word(a, End(s, a))] + WordsFrom(s, End(s, a))
  }

  predicate Inside(w: Word, p: nat) { w.start <= p < w.end }

  /** A place is in one of the words. */
  ghost predicate Covered(ws: seq<Word>, p: nat) { exists k :: 0 <= k < |ws| && Inside(ws[k], p) }

  lemma CoveredCons(w: Word, ws: seq<Word>, p: nat)
    ensures Covered([w] + ws, p) <==> Inside(w, p) || Covered(ws, p)
  {
    if k :| 0 <= k < |ws| && Inside(ws[k], p) {
      assert ([w] + ws)[k + 1] == ws[k];
    }
    if Inside(w, p) {
      assert ([w] + ws)[0] == w;
    }
  }

  /** The words hold exactly the characters that are not spaces. */
  lemma {:induction false} WordsCover(s: string, i: nat, p: nat)
    requires i <= p < |s|
    ensures Covered(WordsFrom(s, i), p) <==> s[p] != ' '
    decreases |s| - i
  {
    var a := Start(s, i);
    OnlySpacesBefore(s, i, p);
    if a < |s| {
      var e := End(s, a);
      if p >= a {
        OnlySpacesBefore(s, a, p);
      }
      CoveredCons(Word(a, e), WordsFrom(s, e), p);
      if p >= e {
        WordsCover(s, e, p);
      }
    }
  }

  /** They stand in order, each up to the next space or the end. */
  lemma {:induction false} WordsApart(s: string, i: nat, k: nat)
    requires i <= |s| && k < |WordsFrom(s, i)|
    ensures var ws := WordsFrom(s, i);
      && (ws[k].end < |s| ==> s[ws[k].end] == ' ')
      && (k + 1 < |ws| ==> ws[k].end < ws[k + 1].start)
    decreases k
  {
    var e := End(s, Start(s, i));
    if k > 0 {
      WordsApart(s, e, k - 1);
    }
  }

  /** From the space behind a word the words are those from the space itself. */
  lemma SkipSpace(s: string, i: nat)
    requires i < |s| && s[i] == ' '
    ensures WordsFrom(s, i) == WordsFrom(s, i + 1)
  {
  }

  /** Place `p` is right behind one of the first `c` words. */
  ghost predicate Behind(ws: seq<Word>, c: nat, p: nat)
    requires c <= |ws|
  {
    exists k :: 0 <= k < c && p == ws[k].end
  }

  /** The line with a NUL behind each of its first `c` words. */
  ghost predicate Cut(line: seq<char>, was: seq<char>, ws: seq<Word>, c: nat)
    requires c <= |ws|
  {
    |line| == |was| && forall p {:trigger line[p]} :: 0 <= p < |line| ==> line[p] == if Behind(ws, c, p) then NUL else was[p]
  }

  lemma CutNext(line: seq<char>, was: seq<char>, ws: seq<Word>, c: nat)
    requires c < |ws| && Cut(line, was, ws, c)
    ensures ws[c].end < |line| ==> Cut(line[ws[c].end := NUL], was, ws, c + 1)
  {
    forall p
      ensures Behind(ws, c + 1, p) <==> Behind(ws, c, p) || p == ws[c].end
    {
    }
  }

  /** `argv` holds the starts of the first words of `ws`, and `rest` are the others. */
  ghost predicate Progress(argv: seq<nat>, ws: seq<Word>, rest: seq<Word>) {
    && |argv| <= |ws| && ws[|argv|..] == rest
    && forall k {:trigger argv[k]} :: 0 <= k < |argv| ==> argv[k] == ws[k].start
  }

  lemma ProgressNext(argv: seq<nat>, ws: seq<Word>, w: Word, rest: seq<Word>)
    requires Progress(argv, ws, [w] + rest)
    ensures |argv| < |ws| && ws[|argv|] == w && Progress(argv + [w.start], ws, rest)
  {
    assert ws[|argv|] == ws[|argv|..][0];
    assert ws[|argv| + 1..] == ws[|argv|..][1..];
  }

  lemma ProgressMeans(argv: seq<nat>, ws: seq<Word>, rest: seq<Word>)
    requires Progress(argv, ws, rest)
    ensures |argv| <= |ws| && (rest == [] <==> |argv| == |ws|)
    ensures forall k :: 0 <= k < |argv| ==> argv[k] == ws[k].start
  {
  }

  /** From `l` on the line still holds `s` and its NUL. */
  ghost predicate Rest(line: array<char>, s: string, l: nat)
    reads line
  {
    && l <= |s| < line.Length && line[|s|] == NUL && (forall p :: 0 <= p < |s| ==> s[p] != NUL)
    && forall p :: l <= p < |s| ==> line[p] == s[p]
  }

  method SkipSpaces(line: array<char>, l: nat, ghost s: string) returns (a: nat)
    requires Rest(line, s, l)
    ensures a == Start(s, l) && Rest(line, s, a)
  {
    a := l;
    while line[a] == ' '
      invariant l <= a <= |s| && Start(s, l) == Start(s, a)
      decreases |s| - a
    {
      a := a + 1;
    }
  }

  method FindEnd(line: array<char>, a: nat, ghost s: string) returns (e: nat)
    requires Rest(line, s, a)
    ensures e == End(s, a) && Rest(line, s, e)
  {
    e := a;
    while line[e] != ' ' && line[e] != NUL
      invariant a <= e <= |s| && End(s, a) == End(s, e)
      decreases |s| - e
    {
      e := e + 1;
    }
  }

  /** The character at `l`: a NUL exactly at the end. */
  method At(line: array<char>, l: nat, ghost s: string) returns (c: char)
    requires Rest(line, s, l)
    ensures l <= |s| && (c == NUL <==> l == |s|) && l < line.Length && line[l] == c
  {
    return line[l];
  }

  /** A word is closed. */
  method CloseWord(line: array<char>, l: nat, ghost s: string)
    requires Rest(line, s, l) && l < |s|
    modifies line
    ensures l < line.Length && line[..] == old(line[..])[l := NUL] && Rest(line, s, l + 1)
  {
    line[l] := NUL;
  }

  /** shell_split, on a line of `n` characters and a NUL: the arguments are the first
      words, at most `max`; each of them becomes a string of its own, and nothing in
      the line changes but the spaces right behind them. */
  method Split(line: array<char>, max: nat, ghost n: nat) returns (argv: seq<nat>)
    requires n < line.Length && line[n] == NUL && forall p :: 0 <= p < n ==> line[p] != NUL
    modifies line
    ensures var ws := WordsFrom(old(line[..n]), 0);
      && |argv| == Min(|ws|, max)
      && (forall k :: 0 <= k < |argv| ==> argv[k] == ws[k].start)
      && Cut(line[..], old(line[..]), ws, |argv|)
  {
    hide Cut, WordsFrom, Progress, Rest, Start, End;
    ghost var s := line[..n];
    ghost var was := line[..];
    ghost var ws := WordsFrom(s, 0);
    Whole(line, s);
    CutNone(was, ws);
    argv := [];
    ProgressNone(ws);
    var l := 0;
    while true
      invariant l <= n && |argv| <= max && Rest(line, s, l) && Progress(argv, ws, WordsFrom(s, l))
      invariant |argv| <= |ws| && Cut(line[..], was, ws, |argv|)
      decreases n - l
    {
      FirstWord(s, l);
      ProgressMeans(argv, ws, WordsFrom(s, l));
      l := SkipSpaces(line, l, s);
      var c := At(line, l, s);
      if c == NUL || |argv| >= max {
        return;
      }
      var a := l;
      l := FindEnd(line, l, s);
      c := At(line, l, s);
      ProgressNext(argv, ws, Word(a, l), WordsFrom(s, l));
      CutNext(line[..], was, ws, |argv|);
      argv := argv + [a];
      if c == NUL {
        FirstWord(s, l);
        ProgressMeans(argv, ws, WordsFrom(s, l));
        assert line[..] == line[..][l := NUL];
        return;
      }
      SkipSpace(s, l);
      CloseWord(line, l, s);
      l := l + 1;
    }
  }

  lemma Whole(line: array<char>, s: string)
    requires |s| < line.Length && line[|s|] == NUL && line[..|s|] == s && forall p :: 0 <= p < |s| ==> line[p] != NUL
    ensures Rest(line, s, 0)
  {
  }

  lemma ProgressNone(ws: seq<Word>)
    ensures Progress([], ws, ws)
  {
  }

  lemma FirstWord(s: string, i: nat)
    requires i <= |s|
    ensures var a := Start(s, i);
      WordsFrom(s, i) == if a == |s| then [] else [Word(a, End(s, a))] + WordsFrom(s, End(s, a))
  {
  }

  lemma CutNone(was: seq<char>, ws: seq<Word>)
    ensures Cut(was, was, ws, 0)
  {
  }

  /** What an argument is after the split: the characters of its word, and behind them
      a NUL. */
  lemma ArgumentIsWord(line: seq<char>, was: seq<char>, n: nat, c: nat, k: nat)
    requires n < |was| && was[n] == NUL && NUL !in was[..n]
    requires c <= |WordsFrom(was[..n], 0)| && Cut(line, was, WordsFrom(was[..n], 0), c) && k < c
    ensures var w := WordsFrom(was[..n], 0)[k];
      w.end < |line| && line[w.start..w.end] == was[w.start..w.end] && line[w.end] == NUL && NUL !in line[w.start..w.end]
  {
    var s := was[..n];
    var ws := WordsFrom(s, 0);
    var w := ws[k];
    assert Behind(ws, c, w.end);
    forall p | w.start <= p < w.end
      ensures line[p] == was[p] && was[p] != NUL
    {
      assert s[p] == was[p];
      assert Inside(ws[k], p);
      WordsCover(s, 0, p);
      if Behind(ws, c, p) {
        var j :| 0 <= j < c && p == ws[j].end;
        WordsApart(s, 0, j);
      }
    }
  }
}
