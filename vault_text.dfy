/**
  How a vault's plain text is stored: `sub("\n+", "\n", s.strip())`, and the
  cached line count `0 if len(s) == 0 else len(s.split("\n"))`
  (core/models/database.py, create_vault, update_vault and claim).
*/
module VaultText {
  import opened PyStr

  /** A stored text: no whitespace at either end and no empty line inside. */
  predicate Normal(s: string)
  {
    Trimmed(s) && NoBlankRun(s)
  }

  /**
    `sub("\n+", "\n", storage.strip())`: the lines kept are the non-empty
    lines of the stripped input, in order.
  */
  function Normalize(storage: string): (r: string)
    ensures Normal(r)
    ensures r == [] <==> forall i :: 0 <= i < |storage| ==> IsSpace(storage[i])
    ensures r != [] ==> Split(r) == NonEmpty(Split(Strip(storage)))
  {
    var stripped := Strip(storage);
    assert stripped != [] ==> !IsSpace(stripped[0]) && !IsSpace(stripped[|stripped| - 1]);
    TrimmedLines(stripped);
    CollapseLines(stripped);
    CollapseNewlines(stripped)
  }

  /** A trimmed text neither starts nor ends with an empty line, so only its inner empty lines can be dropped. */
  lemma {:induction false} TrimmedLines(s: string)
    requires Trimmed(s)
    ensures s != [] ==> DropEmptyInner(Split(s)) == NonEmpty(Split(s))
  {
    if s != [] {
      assert IsSpace('\n');
      SplitLastNonEmpty(s);
      DropEmptyInnerEnds(Split(s));
    }
  }

  /** Normalising never adds a line break. */
  lemma {:induction false} NormalizeNewlineCount(storage: string)
    ensures NewlineCount(Normalize(storage)) <= NewlineCount(storage)
  {
    StripNewlineCount(storage);
    CollapseNewlineCount(Strip(storage));
  }

  /** The value written to the `length` column. */
  function LineCount(storage: string): (n: nat)
    ensures n == 0 <==> storage == []
  {
    if |storage| == 0 then 0 else |Split(storage)|
  }

  /** A non-empty text has one line more than it has newlines. */
  lemma {:induction false} LineCountNewlines(storage: string)
    requires storage != []
    ensures LineCount(storage) == NewlineCount(storage) + 1
  {
    SplitLength(storage);
  }

  /** Normalising a stored text changes nothing. */
  lemma {:induction false} NormalFixed(s: string)
    requires Normal(s)
    ensures Normalize(s) == s
  {
    StripTrimmed(s);
  }

  /** Normalisation is idempotent. */
  lemma {:induction false} NormalizeIdempotent(s: string)
    ensures Normalize(Normalize(s)) == Normalize(s)
  {
    NormalFixed(Normalize(s));
  }

  /** Blank input is stored as the empty text, with length 0. */
  lemma {:induction false} BlankHasNoLines(s: string)
    requires forall i :: 0 <= i < |s| ==> IsSpace(s[i])
    ensures Normalize(s) == [] && LineCount(Normalize(s)) == 0
  {
  }

  /** Input with no newline and some visible character is stored as one line. */
  lemma {:induction false} SingleLine(s: string)
    requires '\n' !in s
    requires exists i :: 0 <= i < |s| && !IsSpace(s[i])
    ensures LineCount(Normalize(s)) == 1
  {
    NoNewlineCount(s);
    NormalizeNewlineCount(s);
    LineCountNewlines(Normalize(s));
  }

  /** After the first segment, every segment of a newline-separated text is non-empty, when no two newlines touch and the text does not end in one. */
  lemma {:induction false} LaterSegmentsNonEmpty(s: string)
    requires NoBlankRun(s)
    requires s == [] || s[|s| - 1] != '\n'
    ensures forall i :: 1 <= i < |Split(s)| ==> |Split(s)[i]| > 0
    decreases |s|
  {
    if |s| > 0 {
      var t := s[1..];
      LaterSegmentsNonEmpty(t);
      if s[0] == '\n' {
        assert |s| >= 2 && t[0] == s[1] && t[0] != '\n';
      }
    }
  }

  /**
    Every line of a non-empty stored text is non-empty, so the cached length
    counts the non-empty lines of the text.
  */
  lemma {:induction false} StoredLinesNonEmpty(s: string)
    requires Normal(s) && s != []
    ensures LineCount(s) == |Split(s)|
    ensures forall i :: 0 <= i < |Split(s)| ==> |Split(s)[i]| > 0 && '\n' !in Split(s)[i]
  {
    LaterSegmentsNonEmpty(s);
  }

  /**
    Rewriting the lines left after a dequeue never yields more lines than were
    left: re-stripping may drop whitespace-only lines at either end.
  */
  lemma {:induction false} RemainderLineCount(rest: seq<string>)
    requires forall i :: 0 <= i < |rest| ==> '\n' !in rest[i]
    ensures LineCount(Normalize(Join(rest))) <= |rest|
  {
    if |rest| > 0 {
      JoinNewlineCount(rest);
      NormalizeNewlineCount(Join(rest));
      if Normalize(Join(rest)) != [] {
        LineCountNewlines(Normalize(Join(rest)));
      }
    }
  }

  /** When the remainder neither starts nor ends with whitespace and has no empty line, no line is lost. */
  lemma {:induction false} RemainderKeepsLines(rest: seq<string>)
    requires |rest| > 0
    requires forall i :: 0 <= i < |rest| ==> |rest[i]| > 0 && '\n' !in rest[i]
    requires Normal(Join(rest))
    ensures LineCount(Normalize(Join(rest))) == |rest|
  {
    NormalFixed(Join(rest));
    JoinLineCount(rest);
  }

  lemma {:induction false} JoinLineCount(rest: seq<string>)
    requires |rest| > 0 && |rest[0]| > 0
    requires forall i :: 0 <= i < |rest| ==> '\n' !in rest[i]
    ensures LineCount(Join(rest)) == |rest|
  {
    JoinNewlineCount(rest);
    assert Join(rest) != [];
    LineCountNewlines(Join(rest));
  }

  /** A whitespace-only line at the end of the remainder is dropped on rewrite. */
  lemma {:induction false} TrailingBlankLineDropped()
    ensures LineCount(Normalize(Join(["a", " "]))) == 1
  {
    assert Join(["a", " "]) == "a\n ";
    assert IsSpace(' ') && IsSpace('\n') && !IsSpace('a');
    assert StripLeft("a\n ") == "a\n ";
    assert StripRight("a\n ") == StripRight("a\n") == StripRight("a") == "a";
    assert Normalize("a\n ") == "a";
  }

  /** What `claim` does to a vault's text: the first `maxLines` lines go out and the rest is joined back. */
  datatype Dequeued = Dequeued(claimed: seq<string>, rest: string)

  function Dequeue(text: string, maxLines: int): (d: Dequeued)
  {
    var storage := Split(Normalize(text));
    Dequeued(SliceTo(storage, maxLines), Join(SliceFrom(storage, maxLines)))
  }

  /**
    From a stored text with at least `maxLines` lines, a dequeue hands out its
    first `maxLines` lines, each non-empty and without a newline, keeps the
    others in order, and what is written back has at most that many fewer lines.
  */
  lemma {:induction false} DequeueTakesFirstLines(text: string, maxLines: int)
    requires Normal(text) && 0 <= maxLines <= LineCount(text)
    ensures var d := Dequeue(text, maxLines);
      && maxLines <= |Split(text)|
      && d.claimed == Split(text)[..maxLines]
      && |d.claimed| == maxLines
      && (forall j :: 0 <= j < |d.claimed| ==> |d.claimed[j]| > 0 && '\n' !in d.claimed[j])
      && d.rest == Join(Split(text)[maxLines..])
      && d.claimed + Split(text)[maxLines..] == Split(text)
      && LineCount(Normalize(d.rest)) <= LineCount(text) - maxLines
  {
    NormalFixed(text);
    var lines := Split(text);
    if text == [] {
      assert lines == [""];
    } else {
      StoredLinesNonEmpty(text);
    }
    DequeueLines(lines, maxLines);
  }

  /**
    A negative `maxLines` counts from the end, as a Python slice bound does:
    every line but the last `-maxLines` goes out (none when there are fewer),
    and those last lines are written back.
  */
  lemma {:induction false} DequeueNegativeLimit(text: string, maxLines: int)
    requires Normal(text) && maxLines < 0
    ensures var lines := Split(text);
      var n := if |lines| + maxLines < 0 then 0 else |lines| + maxLines;
      var d := Dequeue(text, maxLines);
      && d.claimed == lines[..n]
      && d.rest == Join(lines[n..])
      && d.claimed + lines[n..] == lines
  {
    NormalFixed(text);
    NegativeSlices(Split(text), maxLines);
  }

  /** The slices `lines[:k]` and `lines[k:]` for a negative `k`. */
  lemma {:induction false} NegativeSlices(lines: seq<string>, k: int)
    requires k < 0
    ensures var n := if |lines| + k < 0 then 0 else |lines| + k;
      && SliceTo(lines, k) == lines[..n] && SliceFrom(lines, k) == lines[n..]
      && lines[..n] + lines[n..] == lines
  {
    var n := if |lines| + k < 0 then 0 else |lines| + k;
    assert lines[..n] + lines[n..] == lines;
  }

  /** The slicing half of a dequeue, on the lines of the stored text. */
  lemma {:induction false} DequeueLines(lines: seq<string>, maxLines: int)
    requires 0 <= maxLines <= |lines|
    requires forall i :: 0 <= i < maxLines ==> |lines[i]| > 0
    requires forall i :: 0 <= i < |lines| ==> '\n' !in lines[i]
    ensures SliceTo(lines, maxLines) == lines[..maxLines] && SliceFrom(lines, maxLines) == lines[maxLines..]
    ensures forall j :: 0 <= j < maxLines ==> |lines[..maxLines][j]| > 0 && '\n' !in lines[..maxLines][j]
    ensures lines[..maxLines] + lines[maxLines..] == lines
    ensures LineCount(Normalize(Join(lines[maxLines..]))) <= |lines| - maxLines
  {
    assert lines[..maxLines] + lines[maxLines..] == lines;
    RemainderLineCount(lines[maxLines..]);
  }
}
