/**
  The pieces of Python's string and sequence built-ins that the bot relies on:
  `str.isspace`, `str.strip`, `re.sub("\n+", "\n", s)`, `s.split("\n")`,
  `"\n".join(lines)`, `str.split()`, `str(int)`, `int(str)` and slicing with
  possibly negative bounds.
*/
module PyStr {
  import opened Wrappers

  /** `c.isspace()`: the characters Python treats as whitespace. */
  predicate IsSpace(c: char)
  {
    c == ' ' || '\t' <= c <= '\r' || '\U{1c}' <= c <= '\U{1f}' || c == '\U{85}' || c == '\U{a0}'
    || c == '\U{1680}' || '\U{2000}' <= c <= '\U{200a}' || c == '\U{2028}' || c == '\U{2029}'
    || c == '\U{202f}' || c == '\U{205f}' || c == '\U{3000}'
  }

  /** Number of newline characters in `s`. */
  function NewlineCount(s: string): nat
    decreases |s|
  {
    if |s| == 0 then 0 else (if s[0] == '\n' then 1 else 0) + NewlineCount(s[1..])
  }

  lemma {:induction false} NewlineCountAppend(a: string, b: string)
    ensures NewlineCount(a + b) == NewlineCount(a) + NewlineCount(b)
    decreases |a|
  {
    if |a| > 0 {
      NewlineCountAppend(a[1..], b);
      assert (a + b)[1..] == a[1..] + b;
    } else {
      assert a + b == b;
    }
  }

  lemma {:induction false} NoNewlineCount(s: string)
    requires '\n' !in s
    ensures NewlineCount(s) == 0
    decreases |s|
  {
    if |s| > 0 {
      assert s[0] != '\n' && '\n' !in s[1..];
      NoNewlineCount(s[1..]);
    }
  }

  lemma {:induction false} NewlineCountSuffix(s: string, lo: nat)
    requires lo <= |s|
    ensures NewlineCount(s[lo..]) <= NewlineCount(s)
  {
    assert s == s[..lo] + s[lo..];
    NewlineCountAppend(s[..lo], s[lo..]);
  }

  lemma {:induction false} NewlineCountPrefix(s: string, hi: nat)
    requires hi <= |s|
    ensures NewlineCount(s[..hi]) <= NewlineCount(s)
  {
    assert s == s[..hi] + s[hi..];
    NewlineCountAppend(s[..hi], s[hi..]);
  }

  // ---------------------------------------------------------------- strip

  /** `s.lstrip()`: drops leading whitespace and nothing else. */
  function StripLeft(s: string): (r: string)
    ensures |r| <= |s|
    ensures forall i :: 0 <= i < |s| - |r| ==> IsSpace(s[i])
    ensures r != [] ==> !IsSpace(r[0])
    decreases |s|
  {
    if |s| > 0 && IsSpace(s[0]) then StripLeft(s[1..]) else s
  }

  /** What `lstrip` keeps is the suffix after the `lo` characters it drops. */
  lemma {:induction false} StripLeftSuffix(s: string, lo: nat)
    requires lo == |s| - |StripLeft(s)|
    ensures StripLeft(s) == s[lo..]
    decreases |s|
  {
    if |s| > 0 && IsSpace(s[0]) {
      StripLeftSuffix(s[1..], lo - 1);
      assert s[1..][lo - 1..] == s[lo..];
    }
  }

  /** `s.rstrip()`: drops trailing whitespace and nothing else. */
  function StripRight(s: string): (r: string)
    ensures |r| <= |s| && forall i :: 0 <= i < |r| ==> r[i] == s[i]
    ensures forall i :: |r| <= i < |s| ==> IsSpace(s[i])
    ensures r != [] ==> !IsSpace(r[|r| - 1])
    decreases |s|
  {
    if |s| > 0 && IsSpace(s[|s| - 1]) then StripRight(s[..|s| - 1]) else s
  }

  /** Neither end of `s` is whitespace. */
  predicate Trimmed(s: string)
  {
    s == [] || (!IsSpace(s[0]) && !IsSpace(s[|s| - 1]))
  }

  /** `s.strip()`: the middle of `s` left once the whitespace at both ends is dropped. */
  function Strip(s: string): (r: string)
    ensures Trimmed(r)
    ensures (exists i :: 0 <= i < |s| && !IsSpace(s[i])) <==> r != []
    ensures exists lo, hi :: (0 <= lo <= hi <= |s| && r == s[lo..hi]
      && (forall i :: 0 <= i < lo ==> IsSpace(s[i])) && (forall i :: hi <= i < |s| ==> IsSpace(s[i])))
  {
    StripKeepsContent(s);
    StripRight(StripLeft(s))
  }

  lemma {:induction false} StripKeepsContent(s: string)
    ensures var r := StripRight(StripLeft(s));
      && Trimmed(r)
      && ((exists i :: 0 <= i < |s| && !IsSpace(s[i])) <==> r != [])
      && exists lo, hi :: (0 <= lo <= hi <= |s| && r == s[lo..hi]
        && (forall i :: 0 <= i < lo ==> IsSpace(s[i])) && (forall i :: hi <= i < |s| ==> IsSpace(s[i])))
  {
    StripMiddle(s);
    StripKeepsFirstLast(s);
    if exists i :: 0 <= i < |s| && !IsSpace(s[i]) {
      var i :| 0 <= i < |s| && !IsSpace(s[i]);
      StripKeepsNonSpace(s, i);
    } else {
      StripLeftSuffix(s, |s| - |StripLeft(s)|);
    }
  }

  /** What `strip` keeps is `s[lo..hi]`, with only whitespace before `lo` and from `hi` on. */
  lemma {:induction false} StripMiddle(s: string)
    ensures var r := StripRight(StripLeft(s));
      exists lo, hi :: (0 <= lo <= hi <= |s| && r == s[lo..hi]
        && (forall i :: 0 <= i < lo ==> IsSpace(s[i])) && (forall i :: hi <= i < |s| ==> IsSpace(s[i])))
  {
    var l := StripLeft(s);
    var lo := |s| - |l|;
    StripLeftSuffix(s, lo);
    var r := StripRight(l);
    var hi := lo + |r|;
    assert r == s[lo..hi];
    assert forall i :: 0 <= i < lo ==> IsSpace(s[i]);
    assert forall i :: hi <= i < |s| ==> IsSpace(s[i]) by {
      forall i | hi <= i < |s| ensures IsSpace(s[i]) {
        assert s[i] == l[i - lo];
      }
    }
  }

  /** Stripping never adds a newline. */
  lemma {:induction false} StripNewlineCount(s: string)
    ensures NewlineCount(Strip(s)) <= NewlineCount(s)
  {
    var l := StripLeft(s);
    StripLeftSuffix(s, |s| - |l|);
    NewlineCountInside(s, |s| - |l|, l, StripRight(l));
  }

  /** A prefix `r` of a suffix `l` of `s` has no more newlines than `s`. */
  lemma {:induction false} NewlineCountInside(s: string, lo: nat, l: string, r: string)
    requires lo <= |s| && l == s[lo..]
    requires |r| <= |l| && forall i :: 0 <= i < |r| ==> r[i] == l[i]
    ensures NewlineCount(r) <= NewlineCount(s)
  {
    NewlineCountSuffix(s, lo);
    assert r == l[..|r|];
    NewlineCountPrefix(l, |r|);
  }

  lemma {:induction false} StripKeepsFirstLast(s: string)
    ensures var r := StripRight(StripLeft(s)); r != [] ==> !IsSpace(r[0])
  {
    var l := StripLeft(s);
    var r := StripRight(l);
    if r != [] {
      assert r[0] == l[0];
    }
  }

  lemma {:induction false} StripKeepsNonSpace(s: string, i: nat)
    requires i < |s| && !IsSpace(s[i])
    ensures StripRight(StripLeft(s)) != []
  {
    var l := StripLeft(s);
    StripLeftSuffix(s, |s| - |l|);
    var k := i - (|s| - |l|);
    assert 0 <= k < |l| && l[k] == s[i];
    var r := StripRight(l);
    assert k < |r|;
  }

  lemma {:induction false} StripLeftTrimmed(s: string)
    requires s == [] || !IsSpace(s[0])
    ensures StripLeft(s) == s
  {
  }

  lemma {:induction false} StripRightTrimmed(s: string)
    requires s == [] || !IsSpace(s[|s| - 1])
    ensures StripRight(s) == s
  {
  }

  /** Stripping a string whose ends are not whitespace changes nothing. */
  lemma {:induction false} StripTrimmed(s: string)
    requires Trimmed(s)
    ensures Strip(s) == s
  {
    StripLeftTrimmed(s);
    StripRightTrimmed(s);
  }

  /** Stripping `s` followed by one whitespace character gives `s` back when `s` is trimmed and non-empty. */
  lemma {:induction false} StripTrailingSpace(s: string, c: char)
    requires Trimmed(s) && s != [] && IsSpace(c)
    ensures Strip(s + [c]) == s
  {
    StripLeftTrimmed(s + [c]);
    assert (s + [c])[..|s|] == s;
    StripRightTrimmed(s);
  }

  // ---------------------------------------------------------------- re.sub("\n+", "\n", s)

  /** No two newlines are adjacent. */
  predicate NoBlankRun(s: string)
    decreases |s|
  {
    |s| < 2 || (!(s[0] == '\n' && s[1] == '\n') && NoBlankRun(s[1..]))
  }

  /** The non-empty strings of `segs`, in order. */
  function NonEmpty(segs: seq<string>): seq<string>
    decreases |segs|
  {
    if |segs| == 0 then [] else (if segs[0] == "" then [] else [segs[0]]) + NonEmpty(segs[1..])
  }

  lemma {:induction false} NonEmptyAppend(a: seq<string>, b: seq<string>)
    ensures NonEmpty(a + b) == NonEmpty(a) + NonEmpty(b)
    decreases |a|
  {
    if |a| > 0 {
      NonEmptyAppend(a[1..], b);
      assert (a + b)[1..] == a[1..] + b;
    } else {
      assert a + b == b;
    }
  }

  /** The segments, with every empty one strictly between the first and the last removed. */
  function DropEmptyInner(segs: seq<string>): seq<string>
  {
    if |segs| <= 1 then segs else [segs[0]] + NonEmpty(segs[1..|segs| - 1]) + [segs[|segs| - 1]]
  }

  /** `re.sub("\n+", "\n", s)`: every run of newlines becomes a single newline. */
  function CollapseNewlines(s: string): (r: string)
    ensures NoBlankRun(r)
    ensures |r| <= |s|
    ensures |s| > 0 ==> |r| > 0 && r[0] == s[0] && r[|r| - 1] == s[|s| - 1]
    ensures NoBlankRun(s) ==> r == s
    decreases |s|
  {
    if |s| <= 1 then s
    else if s[0] == '\n' && s[1] == '\n' then CollapseNewlines(s[1..])
    else [s[0]] + CollapseNewlines(s[1..])
  }

  /**
    Seen as lines, collapsing the runs of newlines drops the empty lines
    strictly inside the text and keeps every other line, in order.
  */
  lemma {:induction false} CollapseLines(s: string)
    ensures Split(CollapseNewlines(s)) == DropEmptyInner(Split(s))
    decreases |s|
  {
    if |s| <= 1 {
      CollapseShort(s);
    } else if s[0] == '\n' && s[1] == '\n' {
      CollapseLines(s[1..]);
      CollapsePair(s);
    } else {
      CollapseLines(s[1..]);
      CollapseCons(s, CollapseNewlines(s[1..]));
    }
  }

  /** When the first and the last segment are non-empty, dropping the empty inner ones keeps exactly the non-empty ones. */
  lemma {:induction false} DropEmptyInnerEnds(segs: seq<string>)
    requires |segs| > 0 && segs[0] != "" && segs[|segs| - 1] != ""
    ensures DropEmptyInner(segs) == NonEmpty(segs)
  {
    var n := |segs|;
    if n == 1 {
      assert segs[1..] == [];
    } else {
      var mid := segs[1..n - 1];
      assert segs == [segs[0]] + mid + [segs[n - 1]];
      NonEmptyAppend([segs[0]] + mid, [segs[n - 1]]);
      NonEmptyAppend([segs[0]], mid);
      assert [segs[0]][1..] == [] && [segs[n - 1]][1..] == [];
    }
  }

  /** A text not ending in a newline has a non-empty last segment. */
  lemma {:induction false} SplitLastNonEmpty(s: string)
    requires |s| > 0 && s[|s| - 1] != '\n'
    ensures var sp := Split(s); |sp[|sp| - 1]| > 0
    decreases |s|
  {
    if |s| > 1 {
      SplitLastNonEmpty(s[1..]);
    }
  }

  /** A text of at most one character has no inner segment to drop. */
  lemma {:induction false} CollapseShort(s: string)
    requires |s| <= 1
    ensures Split(s) == DropEmptyInner(Split(s))
  {
    if |s| == 1 {
      SplitCons(s[0], "");
      assert [s[0]] + "" == s;
    }
  }

  /** The first of two leading newlines only adds an empty inner segment. */
  lemma {:induction false} CollapsePair(s: string)
    requires |s| >= 2 && s[0] == '\n' && s[1] == '\n'
    ensures DropEmptyInner(Split(s)) == DropEmptyInner(Split(s[1..]))
  {
    var x := Split(s[2..]);
    assert s[1..] == [s[1]] + s[2..];
    SplitCons(s[1], s[2..]);
    assert s == [s[0]] + s[1..];
    SplitCons(s[0], s[1..]);
    assert Split(s[1..]) == [""] + x;
    assert Split(s) == ["", ""] + x;
    DropSecondEmpty(x);
  }

  /** Of two empty lines in front, the second one is inner and dropped. */
  lemma {:induction false} DropSecondEmpty(x: seq<string>)
    requires |x| > 0
    ensures DropEmptyInner(["", ""] + x) == DropEmptyInner([""] + x)
  {
    var a, b := ["", ""] + x, [""] + x;
    var m := x[..|x| - 1];
    assert a[1..|a| - 1] == [""] + m && b[1..|b| - 1] == m;
    NonEmptyAppend([""], m);
    assert [""][1..] == [];
    assert NonEmpty([""]) == [];
    assert DropEmptyInner(a) == [""] + NonEmpty(m) + [x[|x| - 1]];
    assert DropEmptyInner(b) == [""] + NonEmpty(m) + [x[|x| - 1]];
  }

  /** `split("\n")` of a text with one more character in front. */
  lemma {:induction false} SplitCons(c: char, x: string)
    ensures Split([c] + x) == if c == '\n' then [""] + Split(x) else [[c] + Split(x)[0]] + Split(x)[1..]
  {
    assert ([c] + x)[1..] == x;
  }

  /** A character that does not start a run of newlines is kept in front of the collapsed rest. */
  lemma {:induction false} CollapseCons(s: string, rt: string)
    requires |s| >= 2 && |rt| > 0 && rt[0] == s[1]
    requires !(s[0] == '\n' && s[1] == '\n')
    requires Split(rt) == DropEmptyInner(Split(s[1..]))
    ensures Split([s[0]] + rt) == DropEmptyInner(Split(s))
  {
    assert s == [s[0]] + s[1..];
    SplitCons(s[0], rt);
    SplitCons(s[0], s[1..]);
    if s[0] == '\n' {
      LinesAfterNewline(Split(s[1..]));
    } else {
      LinesAfterChar(s[0], Split(s[1..]));
    }
  }

  /** A newline in front adds an empty first line, which is never dropped. */
  lemma {:induction false} LinesAfterNewline(sp: seq<string>)
    requires |sp| > 0 && |sp[0]| > 0
    ensures [""] + DropEmptyInner(sp) == DropEmptyInner([""] + sp)
  {
    var n := |sp|;
    var u := [""] + sp;
    assert u[1..|u| - 1] == sp[..n - 1] && u[|u| - 1] == sp[n - 1];
    if n > 1 {
      assert sp[..n - 1] == [sp[0]] + sp[1..n - 1];
      NonEmptyAppend([sp[0]], sp[1..n - 1]);
      assert [sp[0]][1..] == [];
      assert NonEmpty([sp[0]]) == [sp[0]];
    } else {
      assert sp[..n - 1] == [];
    }
  }

  /** Another character in front joins the first line, which is never dropped. */
  lemma {:induction false} LinesAfterChar(c: char, sp: seq<string>)
    requires |sp| > 0
    ensures var d := DropEmptyInner(sp);
      |d| > 0 && [[c] + d[0]] + d[1..] == DropEmptyInner([[c] + sp[0]] + sp[1..])
  {
    var n := |sp|;
    var u := [[c] + sp[0]] + sp[1..];
    if n > 1 {
      assert u[1..|u| - 1] == sp[1..n - 1] && u[|u| - 1] == sp[n - 1];
    }
  }

  /** Collapsing runs of newlines never adds one. */
  lemma {:induction false} CollapseNewlineCount(s: string)
    ensures NewlineCount(CollapseNewlines(s)) <= NewlineCount(s)
    decreases |s|
  {
    if |s| > 1 {
      CollapseNewlineCount(s[1..]);
      assert s == [s[0]] + s[1..];
      NewlineCountAppend([s[0]], s[1..]);
      if !(s[0] == '\n' && s[1] == '\n') {
        NewlineCountAppend([s[0]], CollapseNewlines(s[1..]));
      }
    }
  }

  // ---------------------------------------------------------------- split / join on "\n"

  /** `s.split("\n")`: the segments between newlines; always at least one. */
  function Split(s: string): (r: seq<string>)
    ensures |r| > 0
    ensures forall i :: 0 <= i < |r| ==> '\n' !in r[i]
    ensures |s| > 0 && s[0] != '\n' ==> |r[0]| > 0 && r[0][0] == s[0]
    decreases |s|
  {
    if |s| == 0 then [""]
    else
      var rest := Split(s[1..]);
      if s[0] == '\n' then [""] + rest
      else [[s[0]] + rest[0]] + rest[1..]
  }

  /** A split has one more segment than the text has newlines. */
  lemma {:induction false} SplitLength(s: string)
    ensures |Split(s)| == NewlineCount(s) + 1
    decreases |s|
  {
    if |s| > 0 {
      SplitLength(s[1..]);
      assert s == [s[0]] + s[1..];
      NewlineCountAppend([s[0]], s[1..]);
    }
  }

  /** `"\n".join(lines)`. */
  function Join(lines: seq<string>): string
    decreases |lines|
  {
    if |lines| == 0 then ""
    else if |lines| == 1 then lines[0]
    else lines[0] + "\n" + Join(lines[1..])
  }

  /** Joining the segments of a split gives the text back. */
  lemma {:induction false} JoinSplit(s: string)
    ensures Join(Split(s)) == s
    decreases |s|
  {
    if |s| > 0 {
      var rest := Split(s[1..]);
      JoinSplit(s[1..]);
      assert [s[0]] + s[1..] == s;
      if s[0] == '\n' {
        assert Split(s) == [""] + rest;
        JoinCons("", rest);
      } else {
        assert Split(s) == [[s[0]] + rest[0]] + rest[1..];
        JoinHead(s[0], rest);
      }
    }
  }

  lemma {:induction false} JoinCons(x: string, rest: seq<string>)
    requires |rest| > 0
    ensures Join([x] + rest) == x + "\n" + Join(rest)
  {
    assert ([x] + rest)[1..] == rest;
  }

  lemma {:induction false} JoinHead(c: char, rest: seq<string>)
    requires |rest| > 0
    ensures Join([[c] + rest[0]] + rest[1..]) == [c] + Join(rest)
  {
    var head := [c] + rest[0];
    var tail := rest[1..];
    if |rest| == 1 {
      assert [head] + tail == [head];
    } else {
      JoinCons(head, tail);
      assert [rest[0]] + tail == rest;
      JoinCons(rest[0], tail);
      assert head + "\n" + Join(tail) == [c] + (rest[0] + "\n" + Join(tail));
    }
  }

  lemma {:induction false} SplitNoNewline(l: string)
    requires '\n' !in l
    ensures Split(l) == [l]
    decreases |l|
  {
    if |l| > 0 {
      SplitNoNewline(l[1..]);
      assert [l[0]] + l[1..] == l;
    }
  }

  lemma {:induction false} SplitAfterLine(a: string, b: string)
    requires '\n' !in a
    ensures Split(a + "\n" + b) == [a] + Split(b)
    decreases |a|
  {
    if |a| == 0 {
      assert a + "\n" + b == "\n" + b;
      assert ("\n" + b)[1..] == b;
    } else {
      SplitAfterLine(a[1..], b);
      assert (a + "\n" + b)[1..] == a[1..] + "\n" + b;
      assert [a[0]] + a[1..] == a;
    }
  }

  /** Splitting joined lines gives the lines back, when none holds a newline. */
  lemma {:induction false} SplitJoin(lines: seq<string>)
    requires |lines| > 0
    requires forall i :: 0 <= i < |lines| ==> '\n' !in lines[i]
    ensures Split(Join(lines)) == lines
    decreases |lines|
  {
    if |lines| == 1 {
      SplitNoNewline(lines[0]);
    } else {
      SplitJoin(lines[1..]);
      SplitAfterLine(lines[0], Join(lines[1..]));
      assert [lines[0]] + lines[1..] == lines;
    }
  }

  /** Joining `n > 0` newline-free lines puts exactly `n - 1` newlines in the text. */
  lemma {:induction false} JoinNewlineCount(lines: seq<string>)
    requires |lines| > 0
    requires forall i :: 0 <= i < |lines| ==> '\n' !in lines[i]
    ensures NewlineCount(Join(lines)) == |lines| - 1
    decreases |lines|
  {
    NoNewlineCount(lines[0]);
    if |lines| > 1 {
      JoinNewlineCount(lines[1..]);
      NewlineCountAppend(lines[0] + "\n", Join(lines[1..]));
      NewlineCountAppend(lines[0], "\n");
    }
  }

  // ---------------------------------------------------------------- str.split()

  /** The longest prefix of `s` without whitespace. */
  function LeadingWord(s: string): (r: string)
    ensures |r| <= |s| && forall i :: 0 <= i < |r| ==> r[i] == s[i]
    ensures forall j :: 0 <= j < |r| ==> !IsSpace(r[j])
    ensures |r| < |s| ==> IsSpace(s[|r|])
    ensures |s| > 0 && !IsSpace(s[0]) ==> |r| > 0
    decreases |s|
  {
    if |s| == 0 || IsSpace(s[0]) then "" else [s[0]] + LeadingWord(s[1..])
  }

  /** The pieces between single whitespace characters, empty ones included. */
  function Pieces(s: string): (r: seq<string>)
    ensures |r| > 0
    decreases |s|
  {
    if |s| == 0 then [""]
    else
      var rest := Pieces(s[1..]);
      if IsSpace(s[0]) then [""] + rest else [[s[0]] + rest[0]] + rest[1..]
  }

  /**
    `s.split()`: the maximal runs of non-whitespace characters, in order;
    that is, the pieces between whitespace characters with the empty ones
    dropped.
  */
  function Words(s: string): (r: seq<string>)
    ensures forall i :: 0 <= i < |r| ==> |r[i]| > 0
    ensures forall i, j :: 0 <= i < |r| && 0 <= j < |r[i]| ==> !IsSpace(r[i][j])
    ensures r == [] <==> forall i :: 0 <= i < |s| ==> IsSpace(s[i])
    ensures r == NonEmpty(Pieces(s))
    decreases |s|
  {
    if |s| == 0 then []
    else if IsSpace(s[0]) then
      var r := Words(s[1..]);
      WordsAfterSpace(s, r);
      r
    else
      var w := LeadingWord(s);
      var rest := Words(s[|w|..]);
      WordsAfterWord(s, w, rest);
      [w] + rest
  }

  /** A leading whitespace character adds no word. */
  lemma {:induction false} WordsAfterSpace(s: string, r: seq<string>)
    requires |s| > 0 && IsSpace(s[0])
    requires r == [] <==> forall i :: 0 <= i < |s| - 1 ==> IsSpace(s[1..][i])
    requires r == NonEmpty(Pieces(s[1..]))
    ensures r == [] <==> forall i :: 0 <= i < |s| ==> IsSpace(s[i])
    ensures r == NonEmpty(Pieces(s))
  {
    assert forall i :: 1 <= i < |s| ==> s[i] == s[1..][i - 1];
    NonEmptyAppend([""], Pieces(s[1..]));
    assert [""][1..] == [];
  }

  /** A leading word is the first token, followed by the words of the rest. */
  lemma {:induction false} WordsAfterWord(s: string, w: string, rest: seq<string>)
    requires |s| > 0 && !IsSpace(s[0]) && w == LeadingWord(s)
    requires forall i :: 0 <= i < |rest| ==> |rest[i]| > 0
    requires forall i, j :: 0 <= i < |rest| && 0 <= j < |rest[i]| ==> !IsSpace(rest[i][j])
    requires rest == NonEmpty(Pieces(s[|w|..]))
    ensures var r := [w] + rest;
      && (forall i :: 0 <= i < |r| ==> |r[i]| > 0)
      && (forall i, j :: 0 <= i < |r| && 0 <= j < |r[i]| ==> !IsSpace(r[i][j]))
      && r == NonEmpty(Pieces(s))
  {
    var r := [w] + rest;
    assert r == NonEmpty(Pieces(s)) by {
      PiecesAfterWord(s, |w|);
      assert w == s[..|w|];
    }
    forall i, j | 0 <= i < |r| && 0 <= j < |r[i]| ensures !IsSpace(r[i][j]) {
      if i > 0 {
        assert r[i] == rest[i - 1];
      }
    }
  }

  /** The first piece of `s` runs through the non-whitespace prefix `s[..n]` into the first piece of the rest. */
  lemma {:induction false} PiecesPrefix(s: string, n: nat)
    requires n <= |s| && forall i :: 0 <= i < n ==> !IsSpace(s[i])
    ensures Pieces(s) == [s[..n] + Pieces(s[n..])[0]] + Pieces(s[n..])[1..]
    decreases n
  {
    var p := Pieces(s[n..]);
    if n == 0 {
      assert s[..0] + p[0] == p[0] && s[0..] == s;
      assert [p[0]] + p[1..] == p;
    } else {
      var q := Pieces(s[1..]);
      assert Pieces(s) == [[s[0]] + q[0]] + q[1..];
      PiecesPrefix(s[1..], n - 1);
      assert s[1..][n - 1..] == s[n..];
      assert q[0] == s[1..][..n - 1] + p[0] && q[1..] == p[1..];
      assert [s[0]] + (s[1..][..n - 1] + p[0]) == s[..n] + p[0];
    }
  }

  /** After the leading word, the next piece is empty, so the words are that word and the words of the rest. */
  lemma {:induction false} PiecesAfterWord(s: string, n: nat)
    requires 0 < n <= |s| && n == |LeadingWord(s)|
    ensures NonEmpty(Pieces(s)) == [s[..n]] + NonEmpty(Pieces(s[n..]))
  {
    var p := Pieces(s[n..]);
    assert p[0] == "" && Pieces(s) == [s[..n]] + p[1..] by {
      assert LeadingWord(s) == s[..n];
      PiecesPrefix(s, n);
      if n < |s| {
        assert IsSpace(s[n..][0]);
      }
      assert s[..n] + p[0] == s[..n];
    }
    NonEmptyFront(s[..n], p);
  }

  /** A non-empty string in front is kept, and an empty first string is dropped. */
  lemma {:induction false} NonEmptyFront(w: string, p: seq<string>)
    requires w != "" && |p| > 0 && p[0] == ""
    ensures NonEmpty([w] + p[1..]) == [w] + NonEmpty(p)
  {
    assert ([w] + p[1..])[1..] == p[1..];
  }

  // ---------------------------------------------------------------- str(int) and int(str)

  predicate IsDigit(c: char)
  {
    '0' <= c <= '9'
  }

  function DigitChar(d: nat): (c: char)
    requires d < 10
    ensures IsDigit(c)
  {
    ('0' as int + d) as char
  }

  /** Decimal digits of `n`, most significant first, no leading zero. */
  function NatToString(n: nat): (r: string)
    ensures |r| > 0 && forall i :: 0 <= i < |r| ==> IsDigit(r[i])
    ensures r[0] == '0' <==> n == 0
    ensures |r| == 1 <==> n < 10
    decreases n
  {
    if n < 10 then [DigitChar(n)] else NatToString(n / 10) + [DigitChar(n % 10)]
  }

  /** `str(n)` for an integer. */
  function IntToString(n: int): (r: string)
    ensures |r| > 0 && forall i :: 0 <= i < |r| ==> IsDigit(r[i]) || (i == 0 && r[i] == '-')
    ensures r[0] == '-' <==> n < 0
    ensures r[0] == '0' <==> n == 0
    ensures n < 0 ==> |r| > 1 && r[1] != '0'
    ensures n == 0 ==> r == "0"
  {
    if n < 0 then "-" + NatToString(-n) else NatToString(n)
  }

  /** The digit string accepted by `int()`: digits, each underscore between two digits. */
  predicate DigitString(s: string)
  {
    && |s| > 0
    && IsDigit(s[0])
    && DigitsOrUnderscores(s)
    && forall i :: 0 <= i < |s| && s[i] == '_' ==> i + 1 < |s| && IsDigit(s[i + 1])
  }

  predicate DigitsOrUnderscores(s: string)
  {
    forall i :: 0 <= i < |s| ==> IsDigit(s[i]) || s[i] == '_'
  }

  function DigitValue(c: char): nat
    requires IsDigit(c)
  {
    c as int - '0' as int
  }

  /** Value of a digit string, underscores ignored. */
  function DigitsValue(s: string): nat
    requires DigitsOrUnderscores(s)
    decreases |s|
  {
    if |s| == 0 then 0
    else if s[|s| - 1] == '_' then DigitsValue(s[..|s| - 1])
    else 10 * DigitsValue(s[..|s| - 1]) + DigitValue(s[|s| - 1])
  }

  /** `int(s)` in base 10 on an ASCII string without surrounding whitespace; `None` is `ValueError`. */
  function ParseInt(s: string): Option<int>
  {
    if |s| > 0 && (s[0] == '+' || s[0] == '-') then
      var body := s[1..];
      if DigitString(body) then
        var v: int := DigitsValue(body);
        Some(if s[0] == '-' then -v else v)
      else None
    else if DigitString(s) then Some(DigitsValue(s))
    else None
  }

  lemma {:induction false} DigitsValueOfNat(n: nat)
    ensures DigitsValue(NatToString(n)) == n
    decreases n
  {
    if n >= 10 {
      DigitsValueOfNat(n / 10);
      var s := NatToString(n);
      assert s[..|s| - 1] == NatToString(n / 10);
    }
  }

  /** `int(str(n)) == n`. */
  lemma {:induction false} ParseIntToString(n: int)
    ensures ParseInt(IntToString(n)) == Some(n)
  {
    if n < 0 {
      var s := IntToString(n);
      assert s[1..] == NatToString(-n);
      DigitsValueOfNat(-n);
    } else {
      DigitsValueOfNat(n);
    }
  }

  // ---------------------------------------------------------------- slicing

  /** Where Python's slice bound `k` lands in a sequence of length `n`. */
  function SliceIndex(k: int, n: nat): (r: nat)
    ensures r <= n
    ensures 0 <= k <= n ==> r == k
    ensures k > n ==> r == n
    ensures k < 0 ==> r == if n + k < 0 then 0 else n + k
  {
    if k < 0 then (if k + n < 0 then 0 else k + n) else if k > n then n else k
  }

  /** `s[:k]`. */
  function SliceTo<T>(s: seq<T>, k: int): seq<T>
  {
    s[..SliceIndex(k, |s|)]
  }

  /** `s[k:]`. */
  function SliceFrom<T>(s: seq<T>, k: int): seq<T>
  {
    s[SliceIndex(k, |s|)..]
  }
}
