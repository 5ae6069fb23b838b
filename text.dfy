/**
 * The string primitives the extension relies on: `String.prototype.trim`,
 * `startsWith`, `endsWith`, `split('\n')` and `join('\n')`.
 * Trimming is restricted to space, tab, LF, CR, VT and FF.
 */
module Text {

  /** The characters removed by `trim` here: space, tab, LF, CR, VT and FF. */
  predicate IsSpace(c: char) {
    c == ' ' || c == '\t' || c == '\n' || c == '\r' || c == '\U{B}' || c == '\U{C}'
  }

  function TrimStart(s: string): string {
    if s != [] && IsSpace(s[0]) then TrimStart(s[1..]) else s
  }

  function TrimEnd(s: string): string {
    if s != [] && IsSpace(s[|s| - 1]) then TrimEnd(s[..|s| - 1]) else s
  }

  /** `s.trim()`: `s` without its leading and trailing whitespace. */
  function Trim(s: string): string {
    TrimEnd(TrimStart(s))
  }

  /** `r` sits in `s` at offset `i`, and everything around it is whitespace. */
  ghost predicate TrimmedAt(s: string, r: string, i: int) {
    && 0 <= i && i + |r| <= |s| && s[i..i + |r|] == r
    && (forall j :: 0 <= j < i ==> IsSpace(s[j]))
    && (forall j :: i + |r| <= j < |s| ==> IsSpace(s[j]))
  }

  lemma {:induction false} TrimStartSpec(s: string)
    ensures var r := TrimStart(s);
            TrimmedAt(s, r, |s| - |r|) && (r == [] || !IsSpace(r[0]))
  {
    if s != [] && IsSpace(s[0]) {
      TrimStartSpec(s[1..]);
    }
  }

  lemma {:induction false} TrimEndSpec(s: string)
    ensures var r := TrimEnd(s);
            TrimmedAt(s, r, 0) && (r == [] || !IsSpace(r[|r| - 1]))
  {
    if s != [] && IsSpace(s[|s| - 1]) {
      TrimEndSpec(s[..|s| - 1]);
    }
  }

  /** The trimmed line is an infix of the line, with only whitespace cut off either side, and no whitespace left at its ends. */
  lemma TrimSpec(s: string)
    ensures var r := Trim(s);
            && (r == [] || (!IsSpace(r[0]) && !IsSpace(r[|r| - 1])))
            && exists i :: TrimmedAt(s, r, i)
  {
    var t := TrimStart(s);
    TrimStartSpec(s);
    TrimEndSpec(t);
    var r := TrimEnd(t);
    var i := |s| - |t|;
    assert s[i..i + |r|] == t[..|r|];
    assert TrimmedAt(s, r, i);
  }

  /** `s.startsWith(p)`. */
  predicate StartsWith(s: string, p: string) {
    |p| <= |s| && s[..|p|] == p
  }

  /** `s.endsWith(p)`. */
  predicate EndsWith(s: string, p: string) {
    |p| <= |s| && s[|s| - |p|..] == p
  }

  lemma EndsWithIffSuffix(s: string, p: string)
    ensures EndsWith(s, p) <==> exists q :: s == q + p
  {
    if EndsWith(s, p) {
      assert s == s[..|s| - |p|] + p;
    }
    if q :| s == q + p {
      assert s[|s| - |p|..] == p;
    }
  }

  /** `lines.join('\n')`. */
  function Join(lines: seq<string>): (r: string)
    ensures lines == [] ==> r == ""
  {
    if |lines| == 0 then ""
    else if |lines| == 1 then lines[0]
    else lines[0] + "\n" + Join(lines[1..])
  }

  /** `lines.slice(lo, hi).join('\n')`, walking the indices instead of copying the slice. */
  function JoinRange(lines: seq<string>, lo: nat, hi: nat): string
    requires lo <= hi <= |lines|
    decreases hi - lo
  {
    if hi - lo == 0 then ""
    else if hi - lo == 1 then lines[lo]
    else lines[lo] + "\n" + JoinRange(lines, lo + 1, hi)
  }

  /** Walking the indices gives the join of the slice. */
  lemma {:induction false} JoinRangeIsJoin(lines: seq<string>, lo: nat, hi: nat)
    requires lo <= hi <= |lines|
    ensures JoinRange(lines, lo, hi) == Join(lines[lo..hi])
    decreases hi - lo
  {
    if hi - lo > 1 {
      JoinRangeIsJoin(lines, lo + 1, hi);
      assert lines[lo..hi][1..] == lines[lo + 1..hi];
    }
  }

  /** `s.split('\n')`: always at least one piece, and no piece holds a line feed. */
  function Split(s: string): (r: seq<string>)
    ensures |r| >= 1
  {
    if s == [] then [""]
    else if s[0] == '\n' then [""] + Split(s[1..])
    else
      var rest := Split(s[1..]);
      [[s[0]] + rest[0]] + rest[1..]
  }

  /** No piece of a split holds a line feed. */
  lemma {:induction false} SplitNoBreaks(s: string)
    ensures forall i :: 0 <= i < |Split(s)| ==> '\n' !in Split(s)[i]
  {
    if s != [] {
      SplitNoBreaks(s[1..]);
      if s[0] != '\n' {
        var rest := Split(s[1..]);
        assert forall i :: 1 <= i < |rest| ==> '\n' !in rest[i];
        assert Split(s) == [[s[0]] + rest[0]] + rest[1..];
      }
    }
  }

  /** Joining the pieces of a split gives the text back. */
  lemma {:induction false} JoinSplit(s: string)
    ensures Join(Split(s)) == s
  {
    if s == [] {
    } else if s[0] == '\n' {
      JoinSplit(s[1..]);
      var rest := Split(s[1..]);
      if |rest| == 1 {
        assert Join([""] + rest) == "" + "\n" + rest[0];
      } else {
        assert ([""] + rest)[1..] == rest;
      }
      assert s == "\n" + s[1..];
    } else {
      JoinSplit(s[1..]);
      var rest := Split(s[1..]);
      var r := [[s[0]] + rest[0]] + rest[1..];
      if |rest| == 1 {
        assert Join(r) == [s[0]] + rest[0];
      } else {
        assert r[1..] == rest[1..];
        assert Join(rest) == rest[0] + "\n" + Join(rest[1..]);
      }
      assert s == [s[0]] + s[1..];
    }
  }

  lemma {:induction false} SplitNoBreakPrefix(a: string, rest: string)
    requires '\n' !in a
    ensures Split(a + rest) == [a + Split(rest)[0]] + Split(rest)[1..]
  {
    if a != [] {
      SplitNoBreakPrefix(a[1..], rest);
      assert (a + rest)[1..] == a[1..] + rest;
      assert (a + rest)[0] == a[0];
      assert [a[0]] + (a[1..] + Split(rest)[0]) == a + Split(rest)[0];
    } else {
      assert a + rest == rest && a + Split(rest)[0] == Split(rest)[0];
      assert Split(rest) == [Split(rest)[0]] + Split(rest)[1..];
    }
  }

  /** Splitting a join of line-feed-free lines gives the lines back. */
  lemma {:induction false} SplitJoin(lines: seq<string>)
    requires |lines| >= 1
    requires forall i :: 0 <= i < |lines| ==> '\n' !in lines[i]
    ensures Split(Join(lines)) == lines
  {
    if |lines| == 1 {
      SplitNoBreakPrefix(lines[0], "");
      assert Split("") == [""];
      assert lines[0] + "" == lines[0];
      assert lines == [lines[0]];
    } else {
      SplitJoin(lines[1..]);
      var tail := Join(lines[1..]);
      assert Join(lines) == lines[0] + ("\n" + tail);
      SplitNoBreakPrefix(lines[0], "\n" + tail);
      assert ("\n" + tail)[0] == '\n' && ("\n" + tail)[1..] == tail;
      assert Split("\n" + tail) == [""] + lines[1..];
      assert lines[0] + "" == lines[0];
      assert lines == [lines[0]] + lines[1..];
    }
  }
}
