/**
 * The wrapped, height-bounded comment buffer (src/comment_buffer.rs).
 *
 * A comment is cut into lines whose display width is at most `width`, the
 * lines are appended to the buffer, and the oldest lines are dropped until at
 * most `height` remain. The display width of a character comes from a
 * Unicode width table that is not part of this model; every operation takes it
 * as a parameter `cw`.
 */
module CommentBuffers {

  /** The display width of a line: the sum of its characters' widths. */
  function LineWidth(line: string, cw: char -> nat): nat
  {
    if line == [] then 0 else LineWidth(line[..|line| - 1], cw) + cw(line[|line| - 1])
  }

  /** A line fits when it is at most `width` wide, or is one character too wide to fit anywhere. */
  predicate Fits(line: string, width: nat, cw: char -> nat)
  {
    LineWidth(line, cw) <= width || (|line| == 1 && cw(line[0]) > width)
  }

  /**
   * The lines `push` appends for the characters `rest` when the line being
   * built is `line`: a character that would overflow the line closes it and
   * starts the next one; the last line is flushed only if it is not empty.
   */
  function WrapFrom(rest: string, line: string, width: nat, cw: char -> nat): seq<string>
    decreases |rest|
  {
    if rest == [] then (if line == [] then [] else [line])
    else if LineWidth(line, cw) + cw(rest[0]) > width then [line] + WrapFrom(rest[1..], [rest[0]], width, cw)
    else WrapFrom(rest[1..], line + [rest[0]], width, cw)
  }

  /** The lines one `push` of `comment` appends, before trimming. */
  function Wrap(comment: string, width: nat, cw: char -> nat): seq<string>
  {
    WrapFrom(comment, [], width, cw)
  }

  /** Every line fits. */
  predicate AllFit(lines: seq<string>, width: nat, cw: char -> nat)
  {
    forall j :: 0 <= j < |lines| ==> Fits(lines[j], width, cw)
  }

  /** Greedy breaking: each line after the first is non-empty, and its first character would have overflowed the line before. */
  predicate Greedy(lines: seq<string>, width: nat, cw: char -> nat)
  {
    forall j :: 1 <= j < |lines| ==> lines[j] != [] && LineWidth(lines[j - 1], cw) + cw(lines[j][0]) > width
  }

  function Flatten(lines: seq<string>): string
  {
    if lines == [] then [] else lines[0] + Flatten(lines[1..])
  }

  /** The longest suffix of `s` of length at most `h`. */
  function KeepLast<T>(s: seq<T>, h: nat): (r: seq<T>)
    ensures |r| <= h && |r| <= |s| && r == s[|s| - |r|..]
    ensures |r| == |s| || |r| == h
  {
    if |s| <= h then s else s[|s| - h..]
  }

  /** A suffix of at most `h` elements that is all of `s` or has exactly `h` is the one `KeepLast` keeps. */
  lemma SuffixIsKeepLast<T>(s: seq<T>, r: seq<T>, h: nat)
    requires |r| <= |s| && r == s[|s| - |r|..]
    requires |r| <= h && (|r| == h || r == s)
    ensures r == KeepLast(s, h)
  {
  }

  // ---------------------------------------------------------------------------
  // What wrapping promises

  lemma LineWidthSnoc(line: string, c: char, cw: char -> nat)
    ensures LineWidth(line + [c], cw) == LineWidth(line, cw) + cw(c)
  {
    assert (line + [c])[..|line|] == line;
  }

  /** One character of the loop in `push`: it closes the line being built, or joins it. */
  lemma WrapFromStep(comment: string, i: nat, line: string, width: nat, cw: char -> nat)
    requires i < |comment|
    ensures WrapFrom(comment[i..], line, width, cw) ==
      if LineWidth(line, cw) + cw(comment[i]) > width
      then [line] + WrapFrom(comment[i + 1..], [comment[i]], width, cw)
      else WrapFrom(comment[i + 1..], line + [comment[i]], width, cw)
  {
    assert comment[i..][0] == comment[i] && comment[i..][1..] == comment[i + 1..];
  }

  /** The lines put back together are the comment. */
  lemma {:induction false} WrapFromConcat(rest: string, line: string, width: nat, cw: char -> nat)
    ensures Flatten(WrapFrom(rest, line, width, cw)) == line + rest
    decreases |rest|
  {
    if rest == [] {
      assert line + rest == line;
      if line != [] {
        assert Flatten([line]) == line + Flatten([]);
      }
    } else {
      var c, more := rest[0], rest[1..];
      assert rest == [c] + more;
      if LineWidth(line, cw) + cw(c) > width {
        WrapFromConcat(more, [c], width, cw);
        var lines := [line] + WrapFrom(more, [c], width, cw);
        assert lines[1..] == WrapFrom(more, [c], width, cw);
        assert Flatten(lines) == line + ([c] + more);
      } else {
        WrapFromConcat(more, line + [c], width, cw);
        assert (line + [c]) + more == line + rest;
      }
    }
  }

  /** Every line fits, provided the line being built so far does. */
  lemma {:induction false} WrapFromFits(rest: string, line: string, width: nat, cw: char -> nat)
    requires Fits(line, width, cw)
    ensures AllFit(WrapFrom(rest, line, width, cw), width, cw)
    decreases |rest|
  {
    if rest != [] {
      var c, more := rest[0], rest[1..];
      if LineWidth(line, cw) + cw(c) > width {
        LineWidthSnoc([], c, cw);
        assert [] + [c] == [c];
        WrapFromFits(more, [c], width, cw);
      } else {
        LineWidthSnoc(line, c, cw);
        WrapFromFits(more, line + [c], width, cw);
      }
    }
  }

  /** A non-empty line being built starts the first line produced. */
  lemma {:induction false} WrapFromHead(rest: string, line: string, width: nat, cw: char -> nat)
    requires line != []
    ensures WrapFrom(rest, line, width, cw) != []
    ensures WrapFrom(rest, line, width, cw)[0] != [] && WrapFrom(rest, line, width, cw)[0][0] == line[0]
    decreases |rest|
  {
    if rest != [] && LineWidth(line, cw) + cw(rest[0]) <= width {
      WrapFromHead(rest[1..], line + [rest[0]], width, cw);
    }
  }

  /** Once a character is on the line being built, no empty line is produced. */
  lemma {:induction false} WrapFromNonEmpty(rest: string, line: string, width: nat, cw: char -> nat)
    requires line != []
    ensures forall j :: 0 <= j < |WrapFrom(rest, line, width, cw)| ==> WrapFrom(rest, line, width, cw)[j] != []
    decreases |rest|
  {
    if rest != [] {
      if LineWidth(line, cw) + cw(rest[0]) > width {
        WrapFromNonEmpty(rest[1..], [rest[0]], width, cw);
      } else {
        WrapFromNonEmpty(rest[1..], line + [rest[0]], width, cw);
      }
    }
  }

  /** A line is closed only when the next line's first character would overflow it. */
  lemma {:induction false} WrapFromGreedy(rest: string, line: string, width: nat, cw: char -> nat)
    ensures Greedy(WrapFrom(rest, line, width, cw), width, cw)
    decreases |rest|
  {
    if rest != [] {
      var c, more := rest[0], rest[1..];
      if LineWidth(line, cw) + cw(c) > width {
        WrapFromGreedy(more, [c], width, cw);
        WrapFromHead(more, [c], width, cw);
      } else {
        WrapFromGreedy(more, line + [c], width, cw);
      }
    }
  }

  /** Wrapping a comment: the lines spell the comment out and each one fits. */
  lemma WrapConcatFits(comment: string, width: nat, cw: char -> nat)
    ensures Flatten(Wrap(comment, width, cw)) == comment
    ensures AllFit(Wrap(comment, width, cw), width, cw)
  {
    WrapFromConcat(comment, [], width, cw);
    assert [] + comment == comment;
    WrapFromFits(comment, [], width, cw);
  }

  /** Wrapping a comment: a line is closed only when the next character would overflow it. */
  lemma WrapGreedy(comment: string, width: nat, cw: char -> nat)
    ensures Greedy(Wrap(comment, width, cw), width, cw)
  {
    WrapFromGreedy(comment, [], width, cw);
  }

  /**
   * Which lines can be empty: an empty comment gives no lines; otherwise the
   * last line is non-empty, and only the first line can be empty, which happens
   * exactly when the comment's first character is wider than `width`.
   */
  lemma WrapShape(comment: string, width: nat, cw: char -> nat)
    ensures var lines := Wrap(comment, width, cw);
      && (lines == [] <==> comment == [])
      && (lines != [] ==> lines[|lines| - 1] != [])
      && (forall j :: 1 <= j < |lines| ==> lines[j] != [])
      && (lines != [] ==> (lines[0] == [] <==> cw(comment[0]) > width))
  {
    if comment != [] {
      var c, more := comment[0], comment[1..];
      assert [] + [c] == [c];
      WrapFromNonEmpty(more, [c], width, cw);
      WrapFromHead(more, [c], width, cw);
    }
  }

  // ---------------------------------------------------------------------------
  // The buffer

  /** `CommentBuffer`: the most recent wrapped lines, oldest first. */
  class CommentBuffer {
    var comments: seq<string>
    var width: nat
    var height: nat

    /** The buffer never holds more than `height` lines. */
    ghost predicate Valid()
      reads this
    {
      |comments| <= height
    }

    /** `new`: an empty buffer of the given width and height. */
    constructor (width: nat, height: nat)
      ensures Valid()
      ensures this.width == width && this.height == height && comments == []
    {
      comments := [];
      this.width := width;
      this.height := height;
    }

    /**
     * `push`: wrap the comment into lines, append them, then drop lines from
     * the front until at most `height` remain.
     */
    method Push(comment: string, cw: char -> nat)
      modifies this`comments
      ensures width == old(width) && height == old(height)
      ensures Valid()
      ensures comments == KeepLast(old(comments) + Wrap(comment, width, cw), height)
    {
      var currentLine: string := [];
      var currentWidth: nat := 0;
      ghost var appended: seq<string> := [];
      for i := 0 to |comment|
        invariant comments == old(comments) + appended
        invariant currentWidth == LineWidth(currentLine, cw)
        invariant appended + WrapFrom(comment[i..], currentLine, width, cw) == Wrap(comment, width, cw)
      {
        var c := comment[i];
        var cWidth := cw(c);
        WrapFromStep(comment, i, currentLine, width, cw);
        ghost var later := WrapFrom(comment[i + 1..],
          if currentWidth + cWidth > width then [c] else currentLine + [c], width, cw);
        if currentWidth + cWidth > width {
          assert appended + ([currentLine] + later) == (appended + [currentLine]) + later;
          comments := comments + [currentLine];
          appended := appended + [currentLine];
          currentLine := [];
          currentWidth := 0;
          assert currentLine + [c] == [c];
        }
        LineWidthSnoc(currentLine, c, cw);
        currentLine := currentLine + [c];
        currentWidth := currentWidth + cWidth;
      }
      if currentLine != [] {
        comments := comments + [currentLine];
        appended := appended + [currentLine];
      }
      assert appended == Wrap(comment, width, cw);
      assert comments == old(comments) + Wrap(comment, width, cw);
      DropOldest();
    }

    /** The trimming loop at the end of `push`: drops the oldest lines until at most `height` remain. */
    method DropOldest()
      modifies this`comments
      ensures comments == KeepLast(old(comments), height)
    {
      ghost var full := comments;
      while |comments| > height
        invariant |comments| <= |full| && comments == full[|full| - |comments|..]
        invariant |comments| >= height || comments == full
      {
        assert full[|full| - |comments|..][1..] == full[|full| - |comments| + 1..];
        comments := comments[1..];
      }
      SuffixIsKeepLast(full, comments, height);
    }

    /** `comments`: the lines currently held, at most `height` of them. */
    function Comments(): (r: seq<string>)
      reads this
      requires Valid()
      ensures |r| <= height
    {
      comments
    }
  }
}
