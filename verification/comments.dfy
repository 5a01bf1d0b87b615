/**
 * The comment stripper the text font reader runs over the file's lines before
 * looking for keys: `//` cuts the rest of a line, `/* ... */` blocks may span
 * lines. Below, the opener is slash-star and the closer is star-slash. One
 * boolean, "inside a block comment", is carried from line to line, and every
 * input line yields at most one output line.
 */
module Comments {
  import opened Wrappers
  import opened PyStr

  /** What one line contributes, and whether a block comment is open after it. */
  datatype Step = Step(emitted: Option<string>, inComment: bool)

  /** A line outside any comment, after `//` handling: cut at `//`, a newline put back. */
  function CutLineComment(line: string): (r: string)
  {
    if Contains(line, "//") then Before(line, "//") + "\n" else line
  }

  /** What follows the first closer of `line`, kept unless it is empty. */
  function AfterClose(line: string): Option<string>
  {
    var after := After(line, "*/");
    if after != "" then Some(after) else None
  }

  /**
   * One iteration of the loop of `_remove_lines_comments`. Outside a block,
   * an opener with text before it emits that text and opens a block, even when a
   * closer follows on the same line; an opener at the start of the line closes again
   * at a closer on the same line and emits what follows it.
   */
  function StepLine(line: string, inComment: bool): Step
  {
    if !inComment then
      var l := CutLineComment(line);
      if Contains(l, "/*") then
        var before := Before(l, "/*");
        if before != "" then Step(Some(before), true)
        else if Contains(l, "*/") then Step(AfterClose(l), false)
        else Step(Some("\n"), true)
      else Step(Some(l), false)
    else if Contains(line, "*/") then Step(AfterClose(line), false)
    else Step(Some("\n"), true)
  }

  /**
   * What one line does. Outside a block, the text emitted holds no `//`, and
   * only a line with an opener opens a block. Inside a block, the block closes
   * exactly at a line with a closer; the text emitted then is a tail of the
   * line, and while the block stays open the line becomes a bare newline.
   */
  lemma StepLineSpec(line: string, inComment: bool)
    ensures var st := StepLine(line, inComment);
      && (!inComment && st.emitted.Some? ==> !Contains(st.emitted.value, "//"))
      && (!inComment && st.inComment ==> Contains(line, "/*"))
      && (inComment ==> (st.inComment <==> !Contains(line, "*/")))
      && (inComment && st.inComment ==> st.emitted == Some("\n"))
      && (inComment && !st.inComment && st.emitted.Some? ==>
            st.emitted.value == line[|line| - |st.emitted.value|..])
  {
    var st := StepLine(line, inComment);
    MissingCharNotContained("\n", "//", '/');
    if !inComment {
      var l := CutLineComment(line);
      if Contains(line, "//") {
        BeforeLacks(line, "//");
        AppendKeepsLack(Before(line, "//"), '\n', "//");
        assert l == Before(line, "//") + ['\n'];
      }
      assert !Contains(l, "//");
      if Contains(l, "/*") {
        var k := Find(l, "/*").value;
        if Before(l, "/*") != "" {
          if Contains(l[..k], "//") {
            ContainedInSlice(l, 0, k, "//");
          }
        } else if Contains(l, "*/") {
          var e := Find(l, "*/").value + 2;
          if Contains(l[e..], "//") {
            assert l[e..] == l[e..|l|];
            ContainedInSlice(l, e, |l|, "//");
          }
        }
        if Contains(line, "//") {
          var b := Before(line, "//");
          if !Contains(b, "/*") {
            assert l == b + ['\n'];
            AppendKeepsLack(b, '\n', "/*");
          }
          ContainedInSlice(line, 0, |b|, "/*");
        }
      }
    }
  }

  /** The output of the loop over `lines`, entered with the block state `inComment`. */
  function StripFrom(lines: seq<string>, inComment: bool): (r: seq<string>)
    ensures |r| <= |lines|
  {
    if |lines| == 0 then []
    else
      var st := StepLine(lines[0], inComment);
      var rest := StripFrom(lines[1..], st.inComment);
      match st.emitted
      case Some(l) => [l] + rest
      case None => rest
  }

  /** `_remove_lines_comments(lines)`: starts outside any block. */
  function RemoveLinesComments(lines: seq<string>): (r: seq<string>)
    ensures |r| <= |lines|
    ensures |lines| == 0 ==> r == []
  {
    StripFrom(lines, false)
  }

  // ---------------------------------------------------------------------------
  // One line
  // ---------------------------------------------------------------------------

  /** Outside a block, a line with neither `//` nor an opener passes through unchanged. */
  lemma PlainLinePasses(line: string)
    requires !Contains(line, "//") && !Contains(line, "/*")
    ensures StepLine(line, false) == Step(Some(line), false)
  {
  }

  /** Outside a block, `//` cuts the line there and a newline is put back. */
  lemma LineCommentCuts(line: string)
    requires Contains(line, "//") && !Contains(Before(line, "//") + "\n", "/*")
    ensures StepLine(line, false) == Step(Some(line[..Find(line, "//").value] + "\n"), false)
  {
  }

  /** Inside a block, a line without a closer becomes a bare newline and the block stays open. */
  lemma InsideBlockLine(line: string)
    requires !Contains(line, "*/")
    ensures StepLine(line, true) == Step(Some("\n"), true)
  {
  }

  /** Inside a block, the first closer closes it; the text after it is emitted unless empty. */
  lemma BlockCloses(line: string)
    requires Contains(line, "*/")
    ensures var k := Find(line, "*/").value;
      && StepLine(line, true).inComment == false
      && StepLine(line, true).emitted == (if k + 2 < |line| then Some(line[k + 2..]) else None)
  {
  }

  /**
   * Text before an opener opens a block even when the same line closes it again:
   * the text is emitted and the next line is read as comment.
   */
  lemma CodeBeforeBlockStaysOpen(line: string)
    requires !Contains(line, "//") && Contains(line, "/*") && Find(line, "/*").value > 0
    ensures StepLine(line, false) == Step(Some(line[..Find(line, "/*").value]), true)
  {
  }

  // ---------------------------------------------------------------------------
  // Whole texts
  // ---------------------------------------------------------------------------

  /** No line opens a block comment once its `//` comment is cut. */
  predicate NoBlockComments(lines: seq<string>) {
    forall k :: 0 <= k < |lines| ==> !Contains(CutLineComment(lines[k]), "/*")
  }

  /** Cutting the `//` comment of every line, independently. */
  function CutAll(lines: seq<string>): (r: seq<string>)
    ensures |r| == |lines|
    ensures forall k :: 0 <= k < |lines| ==> r[k] == CutLineComment(lines[k])
  {
    seq(|lines|, k requires 0 <= k < |lines| => CutLineComment(lines[k]))
  }

  /** Without block comments the stripper is a line-by-line map: one output line per input line. */
  lemma {:induction false} NoBlockCommentsIsMap(lines: seq<string>)
    requires NoBlockComments(lines)
    ensures RemoveLinesComments(lines) == CutAll(lines)
  {
    if |lines| > 0 {
      assert NoBlockComments(lines[1..]) by {
        forall k | 0 <= k < |lines| - 1 ensures !Contains(CutLineComment(lines[1..][k]), "/*") {
          assert lines[1..][k] == lines[k + 1];
        }
      }
      NoBlockCommentsIsMap(lines[1..]);
      assert CutAll(lines) == [CutLineComment(lines[0])] + CutAll(lines[1..]);
    }
  }

  /** Every line of a text without a closer, read inside a block, becomes a bare newline. */
  predicate NoBlockClose(lines: seq<string>) {
    forall k :: 0 <= k < |lines| ==> !Contains(lines[k], "*/")
  }

  lemma {:induction false} InsideBlockText(lines: seq<string>)
    requires NoBlockClose(lines)
    ensures StripFrom(lines, true) == seq(|lines|, _ => "\n")
  {
    if |lines| > 0 {
      assert NoBlockClose(lines[1..]) by {
        forall k | 0 <= k < |lines| - 1 ensures !Contains(lines[1..][k], "*/") {
          assert lines[1..][k] == lines[k + 1];
        }
      }
      InsideBlockText(lines[1..]);
      assert seq(|lines|, _ => "\n") == ["\n"] + seq(|lines| - 1, _ => "\n");
    }
  }
}
