/** The line classifier of the sample pipeline: a two-state scanner ("normal" or
    "inside a block comment") that labels each line of a Java file as valid code
    or not. The caller threads the block-comment flag from one line to the next. */
module LineClassifier {
  import opened Text

  /** Stripped lines that hold punctuation only and are never valid code. */
  const SyntaxOnlyLines: set<string> := {"}", ")", "};", "},", "{", "(", ";", ",", "]", "[", "->"}

  /** What the classifier says of one line: whether it is valid code, and whether
      the scan is inside a block comment after it. */
  datatype Classification = Classification(valid: bool, inBlockComment: bool)

  /** Classifies one line given the block-comment state left by the line before. */
  function IsValidCodeLine(line: string, inBlockComment: bool): (r: Classification)
    ensures r.valid ==> !r.inBlockComment
    ensures inBlockComment ==> !r.valid
  {
    var stripped := Strip(line);
    if inBlockComment then
      if Contains(stripped, "*/") then Classification(false, false)
      else Classification(false, true)
    else if StartsWith(stripped, "/*") then Classification(false, true)
    else if StartsWith(stripped, "//") then Classification(false, false)
    else if stripped == [] then Classification(false, false)
    else if stripped in SyntaxOnlyLines then Classification(false, false)
    else Classification(true, false)
  }

  /** The classifier's verdict written without its order of tests: a line is
      valid exactly when the scan is not in a comment and its stripped text is
      non-empty, opens no comment and is not punctuation only; the scan is inside
      a comment afterwards exactly when it was and the line does not close it, or
      it was not and the line opens one (whether or not the same line closes it). */
  lemma ClassificationCharacterised(line: string, inBlockComment: bool)
    ensures var s := Strip(line);
      && IsValidCodeLine(line, inBlockComment).valid ==
           (!inBlockComment && s != [] && !StartsWith(s, "/*") && !StartsWith(s, "//")
            && s !in SyntaxOnlyLines)
      && IsValidCodeLine(line, inBlockComment).inBlockComment ==
           ((inBlockComment && !Contains(s, "*/")) || (!inBlockComment && StartsWith(s, "/*")))
  {
  }

  /** Inside a block comment no line is valid, and the scan leaves the comment
      exactly on a line whose stripped text contains the closing marker. */
  lemma InsideBlockComment(line: string)
    ensures !IsValidCodeLine(line, true).valid
    ensures !IsValidCodeLine(line, true).inBlockComment <==>
            exists i :: OccursAt(Strip(line), "*/", i)
  {
    ContainsExactly(Strip(line), "*/");
  }

  /** The scan over a file: the indices of the valid lines, in order, and the
      block-comment state after the last line. The scan starts outside a comment. */
  function Scan(lines: seq<string>): (r: (seq<nat>, bool))
    ensures forall k :: 0 <= k < |r.0| ==> r.0[k] < |lines|
  {
    if lines == [] then ([], false)
    else
      var prev := Scan(lines[..|lines| - 1]);
      var c := IsValidCodeLine(lines[|lines| - 1], prev.1);
      (if c.valid then prev.0 + [|lines| - 1] else prev.0, c.inBlockComment)
  }

  /** The indices of the lines the scan classifies as valid code. */
  function ValidIndices(lines: seq<string>): seq<nat>
  {
    Scan(lines).0
  }

  /** The block-comment state in which the scan reaches line `i`. */
  function StateBefore(lines: seq<string>, i: nat): bool
    requires i <= |lines|
  {
    Scan(lines[..i]).1
  }

  /** An index is collected exactly when it names a line that the classifier,
      in the state the scan reaches it in, calls valid. */
  lemma {:induction false} ValidIndicesExactly(lines: seq<string>, i: int)
    ensures i in ValidIndices(lines) <==>
            0 <= i < |lines| && IsValidCodeLine(lines[i], StateBefore(lines, i)).valid
  {
    if lines != [] {
      var init := lines[..|lines| - 1];
      assert lines[..|lines|] == lines;
      if 0 <= i < |init| {
        assert init[..i] == lines[..i];
      }
      ValidIndicesExactly(init, i);
    }
  }

  /** A file made of one block comment: it opens on the first line and no line
      strictly between the first and the last closes it. No line is valid, and the
      scan is still inside the comment at the end unless the last line, being
      a later line than the first, closes it. A comment opened and closed on its
      first line alone therefore still counts as open. */
  lemma {:induction false} BlockCommentFile(lines: seq<string>)
    requires |lines| >= 1 && StartsWith(Strip(lines[0]), "/*")
    requires forall k :: 0 < k < |lines| - 1 ==> !Contains(Strip(lines[k]), "*/")
    ensures ValidIndices(lines) == []
    ensures Scan(lines).1 == (|lines| == 1 || !Contains(Strip(lines[|lines| - 1]), "*/"))
  {
    var last := lines[|lines| - 1];
    if |lines| == 1 {
      assert lines[..0] == [];
      assert IsValidCodeLine(last, false) == Classification(false, true);
      assert Scan(lines) == ([], true);
    } else {
      var init := lines[..|lines| - 1];
      assert forall k :: 0 < k < |init| - 1 ==> init[k] == lines[k];
      BlockCommentFile(init);
      assert Scan(init).1 by {
        if |init| > 1 {
          assert init[|init| - 1] == lines[|lines| - 2];
        }
      }
      var c := IsValidCodeLine(last, true);
      assert !c.valid && c.inBlockComment == !Contains(Strip(last), "*/");
      assert Scan(lines) == (Scan(init).0, c.inBlockComment);
    }
  }

  /** A line that opens with `/*` outside a comment leaves the scan inside a
      comment, even when the same line also closes it with `*/`, so the line
      after it is never collected. */
  lemma {:induction false} OneLineCommentHidesNextLine(lines: seq<string>, i: nat)
    requires i + 1 < |lines|
    requires !StateBefore(lines, i) && StartsWith(Strip(lines[i]), "/*")
    ensures StateBefore(lines, i + 1)
    ensures i + 1 !in ValidIndices(lines)
  {
    assert lines[..i + 1][..i] == lines[..i];
    assert lines[..i + 1][i] == lines[i];
    ValidIndicesExactly(lines, i + 1);
  }

  /** For instance, the code line after `/* note */` is not collected. */
  lemma OneLineCommentExample()
    ensures ValidIndices(["/* note */", "int x = 1;"]) == []
  {
    var lines := ["/* note */", "int x = 1;"];
    StripUnchanged(lines[0]);
    StripUnchanged(lines[1]);
    assert StartsWith(lines[0], "/*");
    assert '*' !in lines[1];
    ContainsFirstChar(lines[1], "*/");
    BlockCommentFile(lines);
  }
}
