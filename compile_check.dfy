/** How `try_ironpy_compile` in src/pycode.py turns the finished IronPython
    process into its answer: `True` for code that compiled, or a message. The
    temporary file, the process launch and its failures are not part of this
    module; it starts from the process's stderr text and return code. */
module CompileCheck {
  import opened PyStr

  /** What `try_ironpy_compile` returns: Python `True`, or a message string. */
  datatype Outcome = Compiled | Message(text: string)

  /** Markers whose presence in stderr means the compile reported an error,
      whatever the return code. */
  const ErrorKeywords: seq<string> :=
    ["SyntaxError", "IndentationError", "Traceback (most recent call last):", "Sorry:"]

  /** The stripped stderr holds one of the error keywords. */
  ghost predicate MentionsError(stderrContent: string) {
    exists k :: 0 <= k < |ErrorKeywords| && Contains(stderrContent, ErrorKeywords[k])
  }

  /** The message for a failed run that wrote nothing to stderr. */
  function NoStderrMessage(executable: string, returnCode: int): string {
    "Error: IronPython ('" + executable + "') failed with return code " + Decimal(returnCode)
    + " and no specific error message on stderr."
  }

  /** The answer for a process that ran with interpreter path `executable`, wrote
      `stderr` and exited with `returnCode`. Error keywords in the stripped
      stderr win over the return code; otherwise a failing return code yields
      the stripped stderr or, when that is empty, a message naming the code;
      a zero return code yields `Compiled` even when stderr holds text. */
  method ClassifyProcessResult(executable: string, stderr: string, returnCode: int)
    returns (outcome: Outcome)
    ensures MentionsError(Strip(stderr)) ==> outcome == Message(Strip(stderr))
    ensures !MentionsError(Strip(stderr)) && returnCode != 0 && Strip(stderr) != []
      ==> outcome == Message(Strip(stderr))
    ensures !MentionsError(Strip(stderr)) && returnCode != 0 && Strip(stderr) == []
      ==> outcome == Message(NoStderrMessage(executable, returnCode))
    ensures outcome == Compiled <==> returnCode == 0 && !MentionsError(Strip(stderr))
  {
    var stderrContent := Strip(stderr);
    var hasErrorMessageInStderr := false;
    if stderrContent != [] {
      var i := 0;
      while i < |ErrorKeywords|
        invariant 0 <= i <= |ErrorKeywords|
        invariant !hasErrorMessageInStderr
        invariant forall k :: 0 <= k < i ==> !Contains(stderrContent, ErrorKeywords[k])
      {
        if Find(stderrContent, ErrorKeywords[i], 0) != -1 {
          hasErrorMessageInStderr := true;
          break;
        }
        i := i + 1;
      }
    } else {
      forall k | 0 <= k < |ErrorKeywords| ensures !Contains(stderrContent, ErrorKeywords[k]) {
        assert |ErrorKeywords[k]| > 0;
      }
    }
    assert hasErrorMessageInStderr <==> MentionsError(stderrContent);

    if hasErrorMessageInStderr {
      outcome := Message(stderrContent);
    } else if returnCode != 0 {
      if stderrContent != [] {
        outcome := Message(stderrContent);
      } else {
        outcome := Message(NoStderrMessage(executable, returnCode));
      }
    } else {
      outcome := Compiled;
    }
  }

  /** The message for a silent failure names the return code: the text after
      "return code " reads back as that code. */
  lemma NoStderrMessageNamesCode(executable: string, returnCode: int)
    ensures var prefix := "Error: IronPython ('" + executable + "') failed with return code ";
      var digits := Decimal(returnCode);
      var message := NoStderrMessage(executable, returnCode);
      && message[..|prefix|] == prefix
      && message[|prefix|..|prefix| + |digits|] == digits
      && ParseDecimal(message[|prefix|..|prefix| + |digits|]) == returnCode
  {
    DecimalRoundTrip(returnCode);
  }
}
