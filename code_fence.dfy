/** Extraction of the code from a model's Markdown reply: `clean_code`, which
    src/pycode.py and src/codecheck.py both define with the same body. */
module CodeFence {
  import opened PyStr

  const PythonMarker: string := "```python"
  const BlockMarker: string := "```"

  /** The code of a block whose `marker` starts at `markerIdx` begins at `start`:
      right after the marker, skipping exactly one newline that follows it
      directly. */
  ghost predicate CodeBeginsAt(s: string, markerIdx: int, marker: string, start: int) {
    var after := markerIdx + |marker|;
    0 <= after &&
    if after < |s| && s[after] == '\n' then start == after + 1 else start == after
  }

  /** Index where the code of a block begins: just past the marker that starts
      at `markerIdx`, and past one more character when that character is a
      newline. */
  function CodeStart(s: string, markerIdx: nat, markerLen: nat): (start: nat)
    requires markerIdx + markerLen <= |s|
    ensures markerIdx + markerLen <= start <= |s|
    ensures CodeBeginsAt(s, markerIdx, s[markerIdx..markerIdx + markerLen], start)
  {
    var offset :=
      if markerIdx + markerLen < |s| && s[markerIdx + markerLen] == '\n' then markerLen + 1
      else markerLen;
    markerIdx + offset
  }

  /** The stripped code of the block whose opening marker starts at `markerIdx`:
      up to the next ``` at or after the code start, or to the end of `s`. */
  function ExtractBlock(s: string, markerIdx: nat, markerLen: nat): (block: string)
    requires markerIdx + markerLen <= |s|
    ensures IsStripped(block)
  {
    var start := CodeStart(s, markerIdx, markerLen);
    var close := Find(s, BlockMarker, start);
    if close != -1 then Strip(s[start..close]) else Strip(s[start..])
  }

  /** `clean_code`: the code of the first ```python block if there is one, else
      of the first ``` block, else the whole reply; always stripped. */
  function CleanCode(s: string): (r: string)
    ensures IsStripped(r)
  {
    var pyMarkerIdx := Find(s, PythonMarker, 0);
    if pyMarkerIdx != -1 then
      ExtractBlock(s, pyMarkerIdx, |PythonMarker|)
    else
      var genericMarkerIdx := Find(s, BlockMarker, 0);
      if genericMarkerIdx != -1 then ExtractBlock(s, genericMarkerIdx, |BlockMarker|)
      else Strip(s)
  }

  // ---------------------------------------------------------------------------
  // Where a block's code begins and ends, stated independently of Find
  // ---------------------------------------------------------------------------

  /** The code that begins at `start` ends at `end`: the first ``` at or after
      `start`, or the end of `s` when there is none. */
  ghost predicate CodeEndsAt(s: string, start: int, end: int) {
    FirstFrom(s, BlockMarker, start, end) || (NoneFrom(s, BlockMarker, start) && end == |s|)
  }

  /** Every ```python marker is also a ``` marker. */
  lemma PythonMarkerIsFence(s: string, i: int)
    requires OccursAt(s, PythonMarker, i)
    ensures OccursAt(s, BlockMarker, i)
  {
    assert s[i..i + 3] == s[i..i + 9][..3];
  }

  /** The first occurrence from a given index is unique. */
  lemma FirstFromUnique(s: string, sub: string, start: int, i: int, k: int)
    requires FirstFrom(s, sub, start, i) && FirstFrom(s, sub, start, k)
    ensures i == k
  {
  }

  /** The block extraction cuts exactly at the bounds given by CodeBeginsAt and
      CodeEndsAt. */
  lemma ExtractBlockBounds(s: string, markerIdx: nat, marker: string, start: int, end: int)
    requires OccursAt(s, marker, markerIdx)
    requires CodeBeginsAt(s, markerIdx, marker, start)
    requires CodeEndsAt(s, start, end)
    ensures 0 <= start <= end <= |s|
    ensures ExtractBlock(s, markerIdx, |marker|) == Strip(s[start..end])
  {
    assert start == CodeStart(s, markerIdx, |marker|);
    var close := Find(s, BlockMarker, start);
    if FirstFrom(s, BlockMarker, start, end) {
      FirstFromUnique(s, BlockMarker, start, close, end);
    } else {
      assert s[start..] == s[start..end];
    }
  }

  /** With a ```python fence present, the code is taken from its first
      occurrence: it starts right after the marker (and one newline directly
      following it) and ends at the first ``` from there, or at the end of the
      reply. A bare ``` anywhere before it plays no part. */
  lemma PythonFenceBlock(s: string, p: int, start: int, end: int)
    requires FirstFrom(s, PythonMarker, 0, p)
    requires CodeBeginsAt(s, p, PythonMarker, start)
    requires CodeEndsAt(s, start, end)
    ensures 0 <= start <= end <= |s|
    ensures CleanCode(s) == Strip(s[start..end])
  {
    FirstFromUnique(s, PythonMarker, 0, Find(s, PythonMarker, 0), p);
    ExtractBlockBounds(s, p, PythonMarker, start, end);
  }

  /** Without a ```python fence, the first bare ``` fence is used with the same
      rules for where the code starts and ends. */
  lemma BareFenceBlock(s: string, g: int, start: int, end: int)
    requires !Contains(s, PythonMarker)
    requires FirstFrom(s, BlockMarker, 0, g)
    requires CodeBeginsAt(s, g, BlockMarker, start)
    requires CodeEndsAt(s, start, end)
    ensures 0 <= start <= end <= |s|
    ensures CleanCode(s) == Strip(s[start..end])
  {
    assert Find(s, PythonMarker, 0) == -1;
    FirstFromUnique(s, BlockMarker, 0, Find(s, BlockMarker, 0), g);
    ExtractBlockBounds(s, g, BlockMarker, start, end);
  }

  /** Without any fence, the reply is only stripped. */
  lemma NoFence(s: string)
    requires !Contains(s, BlockMarker)
    ensures CleanCode(s) == Strip(s)
  {
    if Find(s, PythonMarker, 0) != -1 {
      PythonMarkerIsFence(s, Find(s, PythonMarker, 0));
      assert false;
    }
    assert Find(s, BlockMarker, 0) == -1;
  }

  /** The extracted code of any block contains no ```. */
  lemma ExtractBlockUnfenced(s: string, markerIdx: nat, markerLen: nat)
    requires markerIdx + markerLen <= |s|
    ensures !Contains(ExtractBlock(s, markerIdx, markerLen), BlockMarker)
  {
    var start := CodeStart(s, markerIdx, markerLen);
    var close := Find(s, BlockMarker, start);
    if close != -1 {
      SliceWithout(s, start, close, BlockMarker);
      StripKeepsAbsent(s[start..close], BlockMarker);
    } else {
      SliceWithout(s, start, |s|, BlockMarker);
      assert s[start..] == s[start..|s|];
      StripKeepsAbsent(s[start..], BlockMarker);
    }
  }

  /** Whatever the reply, the result is stripped and holds no ``` fence. */
  lemma CleanCodeOutput(s: string)
    ensures IsStripped(CleanCode(s))
    ensures !Contains(CleanCode(s), BlockMarker)
  {
    var pyMarkerIdx := Find(s, PythonMarker, 0);
    if pyMarkerIdx != -1 {
      ExtractBlockUnfenced(s, pyMarkerIdx, |PythonMarker|);
    } else if Find(s, BlockMarker, 0) != -1 {
      ExtractBlockUnfenced(s, Find(s, BlockMarker, 0), |BlockMarker|);
    } else {
      StripKeepsAbsent(s, BlockMarker);
    }
  }

  /** Cleaning twice is cleaning once. */
  lemma CleanCodeIdempotent(s: string)
    ensures CleanCode(CleanCode(s)) == CleanCode(s)
  {
    var r := CleanCode(s);
    CleanCodeOutput(s);
    NoFence(r);
    StripStripped(r);
  }

  /** A reply that opens with a bare ``` fence and holds a ```python fence
      later: the python block is the one extracted, although the bare fence
      comes first. */
  lemma PythonFenceOutranksEarlierBareFence(code: string)
    requires IsStripped(code)
    requires forall i :: 0 <= i < |code| ==> code[i] != '`'
    ensures var s := "```\n```python\n" + code + "\n```";
      FirstFrom(s, BlockMarker, 0, 0) && FirstFrom(s, PythonMarker, 0, 4) && CleanCode(s) == code
  {
    var s := "```\n```python\n" + code + "\n```";
    ExampleBounds(code);
    PythonFenceBlock(s, 4, 14, 15 + |code|);
    StripFrames([], code, "\n");
    assert [] + code + "\n" == code + "\n";
  }

  /** Where the fences of the reply in PythonFenceOutranksEarlierBareFence lie. */
  lemma ExampleBounds(code: string)
    requires forall i :: 0 <= i < |code| ==> code[i] != '`'
    ensures var s := "```\n```python\n" + code + "\n```";
      && FirstFrom(s, BlockMarker, 0, 0) && FirstFrom(s, PythonMarker, 0, 4)
      && CodeBeginsAt(s, 4, PythonMarker, 14) && CodeEndsAt(s, 14, 15 + |code|)
      && s[14..15 + |code|] == code + "\n"
  {
    var head := "```\n```python\n";
    var s := head + code + "\n```";
    var close := 15 + |code|;
    assert OccursAt(s, BlockMarker, 0) by { assert s[0..3] == head[0..3]; }
    assert OccursAt(s, PythonMarker, 4) by { assert s[4..13] == head[4..13]; }
    forall j | 0 <= j < 4 ensures !OccursAt(s, PythonMarker, j) {
      assert s[j..j + 9][3 - j] == s[3] == head[3] == '\n';
    }
    assert s[13] == head[13] == '\n';
    assert OccursAt(s, BlockMarker, close) by { assert s[close..close + 3] == "```"; }
    forall j | 14 <= j < close ensures !OccursAt(s, BlockMarker, j) {
      assert s[j..j + 3][0] == s[j];
      if j < close - 1 { assert s[j] == code[j - 14]; } else { assert s[j] == '\n'; }
    }
    assert s[14..close] == code + "\n";
  }
}
