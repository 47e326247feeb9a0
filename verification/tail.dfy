/** `print_last_10_lines` (test.py, lines 77-86): when the path names a
    regular file, its lines stream through a deque bounded to 10 entries,
    and what is left is printed oldest first, each line stripped of
    trailing whitespace.

    The file system is abstracted: the file is an `Option<seq<string>>`,
    `None` when the path is not a regular file and otherwise the lines as
    Python's file iteration yields them (each with its line terminator).
    Printing becomes returning the printed lines. */
module TailReader {
  import opened Wrappers
  import opened Deque

  /** The `maxlen` of the deque at line 85. */
  const MaxLines: nat := 10

  /** The characters for which Python's `str.isspace()` holds. */
  predicate IsSpace(c: char)
  {
    || ('\t' <= c <= '\r')
    || ('\U{1C}' <= c <= ' ')
    || c == '\U{85}' || c == '\U{A0}' || c == '\U{1680}'
    || ('\U{2000}' <= c <= '\U{200A}')
    || c == '\U{2028}' || c == '\U{2029}' || c == '\U{202F}' || c == '\U{205F}'
    || c == '\U{3000}'
  }

  /** `str.rstrip()` with no argument: drop whitespace from the right end. */
  function RStrip(s: string): (r: string)
    ensures |r| <= |s| && r == s[..|r|]
    ensures r == [] || !IsSpace(r[|r| - 1])
    ensures forall i | |r| <= i < |s| :: IsSpace(s[i])
  {
    if s != [] && IsSpace(s[|s| - 1]) then RStrip(s[..|s| - 1]) else s
  }

  /** Those three facts determine `RStrip`: the result is the one prefix
      that ends in a non-space and leaves only spaces behind. */
  lemma RStripUnique(s: string, n: nat)
    requires n <= |s|
    requires n == 0 || !IsSpace(s[n - 1])
    requires forall i | n <= i < |s| :: IsSpace(s[i])
    ensures RStrip(s) == s[..n]
  {
    var r := RStrip(s);
    assert forall i | 0 <= i < |r| :: r[i] == s[i];
  }

  /** Stripping twice strips no more than stripping once. */
  lemma RStripIdempotent(s: string)
    ensures RStrip(RStrip(s)) == RStrip(s)
  {
    var r := RStrip(s);
    RStripUnique(r, |r|);
    assert r[..|r|] == r;
  }

  /** Leading and inner characters survive: text placed before a line that
      is not all whitespace comes through untouched. */
  lemma RStripKeepsFront(p: string, s: string)
    requires RStrip(s) != []
    ensures RStrip(p + s) == p + RStrip(s)
  {
    var r := RStrip(s);
    var n := |p| + |r|;
    forall i | n <= i < |p + s|
      ensures IsSpace((p + s)[i])
    {
      assert (p + s)[i] == s[i - |p|];
    }
    assert (p + s)[n - 1] == r[|r| - 1];
    RStripUnique(p + s, n);
    assert (p + s)[..n] == p + s[..|r|];
  }

  /** The example in the comments at the end of test.py, and a line whose
      terminator comes after other whitespace. */
  lemma RStripExamples()
    ensures RStrip("   hi   ") == "   hi"
    ensures RStrip("line\r\n") == "line"
    ensures RStrip("a \t\n") == "a"
  {
    RStripUnique("   hi   ", 5);
    assert "   hi   "[..5] == "   hi";
    RStripUnique("line\r\n", 4);
    assert "line\r\n"[..4] == "line";
    RStripUnique("a \t\n", 1);
    assert "a \t\n"[..1] == "a";
  }

  /** `print_last_10_lines`: `None` when the path is not a regular file (the
      "file doesn't exist" message; nothing is read), otherwise the lines
      printed, which are the file's last ten lines at most, oldest first,
      each with trailing whitespace removed. */
  method PrintLast10Lines(file: Option<seq<string>>) returns (printed: Option<seq<string>>)
    ensures file.None? <==> printed.None?
    ensures file.Some? ==> |printed.value| == Min(|file.value|, MaxLines)
    ensures file.Some? ==> forall i | 0 <= i < |printed.value| ::
      printed.value[i] == RStrip(file.value[|file.value| - |printed.value| + i])
  {
    match file
    case None =>
      printed := None;
    case Some(lines) =>
      var window := Tail(lines, MaxLines);
      var out: seq<string> := [];
      for j := 0 to |window|
        invariant |out| == j
        invariant forall i | 0 <= i < j :: out[i] == RStrip(window[i])
      {
        out := out + [RStrip(window[j])];
      }
      printed := Some(out);
  }

  /** A file of fifteen lines prints its lines six to fifteen. */
  lemma FifteenLines<T>(lines: seq<T>)
    requires |lines| == 15
    ensures Last(lines, MaxLines) == lines[5..]
  {
  }
}
