/**
 * Cutting the log stream into lines the way `bufio.Reader.ReadBytes('\n')`
 * does for the read loop of `Start` (stern/tail.go:119-126): each line runs
 * up to and including the next newline; the bytes after the last newline
 * come back together with an error, which ends the loop, so they are never
 * handed on.  The stream is the text received before the read error that
 * ends it (end of data, or the stream closed on cancellation).
 */
module LineReader {

  predicate NoNewline(s: string) {
    forall j :: 0 <= j < |s| ==> s[j] != '\n'
  }

  /** Position of the first newline of `s`, or `|s|` when it has none. */
  function NewlineIndex(s: string): (i: nat)
    ensures i <= |s|
    ensures i < |s| ==> s[i] == '\n'
    ensures forall j :: 0 <= j < i ==> s[j] != '\n'
  {
    if s == [] || s[0] == '\n' then 0 else 1 + NewlineIndex(s[1..])
  }

  /** The newline-terminated lines of `s`, each with its newline. */
  function Lines(s: string): seq<string>
    decreases |s|
  {
    var i := NewlineIndex(s);
    if i == |s| then [] else [s[..i + 1]] + Lines(s[i + 1..])
  }

  /** The unterminated text after the last newline of `s`. */
  function Fragment(s: string): string
    decreases |s|
  {
    var i := NewlineIndex(s);
    if i == |s| then s else Fragment(s[i + 1..])
  }

  function Concat(lines: seq<string>): string {
    if lines == [] then "" else lines[0] + Concat(lines[1..])
  }

  /** A line as `ReadBytes` returns it without error: one newline, at its end. */
  predicate IsLine(line: string) {
    |line| > 0 && line[|line| - 1] == '\n' && forall j :: 0 <= j < |line| - 1 ==> line[j] != '\n'
  }

  /** Every line ends with its single newline. */
  lemma {:induction false} LinesAreLines(s: string)
    ensures forall j :: 0 <= j < |Lines(s)| ==> IsLine(Lines(s)[j])
    decreases |s|
  {
    var i := NewlineIndex(s);
    if i < |s| {
      LinesAreLines(s[i + 1..]);
      assert IsLine(s[..i + 1]);
    }
  }

  /** The fragment holds no newline. */
  lemma {:induction false} FragmentHasNoNewline(s: string)
    ensures NoNewline(Fragment(s))
    decreases |s|
  {
    var i := NewlineIndex(s);
    if i < |s| {
      FragmentHasNoNewline(s[i + 1..]);
    }
  }

  /** The lines followed by the fragment give back the whole stream. */
  lemma {:induction false} LinesThenFragment(s: string)
    ensures s == Concat(Lines(s)) + Fragment(s)
    decreases |s|
  {
    var i := NewlineIndex(s);
    if i < |s| {
      var head, rest := s[..i + 1], s[i + 1..];
      assert Lines(s) == [head] + Lines(rest);
      LinesThenFragment(rest);
      ConcatCons(head, Lines(rest), Fragment(rest));
      assert head + rest == s;
    }
  }

  /** Putting a line in front of `lines` puts its text in front of theirs and of any fragment after them. */
  lemma ConcatCons(line: string, lines: seq<string>, fragment: string)
    ensures Concat([line] + lines) + fragment == line + (Concat(lines) + fragment)
  {
    assert ([line] + lines)[1..] == lines;
  }

  /** A stream ending in a newline has no fragment: every byte is on some line. */
  lemma {:induction false} TerminatedStreamHasNoFragment(s: string)
    requires |s| > 0 && s[|s| - 1] == '\n'
    ensures Fragment(s) == [] && Concat(Lines(s)) == s
    decreases |s|
  {
    var rest := s[NewlineIndex(s) + 1..];
    if |rest| > 0 {
      assert rest[|rest| - 1] == '\n';
      TerminatedStreamHasNoFragment(rest);
    }
    LinesThenFragment(s);
  }

  /** The first line of `s` is the one that ends at its first newline. */
  lemma LinesStep(s: string, n: nat)
    requires n <= |s| && IsLine(s[..n])
    ensures Lines(s) == [s[..n]] + Lines(s[n..])
  {
    forall j | 0 <= j < n
      ensures s[j] == s[..n][j]
    {
    }
    assert NewlineIndex(s) == n - 1;
  }

  /** Reading the complete line `stream[pos..next]` leaves the lines of the rest unread. */
  lemma LinesAfterRead(stream: string, pos: nat, next: nat)
    requires pos <= next <= |stream| && IsLine(stream[pos..next])
    ensures Lines(stream[pos..]) == [stream[pos..next]] + Lines(stream[next..])
  {
    var rest := stream[pos..];
    assert rest[..next - pos] == stream[pos..next] && rest[next - pos..] == stream[next..];
    LinesStep(rest, next - pos);
  }

  /** Text without a newline holds no complete line. */
  lemma NoLinesWithoutNewline(s: string)
    requires NoNewline(s)
    ensures Lines(s) == [] && Fragment(s) == s
  {
  }

  /** Two complete lines followed by text without a newline. */
  lemma TwoLinesThenText(s: string, n: nat, m: nat)
    requires n <= m <= |s| && IsLine(s[..n]) && IsLine(s[n..m]) && NoNewline(s[m..])
    ensures Lines(s) == [s[..n], s[n..m]]
  {
    LinesStep(s, n);
    LinesAfterRead(s, n, m);
    NoLinesWithoutNewline(s[m..]);
    assert [s[..n]] + ([s[n..m]] + []) == [s[..n], s[n..m]];
  }

  /**
   * `ReadBytes('\n')` from position `pos`: without error, the bytes up to
   * and including the next newline; with an error (no newline before the
   * end of the stream), the rest of the stream.
   */
  method ReadBytes(stream: string, pos: nat) returns (line: string, next: nat, err: bool)
    requires pos <= |stream|
    ensures pos <= next <= |stream| && line == stream[pos..next]
    ensures err <==> NoNewline(stream[pos..])
    ensures err ==> next == |stream|
    ensures !err ==> IsLine(line)
  {
    next := pos;
    while next < |stream| && stream[next] != '\n'
      invariant pos <= next <= |stream|
      invariant forall j :: pos <= j < next ==> stream[j] != '\n'
    {
      next := next + 1;
    }
    if next < |stream| {
      next := next + 1;
      line := stream[pos..next];
      err := false;
      assert stream[pos..][next - 1 - pos] == '\n';
    } else {
      line := stream[pos..next];
      err := true;
    }
  }
}
