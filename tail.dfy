/**
 * One log-tailing session (stern/tail.go): the colour step of `Start`, its
 * read-and-filter loop, and `Print`'s shaping of each message.
 *
 * The libraries the session calls are taken as given functions:
 * a compiled exclude regex is its `MatchString` predicate, `decode` is
 * `json.Unmarshal` into a `map[string]interface{}` (None when it fails),
 * and `paint` is a colour's `SprintFunc` applied to one string.
 */
module Tails {
  import opened Wrappers
  import opened Colors
  import opened LineReader
  import opened Flatten

  /** A compiled exclude regex, as the predicate `rex.MatchString`. */
  type Regexp = string -> bool

  /** `TailOptions`; timestamps, since-seconds and tail-lines only configure the log request. */
  datatype TailOptions = TailOptions(
    timestamps: bool,
    sinceSeconds: int,
    exclude: seq<Regexp>,
    namespace: bool,
    tailLines: Option<int>,
    json: bool)

  /** True iff some regex of `exclude` matches `line`; the patterns are tried in order. */
  function Excluded(exclude: seq<Regexp>, line: string): (r: bool)
    ensures r <==> exists i :: 0 <= i < |exclude| && exclude[i](line)
  {
    if exclude == [] then false
    else if exclude[0](line) then true
    else
      var r := Excluded(exclude[1..], line);
      assert forall i :: 1 <= i < |exclude| ==> exclude[i] == exclude[1..][i - 1];
      r
  }

  /** The lines that survive the exclude filter, in stream order. */
  function Kept(exclude: seq<Regexp>, lines: seq<string>): seq<string> {
    if lines == [] then []
    else if Excluded(exclude, lines[0]) then Kept(exclude, lines[1..])
    else [lines[0]] + Kept(exclude, lines[1..])
  }

  lemma KeptStep(exclude: seq<Regexp>, line: string, lines: seq<string>)
    ensures Kept(exclude, [line] + lines)
         == (if Excluded(exclude, line) then [] else [line]) + Kept(exclude, lines)
  {
    assert ([line] + lines)[1..] == lines;
  }

  /**
   * The read loop's invariant: `kept` holds the surviving lines before
   * `pos`, and the surviving lines after `pos` complete them.
   */
  ghost predicate KeptSoFar(exclude: seq<Regexp>, stream: string, pos: nat, kept: seq<string>) {
    pos <= |stream| && Kept(exclude, Lines(stream)) == kept + Kept(exclude, Lines(stream[pos..]))
  }

  lemma KeptAtStart(exclude: seq<Regexp>, stream: string)
    ensures KeptSoFar(exclude, stream, 0, [])
  {
    assert stream[0..] == stream;
  }

  lemma KeptAfterLine(exclude: seq<Regexp>, stream: string, pos: nat, next: nat, kept: seq<string>)
    requires KeptSoFar(exclude, stream, pos, kept)
    requires pos <= next <= |stream| && IsLine(stream[pos..next])
    ensures KeptSoFar(exclude, stream, next,
      if Excluded(exclude, stream[pos..next]) then kept else kept + [stream[pos..next]])
  {
    var line := stream[pos..next];
    LinesAfterRead(stream, pos, next);
    KeptStep(exclude, line, Lines(stream[next..]));
    if !Excluded(exclude, line) {
      assert kept + ([line] + Kept(exclude, Lines(stream[next..])))
          == (kept + [line]) + Kept(exclude, Lines(stream[next..]));
    }
  }

  lemma KeptAtEnd(exclude: seq<Regexp>, stream: string, pos: nat, kept: seq<string>)
    requires KeptSoFar(exclude, stream, pos, kept) && NoNewline(stream[pos..])
    ensures Kept(exclude, Lines(stream)) == kept
  {
    assert Lines(stream[pos..]) == [];
    assert kept + [] == kept;
  }

  /** A line is kept exactly when it is one of the lines and no regex matches it. */
  lemma {:induction false} KeptMembers(exclude: seq<Regexp>, lines: seq<string>)
    ensures forall x :: x in Kept(exclude, lines) <==> x in lines && !Excluded(exclude, x)
  {
    if lines != [] {
      KeptMembers(exclude, lines[1..]);
      assert lines == [lines[0]] + lines[1..];
    }
  }

  /** Without exclude patterns every line is kept. */
  lemma {:induction false} NothingExcluded(lines: seq<string>)
    ensures Kept([], lines) == lines
  {
    if lines != [] {
      NothingExcluded(lines[1..]);
    }
  }

  /** The kept lines of a stream are complete lines, each ending in its newline. */
  lemma KeptAreLines(exclude: seq<Regexp>, stream: string)
    ensures forall j :: 0 <= j < |Kept(exclude, Lines(stream))| ==> IsLine(Kept(exclude, Lines(stream))[j])
  {
    LinesAreLines(stream);
    KeptMembers(exclude, Lines(stream));
    forall j | 0 <= j < |Kept(exclude, Lines(stream))|
      ensures IsLine(Kept(exclude, Lines(stream))[j])
    {
      var x := Kept(exclude, Lines(stream))[j];
      assert x in Kept(exclude, Lines(stream));
      var i :| 0 <= i < |Lines(stream)| && Lines(stream)[i] == x;
    }
  }

  /** The stream `health\nok\nx` holds two complete lines and an unterminated tail. */
  lemma HealthCheckStreamLines(s: string)
    requires s == "health\nok\nx"
    ensures Lines(s) == ["health\n", "ok\n"]
  {
    assert s[..7] == "health\n" && IsLine(s[..7]);
    assert s[7..10] == "ok\n" && IsLine(s[7..10]);
    assert NoNewline(s[10..]);
    TwoLinesThenText(s, 7, 10);
  }

  /** Of two lines, only the one no regex matches is kept. */
  lemma KeptSecondOfTwo(exclude: seq<Regexp>, first: string, second: string)
    requires Excluded(exclude, first) && !Excluded(exclude, second)
    ensures Kept(exclude, [first, second]) == [second]
  {
    KeptStep(exclude, second, []);
    assert [first, second] == [first] + [second];
    KeptStep(exclude, first, [second]);
  }

  /**
   * That stream, filtered by any pattern that matches exactly the lines
   * starting with `health`: only `ok` is kept, and the unterminated tail
   * is never handed on.
   */
  lemma HealthCheckExample(s: string, healthCheck: Regexp)
    requires s == "health\nok\nx"
    requires forall line :: healthCheck(line) <==> |line| >= 6 && line[..6] == "health"
    ensures Kept([healthCheck], Lines(s)) == ["ok\n"]
  {
    HealthCheckStreamLines(s);
    var first, second := "health\n", "ok\n";
    assert first[..6] == "health" && healthCheck(first);
    assert !healthCheck(second);
    KeptSecondOfTwo([healthCheck], first, second);
  }

  /**
   * The message `Print` shows for a raw line: its flattened form when JSON
   * mode is on and the line decodes to an object, else the line itself.
   */
  function Shaped(json: bool, decode: string -> Option<Object>, msg: string): string {
    if json && decode(msg).Some? then Flattened(decode(msg).value) else msg
  }

  class Tail {
    const Namespace: string
    const PodName: string
    const ContainerName: string
    const Options: TailOptions
    /** Set by `Start`; nil before it. */
    var podColor: Option<Color>
    var containerColor: Option<Color>

    /** NewTail */
    constructor (namespace: string, podName: string, containerName: string, options: TailOptions)
      ensures Namespace == namespace && PodName == podName && ContainerName == containerName
      ensures Options == options
      ensures podColor == None && containerColor == None
    {
      Namespace, PodName, ContainerName := namespace, podName, containerName;
      Options := options;
      podColor, containerColor := None, None;
    }

    predicate Started()
      reads this
    {
      podColor.Some? && containerColor.Some?
    }

    /**
     * The colour step of `Start` against the shared registry: the pod keeps
     * the entry recorded at its first `Start`, the container takes the shade
     * of the entry chosen by the registry's size before this call.
     */
    method Start(registry: ColorRegistry)
      requires registry.Valid()
      modifies this, registry
      ensures registry.Valid() && Started()
      ensures registry.podColors == Record(old(registry.podColors), PodName)
      ensures podColor == Some(ColorList[registry.podColors[PodName]].0)
      ensures containerColor == Some(ColorList[|old(registry.podColors)| % |ColorList|].1)
    {
      var p, c := registry.ColorsFor(PodName);
      podColor, containerColor := Some(p), Some(c);
    }

    /**
     * The text `Print` writes for `msg`: namespace (when enabled) and pod in
     * the pod colour, container in the container colour, then the shaped
     * message, separated by single spaces.
     */
    function Printed(msg: string, decode: string -> Option<Object>, paint: (Color, string) -> string): string
      reads this
      requires Started()
    {
      var p, c := podColor.value, containerColor.value;
      var shown := Shaped(Options.json, decode, msg);
      if Options.namespace then paint(p, Namespace) + " " + paint(p, PodName) + " " + paint(c, ContainerName) + " " + shown
      else paint(p, PodName) + " " + paint(c, ContainerName) + " " + shown
    }

    /**
     * Every message `Print` writes for a complete line ends that line, so
     * the records of one session never run into each other.
     */
    lemma PrintedEndsLine(msg: string, decode: string -> Option<Object>, paint: (Color, string) -> string)
      requires Started() && IsLine(msg)
      ensures EndsInNewline(Printed(msg, decode, paint))
    {
      if Options.json && decode(msg).Some? {
        FlattenedEndsLine(decode(msg).value);
      }
    }

    /** Print */
    method Print(msg: string, decode: string -> Option<Object>, paint: (Color, string) -> string)
      returns (out: string)
      requires Started()
      ensures out == Printed(msg, decode, paint)
    {
      var shown := msg;
      if Options.json {
        var jslog := decode(msg);
        if jslog.Some? {
          shown := JsonToString("", "", jslog.value);
        }
      }
      var p, c := podColor.value, containerColor.value;
      if Options.namespace {
        out := paint(p, Namespace) + " " + paint(p, PodName) + " " + paint(c, ContainerName) + " " + shown;
      } else {
        out := paint(p, PodName) + " " + paint(c, ContainerName) + " " + shown;
      }
    }

    /**
     * The read loop of `Start` (stern/tail.go:119-137) over the text the
     * stream delivers before its read error: one `Print` per complete line
     * that no exclude regex matches, in stream order.
     */
    method ReadLoop(stream: string, decode: string -> Option<Object>, paint: (Color, string) -> string)
      returns (printed: seq<string>)
      requires Started()
      ensures |printed| == |Kept(Options.exclude, Lines(stream))|
      ensures forall j :: 0 <= j < |printed| ==>
        printed[j] == Printed(Kept(Options.exclude, Lines(stream))[j], decode, paint)
    {
      printed := [];
      var exclude := Options.exclude;
      ghost var kept: seq<string> := [];
      var pos := 0;
      KeptAtStart(exclude, stream);
      while true
        invariant pos <= |stream|
        invariant KeptSoFar(exclude, stream, pos, kept)
        invariant |printed| == |kept|
        invariant forall j :: 0 <= j < |kept| ==> printed[j] == Printed(kept[j], decode, paint)
        decreases |stream| - pos
      {
        var line, next, err := ReadBytes(stream, pos);
        if err {
          KeptAtEnd(exclude, stream, pos, kept);
          return;
        }
        KeptAfterLine(exclude, stream, pos, next, kept);
        pos := next;
        var str := line;
        if Excluded(exclude, str) {
          continue;
        }
        var out := Print(str, decode, paint);
        printed := printed + [out];
        kept := kept + [str];
      }
    }
  }
}
