# stern tail: a verified model

stern tails the logs of many Kubernetes pods and containers at once. Each
container gets a `Tail` (stern/tail.go), which has three jobs:

- it picks a pair of terminal colours for the pod and the container;
- it reads the log stream line by line and drops every line that an
  exclude regex matches;
- it prints each remaining line after the coloured namespace, pod and
  container names. In JSON mode it first flattens a line that decodes to a
  JSON object into `key=value` text.

This project models those four parts in Dafny and proves what they promise:

- `colors.dfy` (module `Colors`) models the package-level map from pod name
  to palette entry and the colour step of `Start`:
  - the index comes from the map's size before the step;
  - an unseen pod is recorded under that index;
  - a pod that is already known keeps its recorded highlight.

  Whatever the pod, the container shade comes from the fresh index. One
  might expect a restarted pod to keep both colours of its pair, but the
  code keeps only the pod colour, and this model follows the code
  (`RestartTakesFreshShade` shows an instance). The lemmas describe the map
  after any sequence of `Start`s: which pods it holds, its size, the index
  of the k-th distinct pod, and the wrap-around after six pods.
- `line_reader.dfy` (module `LineReader`) models how `bufio.Reader.ReadBytes('\n')`
  cuts the stream into lines, one read (`ReadBytes`), and what one read
  leaves unread (`LinesAfterRead`). The loop that reads line after line is
  `Tails.Tail.ReadLoop`.
  - The stream is the text delivered before the read error that ends the loop.
  - The lines and the trailing unterminated fragment together give back
    that text.
  - The fragment is never handed on.
- `tail.dfy` (module `Tails`) has three parts:
  - the exclude filter;
  - `Print`'s message shaping;
  - the `Tail` class, with `Start`'s colour step and read loop.

  The read loop is proved to print exactly the lines that no exclude regex
  matches, in stream order, each shaped as `Print` shapes it.
- `flatten.dfy` (module `Flatten`) models `jsonToString`:
  - nested objects give dotted keys;
  - a rendering that holds a newline is written on lines of its own;
  - the top-level call ends the text with a newline unless it already ends
    with one.

  The iteration order of a Go map is unspecified, so the object is a
  sequence of fields in whatever order the decoder hands them over. Every
  lemma holds for every order.
- `wrappers.dfy` holds the `Option` type.

The model stands in for the libraries the code calls. Each becomes a
function-typed parameter:

- a compiled regex is its `MatchString` predicate (`Regexp = string -> bool`);
- `json.Unmarshal` into a `map[string]interface{}` is
  `decode: string -> Option<Object>`, with `None` where Unmarshal fails;
- a colour's `SprintFunc` is `paint: (Color, string) -> string`.

Go works on bytes and this model on `char`s (see "## Left out").

## Model

| member | source | states |
|---|---|---|
| Colors.ColorRegistry.constructor | stern/tail.go:76 | the pod-colour map starts out empty |
| Colors.ColorRegistry.ColorsFor | stern/tail.go:80-87 | the index is the old map size mod 6; an unseen pod is recorded under it, a known pod keeps its entry; the pod gets its recorded highlight, the container the fresh index's shade; every index stays in the palette |
| Colors.RecordFrame | stern/tail.go:81-85 | one colour step adds exactly the new pod's key with index old size mod 6 (size grows by one), or changes nothing for a known pod; all other entries are unchanged |
| Colors.ReplayInPalette | stern/tail.go:80-85 | every recorded index names one of the six palette entries, after any sequence of starts |
| Colors.KnownPodKeepsIndex | stern/tail.go:81-85 | once a pod is recorded, no later start changes its entry |
| Colors.FirstSeenDistinct | stern/tail.go:81-85 | the first-seen order lists each started pod exactly once and nothing else |
| Colors.ReplayKeys | stern/tail.go:81-85 | from an empty map, the map holds exactly the pods started so far |
| Colors.ReplaySize | stern/tail.go:80-85 | from an empty map, the map size equals the number of distinct pods started |
| Colors.FirstSeenIndex | stern/tail.go:80-85 | the k-th distinct pod, in first-seen order, is recorded under palette index k mod 6 |
| Colors.SeventhPodReusesFirst | stern/tail.go:67-74 | the palette wraps: the seventh distinct pod differs from the first but gets the same entry, index 0 |
| Colors.RestartTakesFreshShade | stern/tail.go:80-87 | after pods a and b, restarting a paints it FgHiCyan (its entry 0) but its container FgMagenta (fresh index 2): the pair is not kept |
| LineReader.NewlineIndex | stern/tail.go:123 | the result is the position of the first newline, or the length when there is none |
| LineReader.LinesAreLines | stern/tail.go:123 | every line the reader yields ends in its newline and holds no other newline |
| LineReader.FragmentHasNoNewline | stern/tail.go:123-125 | the unterminated tail left after the last line holds no newline |
| LineReader.LinesThenFragment | stern/tail.go:122-126 | the lines followed by the fragment give back the whole stream: no byte is lost or duplicated |
| LineReader.TerminatedStreamHasNoFragment | stern/tail.go:122-126 | a stream ending in a newline leaves no fragment, so every byte is delivered in some line |
| LineReader.LinesStep | stern/tail.go:123 | the first line is the text up to and including the first newline; the rest is cut the same way |
| LineReader.LinesAfterRead | stern/tail.go:122-126 | reading one complete line leaves exactly the lines of the remaining stream |
| LineReader.NoLinesWithoutNewline | stern/tail.go:123-125 | text without a newline yields no line at all; it is all fragment |
| LineReader.TwoLinesThenText | stern/tail.go:122-126 | two complete lines followed by newline-free text are cut into exactly those two lines |
| LineReader.ReadBytes | stern/tail.go:123-126 | returns the bytes from the read position up to and including the next newline; it fails exactly when no newline is left, and then it has consumed the rest of the stream |
| Tails.Excluded | stern/tail.go:130-134 | a line is excluded exactly when some exclude regex matches it |
| Tails.KeptStep | stern/tail.go:130-136 | a line is printed when no regex matches it and skipped otherwise, and the rest of the stream is filtered the same way |
| Tails.KeptAtStart | stern/tail.go:119-122 | before the first read, every line of the stream is still to be filtered |
| Tails.KeptAfterLine | stern/tail.go:123-136 | after one line is read, the printed prefix grows by that line exactly when no regex matches it |
| Tails.KeptAtEnd | stern/tail.go:123-126 | when the read fails, every line of the stream has been filtered |
| Tails.KeptMembers | stern/tail.go:128-136 | a line is printed exactly when it is a complete line of the stream and no regex matches it |
| Tails.NothingExcluded | stern/tail.go:130-136 | with no exclude regex, every line is printed |
| Tails.KeptAreLines | stern/tail.go:123-136 | every printed message is a complete line, ending in its newline |
| Tails.HealthCheckStreamLines | stern/tail.go:122-126 | the stream `health\nok\nx` gives the lines `health\n` and `ok\n`, and its tail `x` is never a line |
| Tails.KeptSecondOfTwo | stern/tail.go:130-136 | of two lines where only the first matches a regex, only the second is printed |
| Tails.HealthCheckExample | stern/tail.go:119-136 | with a regex matching lines that start with `health`, the stream `health\nok\nx` prints only `ok\n` |
| Tails.Tail.constructor | stern/tail.go:55-63 | a new tail keeps its namespace, pod, container and options, and has no colours yet |
| Tails.Tail.Start | stern/tail.go:79-87 | after the colour step the tail has both colours; the pod colour is the highlight of its recorded entry and the container colour the shade of the fresh index; the map takes one colour step |
| Tails.Tail.Print | stern/tail.go:159-176 | writes the namespace (when enabled), pod and container in their colours, then the message, separated by spaces; in JSON mode a line that decodes to an object is replaced by its flattened text, otherwise it is printed verbatim |
| Tails.Tail.PrintedEndsLine | stern/tail.go:169-175 | the record printed for a complete line ends in a newline, flattened or not, so records never run together |
| Tails.Tail.ReadLoop | stern/tail.go:119-137 | prints exactly one record per complete line of the stream that no regex matches, in stream order, each as Print renders that line; the unterminated tail is dropped |
| Flatten.JsonToString | stern/tail.go:178-196 | appends one entry per leaf to the buffer, in field order and recursing into nested objects with a dotted prefix; only the top-level call adds the final newline, and only when the buffer lacks one; the top-level call into a fresh buffer, as `Print` makes it (stern/tail.go:163-165), yields exactly the flattened text |
| Flatten.LeavesStep | stern/tail.go:179-182 | one more field appends exactly that field's entries; a nested object contributes the entries of its fields under the prefix `prefix + k + "."` |
| Flatten.LeafText | stern/tail.go:184-189 | a leaf is written as `prefix k=value ` when its rendering has no newline, and as `\nprefix k=value\n` otherwise |
| Flatten.TextAppend | stern/tail.go:179-191 | the text of two runs of leaves is the concatenation of their texts |
| Flatten.LeafCountMatches | stern/tail.go:179-191 | there is exactly one entry per leaf value at any depth; nested objects add no entry of their own |
| Flatten.KeysExtendPrefix | stern/tail.go:182 | every key written inside a nested call starts with the prefix that call was given |
| Flatten.EntryEndsInNewline | stern/tail.go:185-189 | an entry is never empty, and ends in a newline exactly when the value's rendering holds one |
| Flatten.TextSnoc | stern/tail.go:179-191 | the last leaf's entry is written last |
| Flatten.TextEndsLikeLastEntry | stern/tail.go:179-193 | the flattened entries end in a newline exactly when the last entry does |
| Flatten.TextEndsInNewline | stern/tail.go:185-193 | the entries end in a newline exactly when the last leaf's rendering holds one, i.e. when the top-level call adds no newline |
| Flatten.FlattenedEndsLine | stern/tail.go:193-195 | the flattened text always ends in a newline: it is the entries plus a newline, unless the last rendering was multi-line |
| Flatten.FlattenedEmpty | stern/tail.go:193-195 | an object with no fields flattens to a single newline |
| Flatten.TextSingleLine | stern/tail.go:186-188 | when no key or rendering holds a newline, the entries hold none |
| Flatten.FlattenedSingleLine | stern/tail.go:186-195 | when no key or rendering holds a newline, the object comes out as one line of `k=v ` entries closed by one newline |
| Flatten.NestedExampleLeaves | stern/tail.go:179-191 | `{"a":{"b":"1"},"c":"x\ny"}` has the leaves `a.b=1` and `c=x\ny`, in that order |
| Flatten.NestedAndMultiLineExample | stern/tail.go:178-196 | `{"a":{"b":"1"},"c":"x\ny"}` flattens to `a.b=1 \nc=x\ny\n`: dotted nested key, multi-line value on its own lines, no extra newline |

## Left out

- Kubernetes is not modelled: the log request and its options (stern/tail.go:99-105), opening the stream, and the message printed when that fails (stern/tail.go:107-111). The timestamps, since-seconds and tail-lines options only configure that request, so they have no effect in the model.
- Goroutines and cancellation are not modelled: the reader goroutine, the goroutines that close the stream when the context ends (stern/tail.go:114-117, 140-143), and `Close` (stern/tail.go:147-155). The read loop is modelled as ending at the stream's first read error.
- The `+` and `-` banners (stern/tail.go:90-97, 148-154) are output-only and are not modelled.
- The package-level colour map is shared by concurrent `Start` calls without a lock. The model runs the colour steps one after another.
- Terminal colour codes are the `paint` parameter. Regex matching is the `Regexp` predicate. JSON decoding (including that a JSON `null` decodes to an empty map) is the `decode` parameter, and `%v` rendering is a leaf's `rendered` string. Their own behaviour is not modelled.
- Tails.Tail.ReadLoop: `decode` is a function of the line's text, so it fixes one field order per line text. In Go, each `jsonToString` call ranges over its map in an order that may differ from call to call (stern/tail.go:164, 179). So the model prints equal records for equal JSON lines, while Go may print their fields in different orders.
- Tails.Tail.ReadLoop: returns the printed records as a sequence instead of writing them to standard output. How they interleave with other tails' output is not modelled.
- Tails.Tail.Print: returns the text instead of writing it to standard output.
- The stream is a `string` of `char`s, not Go's `[]byte`, and the `string(line)` conversion (stern/tail.go:123, 128) is the identity. Only the newline byte matters to the reader and the flattener, and in UTF-8 a newline byte is never part of a multi-byte character. Invalid UTF-8 in the stream is not modelled.
