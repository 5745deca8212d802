/**
 * The structured-log flattener `jsonToString` (stern/tail.go:178-196).
 *
 * A decoded JSON object is a sequence of (key, value) fields; the order of
 * the sequence stands for Go's unspecified map iteration order, so every
 * property below holds whatever order the decoder hands the fields over in.
 * A value is either a nested object or a leaf carrying its `%v` rendering.
 */
module Flatten {

  datatype JValue = JObject(fields: seq<(string, JValue)>) | JLeaf(rendered: string)

  type Object = seq<(string, JValue)>

  /** `strings.ContainsRune(s, '\n')`. */
  predicate HasNewline(s: string) {
    exists j :: 0 <= j < |s| && s[j] == '\n'
  }

  predicate EndsInNewline(s: string) {
    |s| > 0 && s[|s| - 1] == '\n'
  }

  /** The text written for one leaf with dotted key `key` and rendering `s`. */
  function Entry(key: string, s: string): string {
    if HasNewline(s) then "\n" + key + "=" + s + "\n" else key + "=" + s + " "
  }

  /** Concatenation of the entries of a sequence of (dotted key, rendering) leaves. */
  function Text(leaves: seq<(string, string)>): string
  {
    if leaves == [] then "" else Entry(leaves[0].0, leaves[0].1) + Text(leaves[1..])
  }

  /**
   * The leaves, with their dotted keys, of the first `n` fields of `obj`,
   * in field order; a nested object contributes its own leaves under the
   * key prefix `prefix + k + "."`.
   */
  function LeavesOf(prefix: string, obj: JValue, n: nat): seq<(string, string)>
    requires obj.JObject? && n <= |obj.fields|
    decreases obj, 0, n
  {
    if n == 0 then []
    else
      assert obj.fields[n - 1] in obj.fields;
      LeavesOf(prefix, obj, n - 1) + FieldLeaves(prefix, obj.fields[n - 1].0, obj.fields[n - 1].1)
  }

  /** The leaves contributed by the single field `k: v` under `prefix`. */
  function FieldLeaves(prefix: string, k: string, v: JValue): seq<(string, string)>
    decreases v, 1
  {
    match v
    case JObject(sub) => LeavesOf(prefix + k + ".", v, |sub|)
    case JLeaf(s) => [(prefix + k, s)]
  }

  function Leaves(prefix: string, fields: Object): seq<(string, string)> {
    LeavesOf(prefix, JObject(fields), |fields|)
  }

  /** Number of leaf values in the first `n` fields of `obj`, at any depth. */
  function LeafCountOf(obj: JValue, n: nat): nat
    requires obj.JObject? && n <= |obj.fields|
    decreases obj, n
  {
    if n == 0 then 0
    else
      assert obj.fields[n - 1] in obj.fields;
      LeafCountOf(obj, n - 1) +
      match obj.fields[n - 1].1
      case JObject(sub) => LeafCountOf(obj.fields[n - 1].1, |sub|)
      case JLeaf(_) => 1
  }

  /** What the top-level call `jsonToString(buf, "", jslog)` leaves in a fresh buffer. */
  function Flattened(fields: Object): string {
    var t := Text(Leaves("", fields));
    if EndsInNewline(t) then t else t + "\n"
  }

  /**
   * jsonToString: appends the entries of `fields` to `buf` and, at top level
   * only (empty prefix), a final newline when the whole buffer lacks one.
   */
  method JsonToString(buf: string, prefix: string, fields: Object) returns (out: string)
    ensures var t := buf + Text(Leaves(prefix, fields));
      out == if prefix == "" && !EndsInNewline(t) then t + "\n" else t
    ensures buf == "" && prefix == "" ==> out == Flattened(fields)
    decreases JObject(fields)
  {
    out := buf;
    ghost var written := "";
    var i := 0;
    while i < |fields|
      invariant 0 <= i <= |fields|
      invariant out == buf + written
      invariant written == Text(LeavesOf(prefix, JObject(fields), i))
    {
      var k, obj := fields[i].0, fields[i].1;
      assert fields[i] in fields;
      LeavesStep(prefix, fields, i);
      ghost var prev := Text(LeavesOf(prefix, JObject(fields), i));
      ghost var piece := Text(FieldLeaves(prefix, k, obj));
      if obj.JObject? {
        out := JsonToString(out, prefix + k + ".", obj.fields);
      } else {
        var s := obj.rendered;
        LeafText(prefix, k, s);
        if HasNewline(s) {
          out := out + ("\n" + prefix + k + "=" + s + "\n");
        } else {
          out := out + (prefix + k + "=" + s + " ");
        }
      }
      AppendToBuffer(buf, prev, piece);
      written := written + piece;
      i := i + 1;
    }
    assert buf == "" ==> out == Text(Leaves(prefix, fields));
    if prefix == "" && !EndsInNewline(out) {
      out := out + "\n";
    }
  }

  /** Writing `piece` after `written` into a buffer holding `buf`. */
  lemma AppendToBuffer(buf: string, written: string, piece: string)
    ensures (buf + written) + piece == buf + (written + piece)
  {
  }

  /** One more field appends exactly that field's entries. */
  lemma LeavesStep(prefix: string, fields: Object, i: nat)
    requires i < |fields|
    ensures Text(LeavesOf(prefix, JObject(fields), i + 1))
         == Text(LeavesOf(prefix, JObject(fields), i)) + Text(FieldLeaves(prefix, fields[i].0, fields[i].1))
    ensures fields[i].1.JObject? ==>
      FieldLeaves(prefix, fields[i].0, fields[i].1) == Leaves(prefix + fields[i].0 + ".", fields[i].1.fields)
  {
    TextAppend(LeavesOf(prefix, JObject(fields), i), FieldLeaves(prefix, fields[i].0, fields[i].1));
  }

  /** The text of a leaf: on lines of its own when its rendering holds a newline. */
  lemma LeafText(prefix: string, k: string, s: string)
    ensures HasNewline(s) ==> Text(FieldLeaves(prefix, k, JLeaf(s))) == "\n" + prefix + k + "=" + s + "\n"
    ensures !HasNewline(s) ==> Text(FieldLeaves(prefix, k, JLeaf(s))) == prefix + k + "=" + s + " "
  {
    assert Text([(prefix + k, s)]) == Entry(prefix + k, s) + Text([]);
  }

  lemma {:induction false} TextAppend(a: seq<(string, string)>, b: seq<(string, string)>)
    ensures Text(a + b) == Text(a) + Text(b)
  {
    if a == [] {
      assert a + b == b;
    } else {
      assert (a + b)[1..] == a[1..] + b;
      TextAppend(a[1..], b);
    }
  }

  /** Each leaf value at any depth gives exactly one entry: nested objects contribute no entry of their own. */
  lemma {:induction false} LeafCountMatches(prefix: string, obj: JValue, n: nat)
    requires obj.JObject? && n <= |obj.fields|
    ensures |LeavesOf(prefix, obj, n)| == LeafCountOf(obj, n)
    decreases obj, n
  {
    if n > 0 {
      var k, v := obj.fields[n - 1].0, obj.fields[n - 1].1;
      assert obj.fields[n - 1] in obj.fields;
      LeafCountMatches(prefix, obj, n - 1);
      if v.JObject? {
        LeafCountMatches(prefix + k + ".", v, |v.fields|);
      }
    }
  }

  /** Every dotted key of a nested call starts with the prefix it was given. */
  lemma {:induction false} KeysExtendPrefix(prefix: string, obj: JValue, n: nat)
    requires obj.JObject? && n <= |obj.fields|
    ensures forall j :: 0 <= j < |LeavesOf(prefix, obj, n)| ==> prefix <= LeavesOf(prefix, obj, n)[j].0
    decreases obj, n
  {
    if n > 0 {
      var k, v := obj.fields[n - 1].0, obj.fields[n - 1].1;
      assert obj.fields[n - 1] in obj.fields;
      var init, last := LeavesOf(prefix, obj, n - 1), FieldLeaves(prefix, k, v);
      KeysExtendPrefix(prefix, obj, n - 1);
      if v.JObject? {
        KeysExtendPrefix(prefix + k + ".", v, |v.fields|);
      }
      forall j | 0 <= j < |last|
        ensures prefix <= last[j].0
      {
        if v.JObject? {
          var longer := prefix + k + ".";
          assert last == LeavesOf(longer, v, |v.fields|);
          assert longer <= last[j].0;
          assert last[j].0[..|prefix|] == longer[..|prefix|] == prefix;
        }
      }
      assert LeavesOf(prefix, obj, n) == init + last;
    }
  }

  /** A leaf's entry is never empty, and ends in a newline exactly when its rendering holds one. */
  lemma EntryEndsInNewline(key: string, s: string)
    ensures |Entry(key, s)| > 0
    ensures EndsInNewline(Entry(key, s)) <==> HasNewline(s)
  {
  }

  lemma EndsInNewlineAppend(a: string, b: string)
    requires |b| > 0
    ensures EndsInNewline(a + b) <==> EndsInNewline(b)
  {
    assert (a + b)[|a + b| - 1] == b[|b| - 1];
  }

  lemma TextSnoc(init: seq<(string, string)>, last: (string, string))
    ensures Text(init + [last]) == Text(init) + Entry(last.0, last.1)
  {
    TextAppend(init, [last]);
    assert Text([last]) == Entry(last.0, last.1) + Text([]);
  }

  /** The entries end in a newline exactly when the last entry does. */
  lemma TextEndsLikeLastEntry(leaves: seq<(string, string)>)
    ensures EndsInNewline(Text(leaves)) <==>
      leaves != [] && EndsInNewline(Entry(leaves[|leaves| - 1].0, leaves[|leaves| - 1].1))
  {
    if leaves != [] {
      var init, last := leaves[..|leaves| - 1], leaves[|leaves| - 1];
      assert leaves == init + [last];
      TextSnoc(init, last);
      EntryEndsInNewline(last.0, last.1);
      EndsInNewlineAppend(Text(init), Entry(last.0, last.1));
    }
  }

  /**
   * The entries end in a newline exactly when the last leaf's rendering
   * holds one, i.e. when the top-level call adds no newline of its own.
   */
  lemma TextEndsInNewline(leaves: seq<(string, string)>)
    ensures EndsInNewline(Text(leaves)) <==> leaves != [] && HasNewline(leaves[|leaves| - 1].1)
  {
    TextEndsLikeLastEntry(leaves);
    if leaves != [] {
      EntryEndsInNewline(leaves[|leaves| - 1].0, leaves[|leaves| - 1].1);
    }
  }

  /**
   * The flattened text always ends a line, and it is the entries followed
   * by a newline unless the last entry already ended in one.
   */
  lemma FlattenedEndsLine(fields: Object)
    ensures EndsInNewline(Flattened(fields))
    ensures var leaves := Leaves("", fields);
      Flattened(fields) == if leaves != [] && HasNewline(leaves[|leaves| - 1].1) then Text(leaves) else Text(leaves) + "\n"
  {
    TextEndsInNewline(Leaves("", fields));
  }

  /** An object with no fields (also what a JSON `null` decodes to) flattens to a bare newline. */
  lemma FlattenedEmpty()
    ensures Flattened([]) == "\n"
  {
  }

  /** Text with no newline in any key or rendering holds no newline. */
  lemma {:induction false} TextSingleLine(leaves: seq<(string, string)>)
    requires forall j :: 0 <= j < |leaves| ==> !HasNewline(leaves[j].0) && !HasNewline(leaves[j].1)
    ensures !HasNewline(Text(leaves))
  {
    if leaves != [] {
      TextSingleLine(leaves[1..]);
      assert forall j :: 0 <= j < |leaves| - 1 ==> leaves[1..][j] == leaves[j + 1];
    }
  }

  /**
   * When no key or rendering holds a newline, the object comes out on a
   * single line, `k=v ` entries closed by one newline.
   */
  lemma FlattenedSingleLine(fields: Object)
    requires forall j :: 0 <= j < |Leaves("", fields)| ==>
      !HasNewline(Leaves("", fields)[j].0) && !HasNewline(Leaves("", fields)[j].1)
    ensures Flattened(fields) == Text(Leaves("", fields)) + "\n"
    ensures !HasNewline(Text(Leaves("", fields)))
  {
    TextSingleLine(Leaves("", fields));
  }

  /** The leaves of `{"a":{"b":"1"},"c":"x\ny"}` in that field order. */
  lemma NestedExampleLeaves(fields: Object)
    requires fields == [("a", JObject([("b", JLeaf("1"))])), ("c", JLeaf("x\ny"))]
    ensures Leaves("", fields) == [("a.b", "1"), ("c", "x\ny")]
  {
    var inner := fields[0].1;
    assert "" + "a" + "." == "a." && "a." + "b" == "a.b" && "" + "c" == "c";
    assert LeavesOf("a.", inner, 1) == LeavesOf("a.", inner, 0) + FieldLeaves("a.", "b", JLeaf("1"));
    assert FieldLeaves("", "a", inner) == [("a.b", "1")];
    assert LeavesOf("", JObject(fields), 1) == [("a.b", "1")];
    assert LeavesOf("", JObject(fields), 2) == LeavesOf("", JObject(fields), 1) + FieldLeaves("", "c", JLeaf("x\ny"));
  }

  /**
   * `{"a":{"b":"1"},"c":"x\ny"}` in that field order: the nested key is
   * dotted, the multi-line value stands on lines of its own, and no
   * newline is added after it.
   */
  lemma NestedAndMultiLineExample(fields: Object)
    requires fields == [("a", JObject([("b", JLeaf("1"))])), ("c", JLeaf("x\ny"))]
    ensures Flattened(fields) == "a.b=1 \nc=x\ny\n"
  {
    var leaves := Leaves("", fields);
    NestedExampleLeaves(fields);
    assert "x\ny"[1] == '\n' && HasNewline("x\ny");
    assert !HasNewline("1");
    FlattenedEndsLine(fields);
    assert Text(leaves) == Entry("a.b", "1") + Text([("c", "x\ny")]);
    assert Text([("c", "x\ny")]) == Entry("c", "x\ny") + Text([]);
  }
}
