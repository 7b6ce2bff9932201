/** The two regular expressions the compiler runs over a block, written out as scanners that
    reproduce Python's leftmost, backtracking matching:
      field(b, k):  re.search(r"-\s*%s:\s*([^\n]+)" % re.escape(k), b)
      heading:      re.search(r"^##\s+(.+?)\s*$", b, re.M)                                    */
module Fields {
  import opened Wrappers
  import opened Text

  /** Length of the whitespace run that starts at index `i`: what a greedy `\s*` consumes. */
  function SpaceRun(s: string, i: nat): (n: nat)
    requires i <= |s|
    ensures i + n <= |s| && (i + n < |s| ==> !IsSpace(s[i + n]))
    ensures forall k :: i <= k < i + n ==> IsSpace(s[k])
    decreases |s| - i
  {
    if i < |s| && IsSpace(s[i]) then 1 + SpaceRun(s, i + 1) else 0
  }

  /** Index of the newline that ends the line holding index `i`, or `|s|` on the last line. */
  function LineEnd(s: string, i: nat): (e: nat)
    requires i <= |s|
    ensures i <= e <= |s| && (e < |s| ==> s[e] == '\n')
    ensures forall k :: i <= k < e ==> s[k] != '\n'
    decreases |s| - i
  {
    if i == |s| || s[i] == '\n' then i else LineEnd(s, i + 1)
  }

  /** The last index in [lo, hi) that does not hold a newline. A greedy `\s*` that ran to the end
      of the text gives characters back until the next item (`[^\n]` or `.`) can match one: it
      comes to rest there. */
  function LastNonNewline(s: string, lo: nat, hi: nat): (r: Option<nat>)
    requires lo <= hi <= |s|
    ensures r.Some? ==> lo <= r.value < hi && s[r.value] != '\n'
    ensures r.Some? ==> forall k :: r.value < k < hi ==> s[k] == '\n'
    ensures r.None? ==> forall k :: lo <= k < hi ==> s[k] == '\n'
    decreases hi
  {
    if hi <= lo then None
    else if s[hi - 1] != '\n' then Some(hi - 1)
    else LastNonNewline(s, lo, hi - 1)
  }

  lemma {:induction false} SpaceRunExact(s: string, i: nat, n: nat)
    requires i + n <= |s| && (i + n < |s| ==> !IsSpace(s[i + n]))
    requires forall k :: i <= k < i + n ==> IsSpace(s[k])
    ensures SpaceRun(s, i) == n
  {
  }

  /** The run at `m + i` is the run at `i` of the text from `m` on. */
  lemma {:induction false} SpaceRunShift(s: string, m: nat, i: nat)
    requires m + i <= |s|
    ensures SpaceRun(s, m + i) == SpaceRun(s[m..], i)
    decreases |s| - m - i
  {
    if m + i < |s| {
      assert s[m..][i] == s[m + i];
      SpaceRunShift(s, m, i + 1);
    }
  }

  /** A whitespace run followed by a non-whitespace character or the end of the text. */
  lemma {:induction false} SpaceRunOver(sp: string, rest: string)
    requires AllSpace(sp) && (rest == [] || !IsSpace(rest[0]))
    ensures SpaceRun(sp + rest, 0) == |sp|
  {
    var s := sp + rest;
    forall k | 0 <= k < |sp| ensures IsSpace(s[k]) {
      assert s[k] == sp[k];
    }
    if |sp| < |s| {
      assert s[|sp|] == rest[0];
    }
    SpaceRunExact(s, 0, |sp|);
  }

  lemma {:induction false} LineEndExact(s: string, i: nat, e: nat)
    requires i <= e <= |s| && (e < |s| ==> s[e] == '\n')
    requires forall k :: i <= k < e ==> s[k] != '\n'
    ensures LineEnd(s, i) == e
  {
  }

  /** The line that holds index `|a|` ends right after `t` when `t` has no newline and a
      newline or the end of the text follows it. */
  lemma {:induction false} LineEndOver(a: string, t: string, tail: string)
    requires '\n' !in t && (tail == [] || tail[0] == '\n')
    ensures |a| + |t| <= |a + (t + tail)| && LineEnd(a + (t + tail), |a|) == |a| + |t|
  {
    var x := a + (t + tail);
    forall k | |a| <= k < |a| + |t| ensures x[k] != '\n' {
      assert x[k] == t[k - |a|];
    }
    if |a| + |t| < |x| {
      assert x[|a| + |t|] == tail[0];
    }
    LineEndExact(x, |a|, |a| + |t|);
  }

  // ---------------------------------------------------------------- field

  /** `\s*([^\n]+)` matched at the start of `x`: the captured text. Because `\s` includes the
      newline, a value that is empty on its own line is taken from the next non-blank line. */
  function ValueAt(x: string): (r: Option<string>)
    ensures r.Some? ==> r.value != [] && '\n' !in r.value
  {
    var q := SpaceRun(x, 0);
    if q < |x| then Some(x[q..LineEnd(x, q)])
    else
      match LastNonNewline(x, 0, |x|)
      case None => None
      case Some(t) => Some(x[t..LineEnd(x, t)])
  }

  /** `KEY:\s*([^\n]+)` in the text `y` after the dash, with the greedy `\s*` before the key
      holding `j` of the whitespace characters at the start of `y` and giving them back one at
      a time. */
  function KeyValueAt(y: string, key: string, j: nat): (r: Option<string>)
    requires j <= |y|
    ensures r.Some? ==> '\n' !in r.value
    decreases j
  {
    var here := if StartsWith(y[j..], key + ":") then ValueAt(y[j + |key| + 1..]) else None;
    if here.Some? || j == 0 then here else KeyValueAt(y, key, j - 1)
  }

  /** The whole field pattern tried at the start of `x`. */
  function FieldMatchAt(x: string, key: string): (r: Option<string>)
    ensures r.Some? ==> '\n' !in r.value
  {
    if x != [] && x[0] == '-' then KeyValueAt(x[1..], key, SpaceRun(x[1..], 0)) else None
  }

  /** The search from index `i` on: the first position where the pattern matches wins. */
  function FieldFrom(s: string, key: string, i: nat): (r: string)
    requires i <= |s|
    ensures Trimmed(r) && '\n' !in r
    decreases |s| - i
  {
    if i == |s| then []
    else
      match FieldMatchAt(s[i..], key)
      case Some(g) => StripAvoids(g, '\n'); Strip(g)
      case None => FieldFrom(s, key, i + 1)
  }

  /** `field(b, k)`: the stripped value of the first `- KEY: value` occurrence in the block,
      or "" when there is none. */
  function Field(block: string, key: string): (r: string)
    ensures Trimmed(r) && '\n' !in r
  {
    FieldFrom(block, key, 0)
  }

  /** A match after the dash always contains `KEY:`. */
  lemma {:induction false} KeyValueAtContains(y: string, key: string, j: nat)
    requires j <= |y| && KeyValueAt(y, key, j).Some?
    ensures Contains(y, key + ":")
    decreases j
  {
    if StartsWith(y[j..], key + ":") && ValueAt(y[j + |key| + 1..]).Some? {
      assert y[j..j + |key| + 1] == y[j..][..|key| + 1];
      assert OccursAt(y, key + ":", j);
    } else {
      KeyValueAtContains(y, key, j - 1);
    }
  }

  /** What occurs in a suffix occurs in the text. */
  lemma {:induction false} ContainsSuffix(s: string, m: nat, w: string)
    requires m <= |s| && Contains(s[m..], w)
    ensures Contains(s, w)
  {
    var i: nat :| i <= |s[m..]| && OccursAt(s[m..], w, i);
    assert s[m..][i..i + |w|] == s[m + i..m + i + |w|];
    assert OccursAt(s, w, m + i);
  }

  /** A match always contains `KEY:`. */
  lemma {:induction false} FieldMatchAtContains(x: string, key: string)
    requires FieldMatchAt(x, key).Some?
    ensures Contains(x, key + ":")
  {
    KeyValueAtContains(x[1..], key, SpaceRun(x[1..], 0));
    ContainsSuffix(x, 1, key + ":");
  }

  lemma {:induction false} FieldFromAbsent(s: string, key: string, i: nat)
    requires i <= |s| && !Contains(s, key + ":")
    ensures FieldFrom(s, key, i) == ""
    decreases |s| - i
  {
    if i < |s| {
      if FieldMatchAt(s[i..], key).Some? {
        FieldMatchAtContains(s[i..], key);
        ContainsSuffix(s, i, key + ":");
      }
      FieldFromAbsent(s, key, i + 1);
    }
  }

  /** Without `KEY:` anywhere in the block the field is empty. */
  lemma {:induction false} FieldAbsent(block: string, key: string)
    requires !Contains(block, key + ":")
    ensures Field(block, key) == ""
  {
    FieldFromAbsent(block, key, 0);
  }

  /** Where `KEY:` sits in a match after the dash: at or before the whitespace the greedy run
      took. */
  lemma {:induction false} KeyValueAtWitness(y: string, key: string, j: nat) returns (w: nat)
    requires j <= |y| && KeyValueAt(y, key, j).Some?
    ensures w <= j && OccursAt(y, key + ":", w)
    decreases j
  {
    if StartsWith(y[j..], key + ":") && ValueAt(y[j + |key| + 1..]).Some? {
      assert y[j..j + |key| + 1] == y[j..][..|key| + 1];
      w := j;
    } else {
      w := KeyValueAtWitness(y, key, j - 1);
    }
  }

  lemma {:induction false} OccursAtEach(s: string, m: string, q: nat)
    requires OccursAt(s, m, q)
    ensures forall i :: q <= i < q + |m| ==> s[i] == m[i - q]
  {
    forall i | q <= i < q + |m| ensures s[i] == m[i - q] {
      assert s[q..q + |m|][i - q] == s[i];
    }
  }

  /** A match at `k`: a dash, whitespace, then `KEY:` at some `q`. */
  lemma {:induction false} FieldMatchWitness(s: string, key: string, k: nat) returns (q: nat)
    requires k < |s| && FieldMatchAt(s[k..], key).Some?
    ensures s[k] == '-' && k < q && OccursAt(s, key + ":", q)
    ensures forall i :: k < i < q ==> IsSpace(s[i])
  {
    var y := s[k..][1..];
    assert y == s[k + 1..];
    var w := KeyValueAtWitness(y, key, SpaceRun(y, 0));
    assert y[w..w + |key| + 1] == s[k + 1 + w..k + 1 + w + |key| + 1];
    forall i | k < i < k + 1 + w ensures IsSpace(s[i]) {
      assert s[i] == y[i - k - 1];
    }
    q := k + 1 + w;
  }

  /** No match starts in a text of whole lines without `KEY:` that a dash follows, provided the
      key neither starts with a dash nor holds a newline. */
  lemma {:induction false} NoMatchBefore(pre: string, x: string, key: string, k: nat)
    requires pre == [] || pre[|pre| - 1] == '\n'
    requires !Contains(pre, key + ":")
    requires key != [] && key[0] != '-' && '\n' !in key
    requires x != [] && x[0] == '-' && k < |pre|
    ensures FieldMatchAt((pre + x)[k..], key).None?
  {
    var s := pre + x;
    if FieldMatchAt(s[k..], key).Some? {
      var q := FieldMatchWitness(s, key, k);
      KeyInsidePre(pre, x, key, k, q);
      assert OccursAt(pre, key + ":", q);
    }
  }

  /** `KEY:` after a dash and whitespace that start inside `pre` lies inside `pre`: across its
      last newline it would hold a newline, and past it the dash that follows would be taken as
      whitespace or as the key's first character. */
  lemma {:induction false} KeyInsidePre(pre: string, x: string, key: string, k: nat, q: nat)
    requires pre == [] || pre[|pre| - 1] == '\n'
    requires key != [] && key[0] != '-' && '\n' !in key
    requires x != [] && x[0] == '-' && k < |pre| && k < q
    requires OccursAt(pre + x, key + ":", q)
    requires forall i :: k < i < q ==> IsSpace((pre + x)[i])
    ensures q + |key| + 1 <= |pre|
  {
    var s := pre + x;
    var m := key + ":";
    OccursAtEach(s, m, q);
    AppendAt(pre, x, |pre|);
    if pre != [] {
      AppendAt(pre, x, |pre| - 1);
    }
    assert m[0] == key[0] && '\n' !in m;
  }

  /** Positions where the pattern does not match are passed over. */
  lemma {:induction false} FieldFromSkips(s: string, key: string, i: nat, d: nat)
    requires i <= d <= |s|
    requires forall k :: i <= k < d ==> FieldMatchAt(s[k..], key).None?
    ensures FieldFrom(s, key, i) == FieldFrom(s, key, d)
    decreases d - i
  {
    if i < d {
      assert FieldMatchAt(s[i..], key).None?;
      FieldFromSkips(s, key, i + 1, d);
    }
  }

  /** Whitespace, then a line whose first character is not whitespace: the group is that line. */
  lemma {:induction false} ValueAtStart(gap: string, value: string, tail: string)
    requires AllSpace(gap)
    requires value != [] && !IsSpace(value[0]) && '\n' !in value
    requires tail == [] || tail[0] == '\n'
    ensures ValueAt(gap + (value + tail)) == Some(value)
  {
    assert (value + tail)[0] == value[0];
    SpaceRunOver(gap, value + tail);
    LineEndOver(gap, value, tail);
    MiddleSlice(gap, value, tail);
  }

  /** `KEY:` at offset `j` with a text `z` after it on which the value pattern matches. */
  lemma {:induction false} KeyValueAtHere(y: string, key: string, j: nat, z: string)
    requires j + |key| + 1 <= |y| && StartsWith(y[j..], key + ":") && y[j + |key| + 1..] == z
    requires ValueAt(z).Some?
    ensures KeyValueAt(y, key, j) == ValueAt(z)
  {
  }

  /** With the whitespace before the key given back down to `lead`, `KEY:` matches and the value
      pattern decides. */
  lemma {:induction false} KeyValueAtStart(lead: string, key: string, z: string)
    requires ValueAt(z).Some?
    ensures KeyValueAt(lead + (key + (":" + z)), key, |lead|) == ValueAt(z)
  {
    var y := lead + (key + (":" + z));
    DropAppend(lead, key + (":" + z));
    Assoc(key, ":", z);
    DropAppend(key + ":", z);
    DropDrop(y, |lead|, |key| + 1);
    KeyValueAtHere(y, key, |lead|, z);
  }

  /** A dash, whitespace, `KEY:` and a text on which the value pattern matches. */
  lemma {:induction false} FieldMatchAtStart(lead: string, key: string, z: string)
    requires AllSpace(lead) && key != [] && !IsSpace(key[0])
    requires ValueAt(z).Some?
    ensures FieldMatchAt("-" + (lead + (key + (":" + z))), key) == ValueAt(z)
  {
    var y := lead + (key + (":" + z));
    DropAppend("-", y);
    assert (key + (":" + z))[0] == key[0];
    SpaceRunOver(lead, key + (":" + z));
    KeyValueAtStart(lead, key, z);
  }

  lemma {:induction false} FieldLineParts(pre: string, lead: string, key: string, gap: string, value: string, tail: string)
    ensures pre + "-" + lead + key + ":" + gap + value + tail
      == pre + ("-" + (lead + (key + (":" + (gap + (value + tail))))))
  {
    Assoc(pre + "-" + lead + key + ":" + gap, value, tail);
    RightAssoc7(pre, "-", lead, key, ":", gap, value + tail);
  }

  /** The first `- KEY: value` line decides the field: the value is the rest of that line,
      stripped, and whatever follows (later duplicates of the key included) is ignored. The
      whitespace after the colon may span newlines, so `value` may sit on a later line. */
  lemma {:induction false} FieldFirstOccurrence(pre: string, lead: string, key: string, gap: string, value: string, tail: string)
    requires pre == [] || pre[|pre| - 1] == '\n'
    requires !Contains(pre, key + ":")
    requires AllSpace(lead) && AllSpace(gap)
    requires key != [] && !IsSpace(key[0]) && key[0] != '-' && '\n' !in key
    requires value != [] && !IsSpace(value[0]) && '\n' !in value
    requires tail == [] || tail[0] == '\n'
    ensures Field(pre + "-" + lead + key + ":" + gap + value + tail, key) == Strip(value)
  {
    var x := "-" + (lead + (key + (":" + (gap + (value + tail)))));
    FieldLineParts(pre, lead, key, gap, value, tail);
    var s := pre + x;
    forall k | 0 <= k < |pre| ensures FieldMatchAt(s[k..], key).None? {
      NoMatchBefore(pre, x, key, k);
    }
    FieldFromSkips(s, key, 0, |pre|);
    DropAppend(pre, x);
    ValueAtStart(gap, value, tail);
    FieldMatchAtStart(lead, key, gap + (value + tail));
  }

  /** `- KEY:` then spaces, a trimmed value and trailing spaces, then the next line: the value. */
  lemma {:induction false} FieldSpacedValue(pre: string, key: string, sp: string, t: string, tail: string)
    requires pre == [] || pre[|pre| - 1] == '\n'
    requires !Contains(pre, key + ":") && AllSpace(sp) && '\n' !in sp
    requires key != [] && !IsSpace(key[0]) && key[0] != '-' && '\n' !in key
    requires t != [] && Trimmed(t) && '\n' !in t
    requires tail == [] || tail[0] == '\n'
    ensures Field(pre + "- " + key + ":" + sp + t + sp + tail, key) == t
  {
    var v := t + sp;
    assert v[0] == t[0];
    assert "- " == "-" + " ";
    assert pre + "- " + key + ":" + sp + t + sp + tail == pre + "-" + " " + key + ":" + sp + v + tail;
    FieldFirstOccurrence(pre, " ", key, sp, v, tail);
    StripAround("", t, sp);
    assert "" + t + sp == v;
  }

  /** A value with spaces inside and around it, followed by another field. */
  lemma {:induction false} FieldExample(block: string)
    requires block == "## Example\n" + "- " + "Key" + ":" + "   " + "Value with spaces" + "   " + "\n- Other: Something\n"
    ensures Field(block, "Key") == "Value with spaces"
  {
    var t := "Value with spaces";
    assert Trimmed(t) && '\n' !in t by { assert t[16] == 's'; }
    NotContainsChar("## Example\n", "Key" + ":", 'K');
    FieldSpacedValue("## Example\n", "Key", "   ", t, "\n- Other: Something\n");
  }

  lemma {:induction false} XRayAfterDash(y: string)
    requires y == " X-Ray: y"
    ensures SpaceRun(y, 0) == 1 && KeyValueAt(y, "Ray", 1).None?
  {
    assert y[1..][..4] == "X-Ra" && y[0..][..4] == " X-R";
  }

  lemma {:induction false} XRayParts(b: string)
    requires b == "- X-Ray: y"
    ensures b[1..] == " X-Ray: y" && b[1] == ' ' && b[2] == 'X'
    ensures b[3..] == "-" + ("" + ("Ray" + (":" + (" " + ("y" + "")))))
  {
  }

  /** The pattern is not anchored to the start of a line: a dash inside a word begins a match,
      so `- X-Ray: y` has the `Ray` value `y`. */
  lemma {:induction false} FieldInsideWord(b: string)
    requires b == "- X-Ray: y"
    ensures Field(b, "Ray") == "y"
  {
    XRayParts(b);
    XRayAfterDash(b[1..]);
    forall k | 0 <= k < 3 ensures FieldMatchAt(b[k..], "Ray").None? {
      assert b[k..][0] == b[k];
      if k == 0 {
        assert b[0..][1..] == b[1..];
      }
    }
    FieldFromSkips(b, "Ray", 0, 3);
    ValueAtStart(" ", "y", "");
    FieldMatchAtStart("", "Ray", " " + ("y" + ""));
    StripTrimmed("y");
  }

  // ---------------------------------------------------------------- heading

  /** `^##\s+(.+?)\s*$` tried at the start of `x`, a line start: the captured text. */
  function HeadingAt(x: string): (r: Option<string>)
    ensures r.Some? ==> '\n' !in r.value
  {
    if StartsWith(x, "##") then
      var w := SpaceRun(x, 2);
      if w == 0 then None
      else if 2 + w < |x| then
        // The lazy group stops where nothing but whitespace is left on the line. It starts on a
        // non-whitespace character, so that is the line's rest with its whitespace stripped.
        var line := x[2 + w..LineEnd(x, 2 + w)];
        StripAvoids(line, '\n');
        Some(Strip(line))
      else
        // Only whitespace is left: `\s+` gives characters back until `.` can take one.
        match LastNonNewline(x, 3, |x|)
        case None => None
        case Some(t) => Some(x[t..t + 1])
    else None
  }

  /** The search over the line starts from `l` on; the name is the group, stripped. */
  function HeadingFrom(s: string, l: nat): (r: Option<string>)
    requires l <= |s|
    ensures r.Some? ==> Trimmed(r.value) && '\n' !in r.value
    decreases |s| - l
  {
    match HeadingAt(s[l..])
    case Some(g) => StripAvoids(g, '\n'); Some(Strip(g))
    case None =>
      var e := LineEnd(s, l);
      if e == |s| then None else HeadingFrom(s, e + 1)
  }

  /** The card name of a block: the text of its first `## ` heading line, stripped. */
  function HeadingName(block: string): (r: Option<string>)
    ensures r.Some? ==> Trimmed(r.value) && '\n' !in r.value
  {
    HeadingFrom(block, 0)
  }

  lemma {:induction false} HeadingFromNewlines(s: string, l: nat)
    requires l <= |s| && forall k :: l <= k < |s| ==> s[k] == '\n'
    ensures HeadingFrom(s, l) == None
    decreases |s| - l
  {
    assert !StartsWith(s[l..], "##") by {
      if |s| - l >= 2 { assert s[l..][0] == '\n'; }
    }
    if l < |s| {
      assert LineEnd(s, l) == l;
      HeadingFromNewlines(s, l + 1);
    }
  }

  /** For a block that starts with `## `, the heading search fails exactly when nothing but
      newlines follows: the one case in which the compiler skips a block for want of a name. */
  lemma {:induction false} HeadingMissing(block: string)
    requires StartsWith(block, "## ")
    ensures HeadingName(block).None? <==> forall k :: 3 <= k < |block| ==> block[k] == '\n'
  {
    assert block[..3] == "## ";
    assert block[0..] == block;
    var w := SpaceRun(block, 2);
    assert w >= 1;
    if forall k :: 3 <= k < |block| ==> block[k] == '\n' {
      assert 2 + w == |block|;
      assert HeadingAt(block) == None;
      LineEndExact(block, 0, 3);
      if |block| > 3 {
        HeadingFromNewlines(block, 4);
      }
    } else {
      var k :| 3 <= k < |block| && block[k] != '\n';
      if 2 + w == |block| {
        assert LastNonNewline(block, 3, |block|).Some?;
      }
      assert HeadingAt(block).Some?;
    }
  }

  /** The heading pattern at a line start whose `\s+` run has length `w` and is followed by a
      non-blank character. */
  lemma {:induction false} HeadingAtText(x: string, w: nat, q: nat, e: nat, line: string)
    requires StartsWith(x, "##") && w > 0 && SpaceRun(x, 2) == w && q == 2 + w
    requires q < e <= |x| && LineEnd(x, q) == e && x[q..e] == line
    ensures HeadingAt(x) == Some(Strip(line))
  {
  }

  /** `##`, a non-empty whitespace run, then a text `t` that starts with a non-blank character
      and runs to the end of the line: the group is `t` stripped. */
  lemma {:induction false} HeadingAtLine(sp: string, t: string, tail: string)
    requires sp != [] && AllSpace(sp)
    requires t != [] && !IsSpace(t[0]) && '\n' !in t
    requires tail == [] || tail[0] == '\n'
    ensures HeadingAt(("##" + sp) + (t + tail)) == Some(Strip(t))
  {
    var a := "##" + sp;
    var x := a + (t + tail);
    Assoc("##", sp, t + tail);
    DropAppend("##", sp + (t + tail));
    SpaceRunShift(x, 2, 0);
    assert (t + tail)[0] == t[0];
    SpaceRunOver(sp, t + tail);
    LineEndOver(a, t, tail);
    MiddleSlice(a, t, tail);
    HeadingAtText(x, |sp|, |a|, |a| + |t|, t);
  }

  /** Stripping a suffix that still holds the trimmed part `t[a..m]` with only whitespace
      around it. */
  lemma {:induction false} StripOfSuffix(t: string, n: nat, a: nat, m: nat)
    requires n <= a <= m <= |t| && Trimmed(t[a..m])
    requires forall k :: n <= k < a ==> IsSpace(t[k])
    requires forall k :: m <= k < |t| ==> IsSpace(t[k])
    ensures Strip(t[n..]) == t[a..m]
  {
    var u := t[n..];
    forall i | 0 <= i < a - n ensures IsSpace(u[i]) {
      assert u[i] == t[n + i];
    }
    forall i | m - n <= i < |u| ensures IsSpace(u[i]) {
      assert u[i] == t[n + i];
    }
    assert u[a - n..m - n] == t[a..m];
    StripUnique(u, a - n, m - n);
  }

  /** `Strip` ignores leading whitespace that has already been skipped. */
  lemma {:induction false} StripAfterLeadingSpace(t: string, n: nat)
    requires n <= |t| && forall k :: 0 <= k < n ==> IsSpace(t[k])
    ensures Strip(t[n..]) == Strip(t)
  {
    var a := LeadingSpace(t);
    var m := TrailingSpaceFrom(t, a);
    assert n <= a;
    assert Trimmed(t[a..m]) by {
      if a < m { assert t[a..m][0] == t[a] && t[a..m][m - a - 1] == t[m - 1]; }
    }
    StripUnique(t, a, m);
    StripOfSuffix(t, n, a, m);
  }

  lemma {:induction false} TitleLineParts(title: string, n: nat, tail: string)
    requires n <= |title|
    ensures "## " + title + tail == ("##" + (" " + title[..n])) + (title[n..] + tail)
  {
    assert "## " == "##" + " ";
    TakeDrop(title, n);
    Assoc("##", " ", title[..n]);
    Assoc("## " + title[..n], title[n..], tail);
  }

  /** A block `## TITLE` followed by a newline (or nothing) is named by the stripped title. */
  lemma {:induction false} HeadingOfTitleLine(title: string, tail: string)
    requires '\n' !in title && !AllSpace(title)
    requires tail == [] || tail[0] == '\n'
    ensures HeadingName("## " + title + tail) == Some(Strip(title))
  {
    var s := "## " + title + tail;
    var n := LeadingSpace(title);
    var t := title[n..];
    assert t[0] == title[n];
    assert '\n' !in t by {
      forall k | 0 <= k < |t| ensures t[k] != '\n' { assert t[k] == title[n + k]; }
    }
    var sp := " " + title[..n];
    assert AllSpace(sp) by {
      forall k | 0 <= k < |sp| ensures IsSpace(sp[k]) { if k > 0 { assert sp[k] == title[k - 1]; } }
    }
    TitleLineParts(title, n, tail);
    HeadingAtLine(sp, t, tail);
    assert s[0..] == s;
    StripAfterLeadingSpace(title, n);
    StripTrimmed(Strip(title));
  }

  /** A block whose heading search fails has no fields at all, so skipping it for want of a name
      never drops a card that `App Pulls` would have let through. */
  lemma {:induction false} NoHeadingNoFields(block: string, key: string)
    requires StartsWith(block, "## ") && HeadingName(block).None?
    ensures Field(block, key) == ""
  {
    HeadingMissing(block);
    assert block[..3] == "## ";
    assert ':' !in block by {
      forall k | 0 <= k < |block| ensures block[k] != ':' {
        if k < 3 { assert block[k] == block[..3][k]; }
      }
    }
    assert ':' in key + ":" by { assert (key + ":")[|key|] == ':'; }
    NotContainsChar(block, key + ":", ':');
    FieldAbsent(block, key);
  }
}
