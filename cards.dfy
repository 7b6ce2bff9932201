/** The derived values of a card record: the id slug of its name and the split of the
    `Angel/Demon` and `Crystal` field values. */
module Cards {
  import opened Text

  // ---------------------------------------------------------------- id slug

  /** `\w`: letters, digits and the underscore (ASCII only in this model). */
  predicate IsWordChar(c: char)
  {
    'a' <= c <= 'z' || 'A' <= c <= 'Z' || '0' <= c <= '9' || c == '_'
  }

  /** Length of the run of non-word characters at the start of `s`. */
  function NonWordRun(s: string): (n: nat)
    ensures n <= |s| && (n < |s| ==> IsWordChar(s[n]))
    ensures forall k :: 0 <= k < n ==> !IsWordChar(s[k])
  {
    if s != [] && !IsWordChar(s[0]) then 1 + NonWordRun(s[1..]) else 0
  }

  /** `re.sub(r"[^\w]+", "_", s)`: every maximal run of non-word characters becomes one `_`. */
  function Collapse(s: string): (r: string)
    ensures forall k :: 0 <= k < |r| ==> IsWordChar(r[k])
    ensures |r| <= |s|
    decreases |s|
  {
    if s == [] then []
    else if IsWordChar(s[0]) then [s[0]] + Collapse(s[1..])
    else ['_'] + Collapse(s[NonWordRun(s)..])
  }

  /** The card id: the name with its non-word runs collapsed to `_`, lower-cased. */
  function Slug(name: string): (id: string)
    ensures |id| <= |name|
    ensures forall k :: 0 <= k < |id| ==> IsWordChar(id[k]) && !IsUpper(id[k])
  {
    Lower(Collapse(name))
  }

  /** Text made only of word characters is left as it is. */
  lemma {:induction false} CollapseWords(s: string)
    requires forall k :: 0 <= k < |s| ==> IsWordChar(s[k])
    ensures Collapse(s) == s
    decreases |s|
  {
    if s != [] {
      CollapseWords(s[1..]);
    }
  }

  /** A name that is already an id is its own id. */
  lemma {:induction false} SlugIdempotent(name: string)
    ensures Slug(Slug(name)) == Slug(name)
  {
    var id := Slug(name);
    CollapseWords(id);
    assert forall k :: 0 <= k < |id| ==> LowerChar(id[k]) == id[k];
  }

  /** A run of non-word characters before a word (or the end) becomes one `_`. */
  lemma {:induction false} CollapseRun(sep: string, v: string)
    requires sep != [] && forall k :: 0 <= k < |sep| ==> !IsWordChar(sep[k])
    requires v == [] || IsWordChar(v[0])
    ensures Collapse(sep + v) == "_" + Collapse(v)
  {
    var s := sep + v;
    assert s[0] == sep[0];
    NonWordRunExact(s, |sep|);
    assert s[|sep|..] == v;
  }

  /** The separators between words become one `_` each, whatever they are. */
  lemma {:induction false} CollapseSeparated(u: string, sep: string, v: string)
    requires forall k :: 0 <= k < |u| ==> IsWordChar(u[k])
    requires sep != [] && forall k :: 0 <= k < |sep| ==> !IsWordChar(sep[k])
    requires v == [] || IsWordChar(v[0])
    ensures Collapse(u + sep + v) == u + "_" + Collapse(v)
    decreases |u|
  {
    if u == [] {
      assert u + sep + v == sep + v;
      CollapseRun(sep, v);
    } else {
      var s := u + sep + v;
      assert s[0] == u[0] && s[1..] == u[1..] + sep + v;
      CollapseSeparated(u[1..], sep, v);
      HeadApart(u, "_", Collapse(v));
    }
  }

  lemma {:induction false} HeadApart(u: string, m: string, w: string)
    requires u != []
    ensures u + m + w == [u[0]] + (u[1..] + m + w)
  {
  }

  lemma {:induction false} NonWordRunExact(s: string, n: nat)
    requires n <= |s| && (n < |s| ==> IsWordChar(s[n]))
    requires forall k :: 0 <= k < n ==> !IsWordChar(s[k])
    ensures NonWordRun(s) == n
    decreases n
  {
    if n > 0 {
      NonWordRunExact(s[1..], n - 1);
    }
  }

  /** Two words with a space between them: the id is both words in lower case, joined by `_`. */
  lemma {:induction false} SlugTwoWords(u: string, v: string)
    requires forall k :: 0 <= k < |u| ==> IsWordChar(u[k])
    requires v != [] && forall k :: 0 <= k < |v| ==> IsWordChar(v[k])
    ensures Slug(u + " " + v) == Lower(u) + "_" + Lower(v)
  {
    CollapseSeparated(u, " ", v);
    CollapseWords(v);
    LowerJoined(u, v);
  }

  lemma {:induction false} LowerJoined(u: string, v: string)
    ensures Lower(u + "_" + v) == Lower(u) + "_" + Lower(v)
  {
    var l, r := Lower(u + "_" + v), Lower(u) + "_" + Lower(v);
    forall i | 0 <= i < |l| ensures l[i] == r[i] {
      if i < |u| {
        assert l[i] == LowerChar(u[i]);
      } else if i > |u| {
        assert l[i] == LowerChar(v[i - |u| - 1]);
      }
    }
  }

  lemma {:induction false} JoinedWords(a: string, b: string)
    requires a == "the" && b == "fool"
    ensures a + "_" + b == "the_fool"
  {
  }

  lemma {:induction false} SlugOfTheFool()
    ensures Slug("The Fool") == "the_fool"
  {
    SlugTwoWords("The", "Fool");
    assert "The" + " " + "Fool" == "The Fool";
    assert Lower("The") == "the";
    assert Lower("Fool") == "fool";
    JoinedWords(Lower("The"), Lower("Fool"));
  }

  // ---------------------------------------------------------------- angel / demon

  const Arrow: char := '\U{2194}'

  /** The `Angel/Demon` value `ANGEL ↔ DEMON`: the stripped text before the first arrow and
      between the first and the second; two empty names when there is no arrow. */
  function AngelDemon(ad: string): (r: (string, string))
    ensures Arrow !in ad ==> r == ("", "")
    ensures Trimmed(r.0) && Trimmed(r.1)
  {
    if Arrow in ad then
      var parts := StripEach(Split(ad, Arrow));
      var angel := if |parts| > 0 then parts[0] else "";
      var demon := if |parts| > 1 then parts[1] else "";
      (angel, demon)
    else ("", "")
  }

  /** Around the first arrow: the angel is the stripped text before it, the demon the stripped
      text after it up to the next arrow, if any. */
  lemma {:induction false} AngelDemonParts(a: string, d: string, rest: string)
    requires Arrow !in a && Arrow !in d
    requires rest == [] || rest[0] == Arrow
    ensures AngelDemon(a + [Arrow] + d + rest) == (Strip(a), Strip(d))
  {
    var s := a + [Arrow] + d + rest;
    var dr := d + rest;
    assert s == a + [Arrow] + dr;
    assert Arrow in s by { assert s[|a|] == Arrow; }
    SplitConcat(a, dr, Arrow);
    IndexOfExact(a, Arrow, |a|);
    assert Split(a, Arrow) == [a];
    IndexOfExact(dr, Arrow, |d|);
    SplitHead(dr, Arrow);
    assert dr[..|d|] == d;
    var parts := Split(s, Arrow);
    assert parts[0] == a && parts[1] == d;
    assert StripEach(parts)[0] == Strip(a) && StripEach(parts)[1] == Strip(d);
  }

  /** Two names written around the arrow with a space on each side. */
  lemma {:induction false} AngelDemonSpaced(a: string, d: string)
    requires Trimmed(a) && Trimmed(d) && Arrow !in a && Arrow !in d
    ensures AngelDemon(a + " " + [Arrow] + " " + d) == (a, d)
  {
    assert a + " " + [Arrow] + " " + d == (a + " ") + [Arrow] + (" " + d) + "";
    AngelDemonParts(a + " ", " " + d, "");
    StripAround("", a, " ");
    StripAround(" ", d, "");
    assert "" + a + " " == a + " " && " " + d + "" == " " + d;
  }

  lemma {:induction false} SpacedArrow(a: string, d: string, ad: string)
    requires a == "Michael" && d == "Belial" && ad == "Michael \U{2194} Belial"
    ensures a + " " + [Arrow] + " " + d == ad
  {
  }

  lemma {:induction false} AngelDemonExample(ad: string)
    requires ad == "Michael \U{2194} Belial"
    ensures AngelDemon(ad) == ("Michael", "Belial")
  {
    AngelDemonSpaced("Michael", "Belial");
    SpacedArrow("Michael", "Belial", ad);
  }

  // ---------------------------------------------------------------- crystal / chemistry

  /** The crystal: the stripped text before the first `(`, or all of it when there is none. */
  function Crystal(line: string): (r: string)
    ensures Trimmed(r) && '(' !in r
  {
    if line == [] then []
    else
      var parts := Split(line, '(');
      Strip(parts[0])
  }

  /** The chemistry: the stripped text between the first `(` and the last `)`, when that `)`
      comes after the `(`; empty otherwise. */
  function Chemistry(line: string): (r: string)
    ensures Trimmed(r)
    ensures r != [] ==> '(' in line && ')' in line
    ensures r != [] ==> IndexOf(line, '(') + 1 < LastIndexOf(line, ')')
  {
    ChemistryAt(line, IndexOf(line, '('), LastIndexOf(line, ')'))
  }

  /** The chemistry given the index `o` of the first `(` (or `|line|` when there is none) and
      the index `c` of the last `)` (or -1). */
  function ChemistryAt(line: string, o: nat, c: int): (r: string)
    requires o <= |line| && -1 <= c < |line|
    ensures Trimmed(r)
    ensures r != [] ==> o < |line| && o + 1 < c
  {
    if o < |line| && c >= 0 then Inside(line, o + 1, c) else ""
  }

  /** The stripped text from `start` up to `end`, or "" when `end` is not after `start`. */
  function Inside(line: string, start: nat, end: int): (r: string)
    requires start <= |line| && end < |line|
    ensures Trimmed(r)
    ensures r != [] ==> start < end
  {
    if end > start then Strip(line[start..end]) else ""
  }

  /** The crystal is the part before the first `(`. */
  lemma {:induction false} CrystalBeforeParen(line: string)
    ensures Crystal(line) == Strip(line[..IndexOf(line, '(')])
  {
    SplitHead(line, '(');
    if line == [] {
      assert Strip([]) == [] by { StripUnique([], 0, 0); }
    }
  }

  lemma {:induction false} CrystalOfParts(name: string, chem: string, tail: string)
    requires '(' !in name
    ensures Crystal(name + "(" + chem + ")" + tail) == Strip(name)
  {
    var line := name + "(" + chem + ")" + tail;
    assert line[|name|] == '(';
    assert line[..|name|] == name;
    IndexOfExact(line, '(', |name|);
    CrystalBeforeParen(line);
  }

  lemma {:induction false} FirstParen(name: string, rest: string)
    requires '(' !in name
    ensures IndexOf(name + "(" + rest, '(') == |name|
  {
    var line := name + "(" + rest;
    forall j | 0 <= j < |name| ensures line[j] != '(' {
      assert line[j] == name[j];
    }
    IndexOfExact(line, '(', |name|);
  }

  lemma {:induction false} LastParen(head: string, tail: string)
    requires ')' !in tail
    ensures LastIndexOf(head + ")" + tail, ')') == |head|
  {
    var line := head + ")" + tail;
    forall k | |head| < k < |line| ensures line[k] != ')' {
      assert line[k] == tail[k - |head| - 1];
    }
    LastIndexOfExact(line, ')', |head|);
  }

  lemma {:induction false} InsideSlice(line: string, start: nat, end: nat)
    requires start <= end < |line|
    ensures Inside(line, start, end) == Strip(line[start..end])
  {
    if start == end {
      assert line[start..end] == [];
      StripUnique([], 0, 0);
    }
  }

  /** The chemistry once the first `(` and the last `)` are known. */
  lemma {:induction false} ChemistryBetween(line: string, o: nat, c: nat)
    requires o < c < |line| && IndexOf(line, '(') == o && LastIndexOf(line, ')') == c
    ensures Chemistry(line) == Strip(line[o + 1..c])
  {
    assert Chemistry(line) == ChemistryAt(line, o, c);
    InsideSlice(line, o + 1, c);
  }

  lemma {:induction false} ChemistryOfParts(name: string, chem: string, tail: string)
    requires '(' !in name && ')' !in tail
    ensures Chemistry(name + "(" + chem + ")" + tail) == Strip(chem)
  {
    var line := name + "(" + chem + ")" + tail;
    Assoc(name + "(" + chem, ")", tail);
    Assoc(name + "(", chem, ")" + tail);
    FirstParen(name, chem + (")" + tail));
    LastParen(name + "(" + chem, tail);
    MiddleSlice(name + "(", chem, ")" + tail);
    ChemistryBetween(line, |name|, |name| + 1 + |chem|);
  }

  /** `NAME (CHEM)` followed by text with no `)`: the two parts, each stripped. */
  lemma {:induction false} CrystalChemistryParts(name: string, chem: string, tail: string)
    requires '(' !in name && ')' !in tail
    ensures Crystal(name + "(" + chem + ")" + tail) == Strip(name)
    ensures Chemistry(name + "(" + chem + ")" + tail) == Strip(chem)
  {
    CrystalOfParts(name, chem, tail);
    ChemistryOfParts(name, chem, tail);
  }

  lemma {:induction false} LastIndexOfExact(s: string, x: char, i: nat)
    requires i < |s| && s[i] == x && forall k :: i < k < |s| ==> s[k] != x
    ensures LastIndexOf(s, x) == i
    decreases |s|
  {
    if i < |s| - 1 {
      LastIndexOfExact(s[..|s| - 1], x, i);
    }
  }

  /** A `)` that only comes before the first `(` closes nothing: no chemistry, as in
      `Quartz) (SiO2`. */
  lemma {:induction false} ChemistryMisordered(a: string, b: string, d: string)
    requires '(' !in a && '(' !in b && ')' !in b && ')' !in d
    ensures Chemistry(a + ")" + b + "(" + d) == ""
  {
    var line := a + ")" + b + "(" + d;
    var head := a + ")" + b;
    forall j | 0 <= j < |head| ensures head[j] != '(' {
      AppendAt(a + ")", b, j);
      if j < |a| + 1 {
        AppendAt(a, ")", j);
      }
    }
    FirstParen(head, d);
    Assoc(a + ")", b, "(" + d);
    Assoc(a, ")", b + ("(" + d));
    Assoc(b, "(", d);
    LastParen(a, b + "(" + d);
  }

  /** Without a `(` the whole value is the crystal and there is no chemistry. */
  lemma {:induction false} CrystalNoParen(line: string)
    requires '(' !in line
    ensures Crystal(line) == Strip(line) && Chemistry(line) == ""
  {
    CrystalBeforeParen(line);
    assert line[..|line|] == line;
  }
}
