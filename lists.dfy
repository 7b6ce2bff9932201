/** `parse_list`: a comma- or semicolon-delimited field value as a list of trimmed, non-empty
    items, in the order they are written. */
module Lists {
  import opened Text

  /** An item of a parsed list: non-empty, no surrounding whitespace, no separator inside. */
  predicate IsItem(x: string)
  {
    x != [] && Trimmed(x) && ',' !in x && ';' !in x
  }

  /** The elements of `parts` that are not empty, in order. */
  function NonEmpty(parts: seq<string>): (r: seq<string>)
    ensures |r| <= |parts|
    ensures forall k :: 0 <= k < |r| ==> r[k] != []
    decreases |parts|
  {
    if parts == [] then []
    else (if parts[0] == [] then [] else [parts[0]]) + NonEmpty(parts[1..])
  }

  /** The items after the emptiness guard: split on `,` once `;` has become `,`, strip, drop
      the empty ones. */
  function Items(value: string): (r: seq<string>)
  {
    NonEmpty(StripEach(Split(Replace(value, ';', ','), ',')))
  }

  function ParseList(value: string): (r: seq<string>)
    ensures forall k :: 0 <= k < |r| ==> IsItem(r[k])
  {
    if value == [] then [] else ItemsAreItems(value); Items(value)
  }

  lemma {:induction false} ItemsAreItems(value: string)
    ensures forall k :: 0 <= k < |Items(value)| ==> IsItem(Items(value)[k])
  {
    var cleaned := Replace(value, ';', ',');
    var parts := Split(cleaned, ',');
    SplitPartsAvoid(cleaned, ',', ';');
    var stripped := StripEach(parts);
    assert forall k :: 0 <= k < |stripped| ==> ',' !in stripped[k] && ';' !in stripped[k] && Trimmed(stripped[k]) by {
      forall k | 0 <= k < |stripped| ensures ',' !in stripped[k] && ';' !in stripped[k] && Trimmed(stripped[k]) {
        assert stripped[k] == Strip(parts[k]);
      }
    }
    NonEmptyKeeps(stripped);
  }

  /** Every element `NonEmpty` keeps is one of its input's. */
  lemma {:induction false} NonEmptyKeeps(parts: seq<string>)
    ensures forall k :: 0 <= k < |NonEmpty(parts)| ==> NonEmpty(parts)[k] in parts
    decreases |parts|
  {
    if parts != [] {
      NonEmptyKeeps(parts[1..]);
      var head: seq<string> := if parts[0] == [] then [] else [parts[0]];
      forall k | 0 <= k < |NonEmpty(parts)| ensures NonEmpty(parts)[k] in parts {
        if k >= |head| {
          assert NonEmpty(parts)[k] == NonEmpty(parts[1..])[k - |head|];
        }
      }
    }
  }

  lemma {:induction false} NonEmptyConcat(a: seq<string>, b: seq<string>)
    ensures NonEmpty(a + b) == NonEmpty(a) + NonEmpty(b)
    decreases |a|
  {
    if a != [] {
      assert (a + b)[1..] == a[1..] + b;
      assert (a + b)[0] == a[0];
      NonEmptyConcat(a[1..], b);
      var h: seq<string> := if a[0] == [] then [] else [a[0]];
      Assoc(h, NonEmpty(a[1..]), NonEmpty(b));
    } else {
      assert a + b == b;
    }
  }

  /** The guard for the empty value changes nothing: the pipeline gives no items for it either. */
  lemma {:induction false} ParseListItems(value: string)
    ensures ParseList(value) == Items(value)
  {
    if value == [] {
      assert Replace(value, ';', ',') == [];
      assert Split([], ',') == [[]];
      assert Strip([]) == [];
      assert StripEach([[]]) == [[]];
    }
  }

  /** Replacing `;` by `,` works piecewise around a separator `sep`. */
  lemma {:induction false} ReplaceAround(a: string, sep: char, b: string)
    requires sep in ",;"
    ensures Replace(a + [sep] + b, ';', ',') == Replace(a, ';', ',') + [','] + Replace(b, ';', ',')
  {
  }

  lemma {:induction false} StripEachConcat(p: seq<string>, q: seq<string>)
    ensures StripEach(p + q) == StripEach(p) + StripEach(q)
  {
  }

  lemma {:induction false} ItemsAround(a: string, sep: char, b: string)
    requires sep in ",;"
    ensures Items(a + [sep] + b) == Items(a) + Items(b)
  {
    var ra, rb := Replace(a, ';', ','), Replace(b, ';', ',');
    ReplaceAround(a, sep, b);
    SplitConcat(ra, rb, ',');
    var pa, pb := Split(ra, ','), Split(rb, ',');
    StripEachConcat(pa, pb);
    NonEmptyConcat(StripEach(pa), StripEach(pb));
  }

  /** A comma ends one item and starts the next, and a semicolon does exactly the same: the
      items of the two sides, in order. */
  lemma {:induction false} ParseListSeparator(a: string, sep: char, b: string)
    requires sep == ',' || sep == ';'
    ensures ParseList(a + [sep] + b) == ParseList(a) + ParseList(b)
  {
    ParseListItems(a + [sep] + b);
    ParseListItems(a);
    ParseListItems(b);
    ItemsAround(a, sep, b);
  }

  /** What one separator-free piece contributes: its stripped text, unless that is empty. */
  function TokenItems(t: string): seq<string>
  {
    if Strip(t) == [] then [] else [Strip(t)]
  }

  /** Text with no separator is one item, stripped, or no item when it is blank. */
  lemma {:induction false} ParseListToken(t: string)
    requires ',' !in t && ';' !in t
    ensures ParseList(t) == TokenItems(t)
  {
    ParseListItems(t);
    var cleaned := Replace(t, ';', ',');
    assert cleaned == t;
    assert IndexOf(t, ',') == |t|;
    assert Split(t, ',') == [t];
    assert StripEach([t]) == [Strip(t)];
  }

  /** Items written out with `,` between them are read back unchanged. */
  lemma {:induction false} ParseListJoin(items: seq<string>)
    requires forall k :: 0 <= k < |items| ==> IsItem(items[k])
    ensures ParseList(Join(items, ',')) == items
    decreases |items|
  {
    if items == [] {
    } else {
      StripTrimmed(items[0]);
      ParseListToken(items[0]);
      if |items| > 1 {
        ParseListJoin(items[1..]);
        ParseListSeparator(items[0], ',', Join(items[1..], ','));
        assert items == [items[0]] + items[1..];
      }
    }
  }

  /** One separator-free piece, a separator, then the rest. */
  lemma {:induction false} ParseListStep(t: string, sep: char, rest: string)
    requires sep in ",;" && ',' !in t && ';' !in t
    ensures ParseList(t + [sep] + rest) == TokenItems(t) + ParseList(rest)
  {
    ParseListToken(t);
    ParseListSeparator(t, sep, rest);
  }

  lemma {:induction false} TokenItemsOfChar(c: char)
    requires !IsSpace(c)
    ensures TokenItems([c]) == [[c]] && TokenItems([' ', c]) == [[c]]
  {
    StripUnique([c], 0, 1);
    assert [c][0..1] == [c];
    StripUnique([' ', c], 1, 2);
    assert [' ', c][1..2] == [c];
  }

  lemma {:induction false} TokenItemsBlank()
    ensures TokenItems([]) == [] && TokenItems([' ']) == []
  {
    StripUnique([], 0, 0);
    StripUnique([' '], 1, 1);
  }

  /** Six pieces and the separators of the example below, for any pieces. */
  lemma {:induction false} ParseListChain(s1: string, s2: string, s3: string, s4: string, s5: string, s6: string)
    requires forall t :: t in [s1, s2, s3, s4, s5, s6] ==> ',' !in t && ';' !in t
    ensures ParseList(s1 + [','] + (s2 + [';'] + (s3 + [','] + (s4 + [','] + (s5 + [','] + s6)))))
      == TokenItems(s1) + (TokenItems(s2) + (TokenItems(s3) + (TokenItems(s4) + (TokenItems(s5) + TokenItems(s6)))))
  {
    var r5 := s5 + [','] + s6;
    var r4 := s4 + [','] + r5;
    var r3 := s3 + [','] + r4;
    var r2 := s2 + [';'] + r3;
    ParseListToken(s6);
    ParseListStep(s5, ',', s6);
    ParseListStep(s4, ',', r5);
    ParseListStep(s3, ',', r4);
    ParseListStep(s2, ';', r3);
    ParseListStep(s1, ',', r2);
  }

  lemma {:induction false} ShapeParts(a: char, b: char, c: char, d: char)
    ensures [a, ',', ' ', b, ';', ' ', c, ',', ',', ' ', ',', ' ', d]
      == [a] + [','] + ([' ', b] + [';'] + ([' ', c] + [','] + ([] + [','] + ([' '] + [','] + [' ', d]))))
  {
  }

  lemma {:induction false} ShapeItems(t1: seq<string>, t2: seq<string>, t3: seq<string>, t4: seq<string>, t5: seq<string>, t6: seq<string>, a: char, b: char, c: char, d: char)
    requires t1 == [[a]] && t2 == [[b]] && t3 == [[c]] && t4 == [] && t5 == [] && t6 == [[d]]
    ensures t1 + (t2 + (t3 + (t4 + (t5 + t6)))) == [[a], [b], [c], [d]]
  {
  }

  lemma {:induction false} ShapeTokens(a: char, b: char, c: char, d: char)
    requires a !in ",;" && b !in ",;" && c !in ",;" && d !in ",;"
    ensures ParseList([a, ',', ' ', b, ';', ' ', c, ',', ',', ' ', ',', ' ', d])
      == TokenItems([a]) + (TokenItems([' ', b]) + (TokenItems([' ', c]) + (TokenItems([]) + (TokenItems([' ']) + TokenItems([' ', d])))))
  {
    ShapeParts(a, b, c, d);
    ParseListChain([a], [' ', b], [' ', c], [], [' '], [' ', d]);
  }

  /** The example's shape for any four item characters. */
  lemma {:induction false} ParseListShape(a: char, b: char, c: char, d: char)
    requires !IsSpace(a) && !IsSpace(b) && !IsSpace(c) && !IsSpace(d)
    requires a !in ",;" && b !in ",;" && c !in ",;" && d !in ",;"
    ensures ParseList([a, ',', ' ', b, ';', ' ', c, ',', ',', ' ', ',', ' ', d]) == [[a], [b], [c], [d]]
  {
    ShapeTokens(a, b, c, d);
    TokenItemsOfChar(a);
    TokenItemsOfChar(b);
    TokenItemsOfChar(c);
    TokenItemsOfChar(d);
    TokenItemsBlank();
    ShapeItems(TokenItems([a]), TokenItems([' ', b]), TokenItems([' ', c]), TokenItems([]), TokenItems([' ']), TokenItems([' ', d]), a, b, c, d);
  }

  lemma {:induction false} ParseListExample()
    ensures ParseList("a, b; c,, , d") == ["a", "b", "c", "d"]
  {
    ParseListShape('a', 'b', 'c', 'd');
  }
}
