/** The registry compiler: the master markdown text is cut into `## ` blocks, each block with a
    name and a non-empty `App Pulls` field becomes a card record, and the records are listed in
    block order. */
module Registry {
  import opened Wrappers
  import opened Text
  import opened Fields
  import opened Rules
  import opened Lists
  import opened Cards
  import opened Freq

  // ---------------------------------------------------------------- blocks

  /** `\n(?=##\s)`: a newline followed by `##` and a whitespace character. */
  predicate SplitPointAt(s: string, i: nat)
  {
    i + 3 < |s| && s[i] == '\n' && s[i + 1] == '#' && s[i + 2] == '#' && IsSpace(s[i + 3])
  }

  /** The first split point at or after `i`, or `|s|` when there is none. */
  function NextSplit(s: string, i: nat): (j: nat)
    requires i <= |s|
    ensures i <= j <= |s| && (j < |s| ==> SplitPointAt(s, j))
    ensures forall k :: i <= k < j ==> !SplitPointAt(s, k)
    decreases |s| - i
  {
    if i == |s| || SplitPointAt(s, i) then i else NextSplit(s, i + 1)
  }

  /** `re.split(r"\n(?=##\s)", md)`: the text cut at every split point, the newline dropped. */
  function Segments(s: string): (parts: seq<string>)
    ensures |parts| >= 1 && parts[0] == s[..NextSplit(s, 0)]
    ensures forall k :: 1 <= k < |parts| ==> StartsWith(parts[k], "##")
    decreases |s|
  {
    var j := NextSplit(s, 0);
    if j == |s| then [s]
    else
      var rest := s[j + 1..];
      assert !SplitPointAt(rest, 0) && !SplitPointAt(rest, 1);
      [s[..j]] + Segments(rest)
  }

  /** One cut: the text before the first split point, then the segments of what follows its
      newline. */
  lemma {:induction false} SegmentsUnfold(s: string, j: nat)
    requires j == NextSplit(s, 0) && j < |s|
    ensures Segments(s) == [s[..j]] + Segments(s[j + 1..])
  {
  }

  lemma {:induction false} CutAround(s: string, j: nat)
    requires j < |s| && s[j] == '\n'
    ensures s[..j] + ['\n'] + s[j + 1..] == s
  {
  }

  /** Cutting loses nothing: the segments joined with newlines give the text back. */
  lemma {:induction false} JoinSegments(s: string)
    ensures Join(Segments(s), '\n') == s
    decreases |s|
  {
    var j := NextSplit(s, 0);
    if j < |s| {
      var rest := s[j + 1..];
      JoinSegments(rest);
      SegmentsUnfold(s, j);
      JoinCons(s[..j], Segments(rest), '\n');
      CutAround(s, j);
    }
  }

  /** A text in which no split point occurs. */
  predicate Uncut(x: string)
  {
    forall i :: 0 <= i < |x| ==> !SplitPointAt(x, i)
  }

  /** The text before the first split point has none. */
  lemma {:induction false} PrefixUncut(s: string, j: nat)
    requires j <= |s| && forall k :: 0 <= k < j ==> !SplitPointAt(s, k)
    ensures Uncut(s[..j])
  {
    var head := s[..j];
    forall i | 0 <= i < |head| ensures !SplitPointAt(head, i) {
      assert !SplitPointAt(s, i);
      if i + 3 < |head| {
        assert head[i] == s[i] && head[i + 1] == s[i + 1] && head[i + 2] == s[i + 2] && head[i + 3] == s[i + 3];
      }
    }
  }

  /** No segment holds a split point: every cut was made. */
  lemma {:induction false} SegmentsHaveNoSplitPoint(s: string)
    ensures forall k :: 0 <= k < |Segments(s)| ==> Uncut(Segments(s)[k])
    decreases |s|
  {
    var j := NextSplit(s, 0);
    PrefixUncut(s, j);
    if j < |s| {
      var rest := s[j + 1..];
      SegmentsHaveNoSplitPoint(rest);
      var parts := Segments(s);
      SegmentsUnfold(s, j);
      forall k | 1 <= k < |parts| ensures Uncut(parts[k]) {
        assert parts[k] == Segments(rest)[k - 1];
      }
    } else {
      assert s[..j] == s;
    }
  }

  /** The segments that start with `## `, in order. */
  function Headed(parts: seq<string>): (bs: seq<string>)
    ensures |bs| <= |parts|
    ensures forall k :: 0 <= k < |bs| ==> StartsWith(bs[k], "## ")
    decreases |parts|
  {
    if parts == [] then []
    else (if StartsWith(parts[0], "## ") then [parts[0]] else []) + Headed(parts[1..])
  }

  /** The card blocks of the master text. */
  function Blocks(md: string): (bs: seq<string>)
    ensures forall k :: 0 <= k < |bs| ==> StartsWith(bs[k], "## ")
  {
    Headed(Segments(md))
  }

  /** `Headed` is a filter: it keeps exactly the segments that start with `## `. */
  lemma {:induction false} HeadedMembers(parts: seq<string>, x: string)
    ensures x in Headed(parts) <==> x in parts && StartsWith(x, "## ")
    decreases |parts|
  {
    if parts != [] {
      HeadedMembers(parts[1..], x);
      assert parts == [parts[0]] + parts[1..];
    }
  }

  /** No line of `p` after the first starts with `#`. */
  predicate NoHashLine(p: string)
  {
    forall i :: 0 <= i < |p| - 1 && p[i] == '\n' ==> p[i + 1] != '#'
  }

  lemma {:induction false} NextSplitExact(s: string, i: nat, j: nat)
    requires i <= j <= |s| && (j < |s| ==> SplitPointAt(s, j))
    requires forall k :: i <= k < j ==> !SplitPointAt(s, k)
    ensures NextSplit(s, i) == j
  {
  }

  lemma {:induction false} JoinStartsWith(parts: seq<string>, c: char)
    requires |parts| >= 1
    ensures StartsWith(Join(parts, c), parts[0])
  {
    if |parts| > 1 {
      assert Join(parts, c) == parts[0] + ([c] + Join(parts[1..], c));
    }
  }

  /** A block with no line starting with `#` is not cut at all. */
  lemma {:induction false} SegmentsOfBlock(p0: string)
    requires NoHashLine(p0)
    ensures Segments(p0) == [p0]
  {
    forall k | 0 <= k < |p0| ensures !SplitPointAt(p0, k) {
      if k + 1 < |p0| && p0[k] == '\n' { assert p0[k + 1] != '#'; }
    }
    NextSplitExact(p0, 0, |p0|);
  }

  /** Such a block followed by a newline and a `## ` block is cut at that newline. */
  lemma {:induction false} FirstCut(p0: string, rest: string)
    requires NoHashLine(p0) && StartsWith(rest, "## ")
    ensures NextSplit(p0 + ['\n'] + rest, 0) == |p0|
  {
    var s := p0 + ['\n'] + rest;
    var j := |p0|;
    forall k | 0 <= k < j ensures !SplitPointAt(s, k) {
      if k + 1 < j {
        assert s[k] == p0[k] && s[k + 1] == p0[k + 1];
      } else {
        assert s[k + 1] == '\n';
      }
    }
    assert SplitPointAt(s, j) by {
      assert rest[..3] == "## ";
      assert s[j + 1] == rest[0] && s[j + 2] == rest[1] && s[j + 3] == rest[2];
    }
    NextSplitExact(s, 0, j);
  }

  lemma {:induction false} CutParts(p0: string, rest: string)
    ensures (p0 + ['\n'] + rest)[..|p0|] == p0 && (p0 + ['\n'] + rest)[|p0| + 1..] == rest
  {
  }

  /** Card blocks written one after the other, each on its own lines, are cut back into those
      blocks: the inverse of `JoinSegments`. */
  lemma {:induction false} SegmentsOfJoin(parts: seq<string>)
    requires |parts| >= 1
    requires forall k :: 0 <= k < |parts| ==> NoHashLine(parts[k])
    requires forall k :: 1 <= k < |parts| ==> StartsWith(parts[k], "## ")
    ensures Segments(Join(parts, '\n')) == parts
    decreases |parts|
  {
    var p0 := parts[0];
    if |parts| == 1 {
      SegmentsOfBlock(p0);
    } else {
      var tail := parts[1..];
      assert parts == [p0] + tail;
      var rest := Join(tail, '\n');
      JoinCons(p0, tail, '\n');
      var s := p0 + ['\n'] + rest;
      JoinStartsWith(tail, '\n');
      assert StartsWith(rest, "## ") by {
        assert rest[..|tail[0]|] == tail[0];
        assert rest[..3] == tail[0][..3];
      }
      FirstCut(p0, rest);
      CutParts(p0, rest);
      SegmentsUnfold(s, |p0|);
      SegmentsOfJoin(tail);
    }
  }

  /** A master text made of card blocks yields exactly those blocks, in order. */
  lemma {:induction false} BlocksOfJoin(parts: seq<string>)
    requires |parts| >= 1
    requires forall k :: 0 <= k < |parts| ==> NoHashLine(parts[k]) && StartsWith(parts[k], "## ")
    ensures Blocks(Join(parts, '\n')) == parts
  {
    SegmentsOfJoin(parts);
    HeadedAll(parts);
  }

  lemma {:induction false} HeadedAll(parts: seq<string>)
    requires forall k :: 0 <= k < |parts| ==> StartsWith(parts[k], "## ")
    ensures Headed(parts) == parts
    decreases |parts|
  {
    if parts != [] {
      assert forall k :: 0 <= k < |parts| - 1 ==> parts[1..][k] == parts[k + 1];
      HeadedAll(parts[1..]);
      assert parts == [parts[0]] + parts[1..];
    }
  }

  // ---------------------------------------------------------------- records

  const AppPullsKey: string := "App Pulls"
  const RayKey: string := "Ray"
  const AngelDemonKey: string := "Angel/Demon"
  const CrystalKey: string := "Crystal"
  const TechnicalKey: string := "Technical"

  /** One entry of the card registry. */
  datatype Card = Card(
    id: string, name: string, suit: string,
    letter: string, astrology: string, ray: string,
    angel: string, demon: string, deities: string,
    crystal: string, chemistry: string,
    artifact: string, pigment: string, tara: string, thought: string,
    hgaFragment: string, patternGlyph: string, psyche: string,
    technical: string, appPulls: string, freq: real,
    witchEyeOrders: seq<string>, nonLivingLineages: seq<string>)

  /** What a block gives: nothing, a card, or the error that stops the compiler. */
  datatype Outcome = Skipped | Emitted(card: Card) | Failed(error: CompileError)

  /** A single-line field value with no surrounding whitespace. */
  predicate IsFieldText(t: string)
  {
    Trimmed(t) && '\n' !in t
  }

  /** What every record satisfies, whatever the block. */
  predicate WellFormed(c: Card)
  {
    && IsFieldText(c.name)
    && c.id == Slug(c.name)
    && c.suit == Suit(c.name)
    && c.appPulls != [] && IsFieldText(c.appPulls)
    && IsFieldText(c.letter) && IsFieldText(c.astrology) && IsFieldText(c.ray)
    && Trimmed(c.angel) && Trimmed(c.demon) && IsFieldText(c.deities)
    && Trimmed(c.crystal) && '(' !in c.crystal && Trimmed(c.chemistry)
    && IsFieldText(c.artifact) && IsFieldText(c.pigment) && IsFieldText(c.tara)
    && IsFieldText(c.thought) && IsFieldText(c.hgaFragment) && IsFieldText(c.patternGlyph)
    && IsFieldText(c.psyche) && IsFieldText(c.technical)
    && (forall k :: 0 <= k < |c.witchEyeOrders| ==> IsItem(c.witchEyeOrders[k]))
    && (forall k :: 0 <= k < |c.nonLivingLineages| ==> IsItem(c.nonLivingLineages[k]))
  }

  /** Where each value of a record comes from in its block: the field the JSON key is read
      from, split or parsed as the compiler does. */
  predicate ReadFrom(c: Card, b: string)
  {
    && c.letter == Field(b, "Letter") && c.astrology == Field(b, "Astrology")
    && c.ray == Field(b, RayKey) && (c.angel, c.demon) == AngelDemon(Field(b, AngelDemonKey))
    && c.deities == Field(b, "Deities")
    && c.crystal == Crystal(Field(b, CrystalKey)) && c.chemistry == Chemistry(Field(b, CrystalKey))
    && c.artifact == Field(b, "Artifact") && c.pigment == Field(b, "Pigment")
    && c.tara == Field(b, "Secret Tara") && c.thought == Field(b, "Thought-form")
    && c.hgaFragment == Field(b, "HGA Fragment") && c.patternGlyph == Field(b, "Pattern Glyph")
    && c.psyche == Field(b, "Psyche") && c.technical == Field(b, TechnicalKey)
    && c.witchEyeOrders == ParseList(Field(b, "Witch Eye Order"))
    && c.nonLivingLineages == ParseList(Field(b, "Non-Living Lineage"))
  }

  /** The record of a block with name `name`, `App Pulls` value `appPulls` and frequency `freq`. */
  function BuildCard(b: string, name: string, appPulls: string, freq: real): (c: Card)
    requires IsFieldText(name) && appPulls != [] && IsFieldText(appPulls)
    ensures WellFormed(c) && ReadFrom(c, b)
    ensures c.name == name && c.appPulls == appPulls && c.freq == freq
  {
    var ad := AngelDemon(Field(b, AngelDemonKey));
    var crystalLine := Field(b, CrystalKey);
    Card(
      Slug(name), name, Suit(name),
      Field(b, "Letter"), Field(b, "Astrology"), Field(b, RayKey),
      ad.0, ad.1, Field(b, "Deities"),
      Crystal(crystalLine), Chemistry(crystalLine),
      Field(b, "Artifact"), Field(b, "Pigment"), Field(b, "Secret Tara"), Field(b, "Thought-form"),
      Field(b, "HGA Fragment"), Field(b, "Pattern Glyph"), Field(b, "Psyche"),
      Field(b, TechnicalKey), appPulls, freq,
      ParseList(Field(b, "Witch Eye Order")), ParseList(Field(b, "Non-Living Lineage")))
  }

  /** A block yields a record exactly when it has a heading and a non-empty `App Pulls`;
      it fails only when its `Solfeggio = N` number is not a number `float()` accepts. */
  function AssembleCard(b: string): (r: Outcome)
    ensures r.Skipped? <==> HeadingName(b).None? || Field(b, AppPullsKey) == []
    ensures r.Emitted? ==> WellFormed(r.card) && r.card.name == HeadingName(b).value
                           && r.card.appPulls == Field(b, AppPullsKey) && ReadFrom(r.card, b)
    ensures r.Emitted? ==> CardFreq(Field(b, TechnicalKey), Field(b, RayKey)) == Ok(r.card.freq)
    ensures r.Failed? ==> SolfeggioText(Field(b, TechnicalKey)).Some?
                          && CardFreq(Field(b, TechnicalKey), Field(b, RayKey)) == Err(r.error)
  {
    match HeadingName(b)
    case None => Skipped
    case Some(name) =>
      var appPulls := Field(b, AppPullsKey);
      if appPulls == [] then Skipped
      else
        match CardFreq(Field(b, TechnicalKey), Field(b, RayKey))
        case Err(e) => Failed(e)
        case Ok(freq) => Emitted(BuildCard(b, name, appPulls, freq))
  }

  /** A block qualifies when it has a name and a non-empty `App Pulls` field. */
  predicate Qualifies(b: string)
  {
    HeadingName(b).Some? && Field(b, AppPullsKey) != []
  }

  function CountQualifying(bs: seq<string>): (n: nat)
    ensures n <= |bs|
  {
    if bs == [] then 0
    else CountQualifying(bs[..|bs| - 1]) + (if Qualifies(bs[|bs| - 1]) then 1 else 0)
  }

  function CountNotSkipped(os: seq<Outcome>): (n: nat)
    ensures n <= |os|
  {
    if os == [] then 0
    else CountNotSkipped(os[..|os| - 1]) + (if os[|os| - 1].Skipped? then 0 else 1)
  }

  /** The records of a run of block outcomes, in order, or the first error. */
  function Collect(os: seq<Outcome>): (r: Result<seq<Card>, CompileError>)
    ensures r.Ok? ==> |r.value| <= |os|
    ensures r.Ok? ==> forall k :: 0 <= k < |r.value| ==> Emitted(r.value[k]) in os
  {
    if os == [] then Ok([])
    else
      var init := os[..|os| - 1];
      assert forall o :: o in init ==> o in os;
      match Collect(init)
      case Err(e) => Err(e)
      case Ok(cards) =>
        match os[|os| - 1]
        case Skipped => Ok(cards)
        case Emitted(c) => Ok(cards + [c])
        case Failed(e) => Err(e)
  }

  /** What each block gives, block by block. */
  function Outcomes(bs: seq<string>): (os: seq<Outcome>)
    ensures |os| == |bs|
  {
    seq(|bs|, i requires 0 <= i < |bs| => AssembleCard(bs[i]))
  }

  /** The records of the blocks, in block order, or the first error. */
  function CompileBlocks(bs: seq<string>): (r: Result<seq<Card>, CompileError>)
    ensures r.Ok? ==> |r.value| <= |bs|
  {
    Collect(Outcomes(bs))
  }

  /** The body of the compiler's loop for one block: skip it, stop with an error, or give its
      record. */
  method AssembleBlock(b: string) returns (o: Outcome)
    ensures o == AssembleCard(b)
  {
    var nameMatch := HeadingName(b);
    if nameMatch.None? {
      return Skipped;
    }
    var name := nameMatch.value;
    var appPulls := Field(b, AppPullsKey);
    if appPulls == [] {
      return Skipped;
    }
    var ray := Field(b, RayKey);
    var tech := Field(b, TechnicalKey);
    var freq := CardFreq(tech, ray);
    if freq.Err? {
      return Failed(freq.error);
    }
    o := Emitted(BuildCard(b, name, appPulls, freq.value));
  }

  /** The compiler: the blocks of `md`, then the loop over them. */
  method Compile(md: string) returns (res: Result<seq<Card>, CompileError>)
    ensures res == CompileBlocks(Blocks(md))
  {
    var blocks := Blocks(md);
    res := CompileLoop(blocks);
  }

  /** The compiler's main loop: the records in block order, or the error of the first block
      that fails. */
  method CompileLoop(blocks: seq<string>) returns (res: Result<seq<Card>, CompileError>)
    ensures res == CompileBlocks(blocks)
  {
    var cards: seq<Card> := [];
    for i := 0 to |blocks|
      invariant CompileBlocks(blocks[..i]) == Ok(cards)
    {
      var b := blocks[i];
      var o := AssembleBlock(b);
      TakeSnoc(blocks, i);
      CompileSnoc(blocks[..i], b);
      match o
      case Skipped =>
      case Failed(e) =>
        CompileErrorSticks(blocks[..i + 1], blocks[i + 1..]);
        TakeDrop(blocks, i + 1);
        return Err(e);
      case Emitted(c) =>
        cards := cards + [c];
    }
    assert blocks[..|blocks|] == blocks;
    res := Ok(cards);
  }

  // ---------------------------------------------------------------- properties of Collect

  lemma {:induction false} CollectErrorSticks(a: seq<Outcome>, b: seq<Outcome>)
    requires Collect(a).Err?
    ensures Collect(a + b) == Collect(a)
    decreases |b|
  {
    if b == [] {
      assert a + b == a;
    } else {
      var ab := a + b;
      assert ab[..|ab| - 1] == a + b[..|b| - 1];
      CollectErrorSticks(a, b[..|b| - 1]);
    }
  }

  lemma {:induction false} CollectAppend(a: seq<Outcome>, b: seq<Outcome>)
    ensures Collect(a + b) ==
      match Collect(a)
      case Err(e) => Err(e)
      case Ok(ca) =>
        match Collect(b)
        case Err(e) => Err(e)
        case Ok(cb) => Ok(ca + cb)
    decreases |b|
  {
    if b == [] {
      assert a + b == a;
      if Collect(a).Ok? {
        assert Collect(a).value + [] == Collect(a).value;
      }
    } else {
      var ab := a + b;
      var b' := b[..|b| - 1];
      assert ab[..|ab| - 1] == a + b';
      assert ab[|ab| - 1] == b[|b| - 1];
      CollectAppend(a, b');
      if Collect(a).Ok? && Collect(b').Ok? {
        var ca, cb := Collect(a).value, Collect(b').value;
        match b[|b| - 1]
        case Emitted(c) => assert ca + cb + [c] == ca + (cb + [c]);
        case Skipped =>
        case Failed(_) =>
      }
    }
  }

  lemma {:induction false} CollectFirstFailure(os: seq<Outcome>)
    ensures Collect(os).Err? <==> exists i :: 0 <= i < |os| && os[i].Failed?
    ensures Collect(os).Err? ==>
      exists i :: 0 <= i < |os| && os[i] == Failed(Collect(os).error) && forall j :: 0 <= j < i ==> !os[j].Failed?
    decreases |os|
  {
    if os != [] {
      var n := |os| - 1;
      var init := os[..n];
      CollectFirstFailure(init);
      assert forall i :: 0 <= i < n ==> init[i] == os[i];
      if Collect(init).Err? {
        var i :| 0 <= i < n && init[i] == Failed(Collect(init).error) && forall j :: 0 <= j < i ==> !init[j].Failed?;
        assert os[i] == Failed(Collect(os).error);
      } else if os[n].Failed? {
        assert forall j :: 0 <= j < n ==> !os[j].Failed?;
      }
    }
  }

  lemma {:induction false} CollectCount(os: seq<Outcome>)
    requires Collect(os).Ok?
    ensures |Collect(os).value| == CountNotSkipped(os)
    decreases |os|
  {
    if os != [] {
      CollectCount(os[..|os| - 1]);
    }
  }

  // ---------------------------------------------------------------- properties of the compiler

  lemma {:induction false} OutcomesAppend(a: seq<string>, b: seq<string>)
    ensures Outcomes(a + b) == Outcomes(a) + Outcomes(b)
  {
    var ab := a + b;
    forall i | 0 <= i < |ab| ensures Outcomes(ab)[i] == (Outcomes(a) + Outcomes(b))[i] {
      if i < |a| {
        assert ab[i] == a[i];
        assert Outcomes(a)[i] == AssembleCard(a[i]);
      } else {
        assert ab[i] == b[i - |a|];
        assert Outcomes(b)[i - |a|] == AssembleCard(b[i - |a|]);
      }
    }
  }

  /** Once a block has failed, later blocks do not matter. */
  lemma {:induction false} CompileErrorSticks(a: seq<string>, b: seq<string>)
    requires CompileBlocks(a).Err?
    ensures CompileBlocks(a + b) == CompileBlocks(a)
  {
    OutcomesAppend(a, b);
    CollectErrorSticks(Outcomes(a), Outcomes(b));
  }

  /** Records keep block order: the records of `a + b` are those of `a` followed by those of `b`,
      and the first error wins. */
  lemma {:induction false} CompileAppend(a: seq<string>, b: seq<string>)
    ensures CompileBlocks(a + b) ==
      match CompileBlocks(a)
      case Err(e) => Err(e)
      case Ok(ca) =>
        match CompileBlocks(b)
        case Err(e) => Err(e)
        case Ok(cb) => Ok(ca + cb)
  {
    OutcomesAppend(a, b);
    CollectAppend(Outcomes(a), Outcomes(b));
  }

  /** Every record the compiler writes is well formed and comes from one of the blocks. */
  lemma {:induction false} CompileWellFormed(bs: seq<string>)
    requires CompileBlocks(bs).Ok?
    ensures forall k :: 0 <= k < |CompileBlocks(bs).value| ==>
      WellFormed(CompileBlocks(bs).value[k]) &&
      exists i :: 0 <= i < |bs| && AssembleCard(bs[i]) == Emitted(CompileBlocks(bs).value[k])
  {
    var os := Outcomes(bs);
    var cs := CompileBlocks(bs).value;
    forall k | 0 <= k < |cs|
      ensures WellFormed(cs[k]) && exists i :: 0 <= i < |bs| && AssembleCard(bs[i]) == Emitted(cs[k])
    {
      var i :| 0 <= i < |os| && os[i] == Emitted(cs[k]);
      assert AssembleCard(bs[i]) == Emitted(cs[k]);
    }
  }

  /** One more block at the end. */
  lemma {:induction false} CompileSnoc(bs: seq<string>, b: string)
    ensures CompileBlocks(bs + [b]) ==
      match CompileBlocks(bs)
      case Err(e) => Err(e)
      case Ok(cs) =>
        match AssembleCard(b)
        case Skipped => Ok(cs)
        case Emitted(c) => Ok(cs + [c])
        case Failed(e) => Err(e)
  {
    OutcomesAppend(bs, [b]);
    var os := Outcomes(bs + [b]);
    assert os[..|bs|] == Outcomes(bs);
    assert os[|bs|] == AssembleCard(b);
  }

  /** The compiler fails exactly when some block fails, and it reports the first failing block. */
  lemma {:induction false} CompileFailsAtFirstFailure(bs: seq<string>)
    ensures CompileBlocks(bs).Err? <==> exists i :: 0 <= i < |bs| && AssembleCard(bs[i]).Failed?
    ensures CompileBlocks(bs).Err? ==>
      exists i :: 0 <= i < |bs| && AssembleCard(bs[i]) == Failed(CompileBlocks(bs).error)
               && forall j :: 0 <= j < i ==> !AssembleCard(bs[j]).Failed?
  {
    var os := Outcomes(bs);
    CollectFirstFailure(os);
    assert forall i :: 0 <= i < |bs| ==> os[i] == AssembleCard(bs[i]);
  }

  lemma {:induction false} CountOutcomes(bs: seq<string>)
    ensures CountNotSkipped(Outcomes(bs)) == CountQualifying(bs)
    decreases |bs|
  {
    if bs != [] {
      var n := |bs| - 1;
      CountOutcomes(bs[..n]);
      assert Outcomes(bs)[..n] == Outcomes(bs[..n]);
      assert Outcomes(bs)[n] == AssembleCard(bs[n]);
    }
  }

  /** Without a failing block there is one record per qualifying block: a block yields a record
      exactly when it has a heading and a non-empty `App Pulls` field. */
  lemma {:induction false} CompileCount(bs: seq<string>)
    requires CompileBlocks(bs).Ok?
    ensures |CompileBlocks(bs).value| == CountQualifying(bs)
  {
    CollectCount(Outcomes(bs));
    CountOutcomes(bs);
  }
}
