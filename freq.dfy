/** The frequency of a card: the number after `Solfeggio =` in its `Technical` field when
    there is one, the frequency of its ray otherwise; either way converted with `float()`. */
module Freq {
  import opened Wrappers
  import opened Text
  import opened Fields
  import opened Rules

  /** The one way the compiler fails: `float()` refuses the text the Solfeggio pattern caught. */
  datatype CompileError = InvalidNumber(text: string)

  // ---------------------------------------------------------------- float()

  predicate IsDigit(c: char)
  {
    '0' <= c <= '9'
  }

  /** `[\d\.]`: what the number group of the Solfeggio pattern takes. */
  predicate IsNumChar(c: char)
  {
    IsDigit(c) || c == '.'
  }

  function DigitValue(c: char): (d: nat)
    requires IsDigit(c)
    ensures d < 10
  {
    c as int - '0' as int
  }

  /** The natural number a digit string denotes (0 for the empty string). */
  function DigitsValue(ds: string): (n: nat)
    requires forall k :: 0 <= k < |ds| ==> IsDigit(ds[k])
    decreases |ds|
  {
    if ds == [] then 0 else DigitsValue(ds[..|ds| - 1]) * 10 + DigitValue(ds[|ds| - 1])
  }

  function Pow10(n: nat): (p: nat)
    ensures p >= 1
  {
    if n == 0 then 1 else 10 * Pow10(n - 1)
  }

  /** `float(t)` for a text of digits and dots, as an exact rational; `float` then rounds it to
      the nearest double. Python accepts `528`, `528.`, `.5` and `5.28` and refuses a text with
      two dots or with no digit. */
  function ParseNumber(t: string): (r: Result<real, CompileError>)
    requires forall k :: 0 <= k < |t| ==> IsNumChar(t[k])
    ensures r.Err? ==> r.error == InvalidNumber(t)
    ensures r.Ok? <==> (exists k :: 0 <= k < |t| && IsDigit(t[k])) &&
                       forall j, k :: 0 <= j < k < |t| && t[j] == '.' ==> t[k] != '.'
  {
    var i := IndexOf(t, '.');
    var whole := t[..i];
    var frac := if i < |t| then t[i + 1..] else [];
    assert forall k :: 0 <= k < |whole| ==> IsDigit(whole[k]) by {
      forall k | 0 <= k < |whole| ensures IsDigit(whole[k]) {
        assert whole[k] == t[k] && t[k] != '.' && IsNumChar(t[k]);
      }
    }
    if '.' in frac || (whole == [] && frac == []) then
      assert '.' in frac ==> exists k :: i < k < |t| && t[k] == '.';
      Err(InvalidNumber(t))
    else
      assert forall k :: 0 <= k < |frac| ==> IsDigit(frac[k]) by {
        forall k | 0 <= k < |frac| ensures IsDigit(frac[k]) {
          assert frac[k] == t[i + 1 + k] && frac[k] != '.' && IsNumChar(t[i + 1 + k]);
        }
      }
      assert whole != [] ==> IsDigit(t[0]);
      assert frac != [] ==> IsDigit(t[i + 1]);
      assert forall k :: i < k < |t| ==> t[k] == frac[k - i - 1];
      Ok(DigitsValue(whole) as real + DigitsValue(frac) as real / Pow10(|frac|) as real)
  }

  /** The decimal digits of `n`, as `str(n)` writes them. */
  function NatText(n: nat): (t: string)
    ensures t != [] && forall k :: 0 <= k < |t| ==> IsDigit(t[k])
  {
    (if n < 10 then [] else NatText(n / 10)) + ['0' + (n % 10) as char]
  }

  /** Reading back the digits of a number gives the number. */
  lemma {:induction false} DigitsOfNatText(n: nat)
    ensures DigitsValue(NatText(n)) == n
  {
    var t := NatText(n);
    if n >= 10 {
      DigitsOfNatText(n / 10);
      assert t[..|t| - 1] == NatText(n / 10);
    } else {
      assert t[..|t| - 1] == [];
    }
  }

  /** A text of digits alone reads as the whole number it denotes. */
  lemma {:induction false} ParseDigits(t: string)
    requires t != [] && forall k :: 0 <= k < |t| ==> IsDigit(t[k])
    ensures ParseNumber(t) == Ok(DigitsValue(t) as real)
  {
    IndexOfExact(t, '.', |t|);
    assert t[..|t|] == t;
  }

  /** `float(str(n)) == n` for a natural number. */
  lemma {:induction false} ParseNatText(n: nat)
    ensures ParseNumber(NatText(n)) == Ok(n as real)
  {
    ParseDigits(NatText(n));
    DigitsOfNatText(n);
  }

  // ---------------------------------------------------------------- Solfeggio = N

  const Marker: string := "Solfeggio"

  /** Length of the `[\d\.]` run that starts at `i`: what the greedy `[\d\.]+` consumes. */
  function NumRun(s: string, i: nat): (n: nat)
    requires i <= |s|
    ensures i + n <= |s| && (i + n < |s| ==> !IsNumChar(s[i + n]))
    ensures forall k :: i <= k < i + n ==> IsNumChar(s[k])
    decreases |s| - i
  {
    if i < |s| && IsNumChar(s[i]) then 1 + NumRun(s, i + 1) else 0
  }

  /** `NAME\s*=\s*([\d\.]+)` tried at the start of `x`: the captured number text. A shorter
      whitespace run leaves a whitespace character where `=` or a digit is needed, so giving
      characters back never helps and the greedy runs decide. */
  function AssignedNumber(x: string, name: string): (r: Option<string>)
    ensures r.Some? ==> r.value != [] && forall k :: 0 <= k < |r.value| ==> IsNumChar(r.value[k])
  {
    if !StartsWith(x, name) then None
    else
      var e := |name| + SpaceRun(x, |name|);
      if e == |x| || x[e] != '=' then None
      else
        var v := e + 1 + SpaceRun(x, e + 1);
        var n := NumRun(x, v);
        if n == 0 then None else Some(x[v..v + n])
  }

  /** `re.search(r"Solfeggio\s*=\s*([\d\.]+)", s)` from `i` on: the pattern tried at `i`,
      `i + 1`, ... up to the end of the text. */
  function SolfeggioFrom(s: string, i: nat): (r: Option<string>)
    requires i <= |s|
    ensures r.Some? ==> r.value != [] && forall k :: 0 <= k < |r.value| ==> IsNumChar(r.value[k])
    decreases |s| - i
  {
    match AssignedNumber(s[i..], Marker)
    case Some(t) => Some(t)
    case None => if i == |s| then None else SolfeggioFrom(s, i + 1)
  }

  /** The number text of the first `Solfeggio = N` in the `Technical` value, if any. */
  function SolfeggioText(tech: string): (r: Option<string>)
    ensures r.Some? ==> r.value != [] && forall k :: 0 <= k < |r.value| ==> IsNumChar(r.value[k])
  {
    SolfeggioFrom(tech, 0)
  }

  /** `freq`: the Solfeggio number when the `Technical` value gives one, else the ray's
      frequency. */
  function CardFreq(tech: string, ray: string): (r: Result<real, CompileError>)
    ensures SolfeggioText(tech).None? ==> r == Ok(MapFreq(ray) as real)
    ensures SolfeggioText(tech).Some? ==> r == ParseNumber(SolfeggioText(tech).value)
    ensures r.Err? ==> SolfeggioText(tech).Some? && r.error == InvalidNumber(SolfeggioText(tech).value)
  {
    match SolfeggioText(tech)
    case Some(t) => ParseNumber(t)
    case None => Ok(MapFreq(ray) as real)
  }

  lemma {:induction false} SolfeggioFromAbsent(s: string, i: nat)
    requires i <= |s| && !Contains(s, Marker)
    ensures SolfeggioFrom(s, i) == None
    decreases |s| - i
  {
    if StartsWith(s[i..], Marker) {
      assert OccursAt(s, Marker, i);
    }
    if i < |s| {
      SolfeggioFromAbsent(s, i + 1);
    }
  }

  /** Without the word `Solfeggio` the frequency is the ray's. */
  lemma {:induction false} FreqFromRay(tech: string, ray: string)
    requires !Contains(tech, Marker)
    ensures CardFreq(tech, ray) == Ok(MapFreq(ray) as real)
  {
    SolfeggioFromAbsent(tech, 0);
  }

  /** Positions where the pattern does not match are passed over. */
  lemma {:induction false} SolfeggioFromPasses(s: string, i: nat, m: nat)
    requires i <= m <= |s|
    requires forall k :: i <= k < m ==> AssignedNumber(s[k..], Marker).None?
    ensures SolfeggioFrom(s, i) == SolfeggioFrom(s, m)
    decreases m - i
  {
    if i < m {
      assert AssignedNumber(s[i..], Marker).None?;
      SolfeggioFromPasses(s, i + 1, m);
    }
  }

  /** When the search from `i` finds nothing, the pattern fails at `k`. */
  lemma {:induction false} SolfeggioFromNoneAt(s: string, i: nat, k: nat)
    requires i <= k <= |s| && SolfeggioFrom(s, i).None?
    ensures AssignedNumber(s[k..], Marker).None?
    decreases k - i
  {
    if i < k {
      SolfeggioFromNoneAt(s, i + 1, k);
    }
  }

  /** No match from `i` on exactly when the pattern matches at no position from `i` on. */
  lemma {:induction false} SolfeggioFromNone(s: string, i: nat)
    requires i <= |s|
    ensures SolfeggioFrom(s, i).None? <==> forall k :: i <= k <= |s| ==> AssignedNumber(s[k..], Marker).None?
  {
    if SolfeggioFrom(s, i).None? {
      forall k | i <= k <= |s| ensures AssignedNumber(s[k..], Marker).None? {
        SolfeggioFromNoneAt(s, i, k);
      }
    } else if forall k :: i <= k <= |s| ==> AssignedNumber(s[k..], Marker).None? {
      SolfeggioFromPasses(s, i, |s|);
    }
  }

  lemma {:induction false} NoMatchAtEnd(s: string)
    ensures AssignedNumber(s[|s|..], Marker).None?
  {
    assert |s[|s|..]| == 0;
  }

  /** A match from `i` on is the one at the first position where the pattern matches. */
  lemma {:induction false} SolfeggioFromAt(s: string, i: nat) returns (k: nat)
    requires i <= |s| && SolfeggioFrom(s, i).Some?
    ensures i <= k <= |s| && AssignedNumber(s[k..], Marker) == SolfeggioFrom(s, i)
    ensures forall j :: i <= j < k ==> AssignedNumber(s[j..], Marker).None?
    decreases |s| - i
  {
    if AssignedNumber(s[i..], Marker).Some? {
      k := i;
    } else {
      NoMatchAtEnd(s);
      var none := AssignedNumber(s[i..], Marker);
      k := SolfeggioFromAt(s, i + 1);
      forall j | i <= j < k ensures AssignedNumber(s[j..], Marker).None? {
        if j == i {
          assert AssignedNumber(s[j..], Marker) == none;
        }
      }
    }
  }

  /** `re.search` in the `Technical` value: the first position where the pattern matches
      decides, and without one there is no Solfeggio number. */
  lemma {:induction false} SolfeggioTextFirst(tech: string)
    ensures SolfeggioText(tech).None? <==> forall k :: 0 <= k <= |tech| ==> AssignedNumber(tech[k..], Marker).None?
    ensures SolfeggioText(tech).Some? ==>
      exists k :: 0 <= k <= |tech| && AssignedNumber(tech[k..], Marker) == SolfeggioText(tech) &&
        forall j :: 0 <= j < k ==> AssignedNumber(tech[j..], Marker).None?
  {
    SolfeggioFromNone(tech, 0);
    if SolfeggioText(tech).Some? {
      var k := SolfeggioFromAt(tech, 0);
    }
  }

  /** The pattern needs an `=`: a value without one never gives a Solfeggio number. */
  lemma {:induction false} SolfeggioNeedsEquals(tech: string)
    requires '=' !in tech
    ensures SolfeggioText(tech) == None
  {
    forall k | 0 <= k <= |tech| ensures AssignedNumber(tech[k..], Marker).None? {
      var x := tech[k..];
      if StartsWith(x, Marker) {
        var e := |Marker| + SpaceRun(x, |Marker|);
        if e < |x| {
          assert x[e] == tech[k + e];
        }
      }
    }
    SolfeggioFromNone(tech, 0);
  }

  lemma {:induction false} NoEqualsIn(t: string)
    requires t == "Something without a Solfeggio value"
    ensures '=' !in t
  {
  }

  lemma {:induction false} RedRay(ray: string)
    requires ray == "red"
    ensures MapFreq(ray) == 285
  {
    assert Lower(ray) == ray;
    assert OccursAt(ray, "red", 0);
    MapFreqChain(ray);
  }

  /** The word `Solfeggio` without `= N` after it: the frequency falls back to the ray's. */
  lemma {:induction false} FreqFallbackExample()
    ensures CardFreq("Something without a Solfeggio value", "red") == Ok(285.0)
  {
    NoEqualsIn("Something without a Solfeggio value");
    SolfeggioNeedsEquals("Something without a Solfeggio value");
    RedRay("red");
  }

  lemma {:induction false} SolfeggioFromSkips(s: string, i: nat, m: nat)
    requires i <= m <= |s|
    requires forall k :: i <= k < m ==> !StartsWith(s[k..], Marker)
    ensures SolfeggioFrom(s, i) == SolfeggioFrom(s, m)
    decreases m - i
  {
    if i < m {
      SolfeggioFromSkips(s, i + 1, m);
    }
  }

  /** `Solfeggio` holds its `S` only in front: an occurrence that starts inside `pre` and reaches
      into a following `Solfeggio` is impossible, so one starting in `pre` lies within it. */
  lemma {:induction false} MarkerNotInPre(pre: string, x: string, k: nat)
    requires !Contains(pre, Marker) && StartsWith(x, Marker) && k < |pre|
    ensures !StartsWith((pre + x)[k..], Marker)
  {
    var s := pre + x;
    if k + |Marker| <= |pre| {
      assert !OccursAt(pre, Marker, k);
      assert pre[k..k + |Marker|] == s[k..][..|Marker|];
    } else {
      assert s[k..][|pre| - k] == x[0] == 'S';
    }
  }

  lemma {:induction false} NumRunShift(s: string, m: nat, i: nat)
    requires m + i <= |s|
    ensures NumRun(s, m + i) == NumRun(s[m..], i)
    decreases |s| - m - i
  {
    if m + i < |s| {
      assert s[m..][i] == s[m + i];
      NumRunShift(s, m, i + 1);
    }
  }

  /** A number followed by a character that cannot continue it, or by the end of the text. */
  lemma {:induction false} NumRunOver(num: string, post: string)
    requires forall k :: 0 <= k < |num| ==> IsNumChar(num[k])
    requires post == [] || !IsNumChar(post[0])
    ensures NumRun(num + post, 0) == |num|
    decreases |num|
  {
    if num != [] {
      assert (num + post)[1..] == num[1..] + post;
      NumRunShift(num + post, 1, 0);
      NumRunOver(num[1..], post);
    }
  }

  lemma {:induction false} SpaceRunAt(a: string, sp: string, rest: string)
    requires AllSpace(sp) && (rest == [] || !IsSpace(rest[0]))
    ensures SpaceRun(a + (sp + rest), |a|) == |sp|
  {
    SpaceRunShift(a + (sp + rest), |a|, 0);
    DropAppend(a, sp + rest);
    SpaceRunOver(sp, rest);
  }

  lemma {:induction false} NumRunAt(a: string, num: string, post: string)
    requires forall k :: 0 <= k < |num| ==> IsNumChar(num[k])
    requires post == [] || !IsNumChar(post[0])
    ensures NumRun(a + (num + post), |a|) == |num|
  {
    NumRunShift(a + (num + post), |a|, 0);
    DropAppend(a, num + post);
    NumRunOver(num, post);
  }

  /** `x` starts with `mk`; the whitespace run after it has length `a` and ends at `c`; the
      whitespace run after that has length `b` and the number run after that length `n`. */
  predicate Runs(x: string, mk: string, c: char, a: nat, b: nat, n: nat)
  {
    && |mk| + a + 1 + b + n <= |x| && StartsWith(x, mk)
    && SpaceRun(x, |mk|) == a && x[|mk| + a] == c
    && SpaceRun(x, |mk| + a + 1) == b
    && NumRun(x, |mk| + a + 1 + b) == n
  }

  /** `mk`, a whitespace run and the character `c` that stops it, then anything. */
  lemma {:induction false} HeadRun(mk: string, sp1: string, c: char, r3: string, x: string)
    requires AllSpace(sp1) && !IsSpace(c)
    requires x == mk + (sp1 + ([c] + r3))
    ensures |x| == |mk| + |sp1| + 1 + |r3| && StartsWith(x, mk)
    ensures SpaceRun(x, |mk|) == |sp1| && x[|mk| + |sp1|] == c
  {
    DropAppend(mk, sp1 + ([c] + r3));
    SpaceRunAt(mk, sp1, [c] + r3);
    Assoc(mk, sp1, [c] + r3);
    assert x[|mk + sp1|] == ([c] + r3)[0];
  }

  /** After `a`: a whitespace run, then a number run that stops before `post`. */
  lemma {:induction false} TailRuns(a: string, sp2: string, num: string, post: string, x: string, at: nat)
    requires AllSpace(sp2)
    requires num != [] && forall k :: 0 <= k < |num| ==> IsNumChar(num[k])
    requires post == [] || !IsNumChar(post[0])
    requires x == a + (sp2 + (num + post)) && at == |a|
    ensures SpaceRun(x, at) == |sp2| && NumRun(x, at + |sp2|) == |num|
    ensures at + |sp2| + |num| <= |x| && x[at + |sp2|..at + |sp2| + |num|] == num
  {
    assert (num + post)[0] == num[0];
    SpaceRunAt(a, sp2, num + post);
    Assoc(a, sp2, num + post);
    NumRunAt(a + sp2, num, post);
    MiddleSlice(a + sp2, num, post);
  }

  /** Where the scanners stop in `mk`, spaces, `c`, spaces, a number and what follows, for
      any first part `mk` and any separator `c`. */
  lemma {:induction false} RunsLayout(mk: string, sp1: string, c: char, sp2: string, num: string, post: string, x: string)
    requires AllSpace(sp1) && AllSpace(sp2) && !IsSpace(c)
    requires num != [] && forall k :: 0 <= k < |num| ==> IsNumChar(num[k])
    requires post == [] || !IsNumChar(post[0])
    requires x == mk + (sp1 + ([c] + (sp2 + (num + post))))
    ensures Runs(x, mk, c, |sp1|, |sp2|, |num|)
    ensures x[|mk| + |sp1| + 1 + |sp2|..|mk| + |sp1| + 1 + |sp2| + |num|] == num
  {
    var r3 := sp2 + (num + post);
    HeadRun(mk, sp1, c, r3, x);
    var a3 := mk + sp1 + [c];
    Assoc(mk, sp1, [c] + r3);
    Assoc(mk + sp1, [c], r3);
    TailRuns(a3, sp2, num, post, x, |mk| + |sp1| + 1);
  }

  /** The matcher's steps, given where its runs stop and the text the number run covers. */
  lemma {:induction false} AssignedNumberSteps(x: string, name: string, a: nat, b: nat, num: string)
    requires Runs(x, name, '=', a, b, |num|) && num != []
    requires x[|name| + a + 1 + b..|name| + a + 1 + b + |num|] == num
    ensures AssignedNumber(x, name) == Some(num)
  {
  }

  /** The pattern at the start of the name, spaces, `=`, spaces, a number and what follows. */
  lemma {:induction false} AssignedNumberStart(name: string, sp1: string, sp2: string, num: string, post: string)
    requires AllSpace(sp1) && AllSpace(sp2)
    requires num != [] && forall k :: 0 <= k < |num| ==> IsNumChar(num[k])
    requires post == [] || !IsNumChar(post[0])
    ensures AssignedNumber(name + (sp1 + ("=" + (sp2 + (num + post)))), name) == Some(num)
  {
    var x := name + (sp1 + ("=" + (sp2 + (num + post))));
    RunsLayout(name, sp1, '=', sp2, num, post, x);
    AssignedNumberSteps(x, name, |sp1|, |sp2|, num);
  }

  /** The first `Solfeggio` followed by `=` and a number: the captured text is that number. */
  lemma {:induction false} SolfeggioFound(pre: string, sp1: string, sp2: string, num: string, post: string)
    requires !Contains(pre, Marker) && AllSpace(sp1) && AllSpace(sp2)
    requires num != [] && forall k :: 0 <= k < |num| ==> IsNumChar(num[k])
    requires post == [] || !IsNumChar(post[0])
    ensures SolfeggioText(pre + Marker + sp1 + "=" + sp2 + num + post) == Some(num)
  {
    var x := Marker + (sp1 + ("=" + (sp2 + (num + post))));
    RightAssoc7(pre, Marker, sp1, "=", sp2, num, post);
    var s := pre + x;
    assert StartsWith(x, Marker);
    forall k | 0 <= k < |pre| ensures !StartsWith(s[k..], Marker) {
      MarkerNotInPre(pre, x, k);
    }
    SolfeggioFromSkips(s, 0, |pre|);
    DropAppend(pre, x);
    AssignedNumberStart(Marker, sp1, sp2, num, post);
  }

  /** The Solfeggio number decides the frequency, whatever the ray: the first `Solfeggio`
      followed by `=` and a number gives that number, read with `float()`. */
  lemma {:induction false} SolfeggioOverrides(pre: string, sp1: string, sp2: string, num: string, post: string, ray: string)
    requires !Contains(pre, Marker) && AllSpace(sp1) && AllSpace(sp2)
    requires num != [] && forall k :: 0 <= k < |num| ==> IsNumChar(num[k])
    requires post == [] || !IsNumChar(post[0])
    ensures CardFreq(pre + Marker + sp1 + "=" + sp2 + num + post, ray) == ParseNumber(num)
  {
    SolfeggioFound(pre, sp1, sp2, num, post);
  }
}
