/** extraer_codigos_retencion: on every page whose text holds the retention
    summary header, the text after that header (up to its next occurrence) is
    cut into lines, and every line that matches
        ^(\d{3}[A-Z]?)\s+.*?(AMOUNT)\s+(AMOUNT)$      AMOUNT = \d+(?:,\d{3})*(?:\.\d+)?
    once stripped stores its code with its amounts, commas removed. The
    pattern is recognised here by a dedicated matcher whose result is proved
    to be the one Python's backtracking matcher picks. */
module Retentions {
  import opened Wrappers
  import opened Text
  import opened Numerals
  import opened PyDict

  /** The header of the retention summary. */
  const Marker: string := "RESUMEN DE RETENCIONES - AGENTE DE RETENCION"

  // ---------------------------------------------------------------------
  // AMOUNT = \d+(?:,\d{3})*(?:\.\d+)?

  predicate IsAmount(s: string) {
    |s| > 0 && IsDigit(s[0]) && IntTail(s[1..])
  }

  /** What may follow the first digit: more digits, then the groups. */
  predicate IntTail(t: string)
    decreases |t|
  {
    || t == []
    || (IsDigit(t[0]) && IntTail(t[1..]))
    || GroupTail(t)
  }

  /** (?:,\d{3})*(?:\.\d+)? to the end of t. */
  predicate GroupTail(t: string)
    decreases |t|
  {
    || t == []
    || (|t| >= 4 && t[0] == ',' && AllDigits(t[1..4]) && GroupTail(t[4..]))
    || (|t| >= 2 && t[0] == '.' && AllDigits(t[1..]))
  }

  /** Every character is a digit, a comma or a point. */
  predicate AmountChars(s: string) {
    forall i | 0 <= i < |s| :: IsDigit(s[i]) || s[i] == ',' || s[i] == '.'
  }

  lemma {:induction false} GroupTailChars(t: string)
    requires GroupTail(t)
    ensures AmountChars(t)
    decreases |t|
  {
    if t != [] && t[0] == ',' && |t| >= 4 && AllDigits(t[1..4]) && GroupTail(t[4..]) {
      GroupTailChars(t[4..]);
      assert forall i | 4 <= i < |t| :: t[i] == t[4..][i - 4];
    }
  }

  lemma {:induction false} IntTailChars(t: string)
    requires IntTail(t)
    ensures AmountChars(t)
    decreases |t|
  {
    if t != [] && IsDigit(t[0]) && IntTail(t[1..]) {
      IntTailChars(t[1..]);
      assert forall i | 1 <= i < |t| :: t[i] == t[1..][i - 1];
    } else if t != [] {
      GroupTailChars(t);
    }
  }

  /** An amount holds no whitespace and no line break. */
  lemma AmountHasNoSpace(s: string)
    requires IsAmount(s)
    ensures NoSpace(s) && AmountChars(s)
  {
    IntTailChars(s[1..]);
    assert forall i | 1 <= i < |s| :: s[i] == s[1..][i - 1];
  }

  // ---------------------------------------------------------------------
  // Positions in a line

  /** The start of the run of non-whitespace that ends at j. */
  function TokenStart(l: string, j: nat): (r: nat)
    requires j <= |l|
    ensures r <= j
  {
    if j > 0 && !IsSpace(l[j - 1]) then TokenStart(l, j - 1) else j
  }

  /** The start of the whitespace run that ends at j. */
  function SpaceStart(l: string, j: nat): (r: nat)
    requires j <= |l|
    ensures r <= j
  {
    if j > 0 && IsSpace(l[j - 1]) then SpaceStart(l, j - 1) else j
  }

  /** Whitespace fills l[a..b]. */
  predicate Spaces(l: string, a: int, b: int)
    requires 0 <= a <= b <= |l|
  {
    forall i | a <= i < b :: IsSpace(l[i])
  }

  /** No whitespace in l[a..b]. */
  predicate NoSpaces(l: string, a: int, b: int)
    requires 0 <= a <= b <= |l|
  {
    forall i | a <= i < b :: !IsSpace(l[i])
  }

  /** The run SkipSpace skips is whitespace, and it stops at the first
      character that is not. */
  lemma {:induction false} SkipSpaceSpaces(l: string, i: nat)
    requires i <= |l|
    ensures Spaces(l, i, SkipSpace(l, i))
    ensures SkipSpace(l, i) < |l| ==> !IsSpace(l[SkipSpace(l, i)])
    decreases |l| - i
  {
    if i < |l| && IsSpace(l[i]) {
      SkipSpaceSpaces(l, i + 1);
    }
  }

  /** The run TokenStart skips back over holds no whitespace, and it stops
      after whitespace or at the start of the line. */
  lemma {:induction false} TokenStartFacts(l: string, j: nat)
    requires j <= |l|
    ensures NoSpaces(l, TokenStart(l, j), j)
    ensures TokenStart(l, j) > 0 ==> IsSpace(l[TokenStart(l, j) - 1])
    decreases j
  {
    if j > 0 && !IsSpace(l[j - 1]) {
      TokenStartFacts(l, j - 1);
    }
  }

  /** The run SpaceStart skips back over is whitespace, and it stops after a
      character that is not, or at the start of the line. */
  lemma {:induction false} SpaceStartFacts(l: string, j: nat)
    requires j <= |l|
    ensures Spaces(l, SpaceStart(l, j), j)
    ensures SpaceStart(l, j) > 0 ==> !IsSpace(l[SpaceStart(l, j) - 1])
    decreases j
  {
    if j > 0 && IsSpace(l[j - 1]) {
      SpaceStartFacts(l, j - 1);
    }
  }

  /** No line break in line[a..b]: what `.` may run over. */
  predicate NoBreak(line: string, a: int, b: int)
    requires 0 <= a <= b <= |line|
  {
    forall i | a <= i < b :: line[i] != '\n'
  }

  /** The lazy `.*?` followed by the first amount: the first start at or
      after from, reached without crossing a line break, from which the text
      up to e is a whole amount. */
  function FirstAmountStart(line: string, from: nat, e: nat): (r: Option<nat>)
    requires from <= e <= |line|
    ensures r.Some? ==> from <= r.value < e
    decreases e - from
  {
    if from == e then None
    else if IsAmount(line[from..e]) then Some(from)
    else if line[from] == '\n' then None
    else FirstAmountStart(line, from + 1, e)
  }

  /** The start found begins an amount that runs to e, and no line break
      lies before it. */
  lemma {:induction false} FirstAmountStartSound(line: string, from: nat, e: nat)
    requires from <= e <= |line| && FirstAmountStart(line, from, e).Some?
    ensures var s := FirstAmountStart(line, from, e).value;
      IsAmount(line[s..e]) && NoBreak(line, from, s)
    decreases e - from
  {
    if from < e && !IsAmount(line[from..e]) && line[from] != '\n' {
      FirstAmountStartSound(line, from + 1, e);
    }
  }

  /** No earlier start works: the search is leftmost. */
  lemma {:induction false} FirstAmountStartLeast(line: string, from: nat, e: nat, s: nat)
    requires from <= s < e <= |line| && NoBreak(line, from, s) && IsAmount(line[s..e])
    ensures FirstAmountStart(line, from, e).Some?
    ensures FirstAmountStart(line, from, e).value <= s
    decreases e - from
  {
    if from < s && !IsAmount(line[from..e]) {
      assert line[from] != '\n';
      FirstAmountStartLeast(line, from + 1, e, s);
    }
  }

  // ---------------------------------------------------------------------
  // The line matcher

  /** The three groups of a matching line. */
  datatype RetentionLine = RetentionLine(code: string, base: string, withheld: string)

  /** Three digits and an optional capital letter. */
  predicate IsCode(s: string) {
    && (|s| == 3 || (|s| == 4 && IsUpper(s[3])))
    && AllDigits(s[..3])
  }

  /** ^\d{3}[A-Z]?\s : the length of the code at the start of l, when
      whitespace follows it. The optional letter is taken whenever it is
      there, since without it the whitespace would have to start at a capital
      letter. */
  function CodeLength(l: string): (r: Option<nat>)
    ensures r.Some? ==> r.value < |l| && IsSpace(l[r.value]) && IsCode(l[..r.value])
  {
    if |l| < 4 || !AllDigits(l[..3]) then None
    else
      var c := if IsUpper(l[3]) then 4 else 3;
      if c >= |l| || !IsSpace(l[c]) then None
      else
        assert l[..c][..3] == l[..3];
        Some(c)
  }

  /** Where the groups of a match start and end in the line: the code is
      l[..c], the whitespace after it l[c..p], the first amount l[s..e], the
      whitespace before the last amount l[e..f], the last amount l[f..]. */
  datatype Cuts = Cuts(c: nat, p: nat, s: nat, e: nat, f: nat)

  /** The cuts split l the way the pattern does. */
  predicate ValidCuts(l: string, x: Cuts) {
    && x.c < x.p <= x.s < x.e < x.f <= |l|
    && IsCode(l[..x.c])
    && Spaces(l, x.c, x.p)
    && NoBreak(l, x.p, x.s)
    && IsAmount(l[x.s..x.e])
    && Spaces(l, x.e, x.f)
    && IsAmount(l[x.f..])
  }

  /** The whitespace run after the code. */
  lemma FirstGapFacts(l: string, c: nat)
    requires c < |l| && IsSpace(l[c])
    ensures c < SkipSpace(l, c) && Spaces(l, c, SkipSpace(l, c))
  {
    SkipSpaceSpaces(l, c);
  }

  /** The last whitespace run of a line that has whitespace at c. */
  lemma LastGapFacts(l: string, c: nat)
    requires c < |l| && IsSpace(l[c])
    ensures var f := TokenStart(l, |l|);
      && c < f
      && SpaceStart(l, f) < f
      && Spaces(l, SpaceStart(l, f), f)
  {
    var f := TokenStart(l, |l|);
    TokenStartFacts(l, |l|);
    SpaceStartFacts(l, f);
  }

  /** The positions of the groups, when the line matches. */
  function Cut(l: string): (r: Option<Cuts>)
  {
    match CodeLength(l)
    case None => None
    case Some(c) => CutAt(l, c, SkipSpace(l, c), TokenStart(l, |l|))
  }

  /** The rest of Cut once the code ends at c, the whitespace after it at p,
      and the last token starts at f. */
  function CutAt(l: string, c: nat, p: nat, f: nat): (r: Option<Cuts>)
    requires p <= |l| && f <= |l|
  {
    var e := SpaceStart(l, f);
    if !IsAmount(l[f..]) || e < p then None
    else
      match FirstAmountStart(l, p, e)
      case None => None
      case Some(s) => Some(Cuts(c, p, s, e, f))
  }

  /** The cuts found split the line the way the pattern does. */
  lemma CutValid(l: string)
    requires Cut(l).Some?
    ensures ValidCuts(l, Cut(l).value)
  {
    var c := CodeLength(l).value;
    var p := SkipSpace(l, c);
    var f := TokenStart(l, |l|);
    assert Cut(l) == CutAt(l, c, p, f);
    FirstGapFacts(l, c);
    LastGapFacts(l, c);
    FirstAmountStartSound(l, p, SpaceStart(l, f));
  }

  /** re.match of the retention pattern on a line that has been stripped, so
      that `$` can only match at its end. The code is three digits and, when
      the fourth character is a capital letter, that letter; the second
      amount is the last whitespace-free token; the first amount ends where
      the last whitespace run begins and starts as early as the lazy `.*?`
      allows. */
  function MatchStripped(l: string): (r: Option<RetentionLine>)
    ensures r.Some? ==> IsCode(r.value.code) && IsAmount(r.value.base) && IsAmount(r.value.withheld)
  {
    match Cut(l)
    case None => None
    case Some(x) =>
      CutValid(l);
      Some(RetentionLine(l[..x.c], l[x.s..x.e], l[x.f..]))
  }

  /** re.match(pattern, line.strip()) */
  function MatchLine(line: string): (r: Option<RetentionLine>)
    ensures r.Some? ==> IsCode(r.value.code) && IsAmount(r.value.base) && IsAmount(r.value.withheld)
  {
    MatchStripped(Strip(line))
  }

  /** One way the pattern can match l: the code, at least one whitespace,
      anything without a line break, an amount, at least one whitespace, and
      an amount that ends the line. */
  predicate Decomposes(l: string, code: string, ws1: string, mid: string, n1: string, ws2: string, n2: string) {
    && l == code + ws1 + mid + n1 + ws2 + n2
    && IsCode(code)
    && |ws1| > 0 && AllSpace(ws1)
    && (forall i | 0 <= i < |mid| :: mid[i] != '\n')
    && IsAmount(n1)
    && |ws2| > 0 && AllSpace(ws2)
    && IsAmount(n2)
  }

  /** The six pieces the cuts mark make up the line. */
  lemma CutsConcat(l: string, x: Cuts)
    requires x.c <= x.p <= x.s <= x.e <= x.f <= |l|
    ensures l == l[..x.c] + l[x.c..x.p] + l[x.p..x.s] + l[x.s..x.e] + l[x.e..x.f] + l[x.f..]
  {
    SliceConcat(l, 0, x.c, x.p);
    SliceConcat(l, 0, x.p, x.s);
    SliceConcat(l, 0, x.s, x.e);
    SliceConcat(l, 0, x.e, x.f);
    SliceConcat(l, 0, x.f, |l|);
  }

  /** Valid cuts are a decomposition. */
  lemma CutsDecompose(l: string, x: Cuts)
    requires ValidCuts(l, x)
    ensures Decomposes(l, l[..x.c], l[x.c..x.p], l[x.p..x.s], l[x.s..x.e], l[x.e..x.f], l[x.f..])
  {
    var ws1, mid, ws2 := l[x.c..x.p], l[x.p..x.s], l[x.e..x.f];
    assert forall i | 0 <= i < |ws1| :: ws1[i] == l[x.c + i];
    assert forall i | 0 <= i < |mid| :: mid[i] == l[x.p + i];
    assert forall i | 0 <= i < |ws2| :: ws2[i] == l[x.e + i];
    CutsConcat(l, x);
  }

  /** Whatever the matcher returns is a way the pattern matches the line. */
  lemma MatchSound(l: string)
    requires MatchStripped(l).Some?
    ensures var m := MatchStripped(l).value;
      exists ws1, mid, ws2 :: Decomposes(l, m.code, ws1, mid, m.base, ws2, m.withheld)
  {
    var x := Cut(l).value;
    CutValid(l);
    CutsDecompose(l, x);
  }

  lemma SliceConcat(l: string, a: nat, b: nat, c: nat)
    requires a <= b <= c <= |l|
    ensures l[a..b] + l[b..c] == l[a..c]
  {
  }

  /** A code followed by whitespace is the one CodeLength reads. */
  lemma CodeLengthOf(l: string, c: nat)
    requires c < |l| && IsCode(l[..c]) && IsSpace(l[c])
    ensures CodeLength(l) == Some(c)
  {
    assert l[..3] == l[..c][..3];
    if c == 3 {
      assert !IsUpper(l[3]);
    } else {
      assert l[3] == l[..c][3];
    }
  }

  /** The pieces of a decomposition are slices of the line. */
  lemma DecompositionSlices(l: string, code: string, ws1: string, mid: string, n1: string, ws2: string, n2: string)
    requires l == code + ws1 + mid + n1 + ws2 + n2
    ensures var c := |code|;
      var p := c + |ws1|;
      var s := p + |mid|;
      var e := s + |n1|;
      var f := e + |ws2|;
      && f + |n2| == |l|
      && l[..c] == code && l[c..p] == ws1 && l[p..s] == mid
      && l[s..e] == n1 && l[e..f] == ws2 && l[f..] == n2
  {
    var a4 := code + ws1 + mid + n1;
    var a5 := a4 + ws2;
    assert l[..|a5|] == a5 && l[|a5|..] == n2;
    assert l[|a4|..|a5|] == a5[|a4|..] == ws2;
    assert l[..|a4|] == a4;
    var a3 := code + ws1 + mid;
    assert l[|a3|..|a4|] == a4[|a3|..] == n1;
    assert l[..|a3|] == a3;
    var a2 := code + ws1;
    assert l[|a2|..|a3|] == a3[|a2|..] == mid;
    assert l[..|a2|] == a2;
    assert l[|code|..|a2|] == a2[|code|..] == ws1;
    assert l[..|code|] == a2[..|code|] == code;
  }

  /** The whitespace run after the code ends between the end of a
      whitespace prefix and the first non-whitespace character. */
  lemma {:induction false} SkipSpaceBetween(l: string, i: nat, p1: nat, s1: nat)
    requires i <= p1 <= s1 < |l| && Spaces(l, i, p1) && !IsSpace(l[s1])
    ensures p1 <= SkipSpace(l, i) <= s1
    decreases p1 - i
  {
    if i < p1 {
      SkipSpaceBetween(l, i + 1, p1, s1);
    } else {
      SkipSpaceSpaces(l, i);
    }
  }

  /** The last token is found where a decomposition puts it. */
  lemma {:induction false} TokenStartExact(l: string, j: nat, f1: nat)
    requires 0 < f1 <= j <= |l| && NoSpaces(l, f1, j) && IsSpace(l[f1 - 1])
    ensures TokenStart(l, j) == f1
    decreases j
  {
    if j > f1 {
      TokenStartExact(l, j - 1, f1);
    }
  }

  /** The whitespace before the last token is found where a decomposition
      puts it. */
  lemma {:induction false} SpaceStartExact(l: string, j: nat, e1: nat)
    requires 0 < e1 <= j <= |l| && Spaces(l, e1, j) && !IsSpace(l[e1 - 1])
    ensures SpaceStart(l, j) == e1
    decreases j
  {
    if j > e1 {
      SpaceStartExact(l, j - 1, e1);
    }
  }

  /** No character of an amount inside the line is whitespace. */
  lemma AmountNoSpaces(l: string, a: nat, b: nat)
    requires a < b <= |l| && IsAmount(l[a..b])
    ensures NoSpaces(l, a, b)
  {
    AmountHasNoSpace(l[a..b]);
    assert forall i | a <= i < b :: l[i] == l[a..b][i - a];
  }

  /** Under valid cuts the matcher's positions land where the cuts put
      them: the whitespace after the code ends at or before the first
      amount, and the last token and the gap before it are the cut ones. */
  lemma CutPositions(l: string, x: Cuts)
    requires ValidCuts(l, x)
    ensures x.p <= SkipSpace(l, x.c) <= x.s
    ensures TokenStart(l, |l|) == x.f && SpaceStart(l, x.f) == x.e
  {
    AmountNoSpaces(l, x.s, x.e);
    assert l[x.f..] == l[x.f..|l|];
    AmountNoSpaces(l, x.f, |l|);
    SkipSpaceBetween(l, x.c, x.p, x.s);
    TokenStartExact(l, |l|, x.f);
    SpaceStartExact(l, x.f, x.e);
  }

  /** Any cuts the pattern allows lead the matcher to cuts with the same
      code, the same amounts' ends, and a first amount that starts no later. */
  lemma CutComplete(l: string, x: Cuts)
    requires ValidCuts(l, x)
    ensures Cut(l).Some?
    ensures Cut(l).value.c == x.c && Cut(l).value.s <= x.s
    ensures Cut(l).value.e == x.e && Cut(l).value.f == x.f
  {
    CodeLengthOf(l, x.c);
    CutPositions(l, x);
    var p := SkipSpace(l, x.c);
    assert NoBreak(l, p, x.s);
    FirstAmountStartLeast(l, p, x.e, x.s);
    assert Cut(l) == CutAt(l, x.c, p, x.f);
  }

  /** The match read off cuts the pattern allows: the same code and last
      amount, and a first amount that ends with the allowed one. */
  lemma MatchOfCuts(l: string, y: Cuts)
    requires ValidCuts(l, y)
    ensures MatchStripped(l).Some?
    ensures MatchStripped(l).value.code == l[..y.c]
    ensures MatchStripped(l).value.withheld == l[y.f..]
    ensures var b := MatchStripped(l).value.base;
      y.e - y.s <= |b| && b[|b| - (y.e - y.s)..] == l[y.s..y.e]
  {
    CutComplete(l, y);
    var x := Cut(l).value;
    var b := l[x.s..x.e];
    assert MatchStripped(l) == Some(RetentionLine(l[..x.c], b, l[x.f..]));
    assert b[y.s - x.s..] == l[y.s..y.e];
  }

  /** Whenever the pattern can match the line at all, the matcher finds a
      match: with the same code, the same last amount, and a first amount
      that ends where the decomposition's does and starts no later, because
      `.*?` gives up characters as soon as an amount can follow. */
  lemma MatchComplete(l: string, code: string, ws1: string, mid: string, n1: string, ws2: string, n2: string)
    requires Decomposes(l, code, ws1, mid, n1, ws2, n2)
    ensures MatchStripped(l).Some?
    ensures MatchStripped(l).value.code == code
    ensures MatchStripped(l).value.withheld == n2
    ensures |n1| <= |MatchStripped(l).value.base|
    ensures MatchStripped(l).value.base[|MatchStripped(l).value.base| - |n1|..] == n1
  {
    DecompositionSlices(l, code, ws1, mid, n1, ws2, n2);
    var c := |code|;
    var p1 := c + |ws1|;
    var s1 := p1 + |mid|;
    var e1 := s1 + |n1|;
    var y := Cuts(c, p1, s1, e1, e1 + |ws2|);
    assert NoBreak(l, p1, s1) by {
      assert forall i | p1 <= i < s1 :: l[i] == mid[i - p1];
    }
    assert Spaces(l, c, p1) by {
      assert forall i | c <= i < p1 :: l[i] == ws1[i - c];
    }
    assert Spaces(l, e1, y.f) by {
      assert forall i | e1 <= i < y.f :: l[i] == ws2[i - e1];
    }
    MatchOfCuts(l, y);
  }

  /** A line whose stripped form starts with four digits never matches:
      the fourth digit is neither a capital letter nor whitespace. */
  lemma FourDigitCodeRejected(l: string)
    requires |l| >= 4 && AllDigits(l[..4])
    ensures MatchStripped(l) == None
  {
    assert IsDigit(l[..4][3]);
  }

  // ---------------------------------------------------------------------
  // float(amount.replace(",", ""))

  /** Digits, then optionally a point followed by at least one digit. The
      digits before the point may be missing here; in a whole amount they
      never are. */
  predicate PointedDigits(s: string) {
    var d := IndexOfAny(s, {'.'});
    && AllDigits(s[..d])
    && (d == |s| || (d < |s| - 1 && AllDigits(s[d + 1..])))
  }

  /** Leading digits keep a pointed number pointed. */
  lemma PrependDigits(ds: string, s: string)
    requires AllDigits(ds) && PointedDigits(s)
    ensures PointedDigits(ds + s)
    ensures IndexOfAny(ds + s, {'.'}) == |ds| + IndexOfAny(s, {'.'})
  {
    DigitsHaveNoMarks(ds, {'.'});
    IndexOfAnyAfter(ds, s, {'.'});
    var d := IndexOfAny(s, {'.'});
    var t := ds + s;
    assert t[..|ds| + d] == ds + s[..d];
    if d < |s| {
      assert t[|ds| + d + 1..] == s[d + 1..];
    }
  }

  /** Removing the commas from a thousands group leaves its digits. */
  lemma RemoveCommaGroup(t: string)
    requires |t| >= 4 && t[0] == ',' && AllDigits(t[1..4])
    ensures RemoveChar(t, ',') == t[1..4] + RemoveChar(t[4..], ',')
  {
    var g, rest := t[1..4], t[4..];
    assert t[1..] == g + rest;
    RemoveCharConcat(g, rest, ',');
    assert ',' !in g by { assert forall i | 0 <= i < |g| :: IsDigit(g[i]); }
    RemoveCharAbsent(g, ',');
  }

  /** A point followed by digits is pointed as it is. */
  lemma FractionPointed(t: string)
    requires |t| >= 2 && t[0] == '.' && AllDigits(t[1..])
    ensures PointedDigits(RemoveChar(t, ','))
  {
    assert ',' !in t by { assert forall i | 1 <= i < |t| :: t[i] == t[1..][i - 1]; }
    RemoveCharAbsent(t, ',');
    assert IndexOfAny(t, {'.'}) == 0;
    assert t[..0] == [];
  }

  lemma {:induction false} GroupTailPointed(t: string)
    requires GroupTail(t)
    ensures PointedDigits(RemoveChar(t, ','))
    decreases |t|
  {
    if t == [] {
    } else if t[0] == ',' {
      GroupTailPointed(t[4..]);
      RemoveCommaGroup(t);
      PrependDigits(t[1..4], RemoveChar(t[4..], ','));
    } else {
      FractionPointed(t);
    }
  }

  lemma {:induction false} IntTailPointed(t: string)
    requires IntTail(t)
    ensures PointedDigits(RemoveChar(t, ','))
    decreases |t|
  {
    if t != [] && IsDigit(t[0]) && IntTail(t[1..]) {
      IntTailPointed(t[1..]);
      PrependDigits([t[0]], RemoveChar(t[1..], ','));
    } else {
      GroupTailPointed(t);
    }
  }

  /** An amount without its commas is a pointed number with digits before
      the point. */
  lemma AmountPointed(n: string)
    requires IsAmount(n)
    ensures PointedDigits(RemoveChar(n, ','))
    ensures IndexOfAny(RemoveChar(n, ','), {'.'}) > 0
  {
    var t := RemoveChar(n[1..], ',');
    IntTailPointed(n[1..]);
    PrependDigits([n[0]], t);
    assert RemoveChar(n, ',') == [n[0]] + t;
  }

  /** A pointed number with digits before the point passes float(). */
  lemma PointedIsFloat(s: string)
    requires PointedDigits(s) && IndexOfAny(s, {'.'}) > 0
    ensures IsFloatLiteral(s)
  {
    var d := IndexOfAny(s, {'.'});
    var a := s[..d];
    if d == |s| {
      assert a == s;
      PlainDecimalIsFloat(a, []);
    } else {
      PointedSplit(s, d);
      PlainDecimalIsFloat(a, s[d + 1..]);
    }
  }

  lemma PointedSplit(s: string, d: nat)
    requires d < |s| && s[d] == '.'
    ensures s == s[..d] + "." + s[d + 1..]
  {
  }

  /** float() accepts every amount the pattern matches once its thousands
      commas are removed, so the conversions of a matching line never
      raise. */
  lemma AmountIsFloat(n: string)
    requires IsAmount(n)
    ensures IsFloatLiteral(RemoveChar(n, ','))
  {
    AmountPointed(n);
    PointedIsFloat(RemoveChar(n, ','));
  }

  // ---------------------------------------------------------------------
  // Pages, lines and the dictionary

  /** The matches of some lines, in line order. The line matcher is a
      parameter so that the scan can be reasoned about apart from it. */
  function LineMatches(lines: seq<string>, matcher: string -> Option<RetentionLine>): (r: seq<RetentionLine>)
    ensures |r| <= |lines|
  {
    if lines == [] then []
    else
      LineMatches(lines[..|lines| - 1], matcher)
        + match matcher(lines[|lines| - 1]) case None => [] case Some(m) => [m]
  }

  /** The lines of a page that are scanned: when the header is on the page,
      those of the text between its first and second occurrence, stripped;
      none otherwise. */
  function PageLines(text: string): seq<string> {
    if Contains(text, Marker) then SectionLines(text, Marker) else []
  }

  /** The matches of a document, page after page, given how a page is cut
      into the lines that are scanned and how a line is matched. */
  function DocumentMatches(pages: seq<string>, linesOf: string -> seq<string>, matcher: string -> Option<RetentionLine>): seq<RetentionLine> {
    if pages == [] then []
    else DocumentMatches(pages[..|pages| - 1], linesOf, matcher) + LineMatches(linesOf(pages[|pages| - 1]), matcher)
  }

  /** The codes of some matches. */
  function Codes(ms: seq<RetentionLine>): set<string> {
    set i | 0 <= i < |ms| :: ms[i].code
  }

  /** codigos_retencion[codigo] = conv(match), for each match in turn. */
  function Record<V>(d: Dict<V>, ms: seq<RetentionLine>, conv: RetentionLine -> V): (r: Dict<V>)
    requires d.Valid()
    ensures r.Valid()
  {
    if ms == [] then d
    else Put(Record(d, ms[..|ms| - 1], conv), ms[|ms| - 1].code, conv(ms[|ms| - 1]))
  }

  /** What one matching line stores: both amounts without thousands commas,
      the text float() is given. */
  datatype Withholding = Withholding(base: string, withheld: string)

  function BothAmounts(m: RetentionLine): Withholding {
    Withholding(RemoveChar(m.base, ','), RemoveChar(m.withheld, ','))
  }

  function BaseAmount(m: RetentionLine): string {
    RemoveChar(m.base, ',')
  }

  /** extraer_codigos_retencion storing {"base": ..., "valor": ...}. */
  function ExtractRetentions(pages: seq<string>): (r: Dict<Withholding>)
    ensures r.Valid()
  {
    Record(Empty(), DocumentMatches(pages, PageLines, MatchLine), BothAmounts)
  }

  /** extraer_codigos_retencion storing the base alone. */
  function ExtractBases(pages: seq<string>): (r: Dict<string>)
    ensures r.Valid()
  {
    Record(Empty(), DocumentMatches(pages, PageLines, MatchLine), BaseAmount)
  }

  /** The keys written are the codes of the matches. */
  lemma {:induction false} RecordKeys<V>(d: Dict<V>, ms: seq<RetentionLine>, conv: RetentionLine -> V)
    requires d.Valid()
    ensures Record(d, ms, conv).m.Keys == d.m.Keys + Codes(ms)
    decreases |ms|
  {
    if ms != [] {
      var init := ms[..|ms| - 1];
      RecordKeys(d, init, conv);
      CodesSnoc(ms);
    }
  }

  lemma CodesSnoc(ms: seq<RetentionLine>)
    requires ms != []
    ensures Codes(ms) == Codes(ms[..|ms| - 1]) + {ms[|ms| - 1].code}
  {
    var init := ms[..|ms| - 1];
    forall k | k in Codes(ms) ensures k in Codes(init) + {ms[|ms| - 1].code} {
      var i :| 0 <= i < |ms| && ms[i].code == k;
      if i < |ms| - 1 {
        assert init[i] == ms[i];
      }
    }
    forall k | k in Codes(init) ensures k in Codes(ms) {
      var i :| 0 <= i < |init| && init[i].code == k;
      assert ms[i] == init[i];
    }
  }

  /** A later match of a code overwrites an earlier one: the value stored is
      that of the last match with the code. */
  lemma {:induction false} RecordLast<V>(d: Dict<V>, ms: seq<RetentionLine>, conv: RetentionLine -> V, i: nat)
    requires d.Valid() && i < |ms|
    requires forall j | i < j < |ms| :: ms[j].code != ms[i].code
    ensures ms[i].code in Record(d, ms, conv).m
    ensures Record(d, ms, conv).m[ms[i].code] == conv(ms[i])
    decreases |ms|
  {
    if i < |ms| - 1 {
      var init := ms[..|ms| - 1];
      assert init[i] == ms[i];
      RecordLast(d, init, conv, i);
    }
  }

  /** A key no match carries keeps its value. */
  lemma {:induction false} RecordUntouched<V>(d: Dict<V>, ms: seq<RetentionLine>, conv: RetentionLine -> V, k: string)
    requires d.Valid() && k in d.m
    requires forall j | 0 <= j < |ms| :: ms[j].code != k
    ensures k in Record(d, ms, conv).m && Record(d, ms, conv).m[k] == d.m[k]
    decreases |ms|
  {
    if ms != [] {
      RecordUntouched(d, ms[..|ms| - 1], conv, k);
    }
  }

  /** A property every stored value has, the result has for every key. */
  lemma {:induction false} RecordKeeps<V>(d: Dict<V>, ms: seq<RetentionLine>, conv: RetentionLine -> V, ok: V -> bool)
    requires d.Valid()
    requires forall k | k in d.m :: ok(d.m[k])
    requires forall i | 0 <= i < |ms| :: ok(conv(ms[i]))
    ensures forall k | k in Record(d, ms, conv).m :: ok(Record(d, ms, conv).m[k])
    decreases |ms|
  {
    if ms != [] {
      var init := ms[..|ms| - 1];
      assert forall i | 0 <= i < |init| :: init[i] == ms[i];
      RecordKeeps(d, init, conv, ok);
    }
  }

  /** Keeping only the base stores, in the same key order, the base of what
      the two-amount variant stores. */
  lemma {:induction false} BasesAreRetentionBases(ms: seq<RetentionLine>)
    ensures Record(Empty(), ms, BaseAmount).order == Record(Empty(), ms, BothAmounts).order
    ensures Record(Empty(), ms, BaseAmount).m.Keys == Record(Empty(), ms, BothAmounts).m.Keys
    ensures forall k | k in Record(Empty(), ms, BaseAmount).m ::
      Record(Empty(), ms, BaseAmount).m[k] == Record(Empty(), ms, BothAmounts).m[k].base
    decreases |ms|
  {
    if ms != [] {
      BasesAreRetentionBases(ms[..|ms| - 1]);
    }
  }

  /** m comes from line j of page p. */
  predicate FoundOn(pages: seq<string>, linesOf: string -> seq<string>, matcher: string -> Option<RetentionLine>, p: int, j: int, m: RetentionLine) {
    && 0 <= p < |pages|
    && 0 <= j < |linesOf(pages[p])|
    && matcher(linesOf(pages[p])[j]) == Some(m)
  }

  /** Every match of some lines is the match of one of them. */
  lemma {:induction false} LineMatchesSound(lines: seq<string>, matcher: string -> Option<RetentionLine>, m: RetentionLine)
    requires m in LineMatches(lines, matcher)
    ensures exists j | 0 <= j < |lines| :: matcher(lines[j]) == Some(m)
    decreases |lines|
  {
    var init := lines[..|lines| - 1];
    if m in LineMatches(init, matcher) {
      LineMatchesSound(init, matcher, m);
      var j :| 0 <= j < |init| && matcher(init[j]) == Some(m);
      assert lines[j] == init[j];
    } else {
      assert matcher(lines[|lines| - 1]) == Some(m);
    }
  }

  /** The match of every matching line is among the matches. */
  lemma {:induction false} LineMatchesComplete(lines: seq<string>, matcher: string -> Option<RetentionLine>, j: int, m: RetentionLine)
    requires 0 <= j < |lines| && matcher(lines[j]) == Some(m)
    ensures m in LineMatches(lines, matcher)
    decreases |lines|
  {
    var init := lines[..|lines| - 1];
    if j < |init| {
      assert init[j] == lines[j];
      LineMatchesComplete(init, matcher, j, m);
    }
  }

  lemma LineMatchesMembers(lines: seq<string>, matcher: string -> Option<RetentionLine>, m: RetentionLine)
    ensures m in LineMatches(lines, matcher) <==> exists j | 0 <= j < |lines| :: matcher(lines[j]) == Some(m)
  {
    if m in LineMatches(lines, matcher) {
      LineMatchesSound(lines, matcher, m);
    }
    if exists j | 0 <= j < |lines| :: matcher(lines[j]) == Some(m) {
      var j :| 0 <= j < |lines| && matcher(lines[j]) == Some(m);
      LineMatchesComplete(lines, matcher, j, m);
    }
  }

  /** A page before the last one is found on in the document and in the
      document without its last page alike. */
  lemma FoundOnInit(pages: seq<string>, linesOf: string -> seq<string>, matcher: string -> Option<RetentionLine>, p: int, j: int, m: RetentionLine)
    requires 0 <= p < |pages| - 1
    ensures FoundOn(pages, linesOf, matcher, p, j, m) <==> FoundOn(pages[..|pages| - 1], linesOf, matcher, p, j, m)
  {
    assert pages[p] == pages[..|pages| - 1][p];
  }

  /** Every match of a document comes from a matching line of one of its
      pages. */
  lemma {:induction false} DocumentMatchesSound(pages: seq<string>, linesOf: string -> seq<string>, matcher: string -> Option<RetentionLine>, m: RetentionLine)
    requires m in DocumentMatches(pages, linesOf, matcher)
    ensures exists p, j :: FoundOn(pages, linesOf, matcher, p, j, m)
    decreases |pages|
  {
    var init, last := pages[..|pages| - 1], pages[|pages| - 1];
    if m in DocumentMatches(init, linesOf, matcher) {
      DocumentMatchesSound(init, linesOf, matcher, m);
      var p, j :| FoundOn(init, linesOf, matcher, p, j, m);
      FoundOnInit(pages, linesOf, matcher, p, j, m);
    } else {
      LineMatchesMembers(linesOf(last), matcher, m);
      var j :| 0 <= j < |linesOf(last)| && matcher(linesOf(last)[j]) == Some(m);
      assert FoundOn(pages, linesOf, matcher, |pages| - 1, j, m);
    }
  }

  /** Every matching line of every page gives a match of the document. */
  lemma {:induction false} DocumentMatchesComplete(pages: seq<string>, linesOf: string -> seq<string>, matcher: string -> Option<RetentionLine>, p: int, j: int, m: RetentionLine)
    requires FoundOn(pages, linesOf, matcher, p, j, m)
    ensures m in DocumentMatches(pages, linesOf, matcher)
    decreases |pages|
  {
    var init, last := pages[..|pages| - 1], pages[|pages| - 1];
    if p < |pages| - 1 {
      FoundOnInit(pages, linesOf, matcher, p, j, m);
      DocumentMatchesComplete(init, linesOf, matcher, p, j, m);
    } else {
      LineMatchesMembers(linesOf(last), matcher, m);
    }
  }

  /** The matches of a document are exactly the matching lines of its
      pages. */
  lemma DocumentMatchesMembers(pages: seq<string>, linesOf: string -> seq<string>, matcher: string -> Option<RetentionLine>, m: RetentionLine)
    ensures m in DocumentMatches(pages, linesOf, matcher) <==> exists p, j :: FoundOn(pages, linesOf, matcher, p, j, m)
  {
    if m in DocumentMatches(pages, linesOf, matcher) {
      DocumentMatchesSound(pages, linesOf, matcher, m);
    }
    if exists p, j :: FoundOn(pages, linesOf, matcher, p, j, m) {
      var p, j :| FoundOn(pages, linesOf, matcher, p, j, m);
      DocumentMatchesComplete(pages, linesOf, matcher, p, j, m);
    }
  }

  /** Every retention the extractor sees comes from a matching line of the
      summary of a page that carries the header, and every such line is
      seen: other pages, and text past a second header, contribute
      nothing. */
  lemma RetentionSources(pages: seq<string>, m: RetentionLine)
    ensures m in DocumentMatches(pages, PageLines, MatchLine) <==>
      exists p, j :: FoundOn(pages, PageLines, MatchLine, p, j, m)
    ensures forall p | 0 <= p < |pages| && !Contains(pages[p], Marker) :: PageLines(pages[p]) == []
  {
    DocumentMatchesMembers(pages, PageLines, MatchLine, m);
  }

  /** Both amounts of every match pass float(). */
  predicate FloatAmounts(w: Withholding) {
    IsFloatLiteral(w.base) && IsFloatLiteral(w.withheld)
  }

  /** Every amount extraer_codigos_retencion stores is accepted by float():
      no conversion in its loop raises. */
  lemma StoredAmountsAreFloats(pages: seq<string>)
    ensures forall k | k in ExtractRetentions(pages).m :: FloatAmounts(ExtractRetentions(pages).m[k])
  {
    var ms := DocumentMatches(pages, PageLines, MatchLine);
    forall i | 0 <= i < |ms| ensures FloatAmounts(BothAmounts(ms[i])) {
      assert ms[i] in ms;
      DocumentMatchesMembers(pages, PageLines, MatchLine, ms[i]);
      var p, j :| FoundOn(pages, PageLines, MatchLine, p, j, ms[i]);
      AmountIsFloat(ms[i].base);
      AmountIsFloat(ms[i].withheld);
    }
    RecordKeeps(Empty(), ms, BothAmounts, FloatAmounts);
  }

  /** The codes extraer_codigos_retencion returns are those of the matching
      summary lines, and a code's entry holds the amounts of its last such
      line, pages and lines taken in order. */
  lemma RetentionsKeysAndLastWins(pages: seq<string>, i: nat)
    requires var ms := DocumentMatches(pages, PageLines, MatchLine);
      i < |ms| && forall j | i < j < |ms| :: ms[j].code != ms[i].code
    ensures var ms := DocumentMatches(pages, PageLines, MatchLine);
      && ExtractRetentions(pages).m.Keys == Codes(ms)
      && ms[i].code in ExtractRetentions(pages).m
      && ExtractRetentions(pages).m[ms[i].code] == BothAmounts(ms[i])
  {
    var ms := DocumentMatches(pages, PageLines, MatchLine);
    RecordKeys(Empty(), ms, BothAmounts);
    RecordLast(Empty(), ms, BothAmounts, i);
  }

  /** The base-only variant returns the same codes in the same order, each
      with the base the two-amount variant stores. */
  lemma BasesOfRetentions(pages: seq<string>)
    ensures ExtractBases(pages).order == ExtractRetentions(pages).order
    ensures ExtractBases(pages).m.Keys == ExtractRetentions(pages).m.Keys
    ensures forall k | k in ExtractBases(pages).m :: ExtractBases(pages).m[k] == ExtractRetentions(pages).m[k].base
  {
    BasesAreRetentionBases(DocumentMatches(pages, PageLines, MatchLine));
  }
}
