/** extraer_totales_compras: on every page whose text holds "COMPRAS", the
    first line after that marker (up to its next occurrence) that holds
    "TOTAL:" is searched for amounts with
        re.findall(r"(\d{1,3}(?:,\d{3})*(?:\.\d+)|\d+\.\d+)", line)
    and, when there are at least four, the first three become the three
    purchase totals; the search leaves the page at that line either way. A
    page that yields totals replaces those of earlier pages. */
module PurchaseTotals {
  import opened Wrappers
  import opened Text
  import opened Numerals
  import opened PyDict

  const Marker: string := "COMPRAS"
  const TotalLabel: string := "TOTAL:"

  /** The three keys, in the order the source builds the dict. */
  const TotalKeys: seq<string> := ["BI tarifa 0%", "BI tarifa diferente 0%", "BI No Objeto IVA"]

  // ---------------------------------------------------------------------
  // What the pattern accepts, stated on its own

  /** (?:,\d{3})* to the end of v. */
  predicate IsGroups(v: string)
    decreases |v|
  {
    || v == []
    || (|v| >= 4 && v[0] == ',' && AllDigits(v[1..4]) && IsGroups(v[4..]))
  }

  /** \d{1,3}(?:,\d{3})* : one to three digits, then thousands groups. */
  predicate IsGroupedInt(u: string) {
    exists d | 1 <= d <= 3 :: d <= |u| && AllDigits(u[..d]) && IsGroups(u[d..])
  }

  /** t is an integer part, grouped or plain, a point at k, and digits. */
  predicate AmountWithPointAt(t: string, k: int) {
    && 0 <= k < |t| - 1
    && t[k] == '.'
    && AllDigits(t[k + 1..])
    && (IsGroupedInt(t[..k]) || (k > 0 && AllDigits(t[..k])))
  }

  /** A whole match of either alternative: \d{1,3}(?:,\d{3})*\.\d+ or \d+\.\d+. */
  predicate IsTotalAmount(t: string) {
    exists k | 0 <= k < |t| :: AmountWithPointAt(t, k)
  }

  // ---------------------------------------------------------------------
  // The matcher, on positions of the searched line

  /** Every character of s in [a, b) is a digit. */
  predicate DigitsBetween(s: string, a: nat, b: nat)
    requires a <= b <= |s|
  {
    forall j | a <= j < b :: IsDigit(s[j])
  }

  /** The end of the run of digits starting at i. */
  function DigitsEnd(s: string, i: nat): (r: nat)
    requires i <= |s|
    ensures i <= r <= |s|
    decreases |s| - i
  {
    if i < |s| && IsDigit(s[i]) then DigitsEnd(s, i + 1) else i
  }

  /** A comma and three digits start at i. */
  predicate IsGroupAt(s: string, i: nat) {
    i + 4 <= |s| && s[i] == ',' && IsDigit(s[i + 1]) && IsDigit(s[i + 2]) && IsDigit(s[i + 3])
  }

  /** (?:,\d{3})* taken greedily from i: where the ",ddd" groups end. */
  function GroupsEnd(s: string, i: nat): (r: nat)
    requires i <= |s|
    ensures i <= r <= |s|
    decreases |s| - i
  {
    if IsGroupAt(s, i) then GroupsEnd(s, i + 4) else i
  }

  /** \.\d+ taken greedily from i: where the point and its digits end; i
      itself when no digit follows a point there. */
  function FractionEnd(s: string, i: nat): (r: nat)
    requires i <= |s|
    ensures i <= r <= |s|
  {
    if i + 2 <= |s| && s[i] == '.' && IsDigit(s[i + 1]) then DigitsEnd(s, i + 1) else i
  }

  /** Where the match the pattern makes at i ends, if it makes one. The
      first alternative can only succeed when the digit run is at most three
      long, since fewer digits would leave a digit where a comma or point is
      required; its groups must then be all the groups present, since fewer
      would leave a comma where the point is required. The second
      alternative likewise takes the whole digit run. */
  function MatchEnd(s: string, i: nat): (r: Option<nat>)
    requires i <= |s|
    ensures r.Some? ==> i < r.value <= |s|
  {
    var d := DigitsEnd(s, i);
    if d == i then None
    else
      var g := GroupsEnd(s, d);
      var f := FractionEnd(s, g);
      if d - i <= 3 && f > g then Some(f)
      else
        var f2 := FractionEnd(s, d);
        if f2 > d then Some(f2) else None
  }

  /** re.findall from position i: matches are taken left to right, the
      search resuming after each match, or one character further when none
      starts here. */
  function FindAllFrom(s: string, i: nat): seq<string>
    requires i <= |s|
    decreases |s| - i, 1
  {
    if i == |s| then [] else FindAllNext(s, i)
  }

  /** One step of the search at i < |s|: the match there and the rest, or the
      search from the next position. */
  function FindAllNext(s: string, i: nat): seq<string>
    requires i < |s|
    decreases |s| - i, 0
  {
    match MatchEnd(s, i)
    case Some(e) => [s[i..e]] + FindAllFrom(s, e)
    case None => FindAllFrom(s, i + 1)
  }

  /** re.findall over the whole line. */
  function FindAll(s: string): (r: seq<string>)
    ensures forall n | 0 <= n < |r| :: IsTotalAmount(r[n])
  {
    FindAllFromSound(s, 0);
    FindAllFrom(s, 0)
  }

  // ---------------------------------------------------------------------
  // The matcher against the pattern

  lemma DigitsSlice(s: string, a: nat, b: nat)
    requires a <= b <= |s|
    ensures DigitsBetween(s, a, b) <==> AllDigits(s[a..b])
  {
    assert forall j | a <= j < b :: s[a..b][j - a] == s[j];
  }

  lemma {:induction false} DigitsEndFacts(s: string, i: nat)
    requires i <= |s|
    ensures DigitsBetween(s, i, DigitsEnd(s, i))
    ensures DigitsEnd(s, i) < |s| ==> !IsDigit(s[DigitsEnd(s, i)])
    decreases |s| - i
  {
    if i < |s| && IsDigit(s[i]) {
      DigitsEndFacts(s, i + 1);
    }
  }

  lemma {:induction false} DigitsEndExact(s: string, i: nat, k: nat)
    requires i <= k <= |s| && DigitsBetween(s, i, k) && (k == |s| || !IsDigit(s[k]))
    ensures DigitsEnd(s, i) == k
    decreases k - i
  {
    if i < k {
      DigitsEndExact(s, i + 1, k);
    }
  }

  lemma {:induction false} GroupsEndGroups(s: string, i: nat)
    requires i <= |s|
    ensures IsGroups(s[i..GroupsEnd(s, i)])
    decreases |s| - i
  {
    var e := GroupsEnd(s, i);
    var v := s[i..e];
    if IsGroupAt(s, i) {
      GroupsEndGroups(s, i + 4);
      var w := v[1..4];
      assert v[0] == ',';
      assert w[0] == s[i + 1] && w[1] == s[i + 2] && w[2] == s[i + 3];
      assert v[4..] == s[i + 4..e];
    } else {
      assert v == [];
    }
  }

  /** Groups followed by anything but a comma are read whole. */
  lemma {:induction false} GroupsEndExact(s: string, i: nat, k: nat)
    requires i <= k <= |s| && IsGroups(s[i..k]) && (k == |s| || s[k] != ',')
    ensures GroupsEnd(s, i) == k
    decreases k - i
  {
    var v := s[i..k];
    if i < k {
      var w := v[1..4];
      assert |v| >= 4 && v[0] == ',' && AllDigits(w);
      assert v[0] == s[i] && v[4..] == s[i + 4..k];
      assert w[0] == v[1] && w[1] == v[2] && w[2] == v[3];
      assert v[1] == s[i + 1] && v[2] == s[i + 2] && v[3] == s[i + 3];
      assert IsGroupAt(s, i);
      GroupsEndExact(s, i + 4, k);
    }
  }

  lemma FractionEndFacts(s: string, i: nat)
    requires i <= |s| && FractionEnd(s, i) > i
    ensures s[i] == '.' && FractionEnd(s, i) >= i + 2
    ensures DigitsBetween(s, i + 1, FractionEnd(s, i))
    ensures FractionEnd(s, i) < |s| ==> !IsDigit(s[FractionEnd(s, i)])
  {
    DigitsEndFacts(s, i + 1);
  }

  lemma FractionEndExact(s: string, i: nat, k: nat)
    requires i + 2 <= k <= |s| && s[i] == '.' && DigitsBetween(s, i + 1, k) && (k == |s| || !IsDigit(s[k]))
    ensures FractionEnd(s, i) == k
  {
    DigitsEndExact(s, i + 1, k);
  }

  /** The first alternative succeeds with these ends. */
  lemma FirstAlternative(s: string, i: nat, d: nat, g: nat, f: nat)
    requires i <= |s| && DigitsEnd(s, i) == d && i < d <= i + 3
    requires GroupsEnd(s, d) == g && FractionEnd(s, g) == f && f > g
    ensures MatchEnd(s, i) == Some(f)
  {
  }

  /** The second alternative succeeds with these ends. */
  lemma SecondAlternative(s: string, i: nat, d: nat, f: nat)
    requires i <= |s| && DigitsEnd(s, i) == d && d > i + 3
    requires FractionEnd(s, d) == f && f > d
    ensures MatchEnd(s, i) == Some(f)
  {
  }

  /** One to three digits, groups up to k, a point at k and digits make a
      whole match. */
  lemma GroupedAmount(t: string, d: nat, k: nat)
    requires 1 <= d <= 3 && d <= k < |t| - 1
    requires AllDigits(t[..d]) && IsGroups(t[d..k]) && t[k] == '.' && AllDigits(t[k + 1..])
    ensures AmountWithPointAt(t, k)
  {
    var u := t[..k];
    assert u[..d] == t[..d] && u[d..] == t[d..k];
    assert IsGroupedInt(u);
  }

  lemma FirstAlternativeSound(s: string, i: nat, d: nat, g: nat, f: nat)
    requires i <= |s| && DigitsEnd(s, i) == d && i < d <= i + 3
    requires GroupsEnd(s, d) == g && FractionEnd(s, g) == f && f > g
    ensures AmountWithPointAt(s[i..f], g - i)
  {
    var t := s[i..f];
    DigitsEndFacts(s, i);
    GroupsEndGroups(s, d);
    FractionEndFacts(s, g);
    DigitsSlice(s, i, d);
    DigitsSlice(s, g + 1, f);
    assert forall j | i <= j < f :: t[j - i] == s[j];
    assert t[..d - i] == s[i..d];
    assert t[d - i..g - i] == s[d..g];
    assert t[g - i + 1..] == s[g + 1..f];
    GroupedAmount(t, d - i, g - i);
  }

  lemma SecondAlternativeSound(s: string, i: nat, d: nat, f: nat)
    requires i <= |s| && DigitsEnd(s, i) == d && d > i
    requires FractionEnd(s, d) == f && f > d
    ensures AmountWithPointAt(s[i..f], d - i)
  {
    var t := s[i..f];
    DigitsEndFacts(s, i);
    FractionEndFacts(s, d);
    DigitsSlice(s, i, d);
    DigitsSlice(s, d + 1, f);
    assert t[..d - i] == s[i..d];
    assert t[d - i + 1..] == s[d + 1..f];
  }

  /** What the matcher takes at i is a whole match of the pattern. */
  lemma MatchEndSound(s: string, i: nat)
    requires i <= |s| && MatchEnd(s, i).Some?
    ensures IsTotalAmount(s[i..MatchEnd(s, i).value])
  {
    var e := MatchEnd(s, i).value;
    var d := DigitsEnd(s, i);
    var g := GroupsEnd(s, d);
    var f := FractionEnd(s, g);
    if d - i <= 3 && f > g {
      FirstAlternativeSound(s, i, d, g, f);
      assert AmountWithPointAt(s[i..e], g - i);
    } else {
      SecondAlternativeSound(s, i, d, e);
      assert AmountWithPointAt(s[i..e], d - i);
    }
  }

  /** A grouped integer part: d digits, groups up to the point at k. */
  lemma GroupedMatch(s: string, i: nat, t: string, k: nat, d: nat)
    requires i + |t| <= |s| && s[i..i + |t|] == t
    requires i + |t| == |s| || !IsDigit(s[i + |t|])
    requires AmountWithPointAt(t, k) && 1 <= d <= 3 && d <= k
    requires AllDigits(t[..k][..d]) && IsGroups(t[..k][d..])
    ensures MatchEnd(s, i) == Some(i + |t|)
  {
    var u := t[..k];
    var f := i + |t|;
    assert forall j | i <= j < i + d :: s[j] == u[..d][j - i];
    if d < k {
      assert s[i + d] == u[d..][0];
    } else {
      assert s[i + d] == t[k];
    }
    DigitsEndExact(s, i, i + d);
    assert forall j | i <= j < i + |t| :: s[j] == t[j - i];
    assert s[i + d..i + k] == u[d..];
    GroupsEndExact(s, i + d, i + k);
    assert forall j | i + k + 1 <= j < f :: s[j] == t[k + 1..][j - i - k - 1];
    FractionEndExact(s, i + k, f);
    FirstAlternative(s, i, i + d, i + k, f);
  }

  /** A plain integer part with the point at k. */
  lemma PlainMatch(s: string, i: nat, t: string, k: nat)
    requires i + |t| <= |s| && s[i..i + |t|] == t
    requires i + |t| == |s| || !IsDigit(s[i + |t|])
    requires AmountWithPointAt(t, k) && k > 0 && AllDigits(t[..k])
    ensures MatchEnd(s, i) == Some(i + |t|)
  {
    var f := i + |t|;
    assert forall j | i <= j < i + k :: s[j] == t[..k][j - i];
    assert s[i + k] == t[k];
    DigitsEndExact(s, i, i + k);
    assert forall j | i + k + 1 <= j < f :: s[j] == t[k + 1..][j - i - k - 1];
    FractionEndExact(s, i + k, f);
    if k <= 3 {
      assert GroupsEnd(s, i + k) == i + k;
      FirstAlternative(s, i, i + k, i + k, f);
    } else {
      SecondAlternative(s, i, i + k, f);
    }
  }

  /** A whole match of the pattern at i, followed by anything but a digit, is
      what the matcher takes there, all of it. */
  lemma MatchEndComplete(s: string, i: nat, t: string)
    requires i + |t| <= |s| && s[i..i + |t|] == t && IsTotalAmount(t)
    requires i + |t| == |s| || !IsDigit(s[i + |t|])
    ensures MatchEnd(s, i) == Some(i + |t|)
  {
    var k :| 0 <= k < |t| && AmountWithPointAt(t, k);
    if IsGroupedInt(t[..k]) {
      var d :| 1 <= d <= 3 && d <= k && AllDigits(t[..k][..d]) && IsGroups(t[..k][d..]);
      GroupedMatch(s, i, t, k, d);
    } else {
      PlainMatch(s, i, t, k);
    }
  }

  /** Every string findall returns is a whole match of the pattern. */
  lemma {:induction false} FindAllFromSound(s: string, i: nat)
    requires i <= |s|
    ensures forall n | 0 <= n < |FindAllFrom(s, i)| :: IsTotalAmount(FindAllFrom(s, i)[n])
    decreases |s| - i
  {
    if i < |s| {
      assert FindAllFrom(s, i) == FindAllNext(s, i);
      match MatchEnd(s, i)
      case Some(e) =>
        MatchEndSound(s, i);
        FindAllFromSound(s, e);
      case None =>
        FindAllFromSound(s, i + 1);
    }
  }

  /** No match starts at anything but a digit, so findall moves past it. */
  lemma NonDigitSkipped(s: string, i: nat)
    requires i < |s| && !IsDigit(s[i])
    ensures FindAllFrom(s, i) == FindAllFrom(s, i + 1)
  {
    assert DigitsEnd(s, i) == i;
  }

  /** A whole match at position p followed by the end of the text or by
      anything but a digit is found there, and the search resumes after it. */
  lemma FindAllAt(s: string, p: nat, t: string)
    requires IsTotalAmount(t) && p + |t| <= |s| && s[p..p + |t|] == t
    requires p + |t| == |s| || !IsDigit(s[p + |t|])
    ensures FindAllFrom(s, p) == [t] + FindAllFrom(s, p + |t|)
  {
    MatchEndComplete(s, p, t);
    FindAllFromMatch(s, p, p + |t|);
  }

  /** A match at i is taken whole and the search resumes where it ends. */
  lemma FindAllFromMatch(s: string, i: nat, e: nat)
    requires i <= |s| && MatchEnd(s, i) == Some(e)
    ensures FindAllFrom(s, i) == [s[i..e]] + FindAllFrom(s, e)
  {
  }

  /** Where text from p on is pieces joined with spaces, the first piece
      starts at p, followed by a space and the other pieces joined. */
  lemma JoinedFrom(s: string, p: nat, ts: seq<string>)
    requires |ts| >= 2 && p <= |s| && s[p..] == Join(ts, " ")
    ensures p + |ts[0]| < |s| && s[p..p + |ts[0]|] == ts[0] && s[p + |ts[0]|] == ' '
    ensures s[p + |ts[0]| + 1..] == Join(ts[1..], " ")
  {
    var t, y := ts[0], Join(ts[1..], " ");
    var u := s[p..];
    assert u == t + " " + y;
    assert u[..|t|] == t && u[|t|] == ' ' && u[|t| + 1..] == y;
  }

  /** Every string of ts is a whole match, stated one string at a time. */
  predicate AllTotalAmounts(ts: seq<string>)
    decreases |ts|
  {
    ts == [] || (IsTotalAmount(ts[0]) && AllTotalAmounts(ts[1..]))
  }

  lemma {:induction false} AllTotalAmountsOf(ts: seq<string>)
    requires forall n | 0 <= n < |ts| :: IsTotalAmount(ts[n])
    ensures AllTotalAmounts(ts)
    decreases |ts|
  {
    if ts != [] {
      var rest := ts[1..];
      assert forall n | 0 <= n < |rest| :: rest[n] == ts[n + 1];
      AllTotalAmountsOf(rest);
    }
  }

  /** Amounts written one after another with single spaces, from position p
      to the end of the text, are found again from p, each whole and in
      order. */
  lemma {:induction false} FindAllJoinAt(s: string, p: nat, ts: seq<string>)
    requires p <= |s| && s[p..] == Join(ts, " ")
    requires AllTotalAmounts(ts)
    ensures FindAllFrom(s, p) == ts
    decreases |ts|
  {
    if ts == [] {
      assert p == |s| by { assert |s[p..]| == 0; }
    } else if |ts| == 1 {
      FindAllJoinOne(s, p, ts[0]);
    } else {
      JoinedFrom(s, p, ts);
      FindAllJoinAt(s, p + |ts[0]| + 1, ts[1..]);
      FindAllJoinMore(s, p, ts);
    }
  }

  /** The first of several joined amounts is found, and the search goes on
      with the others. */
  lemma FindAllJoinMore(s: string, p: nat, ts: seq<string>)
    requires |ts| >= 2 && p + |ts[0]| < |s| && s[p + |ts[0]|] == ' '
    requires s[p..p + |ts[0]|] == ts[0] && IsTotalAmount(ts[0])
    requires FindAllFrom(s, p + |ts[0]| + 1) == ts[1..]
    ensures FindAllFrom(s, p) == ts
  {
    var t, rest := ts[0], ts[1..];
    FindAllAt(s, p, t);
    FindAllJoinStep(s, p, t, rest);
    assert ts == [t] + rest;
  }

  /** A single amount that ends the text is found alone. */
  lemma FindAllJoinOne(s: string, p: nat, t: string)
    requires p <= |s| && s[p..] == t && IsTotalAmount(t)
    ensures FindAllFrom(s, p) == [t]
  {
    assert s[p..p + |t|] == t && p + |t| == |s|;
    FindAllAt(s, p, t);
  }

  /** A match followed by a space: the search goes on after the space. */
  lemma FindAllJoinStep(s: string, p: nat, t: string, rest: seq<string>)
    requires p + |t| < |s| && s[p + |t|] == ' '
    requires FindAllFrom(s, p) == [t] + FindAllFrom(s, p + |t|)
    requires FindAllFrom(s, p + |t| + 1) == rest
    ensures FindAllFrom(s, p) == [t] + rest
  {
    NonDigitSkipped(s, p + |t|);
  }

  /** Amounts joined with single spaces are found again, each whole and in
      order. */
  lemma FindAllJoin(ts: seq<string>)
    requires forall n | 0 <= n < |ts| :: IsTotalAmount(ts[n])
    ensures FindAll(Join(ts, " ")) == ts
  {
    var s := Join(ts, " ");
    assert s[0..] == s;
    AllTotalAmountsOf(ts);
    FindAllJoinAt(s, 0, ts);
  }

  // ---------------------------------------------------------------------
  // Amounts among other text

  /** g holds no digit. */
  predicate NoDigits(g: string) {
    forall j | 0 <= j < |g| :: !IsDigit(g[j])
  }

  /** Amounts laid out between gaps: gaps[0], ts[0], gaps[1], ..., ts[n - 1],
      gaps[n]. */
  function Spread(ts: seq<string>, gaps: seq<string>): (r: string)
    requires |gaps| == |ts| + 1
    ensures |r| >= |gaps[0]|
    decreases |ts|
  {
    if ts == [] then gaps[0] else gaps[0] + ts[0] + Spread(ts[1..], gaps[1..])
  }

  /** Gaps that cannot take part in a match: no digit in any of them, and
      at least one character between two amounts. */
  predicate SeparatingGaps(gaps: seq<string>) {
    && (forall k | 0 <= k < |gaps| :: NoDigits(gaps[k]))
    && (forall k | 0 < k < |gaps| - 1 :: gaps[k] != [])
  }

  /** findall moves over text without digits and finds nothing there. */
  lemma {:induction false} GapSkipped(s: string, i: nat, j: nat)
    requires i <= j <= |s| && NoDigits(s[i..j])
    ensures FindAllFrom(s, i) == FindAllFrom(s, j)
    decreases j - i
  {
    if i < j {
      assert s[i..j][0] == s[i];
      NonDigitSkipped(s, i);
      assert s[i + 1..j] == s[i..j][1..];
      GapSkipped(s, i + 1, j);
    }
  }

  /** Where text from p on is a gap, an amount and the rest spread, the
      amount starts after the gap, ends before the rest, and the rest starts
      with the next gap. */
  lemma SpreadFrom(s: string, p: nat, ts: seq<string>, gaps: seq<string>)
    requires |gaps| == |ts| + 1 && ts != [] && p <= |s| && s[p..] == Spread(ts, gaps)
    ensures p + |gaps[0]| + |ts[0]| <= |s|
    ensures s[p..p + |gaps[0]|] == gaps[0]
    ensures s[p + |gaps[0]|..p + |gaps[0]| + |ts[0]|] == ts[0]
    ensures s[p + |gaps[0]| + |ts[0]|..] == Spread(ts[1..], gaps[1..])
  {
    var g, t, y := gaps[0], ts[0], Spread(ts[1..], gaps[1..]);
    var u := s[p..];
    assert u == g + t + y;
    assert u[..|g|] == g && u[|g|..|g| + |t|] == t && u[|g| + |t|..] == y;
  }

  /** What follows an amount in spread text is the end of the text or a
      character of the next gap, never a digit. */
  lemma SpreadNext(s: string, e: nat, ts: seq<string>, gaps: seq<string>)
    requires |gaps| == |ts| + 1 && e <= |s| && s[e..] == Spread(ts, gaps)
    requires NoDigits(gaps[0]) && (ts != [] ==> gaps[0] != [])
    ensures e == |s| || !IsDigit(s[e])
  {
    if e < |s| {
      if gaps[0] != [] {
        assert s[e] == s[e..][0] == gaps[0][0];
      } else {
        assert ts == [] && s[e..] == [];
        assert |s[e..]| == |s| - e;
      }
    }
  }

  /** Dropping the first gap leaves gaps that still separate. */
  lemma SeparatingRest(gaps: seq<string>)
    requires |gaps| >= 2 && SeparatingGaps(gaps)
    ensures SeparatingGaps(gaps[1..])
    ensures NoDigits(gaps[0]) && NoDigits(gaps[1]) && (|gaps| > 2 ==> gaps[1] != [])
  {
    var rest := gaps[1..];
    assert forall k | 0 <= k < |rest| :: rest[k] == gaps[k + 1];
  }

  /** Where text from p on starts with a gap, an amount and then the end of
      the text or anything but a digit, the amount is found after the gap and
      the search resumes where it ends. */
  lemma FindAllAfterGap(s: string, p: nat, g: string, t: string)
    requires p + |g| + |t| <= |s| && s[p..p + |g|] == g && NoDigits(g)
    requires s[p + |g|..p + |g| + |t|] == t && IsTotalAmount(t)
    requires p + |g| + |t| == |s| || !IsDigit(s[p + |g| + |t|])
    ensures FindAllFrom(s, p) == [t] + FindAllFrom(s, p + |g| + |t|)
  {
    GapSkipped(s, p, p + |g|);
    FindAllAt(s, p + |g|, t);
  }

  /** Where spread text starts at p: the first gap, the first amount, and
      after it the rest of the spread text, which does not start with a
      digit. */
  lemma SpreadLayout(s: string, p: nat, ts: seq<string>, gaps: seq<string>)
    requires |gaps| == |ts| + 1 && ts != [] && p <= |s| && s[p..] == Spread(ts, gaps)
    requires SeparatingGaps(gaps)
    ensures var e := p + |gaps[0]| + |ts[0]|;
      && e <= |s| && s[p..p + |gaps[0]|] == gaps[0] && NoDigits(gaps[0])
      && s[p + |gaps[0]|..e] == ts[0]
      && (e == |s| || !IsDigit(s[e]))
      && s[e..] == Spread(ts[1..], gaps[1..]) && SeparatingGaps(gaps[1..])
  {
    var rest := gaps[1..];
    SpreadFrom(s, p, ts, gaps);
    SeparatingRest(gaps);
    SpreadNext(s, p + |gaps[0]| + |ts[0]|, ts[1..], rest);
  }

  /** Spread text from p to the end of the text is searched amount by
      amount. */
  lemma {:induction false} FindAllSpreadAt(s: string, p: nat, ts: seq<string>, gaps: seq<string>)
    requires |gaps| == |ts| + 1 && p <= |s| && s[p..] == Spread(ts, gaps)
    requires AllTotalAmounts(ts) && SeparatingGaps(gaps)
    ensures FindAllFrom(s, p) == ts
    decreases |ts|
  {
    if ts == [] {
      assert s[p..|s|] == s[p..] == gaps[0];
      GapSkipped(s, p, |s|);
    } else {
      var e := p + |gaps[0]| + |ts[0]|;
      SpreadLayout(s, p, ts, gaps);
      FindAllAfterGap(s, p, gaps[0], ts[0]);
      FindAllSpreadAt(s, e, ts[1..], gaps[1..]);
      assert ts == [ts[0]] + ts[1..];
    }
  }

  /** Amounts with anything but digits before, between and after them, at
      least one character between two amounts, are found again, each whole
      and in order: a "TOTAL:" line with its label, spacing and trailing
      text gives back exactly the amounts written on it. */
  lemma FindAllSpread(ts: seq<string>, gaps: seq<string>)
    requires |gaps| == |ts| + 1
    requires forall n | 0 <= n < |ts| :: IsTotalAmount(ts[n])
    requires SeparatingGaps(gaps)
    ensures FindAll(Spread(ts, gaps)) == ts
  {
    var s := Spread(ts, gaps);
    assert s[0..] == s;
    AllTotalAmountsOf(ts);
    FindAllSpreadAt(s, 0, ts, gaps);
  }

  /** A purchase-totals line as the report prints it: its label, four
      amounts and the spacing between them. */
  const ExampleLine: string :=
    "TOTAL:  " + "1,200.50" + "  " + "0.00" + "  " + "35.10" + "  " + "1,235.60"
  const ExampleAmounts: seq<string> := ["1,200.50", "0.00", "35.10", "1,235.60"]
  const ExampleGaps: seq<string> := ["TOTAL:  ", "  ", "  ", "  ", ""]

  lemma ExampleLineSpread()
    ensures |ExampleGaps| == |ExampleAmounts| + 1
    ensures SeparatingGaps(ExampleGaps)
    ensures Spread(ExampleAmounts, ExampleGaps) == ExampleLine
  {
    var ts, gaps := ExampleAmounts, ExampleGaps;
    assert Spread(ts[3..], gaps[3..]) == gaps[3] + ts[3] + gaps[4];
    assert Spread(ts[2..], gaps[2..]) == gaps[2] + ts[2] + Spread(ts[3..], gaps[3..]);
    assert Spread(ts[1..], gaps[1..]) == gaps[1] + ts[1] + Spread(ts[2..], gaps[2..]);
  }

  lemma GroupedExample(t: string)
    requires |t| == 8 && t[1] == ',' && t[5] == '.'
    requires AllDigits(t[..1]) && AllDigits(t[2..5]) && AllDigits(t[6..])
    ensures IsTotalAmount(t)
  {
    var u := t[..5];
    assert u[..1] == t[..1] && u[1..][1..4] == t[2..5] && u[1..][4..] == [];
    assert IsGroups(u[1..]);
    assert AmountWithPointAt(t, 5);
  }

  lemma ExampleAmountsMatch()
    ensures forall n | 0 <= n < |ExampleAmounts| :: IsTotalAmount(ExampleAmounts[n])
  {
    GroupedExample(ExampleAmounts[0]);
    assert AmountWithPointAt(ExampleAmounts[1], 1);
    assert AmountWithPointAt(ExampleAmounts[2], 2);
    GroupedExample(ExampleAmounts[3]);
  }

  /** The example line gives its first three amounts, commas removed. */
  lemma TotalLineExample()
    ensures LineTotals(ExampleLine) == Some(TotalsDict("1,200.50", "0.00", "35.10"))
  {
    ExampleLineSpread();
    ExampleAmountsMatch();
    FindAllSpread(ExampleAmounts, ExampleGaps);
  }

  lemma {:induction false} NoPointFrom(s: string, i: nat)
    requires i <= |s| && '.' !in s
    ensures FindAllFrom(s, i) == []
    decreases |s| - i
  {
    if i < |s| {
      if MatchEnd(s, i).Some? {
        var d := DigitsEnd(s, i);
        var g := GroupsEnd(s, d);
        if FractionEnd(s, g) > g {
          FractionEndFacts(s, g);
        } else {
          FractionEndFacts(s, d);
        }
      }
      NoPointFrom(s, i + 1);
    }
  }

  /** Every amount the pattern matches carries a point, so a line without
      one yields nothing. */
  lemma NoPointNoAmounts(s: string)
    requires '.' !in s
    ensures FindAll(s) == []
  {
    NoPointFrom(s, 0);
  }

  // ---------------------------------------------------------------------
  // float(amount.replace(",", ""))

  lemma {:induction false} GroupsWithoutCommas(v: string)
    requires IsGroups(v)
    ensures AllDigits(RemoveChar(v, ','))
    decreases |v|
  {
    if v != [] {
      var g := v[1..4];
      assert v[1..] == g + v[4..];
      RemoveCharConcat(g, v[4..], ',');
      assert ',' !in g by { assert forall i | 0 <= i < |g| :: IsDigit(g[i]); }
      RemoveCharAbsent(g, ',');
      GroupsWithoutCommas(v[4..]);
      assert RemoveChar(v, ',') == RemoveChar(v[1..], ',');
    }
  }

  /** The integer part without its commas is a non-empty digit string. */
  lemma IntegerPartDigits(u: string)
    requires IsGroupedInt(u) || (|u| > 0 && AllDigits(u))
    ensures |RemoveChar(u, ',')| > 0 && AllDigits(RemoveChar(u, ','))
  {
    if |u| > 0 && AllDigits(u) {
      assert ',' !in u by { assert forall i | 0 <= i < |u| :: IsDigit(u[i]); }
      RemoveCharAbsent(u, ',');
    } else {
      var d :| 1 <= d <= 3 && d <= |u| && AllDigits(u[..d]) && IsGroups(u[d..]);
      assert u == u[..d] + u[d..];
      RemoveCharConcat(u[..d], u[d..], ',');
      assert ',' !in u[..d] by { assert forall i | 0 <= i < d :: IsDigit(u[..d][i]); }
      RemoveCharAbsent(u[..d], ',');
      GroupsWithoutCommas(u[d..]);
    }
  }

  /** Without its commas, an amount is its integer digits, the point and
      the digits after it. */
  lemma AmountWithoutCommas(t: string, k: nat)
    requires AmountWithPointAt(t, k)
    ensures RemoveChar(t, ',') == RemoveChar(t[..k], ',') + "." + t[k + 1..]
  {
    var u, b := t[..k], t[k + 1..];
    var p := "." + b;
    assert ',' !in p by { assert forall i | 0 <= i < |b| :: IsDigit(b[i]); }
    assert t == u + p;
    RemoveCharConcat(u, p, ',');
    RemoveCharAbsent(p, ',');
  }

  /** float() accepts every amount findall returns once its commas are
      removed, so the conversions never raise. */
  lemma TotalAmountIsFloat(t: string)
    requires IsTotalAmount(t)
    ensures IsFloatLiteral(RemoveChar(t, ','))
  {
    var k :| 0 <= k < |t| && AmountWithPointAt(t, k);
    IntegerPartDigits(t[..k]);
    AmountWithoutCommas(t, k);
    PlainDecimalIsFloat(RemoveChar(t[..k], ','), t[k + 1..]);
  }

  // ---------------------------------------------------------------------
  // Lines, pages and the result

  /** The index of the first line at or after i holding "TOTAL:". */
  function FirstTotalLine(lines: seq<string>, i: nat): (r: Option<nat>)
    requires i <= |lines|
    ensures r.Some? ==> i <= r.value < |lines| && Contains(lines[r.value], TotalLabel)
    ensures forall j | i <= j < |lines| && (r.None? || j < r.value) :: !Contains(lines[j], TotalLabel)
    decreases |lines| - i
  {
    if i == |lines| then None
    else if Contains(lines[i], TotalLabel) then Some(i)
    else FirstTotalLine(lines, i + 1)
  }

  /** The dict the source builds from the first three amounts. */
  function TotalsDict(a: string, b: string, c: string): (r: Dict<string>)
    ensures r.Valid() && r.order == TotalKeys
    ensures r.m == map[TotalKeys[0] := RemoveChar(a, ','), TotalKeys[1] := RemoveChar(b, ','), TotalKeys[2] := RemoveChar(c, ',')]
  {
    Put(Put(Put(Empty(), TotalKeys[0], RemoveChar(a, ',')), TotalKeys[1], RemoveChar(b, ',')), TotalKeys[2], RemoveChar(c, ','))
  }

  /** What a "TOTAL:" line gives: with four amounts or more, the first three
      under the three keys; nothing otherwise. */
  function LineTotals(line: string): Option<Dict<string>> {
    var amounts := FindAll(line);
    if |amounts| >= 4 then Some(TotalsDict(amounts[0], amounts[1], amounts[2])) else None
  }

  /** What one page gives: only the first "TOTAL:" line after the marker is
      looked at. */
  function PageTotals(text: string): (r: Option<Dict<string>>)
    ensures r.Some? ==> Contains(text, Marker) && r.value.Valid() && r.value.order == TotalKeys
  {
    if !Contains(text, Marker) then None
    else
      var lines := SectionLines(text, Marker);
      match FirstTotalLine(lines, 0)
      case None => None
      case Some(i) => LineTotals(lines[i])
  }

  /** The value the last page that gives one gives, none when no page
      does: a later page's value replaces an earlier one's, a page that gives
      nothing leaves it. */
  function LastGiven<T>(pages: seq<string>, given: string -> Option<T>, none: T): T {
    if pages == [] then none
    else
      match given(pages[|pages| - 1])
      case Some(t) => t
      case None => LastGiven(pages[..|pages| - 1], given, none)
  }

  /** extraer_totales_compras: the totals of the last page that gives any,
      {} when none does. */
  function ExtractTotals(pages: seq<string>): (r: Dict<string>)
    ensures r == Empty() || exists q | 0 <= q < |pages| :: PageTotals(pages[q]) == Some(r)
  {
    LastGivenFrom(pages, PageTotals, Empty());
    LastGiven(pages, PageTotals, Empty())
  }

  /** The value LastGiven returns is the default or what some page gives. */
  lemma {:induction false} LastGivenFrom<T>(pages: seq<string>, given: string -> Option<T>, none: T)
    ensures var r := LastGiven(pages, given, none);
      r == none || exists q | 0 <= q < |pages| :: given(pages[q]) == Some(r)
    decreases |pages|
  {
    if pages != [] && given(pages[|pages| - 1]).None? {
      var init := pages[..|pages| - 1];
      LastGivenFrom(init, given, none);
      assert forall q | 0 <= q < |init| :: init[q] == pages[q];
    }
  }

  /** Totals always hold the three keys in order. */
  lemma PageTotalsShape(text: string)
    requires PageTotals(text).Some?
    ensures PageTotals(text).value.order == TotalKeys
    ensures PageTotals(text).value.m.Keys == {TotalKeys[0], TotalKeys[1], TotalKeys[2]}
  {
  }

  lemma {:induction false} LastGivenWins<T>(pages: seq<string>, given: string -> Option<T>, none: T, p: nat)
    requires p < |pages| && given(pages[p]).Some?
    requires forall q | p < q < |pages| :: given(pages[q]).None?
    ensures LastGiven(pages, given, none) == given(pages[p]).value
    decreases |pages|
  {
    if p < |pages| - 1 {
      var init := pages[..|pages| - 1];
      assert init[p] == pages[p];
      LastGivenWins(init, given, none, p);
    }
  }

  lemma {:induction false} LastGivenNone<T>(pages: seq<string>, given: string -> Option<T>, none: T)
    requires forall p | 0 <= p < |pages| :: given(pages[p]).None?
    ensures LastGiven(pages, given, none) == none
    decreases |pages|
  {
    if pages != [] {
      var init := pages[..|pages| - 1];
      assert forall p | 0 <= p < |init| :: init[p] == pages[p];
      LastGivenNone(init, given, none);
    }
  }

  /** When some page gives a value, the result is the value of one of them. */
  lemma {:induction false} LastGivenSome<T>(pages: seq<string>, given: string -> Option<T>, none: T, p: nat)
    requires p < |pages| && given(pages[p]).Some?
    ensures exists q | 0 <= q < |pages| :: given(pages[q]).Some? && LastGiven(pages, given, none) == given(pages[q]).value
    decreases |pages|
  {
    var last := |pages| - 1;
    if given(pages[last]).None? {
      var init := pages[..last];
      assert init[p] == pages[p];
      LastGivenSome(init, given, none, p);
      var q :| 0 <= q < |init| && given(init[q]).Some? && LastGiven(init, given, none) == given(init[q]).value;
      assert init[q] == pages[q];
    }
  }

  /** A page whose first "TOTAL:" line has fewer than four amounts, or that
      has no such line or no marker, leaves the earlier totals as they
      were. */
  lemma PageWithoutTotalsKeeps(pages: seq<string>, text: string)
    requires PageTotals(text).None?
    ensures ExtractTotals(pages + [text]) == ExtractTotals(pages)
  {
    assert (pages + [text])[..|pages|] == pages;
  }

  /** The result is the totals of the last page that gives totals: later
      pages that give none do not clear them. */
  lemma LastQualifyingPageWins(pages: seq<string>, p: nat)
    requires p < |pages| && PageTotals(pages[p]).Some?
    requires forall q | p < q < |pages| :: PageTotals(pages[q]).None?
    ensures ExtractTotals(pages) == PageTotals(pages[p]).value
  {
    LastGivenWins(pages, PageTotals, Empty(), p);
  }

  /** The result is {} exactly when no page gives totals; otherwise it holds
      the three keys in order. */
  lemma EmptyIffNoTotals(pages: seq<string>)
    ensures ExtractTotals(pages).m == map[] <==> forall p | 0 <= p < |pages| :: PageTotals(pages[p]).None?
    ensures ExtractTotals(pages).m != map[] ==> ExtractTotals(pages).order == TotalKeys
  {
    if forall p | 0 <= p < |pages| :: PageTotals(pages[p]).None? {
      LastGivenNone(pages, PageTotals, Empty());
    } else {
      var p :| 0 <= p < |pages| && PageTotals(pages[p]).Some?;
      LastGivenSome(pages, PageTotals, Empty(), p);
      var q :| 0 <= q < |pages| && PageTotals(pages[q]).Some? && ExtractTotals(pages) == PageTotals(pages[q]).value;
      PageTotalsShape(pages[q]);
      assert TotalKeys[0] in ExtractTotals(pages).m;
    }
  }

  /** The values stored are the first three amounts of the examined line,
      commas removed. */
  lemma LineTotalsValues(line: string)
    requires |FindAll(line)| >= 4
    ensures LineTotals(line).Some?
    ensures LineTotals(line).value.m == map[
      TotalKeys[0] := RemoveChar(FindAll(line)[0], ','),
      TotalKeys[1] := RemoveChar(FindAll(line)[1], ','),
      TotalKeys[2] := RemoveChar(FindAll(line)[2], ',')]
  {
  }

  /** float() accepts every value a "TOTAL:" line gives. */
  lemma LineTotalsAreFloats(line: string)
    requires LineTotals(line).Some?
    ensures forall key | key in LineTotals(line).value.m :: IsFloatLiteral(LineTotals(line).value.m[key])
  {
    var amounts := FindAll(line);
    LineTotalsValues(line);
    TotalAmountIsFloat(amounts[0]);
    TotalAmountIsFloat(amounts[1]);
    TotalAmountIsFloat(amounts[2]);
  }

  /** Only the first "TOTAL:" line of the section counts: what follows it
      cannot change the page's totals. */
  lemma FirstTotalLineDecides(text: string, i: nat)
    requires Contains(text, Marker)
    requires i < |SectionLines(text, Marker)| && Contains(SectionLines(text, Marker)[i], TotalLabel)
    requires forall j | 0 <= j < i :: !Contains(SectionLines(text, Marker)[j], TotalLabel)
    ensures PageTotals(text) == LineTotals(SectionLines(text, Marker)[i])
  {
    var lines := SectionLines(text, Marker);
    var r := FirstTotalLine(lines, 0);
    assert r == Some(i);
  }
}
