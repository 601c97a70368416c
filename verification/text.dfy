/** The few pieces of Python's str behaviour the extractors rely on:
    whitespace, strip(), `in`, find(), split(), replace() and "\n".join(). */
module Text {
  import opened Wrappers

  /** str.isspace(): the characters strip() removes and the regular-expression
      class \s matches on str patterns. */
  predicate IsSpace(c: char) {
    var n := c as int;
    || (0x09 <= n <= 0x0D)
    || (0x1C <= n <= 0x20)
    || n == 0x85 || n == 0xA0 || n == 0x1680
    || (0x2000 <= n <= 0x200A)
    || n == 0x2028 || n == 0x2029 || n == 0x202F || n == 0x205F || n == 0x3000
  }

  /** The regular-expression class \d, restricted to ASCII digits. */
  predicate IsDigit(c: char) {
    48 <= c as int <= 57
  }

  /** The regular-expression class [A-Z]. */
  predicate IsUpper(c: char) {
    65 <= c as int <= 90
  }

  predicate AllDigits(s: string) {
    forall i | 0 <= i < |s| :: IsDigit(s[i])
  }

  predicate AllSpace(s: string) {
    forall i | 0 <= i < |s| :: IsSpace(s[i])
  }

  predicate NoSpace(s: string) {
    forall i | 0 <= i < |s| :: !IsSpace(s[i])
  }

  /** The first position at or after i that does not hold whitespace; |s|
      when there is none. */
  function SkipSpace(s: string, i: nat): (r: nat)
    requires i <= |s|
    ensures i <= r <= |s|
    decreases |s| - i
  {
    if i < |s| && IsSpace(s[i]) then SkipSpace(s, i + 1) else i
  }

  /** Going back from e, but not before a: where the run of whitespace that
      ends at e begins. */
  function SkipSpaceBack(s: string, a: nat, e: nat): (r: nat)
    requires a <= e <= |s|
    ensures a <= r <= e
    decreases e
  {
    if e > a && IsSpace(s[e - 1]) then SkipSpaceBack(s, a, e - 1) else e
  }

  /** Where the text kept by str.strip() begins. */
  function StripStart(s: string): (r: nat)
    ensures r <= |s|
  {
    SkipSpace(s, 0)
  }

  /** Where the text kept by str.strip() ends. */
  function StripEnd(s: string): (r: nat)
    ensures StripStart(s) <= r <= |s|
  {
    SkipSpaceBack(s, StripStart(s), |s|)
  }

  /** str.strip(): the part of s between its leading and its trailing
      whitespace. */
  function Strip(s: string): (r: string)
    ensures |r| <= |s|
  {
    s[StripStart(s)..StripEnd(s)]
  }

  lemma {:induction false} SkipSpaceFacts(s: string, i: nat)
    requires i <= |s|
    ensures forall j | i <= j < SkipSpace(s, i) :: IsSpace(s[j])
    ensures SkipSpace(s, i) < |s| ==> !IsSpace(s[SkipSpace(s, i)])
    decreases |s| - i
  {
    if i < |s| && IsSpace(s[i]) {
      SkipSpaceFacts(s, i + 1);
    }
  }

  lemma {:induction false} SkipSpaceBackFacts(s: string, a: nat, e: nat)
    requires a <= e <= |s|
    ensures forall j | SkipSpaceBack(s, a, e) <= j < e :: IsSpace(s[j])
    ensures SkipSpaceBack(s, a, e) > a ==> !IsSpace(s[SkipSpaceBack(s, a, e) - 1])
    decreases e
  {
    if e > a && IsSpace(s[e - 1]) {
      SkipSpaceBackFacts(s, a, e - 1);
    }
  }

  /** What strip() keeps neither begins nor ends with whitespace, and what it
      drops on either side is all whitespace. */
  lemma StripFacts(s: string)
    ensures Strip(s) == [] || (!IsSpace(Strip(s)[0]) && !IsSpace(Strip(s)[|Strip(s)| - 1]))
    ensures forall j | 0 <= j < StripStart(s) :: IsSpace(s[j])
    ensures forall j | StripEnd(s) <= j < |s| :: IsSpace(s[j])
  {
    var a, b := StripStart(s), StripEnd(s);
    SkipSpaceFacts(s, 0);
    SkipSpaceBackFacts(s, a, |s|);
    if a < b {
      assert Strip(s)[0] == s[a];
      assert Strip(s)[|Strip(s)| - 1] == s[b - 1];
    }
  }

  /** strip() leaves alone a text that neither begins nor ends with
      whitespace. */
  lemma StripUnchanged(s: string)
    requires s == [] || (!IsSpace(s[0]) && !IsSpace(s[|s| - 1]))
    ensures Strip(s) == s
  {
    if s != [] {
      assert SkipSpace(s, 0) == 0;
      assert SkipSpaceBack(s, 0, |s|) == |s|;
    }
  }

  /** str.replace(a, b) for one-character a and b. */
  function ReplaceChar(s: string, a: char, b: char): (r: string)
    ensures |r| == |s|
    ensures forall i | 0 <= i < |s| :: r[i] == if s[i] == a then b else s[i]
  {
    if s == [] then [] else [if s[0] == a then b else s[0]] + ReplaceChar(s[1..], a, b)
  }

  /** str.replace(c, ""): s with every c dropped, the others kept in order. */
  function RemoveChar(s: string, c: char): (r: string)
    ensures |r| <= |s|
  {
    if s == [] then [] else (if s[0] == c then [] else [s[0]]) + RemoveChar(s[1..], c)
  }

  /** Removing a character that does not occur changes nothing. */
  lemma {:induction false} RemoveCharAbsent(s: string, c: char)
    requires c !in s
    ensures RemoveChar(s, c) == s
    decreases |s|
  {
    if s != [] {
      assert s[0] != c && c !in s[1..];
      RemoveCharAbsent(s[1..], c);
      assert s == [s[0]] + s[1..];
    }
  }

  /** Every c is removed, and what is left comes from s. */
  lemma {:induction false} RemoveCharDrops(s: string, c: char)
    ensures c !in RemoveChar(s, c)
    ensures forall x | x in RemoveChar(s, c) :: x in s
    decreases |s|
  {
    if s != [] {
      RemoveCharDrops(s[1..], c);
      assert forall x | x in s[1..] :: x in s;
    }
  }

  lemma {:induction false} RemoveCharConcat(x: string, y: string, c: char)
    ensures RemoveChar(x + y, c) == RemoveChar(x, c) + RemoveChar(y, c)
    decreases |x|
  {
    if x == [] {
      assert x + y == y;
    } else {
      assert (x + y)[1..] == x[1..] + y;
      RemoveCharConcat(x[1..], y, c);
    }
  }

  /** The index of the first character of s that is in cs, or |s| if none is. */
  function IndexOfAny(s: string, cs: set<char>): (r: nat)
    ensures r <= |s|
    ensures forall j | 0 <= j < r :: s[j] !in cs
    ensures r < |s| ==> s[r] in cs
  {
    if s == [] then 0
    else if s[0] in cs then 0
    else 1 + IndexOfAny(s[1..], cs)
  }

  /** Does sub occur in s starting at index i? */
  predicate OccursAt(s: string, sub: string, i: int) {
    0 <= i && i + |sub| <= |s| && s[i..i + |sub|] == sub
  }

  /** str.find(sub, from): the leftmost occurrence at or after from. */
  function Find(s: string, sub: string, from: nat): (r: Option<nat>)
    ensures r.Some? ==> from <= r.value && OccursAt(s, sub, r.value)
    decreases |s| - from
  {
    if from + |sub| > |s| then None
    else if s[from..from + |sub|] == sub then Some(from)
    else Find(s, sub, from + 1)
  }

  /** Nothing before what Find returns is an occurrence: it is the leftmost
      one, and None means there is none at all. */
  lemma {:induction false} FindLeftmost(s: string, sub: string, from: nat)
    ensures forall i | from <= i && (Find(s, sub, from).None? || i < Find(s, sub, from).value) :: !OccursAt(s, sub, i)
    decreases |s| - from
  {
    if from + |sub| <= |s| && s[from..from + |sub|] != sub {
      FindLeftmost(s, sub, from + 1);
    }
  }

  /** An occurrence at j with none between from and j is what Find returns. */
  lemma {:induction false} FindExact(s: string, sub: string, from: nat, j: nat)
    requires from <= j && OccursAt(s, sub, j)
    requires forall i | from <= i < j :: !OccursAt(s, sub, i)
    ensures Find(s, sub, from) == Some(j)
    decreases j - from
  {
    if from < j {
      assert !OccursAt(s, sub, from);
      FindExact(s, sub, from + 1, j);
    }
  }

  /** Without any occurrence at or after from, Find returns None. */
  lemma {:induction false} FindNone(s: string, sub: string, from: nat)
    requires forall i | from <= i :: !OccursAt(s, sub, i)
    ensures Find(s, sub, from) == None
    decreases |s| - from
  {
    if from + |sub| <= |s| {
      assert !OccursAt(s, sub, from);
      FindNone(s, sub, from + 1);
    }
  }

  /** Python's `sub in s`. */
  predicate Contains(s: string, sub: string) {
    Find(s, sub, 0).Some?
  }

  /** An occurrence inside a slice is an occurrence in the whole string. */
  lemma OccursInSlice(s: string, sub: string, a: nat, b: nat, k: int)
    requires a <= b <= |s|
    requires OccursAt(s[a..b], sub, k)
    ensures OccursAt(s, sub, a + k)
  {
    forall t | 0 <= t < |sub| ensures s[a + k + t] == sub[t] {
      assert s[a..b][k..k + |sub|][t] == sub[t];
    }
  }

  /** "sep".join(pieces) */
  function Join(pieces: seq<string>, sep: string): string {
    if |pieces| == 0 then []
    else if |pieces| == 1 then pieces[0]
    else pieces[0] + sep + Join(pieces[1..], sep)
  }

  /** s[from:].split(sep): the pieces between consecutive leftmost occurrences
      of sep, which is what str.split(sep) returns. */
  function SplitFrom(s: string, sep: string, from: nat): (r: seq<string>)
    requires |sep| > 0 && from <= |s|
    ensures |r| >= 1
    ensures |r| >= 2 <==> Find(s, sep, from).Some?
    decreases |s| - from
  {
    match Find(s, sep, from)
    case None => [s[from..]]
    case Some(j) => [s[from..j]] + SplitFrom(s, sep, j + |sep|)
  }

  /** Joining the pieces with the separator gives back the text. */
  lemma {:induction false} JoinSplitFrom(s: string, sep: string, from: nat)
    requires |sep| > 0 && from <= |s|
    ensures Join(SplitFrom(s, sep, from), sep) == s[from..]
    decreases |s| - from
  {
    match Find(s, sep, from)
    case None =>
      assert SplitFrom(s, sep, from) == [s[from..]];
    case Some(j) =>
      JoinSplitFrom(s, sep, j + |sep|);
      JoinSplitStep(s, sep, from, j);
  }

  /** The first piece, the separator found after it, and the rest joined
      back make up the text. */
  lemma JoinSplitStep(s: string, sep: string, from: nat, j: nat)
    requires |sep| > 0 && from <= |s| && Find(s, sep, from) == Some(j)
    requires Join(SplitFrom(s, sep, j + |sep|), sep) == s[j + |sep|..]
    ensures Join(SplitFrom(s, sep, from), sep) == s[from..]
  {
    var rest := SplitFrom(s, sep, j + |sep|);
    assert SplitFrom(s, sep, from) == [s[from..j]] + rest;
    JoinCons(s[from..j], rest, sep);
    SliceAround(s, from, j, sep);
  }

  lemma JoinCons(p: string, rest: seq<string>, sep: string)
    requires |rest| >= 1
    ensures Join([p] + rest, sep) == p + sep + Join(rest, sep)
  {
    assert ([p] + rest)[1..] == rest;
  }

  /** The text from `from` on is what lies before an occurrence of sep at j,
      sep, and what follows it. */
  lemma SliceAround(s: string, from: nat, j: nat, sep: string)
    requires from <= j && OccursAt(s, sep, j)
    ensures s[from..] == s[from..j] + sep + s[j + |sep|..]
  {
    assert s[from..] == s[from..j] + s[j..j + |sep|] + s[j + |sep|..];
  }

  /** No piece contains the separator. */
  lemma {:induction false} SplitFromPiecesFree(s: string, sep: string, from: nat)
    requires |sep| > 0 && from <= |s|
    ensures forall k, i | 0 <= k < |SplitFrom(s, sep, from)| :: !OccursAt(SplitFrom(s, sep, from)[k], sep, i)
    decreases |s| - from
  {
    var r := SplitFrom(s, sep, from);
    FindLeftmost(s, sep, from);
    match Find(s, sep, from)
    case None =>
      assert s[from..] == s[from..|s|];
      forall i | OccursAt(s[from..|s|], sep, i) ensures false {
        OccursInSlice(s, sep, from, |s|, i);
      }
    case Some(j) =>
      SplitFromPiecesFree(s, sep, j + |sep|);
      forall i | OccursAt(s[from..j], sep, i) ensures false {
        OccursInSlice(s, sep, from, j, i);
      }
  }

  /** str.split(sep) */
  function Split(s: string, sep: string): (r: seq<string>)
    requires |sep| > 0
    ensures |r| >= 1
    ensures |r| >= 2 <==> Contains(s, sep)
  {
    SplitFrom(s, sep, 0)
  }

  /** Split and Join are inverse one way round: the pieces joined with the
      separator give back the text, and no piece contains the separator. */
  lemma JoinSplit(s: string, sep: string)
    requires |sep| > 0
    ensures Join(Split(s, sep), sep) == s
    ensures forall k, i | 0 <= k < |Split(s, sep)| :: !OccursAt(Split(s, sep)[k], sep, i)
  {
    JoinSplitFrom(s, sep, 0);
    SplitFromPiecesFree(s, sep, 0);
  }

  /** The lines of a text, as the source computes them: split("\n"). */
  function Lines(s: string): (r: seq<string>)
    ensures |r| >= 1
  {
    Split(s, "\n")
  }

  /** text.split(marker)[1]: the text after the first occurrence of marker, up
      to its second occurrence or the end of text. */
  function Section(text: string, marker: string): (r: string)
    requires |marker| > 0 && Contains(text, marker)
    ensures |r| + |marker| <= |text|
  {
    var start := Find(text, marker, 0).value + |marker|;
    var end := match Find(text, marker, start) case None => |text| case Some(j) => j;
    text[start..end]
  }

  /** The section starts right after the first occurrence of the marker,
      holds no occurrence of it, and ends at the next one or at the end of
      the text. */
  lemma SectionFacts(text: string, marker: string)
    requires |marker| > 0 && Contains(text, marker)
    ensures var start := Find(text, marker, 0).value + |marker|;
      var r := Section(text, marker);
      && start + |r| <= |text|
      && r == text[start..start + |r|]
      && (forall k :: !OccursAt(r, marker, k))
      && (start + |r| == |text| || OccursAt(text, marker, start + |r|))
  {
    var start := Find(text, marker, 0).value + |marker|;
    var end := match Find(text, marker, start) case None => |text| case Some(j) => j;
    assert Section(text, marker) == text[start..end];
    UpToNextFree(text, marker, start);
  }

  /** The text from `from` up to the next occurrence of sub, or to the end
      when there is none, holds no occurrence of sub. */
  lemma UpToNextFree(s: string, sub: string, from: nat)
    requires |sub| > 0 && from <= |s|
    ensures var end := match Find(s, sub, from) case None => |s| case Some(j) => j;
      from <= end <= |s| && forall k :: !OccursAt(s[from..end], sub, k)
  {
    var end := match Find(s, sub, from) case None => |s| case Some(j) => j;
    FindLeftmost(s, sub, from);
    forall k | OccursAt(s[from..end], sub, k) ensures false {
      OccursInSlice(s, sub, from, end, k);
    }
  }

  /** text.split(marker)[1].strip().split("\n"): the lines after the first
      marker, up to the second. */
  function SectionLines(text: string, marker: string): seq<string>
    requires |marker| > 0 && Contains(text, marker)
  {
    Lines(Strip(Section(text, marker)))
  }

  /** Section is the second piece of the split, as the source indexes it. */
  lemma SectionIsSecondPiece(text: string, marker: string)
    requires |marker| > 0 && Contains(text, marker)
    ensures |Split(text, marker)| >= 2
    ensures Section(text, marker) == Split(text, marker)[1]
  {
    var i := Find(text, marker, 0).value;
    var start := i + |marker|;
    var rest := SplitFrom(text, marker, start);
    assert Split(text, marker) == [text[0..i]] + rest;
    match Find(text, marker, start)
    case None =>
      assert rest == [text[start..]];
    case Some(j) =>
      assert rest == [text[start..j]] + SplitFrom(text, marker, j + |marker|);
  }

  /** A one-character separator occurs exactly where that character is. */
  lemma OccursSingle(s: string, c: char, i: int)
    ensures OccursAt(s, [c], i) <==> 0 <= i < |s| && s[i] == c
  {
    if 0 <= i < |s| {
      assert s[i..i + 1] == [s[i]];
    }
  }

  /** Where the text from p on is pieces joined with sep, the first piece
      starts at p and is followed by sep and the other pieces joined. */
  lemma JoinedAt(s: string, p: nat, pieces: seq<string>, sep: string)
    requires |pieces| >= 2 && p <= |s| && s[p..] == Join(pieces, sep)
    ensures p + |pieces[0]| + |sep| <= |s| && s[p..p + |pieces[0]|] == pieces[0]
    ensures OccursAt(s, sep, p + |pieces[0]|)
    ensures s[p + |pieces[0]| + |sep|..] == Join(pieces[1..], sep)
  {
    var t, y := pieces[0], Join(pieces[1..], sep);
    var u := s[p..];
    assert u == t + sep + y;
    assert u[..|t|] == t && u[|t|..|t| + |sep|] == sep && u[|t| + |sep|..] == y;
  }

  /** Without the character after p, the text from p on is one piece. */
  lemma SplitLast(s: string, p: nat, c: char)
    requires p <= |s| && c !in s[p..]
    ensures SplitFrom(s, [c], p) == [s[p..]]
  {
    forall i | p <= i ensures !OccursAt(s, [c], i) {
      OccursSingle(s, c, i);
      if i < |s| {
        assert s[i] == s[p..][i - p];
      }
    }
    FindNone(s, [c], p);
  }

  /** The first occurrence of the character after p ends the first piece. */
  lemma SplitNext(s: string, p: nat, e: nat, c: char)
    requires p <= e < |s| && s[e] == c && c !in s[p..e]
    ensures SplitFrom(s, [c], p) == [s[p..e]] + SplitFrom(s, [c], e + 1)
  {
    forall i | p <= i < e ensures !OccursAt(s, [c], i) {
      OccursSingle(s, c, i);
      assert s[i] == s[p..e][i - p];
    }
    OccursSingle(s, c, e);
    FindExact(s, [c], p, e);
  }

  /** A single piece without the separator character is split back into
      itself. */
  lemma SplitJoinOne(s: string, p: nat, pieces: seq<string>, c: char)
    requires |pieces| == 1 && p <= |s| && s[p..] == Join(pieces, [c]) && c !in pieces[0]
    ensures SplitFrom(s, [c], p) == pieces
  {
    assert s[p..] == pieces[0];
    SplitLast(s, p, c);
  }

  /** A piece followed by the separator character is split off, and the split
      goes on after the separator. */
  lemma SplitJoinStep(s: string, p: nat, t: string, rest: seq<string>, c: char)
    requires p + |t| < |s| && s[p..p + |t|] == t && s[p + |t|] == c && c !in t
    requires SplitFrom(s, [c], p + |t| + 1) == rest
    ensures SplitFrom(s, [c], p) == [t] + rest
  {
    SplitNext(s, p, p + |t|, c);
  }

  /** Pieces without the separator character, joined with it from p to the
      end of the text, are split back from p into the same pieces. */
  lemma {:induction false} SplitJoinAt(s: string, p: nat, pieces: seq<string>, c: char)
    requires |pieces| >= 1 && p <= |s| && s[p..] == Join(pieces, [c])
    requires forall k | 0 <= k < |pieces| :: c !in pieces[k]
    ensures SplitFrom(s, [c], p) == pieces
    decreases |pieces|
  {
    if |pieces| == 1 {
      SplitJoinOne(s, p, pieces, c);
    } else {
      var t, rest := pieces[0], pieces[1..];
      var e := p + |t|;
      JoinedAt(s, p, pieces, [c]);
      OccursSingle(s, c, e);
      assert forall k | 0 <= k < |rest| :: rest[k] == pieces[k + 1];
      SplitJoinAt(s, e + 1, rest, c);
      SplitJoinStep(s, p, t, rest, c);
      assert pieces == [t] + rest;
    }
  }

  /** Lines joined with a one-character separator they do not contain split
      back into the same lines. */
  lemma SplitJoin(pieces: seq<string>, c: char)
    requires |pieces| >= 1
    requires forall k | 0 <= k < |pieces| :: c !in pieces[k]
    ensures Split(Join(pieces, [c]), [c]) == pieces
  {
    var s := Join(pieces, [c]);
    assert s[0..] == s;
    SplitJoinAt(s, 0, pieces, c);
  }
}
