/** extraer_valores_indices: for every requested field code, the word that
    follows the code's occurrence on the same page. The code keeps its seed
    value until a word follows one of its occurrences; the last such
    occurrence in reading order decides the value. */
module TokenExtractor {
  import opened Wrappers
  import opened Text
  import opened Numerals
  import opened PyDict

  /** The word texts of one page, in reading order (what extract_words gives). */
  type Page = seq<string>

  type Document = seq<Page>

  /** What the 103/104 extractors store for a code: the int 0 they seed with, a
      float made from a literal, or the word kept as text when float() raises. */
  datatype Value = Zero | Number(literal: string) | Str(text: string)

  /** The conversion of the word that follows a code: every "." becomes ",",
      then float() is tried on that text with every "," turned into "."; when
      float() raises, the comma text is stored instead. */
  function Convert(word: string): (r: Value)
    ensures r != Zero
    ensures r.Number? ==>
      && |r.literal| == |word| && ',' !in r.literal
      && (forall i | 0 <= i < |word| :: r.literal[i] == if word[i] == ',' || word[i] == '.' then '.' else word[i])
      && IsFloatLiteral(r.literal)
    ensures r.Str? ==>
      && |r.text| == |word| && '.' !in r.text
      && (forall i | 0 <= i < |word| :: r.text[i] == if word[i] == '.' then ',' else word[i])
      && !IsFloatLiteral(ReplaceChar(r.text, ',', '.'))
  {
    var commas := ReplaceChar(word, '.', ',');
    var points := ReplaceChar(commas, ',', '.');
    assert forall i | 0 <= i < |points| :: points[i] != ',';
    assert forall i | 0 <= i < |commas| :: commas[i] != '.';
    if IsFloatLiteral(points) then Number(points) else Str(commas)
  }

  /** The word at index i of a page is an occurrence of code that has a
      successor on the same page. */
  predicate HitAt(page: Page, code: string, i: int) {
    0 <= i && i + 1 < |page| && page[i] == code
  }

  /** The same, for page p of a document. */
  predicate IsHit(doc: Document, code: string, p: int, i: int) {
    0 <= p < |doc| && HitAt(doc[p], code, i)
  }

  /** (p, i) is the last hit of code in reading order. */
  ghost predicate IsLastHit(doc: Document, code: string, p: int, i: int) {
    && IsHit(doc, code, p, i)
    && forall q, j | IsHit(doc, code, q, j) :: q < p || (q == p && j <= i)
  }

  /** One turn of the inner loop, at index i: a word that is a requested code
      and has a successor stores the converted successor under that code.
      Only keys the dict already has are written, so its order never changes
      and a turn is an update of its map. */
  function Step<V>(m: map<string, V>, page: Page, i: nat, conv: string -> V): (r: map<string, V>)
    requires i < |page|
    ensures r.Keys == m.Keys
  {
    if page[i] in m && i + 1 < |page| then m[page[i] := conv(page[i + 1])] else m
  }

  /** The inner loop over the first n words of a page. */
  function ScanPage<V>(m: map<string, V>, page: Page, n: nat, conv: string -> V): (r: map<string, V>)
    requires n <= |page|
    ensures r.Keys == m.Keys
    decreases n
  {
    if n == 0 then m else Step(ScanPage(m, page, n - 1, conv), page, n - 1, conv)
  }

  /** The outer loop over the pages. */
  function ScanPages<V>(m: map<string, V>, doc: Document, conv: string -> V): (r: map<string, V>)
    ensures r.Keys == m.Keys
    decreases |doc|
  {
    if doc == [] then m
    else
      var last := doc[|doc| - 1];
      ScanPage(ScanPages(m, doc[..|doc| - 1], conv), last, |last|, conv)
  }

  /** extraer_valores_indices with its seed value and conversion as
      parameters: the dict is seeded with every requested code, in the order
      requested, and only ever updated. */
  function ExtractWith<V>(doc: Document, codes: seq<string>, seed: V, conv: string -> V): (r: Dict<V>)
    ensures r.Valid()
    ensures forall c :: c in r.m <==> c in codes
    ensures r.order == FromKeys(codes, seed).order
  {
    var d := FromKeys(codes, seed);
    Dict(d.order, ScanPages(d.m, doc, conv))
  }

  /** The 103/104 scripts' extractor: seeded with 0, successor converted. */
  function ExtractValues(doc: Document, codes: seq<string>): (r: Dict<Value>)
    ensures r.Valid()
    ensures forall c :: c in r.m <==> c in codes
  {
    ExtractWith(doc, codes, Zero, Convert)
  }

  /** The first script's extractor: seeded with None, successor kept as text
      with every "." replaced by ",". */
  function ExtractTexts(doc: Document, codes: seq<string>): (r: Dict<Option<string>>)
    ensures r.Valid()
    ensures forall c :: c in r.m <==> c in codes
  {
    ExtractWith(doc, codes, None, (w: string) => Some(ReplaceChar(w, '.', ',')))
  }

  // ---------------------------------------------------------------------
  // Which occurrence decides the value

  /** A turn at a hit of the code stores the converted successor. */
  lemma StepHit<V>(m: map<string, V>, page: Page, i: nat, conv: string -> V, code: string)
    requires i < |page| && code in m && HitAt(page, code, i)
    ensures Step(m, page, i, conv)[code] == conv(page[i + 1])
  {
  }

  /** A turn anywhere else leaves the code's value alone. */
  lemma StepMiss<V>(m: map<string, V>, page: Page, i: nat, conv: string -> V, code: string)
    requires i < |page| && code in m && !HitAt(page, code, i)
    ensures Step(m, page, i, conv)[code] == m[code]
  {
  }

  lemma {:induction false} ScanPageNoHit<V>(m: map<string, V>, page: Page, n: nat, conv: string -> V, code: string)
    requires n <= |page| && code in m
    requires forall i | 0 <= i < n :: !HitAt(page, code, i)
    ensures ScanPage(m, page, n, conv)[code] == m[code]
    decreases n
  {
    if n > 0 {
      var before := ScanPage(m, page, n - 1, conv);
      assert ScanPage(m, page, n, conv) == Step(before, page, n - 1, conv);
      ScanPageNoHit(m, page, n - 1, conv, code);
      StepMiss(before, page, n - 1, conv, code);
    }
  }

  lemma {:induction false} ScanPageLastHit<V>(m: map<string, V>, page: Page, n: nat, conv: string -> V, code: string, i: nat)
    requires n <= |page| && code in m
    requires i < n && HitAt(page, code, i)
    requires forall j | i < j < n :: !HitAt(page, code, j)
    ensures ScanPage(m, page, n, conv)[code] == conv(page[i + 1])
    decreases n
  {
    var before := ScanPage(m, page, n - 1, conv);
    assert ScanPage(m, page, n, conv) == Step(before, page, n - 1, conv);
    if i < n - 1 {
      ScanPageLastHit(m, page, n - 1, conv, code, i);
      StepMiss(before, page, n - 1, conv, code);
    } else {
      StepHit(before, page, n - 1, conv, code);
    }
  }

  lemma {:induction false} ScanPageSomeHit<V>(m: map<string, V>, page: Page, n: nat, conv: string -> V, code: string, i: nat)
    requires n <= |page| && code in m
    requires i < n && HitAt(page, code, i)
    ensures exists w :: ScanPage(m, page, n, conv)[code] == conv(w)
    decreases n
  {
    if HitAt(page, code, n - 1) {
      assert ScanPage(m, page, n, conv)[code] == conv(page[n]);
    } else {
      ScanPageSomeHit(m, page, n - 1, conv, code, i);
    }
  }

  lemma {:induction false} ScanPagesNoHit<V>(m: map<string, V>, doc: Document, conv: string -> V, code: string)
    requires code in m
    requires forall p, i :: !IsHit(doc, code, p, i)
    ensures ScanPages(m, doc, conv)[code] == m[code]
    decreases |doc|
  {
    if doc != [] {
      var prefix := doc[..|doc| - 1];
      var last := doc[|doc| - 1];
      forall p, i ensures !IsHit(prefix, code, p, i) {
        assert IsHit(prefix, code, p, i) ==> IsHit(doc, code, p, i);
      }
      ScanPagesNoHit(m, prefix, conv, code);
      forall i | 0 <= i < |last| ensures !HitAt(last, code, i) {
        assert !IsHit(doc, code, |doc| - 1, i);
      }
      ScanPageNoHit(ScanPages(m, prefix, conv), last, |last|, conv, code);
    }
  }

  lemma {:induction false} ScanPagesLastHit<V>(m: map<string, V>, doc: Document, conv: string -> V, code: string, p: nat, i: nat)
    requires code in m
    requires IsLastHit(doc, code, p, i)
    ensures ScanPages(m, doc, conv)[code] == conv(doc[p][i + 1])
    decreases |doc|
  {
    var prefix := doc[..|doc| - 1];
    var last := doc[|doc| - 1];
    var before := ScanPages(m, prefix, conv);
    if p == |doc| - 1 {
      forall j | i < j < |last| ensures !HitAt(last, code, j) {
        assert !IsHit(doc, code, p, j);
      }
      ScanPageLastHit(before, last, |last|, conv, code, i);
    } else {
      forall j | 0 <= j < |last| ensures !HitAt(last, code, j) {
        assert !IsHit(doc, code, |doc| - 1, j);
      }
      ScanPageNoHit(before, last, |last|, conv, code);
      forall q, j | IsHit(prefix, code, q, j) ensures q < p || (q == p && j <= i) {
        assert IsHit(doc, code, q, j);
      }
      ScanPagesLastHit(m, prefix, conv, code, p, i);
    }
  }

  lemma {:induction false} ScanPagesSomeHit<V>(m: map<string, V>, doc: Document, conv: string -> V, code: string, p: nat, i: nat)
    requires code in m
    requires IsHit(doc, code, p, i)
    ensures exists w :: ScanPages(m, doc, conv)[code] == conv(w)
    decreases |doc|
  {
    var prefix := doc[..|doc| - 1];
    var last := doc[|doc| - 1];
    var before := ScanPages(m, prefix, conv);
    if exists j :: 0 <= j < |last| && HitAt(last, code, j) {
      var j :| 0 <= j < |last| && HitAt(last, code, j);
      ScanPageSomeHit(before, last, |last|, conv, code, j);
    } else {
      assert p < |doc| - 1;
      assert IsHit(prefix, code, p, i);
      ScanPagesSomeHit(m, prefix, conv, code, p, i);
      var w :| before[code] == conv(w);
      ScanPageNoHit(before, last, |last|, conv, code);
    }
  }

  /** A requested code that never has a successor on its page keeps its seed
      value; in particular a code that is the last word of its page gets
      nothing from that occurrence, not even the first word of the next page. */
  lemma ExtractNoHit<V>(doc: Document, codes: seq<string>, seed: V, conv: string -> V, code: string)
    requires code in codes
    requires forall p, i :: !IsHit(doc, code, p, i)
    ensures ExtractWith(doc, codes, seed, conv).m[code] == seed
  {
    ScanPagesNoHit(FromKeys(codes, seed).m, doc, conv, code);
  }

  /** Last occurrence wins: the value of a requested code is the converted
      successor of its last occurrence, in page order and then word order, that
      has a successor on its page. */
  lemma ExtractLastHitWins<V>(doc: Document, codes: seq<string>, seed: V, conv: string -> V, code: string, p: nat, i: nat)
    requires code in codes
    requires IsLastHit(doc, code, p, i)
    ensures ExtractWith(doc, codes, seed, conv).m[code] == conv(doc[p][i + 1])
  {
    ScanPagesLastHit(FromKeys(codes, seed).m, doc, conv, code, p, i);
  }

  /** When no conversion yields the seed, the seed is left exactly for codes
      that never have a successor: main.py's None means "not found". */
  lemma ExtractSeedIffNoHit<V>(doc: Document, codes: seq<string>, seed: V, conv: string -> V, code: string)
    requires code in codes
    requires forall w :: conv(w) != seed
    ensures ExtractWith(doc, codes, seed, conv).m[code] == seed <==> forall p, i :: !IsHit(doc, code, p, i)
  {
    if forall p, i :: !IsHit(doc, code, p, i) {
      ExtractNoHit(doc, codes, seed, conv, code);
    } else {
      var p, i :| IsHit(doc, code, p, i);
      ScanPagesSomeHit(FromKeys(codes, seed).m, doc, conv, code, p, i);
    }
  }

  /** main.py: a code maps to None exactly when no occurrence of it has a
      successor on its page; otherwise to its last successor with "." turned
      into ",". */
  lemma TextsNoneIffNotFound(doc: Document, codes: seq<string>, code: string)
    requires code in codes
    ensures ExtractTexts(doc, codes).m[code] == None <==> forall p, i :: !IsHit(doc, code, p, i)
    ensures forall p, i | IsLastHit(doc, code, p, i) :: ExtractTexts(doc, codes).m[code] == Some(ReplaceChar(doc[p][i + 1], '.', ','))
  {
    var conv := (w: string) => Some(ReplaceChar(w, '.', ','));
    ExtractSeedIffNoHit(doc, codes, None, conv, code);
    forall p, i | IsLastHit(doc, code, p, i)
      ensures ExtractTexts(doc, codes).m[code] == Some(ReplaceChar(doc[p][i + 1], '.', ','))
    {
      ExtractLastHitWins(doc, codes, None, conv, code, p, i);
    }
  }

  /** The 103/104 extractor: a code never followed by a word keeps 0; otherwise
      it holds the conversion of the successor of its last occurrence. */
  lemma ValuesZeroOrLastSuccessor(doc: Document, codes: seq<string>, code: string)
    requires code in codes
    ensures ExtractValues(doc, codes).m[code] == Zero <==> forall p, i :: !IsHit(doc, code, p, i)
    ensures forall p, i | IsLastHit(doc, code, p, i) :: ExtractValues(doc, codes).m[code] == Convert(doc[p][i + 1])
  {
    ExtractSeedIffNoHit(doc, codes, Zero, Convert, code);
    forall p, i | IsLastHit(doc, code, p, i)
      ensures ExtractValues(doc, codes).m[code] == Convert(doc[p][i + 1])
    {
      ExtractLastHitWins(doc, codes, Zero, Convert, code, p, i);
    }
  }
}
