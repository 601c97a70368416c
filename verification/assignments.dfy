/** The loop every placement function runs over the extracted dict: the codes
    in insertion order, each one skipped, assigned to one cell, or raising. A
    raise abandons the whole call (the workbook is not saved); otherwise the
    cells assigned are the only ones that change, and a cell assigned twice
    keeps the later value. */
module Assignments {
  import opened Wrappers

  /** What the loop does for one code. */
  datatype Step<C, E> = Skip | Write(cell: C) | Fail(error: E)

  /** The cells some code of codes is assigned to. */
  function Targets<C, E>(codes: seq<string>, resolve: string -> Step<C, E>): set<C> {
    set k | k in codes && resolve(k).Write? :: resolve(k).cell
  }

  /** No code of codes raises. */
  predicate NoFailure<C, E>(codes: seq<string>, resolve: string -> Step<C, E>) {
    forall k | k in codes :: !resolve(k).Fail?
  }

  /** codes[i] is the last code assigned to cell c. */
  ghost predicate IsLastWriter<C, E>(codes: seq<string>, resolve: string -> Step<C, E>, c: C, i: int) {
    && 0 <= i < |codes| && resolve(codes[i]) == Write(c)
    && forall j | i < j < |codes| :: resolve(codes[j]) != Write(c)
  }

  /** The loop as the scripts write it: one assignment after the other, and
      the first raise ends it. */
  function Apply<C, V, E>(sheet: map<C, V>, codes: seq<string>, values: map<string, V>, resolve: string -> Step<C, E>): (r: Result<map<C, V>, E>)
    requires forall k | k in codes :: k in values
    ensures r.Success? ==> sheet.Keys <= r.value.Keys
    decreases |codes|
  {
    if codes == [] then Success(sheet)
    else
      var k := codes[|codes| - 1];
      match Apply(sheet, codes[..|codes| - 1], values, resolve)
      case Failure(e) => Failure(e)
      case Success(s) =>
        match resolve(k)
        case Skip => Success(s)
        case Write(c) => Success(s[c := values[k]])
        case Fail(e) => Failure(e)
  }

  /** The assignments of a run of the loop, gathered into one map. */
  function Writes<C, V, E>(codes: seq<string>, values: map<string, V>, resolve: string -> Step<C, E>): (r: map<C, V>)
    requires forall k | k in codes :: k in values
    ensures r.Keys == Targets(codes, resolve)
    decreases |codes|
  {
    if codes == [] then map[]
    else
      var prefix := codes[..|codes| - 1];
      var k := codes[|codes| - 1];
      assert codes == prefix + [k];
      var w := Writes(prefix, values, resolve);
      if resolve(k).Write? then w[resolve(k).cell := values[k]] else w
  }

  /** One more code: its write, if any, lands on top of the earlier ones. */
  lemma WritesSnoc<C, V, E>(prefix: seq<string>, k: string, values: map<string, V>, resolve: string -> Step<C, E>)
    requires forall x | x in prefix + [k] :: x in values
    ensures resolve(k).Write? ==>
      Writes(prefix + [k], values, resolve) == Writes(prefix, values, resolve)[resolve(k).cell := values[k]]
    ensures !resolve(k).Write? ==> Writes(prefix + [k], values, resolve) == Writes(prefix, values, resolve)
  {
    assert (prefix + [k])[..|prefix|] == prefix;
  }

  lemma MergeUpdate<C, V>(m: map<C, V>, w: map<C, V>, c: C, v: V)
    ensures (m + w)[c := v] == m + w[c := v]
  {
  }

  lemma MergeTwice<C, V>(m: map<C, V>, w: map<C, V>)
    ensures (m + w) + w == m + w
  {
  }

  /** A cell's gathered value is the value of the last code assigned to it. */
  lemma {:induction false} WritesLastWriter<C, V, E>(codes: seq<string>, values: map<string, V>, resolve: string -> Step<C, E>, c: C, i: int)
    requires forall k | k in codes :: k in values
    requires IsLastWriter(codes, resolve, c, i)
    ensures c in Writes(codes, values, resolve)
    ensures Writes(codes, values, resolve)[c] == values[codes[i]]
    decreases |codes|
  {
    var prefix := codes[..|codes| - 1];
    if i < |codes| - 1 {
      WritesLastWriter(prefix, values, resolve, c, i);
    }
  }

  /** The loop either raises at the first code that raises, or assigns exactly
      the gathered writes on top of the sheet it was given. */
  lemma {:induction false} ApplyOutcome<C, V, E>(sheet: map<C, V>, codes: seq<string>, values: map<string, V>, resolve: string -> Step<C, E>)
    requires forall k | k in codes :: k in values
    ensures Apply(sheet, codes, values, resolve).Success? <==> NoFailure(codes, resolve)
    ensures Apply(sheet, codes, values, resolve).Success? ==>
      Apply(sheet, codes, values, resolve).value == sheet + Writes(codes, values, resolve)
    ensures Apply(sheet, codes, values, resolve).Failure? ==>
      exists i | 0 <= i < |codes| ::
        && resolve(codes[i]) == Fail(Apply(sheet, codes, values, resolve).error)
        && NoFailure(codes[..i], resolve)
    decreases |codes|
  {
    if codes != [] {
      var prefix := codes[..|codes| - 1];
      var k := codes[|codes| - 1];
      assert codes == prefix + [k];
      ApplyOutcome(sheet, prefix, values, resolve);
      var before := Apply(sheet, prefix, values, resolve);
      if before.Failure? {
        var i :| 0 <= i < |prefix| && resolve(prefix[i]) == Fail(before.error) && NoFailure(prefix[..i], resolve);
        assert prefix[..i] == codes[..i];
        assert codes[i] == prefix[i];
      } else if resolve(k).Fail? {
        assert prefix == codes[..|codes| - 1];
      } else if resolve(k).Write? {
        WritesSnoc(prefix, k, values, resolve);
        MergeUpdate(sheet, Writes(prefix, values, resolve), resolve(k).cell, values[k]);
      }
    }
  }

  /** Running the loop a second time with the same dict changes nothing: it
      only assigns, and it assigns the same values. */
  lemma ApplyIdempotent<C, V, E>(sheet: map<C, V>, codes: seq<string>, values: map<string, V>, resolve: string -> Step<C, E>)
    requires forall k | k in codes :: k in values
    requires Apply(sheet, codes, values, resolve).Success?
    ensures Apply(Apply(sheet, codes, values, resolve).value, codes, values, resolve) == Apply(sheet, codes, values, resolve)
  {
    var once := Apply(sheet, codes, values, resolve).value;
    ApplyOutcome(sheet, codes, values, resolve);
    ApplyOutcome(once, codes, values, resolve);
    MergeTwice(sheet, Writes(codes, values, resolve));
  }

  /** Cell by cell: a cell some code is assigned to holds the value of the
      last such code; every other cell keeps what it held, and no cell is
      added that no code is assigned to. */
  lemma ApplyCells<C, V, E>(sheet: map<C, V>, codes: seq<string>, values: map<string, V>, resolve: string -> Step<C, E>)
    requires forall k | k in codes :: k in values
    requires Apply(sheet, codes, values, resolve).Success?
    ensures Apply(sheet, codes, values, resolve).value.Keys == sheet.Keys + Targets(codes, resolve)
    ensures forall c | c in sheet && c !in Targets(codes, resolve) ::
      Apply(sheet, codes, values, resolve).value[c] == sheet[c]
    ensures forall c, i | IsLastWriter(codes, resolve, c, i) ::
      Apply(sheet, codes, values, resolve).value[c] == values[codes[i]]
  {
    ApplyOutcome(sheet, codes, values, resolve);
    forall c, i | IsLastWriter(codes, resolve, c, i)
      ensures Apply(sheet, codes, values, resolve).value[c] == values[codes[i]]
    {
      WritesLastWriter(codes, values, resolve, c, i);
    }
  }
}
