/** Cells of a sheet and the month-to-column lookup (mes_a_columna). A cell is
    kept as its column letters and its row number; the text address the
    scripts hand to the spreadsheet is the two written one after the other. */
module Columns {
  import opened Wrappers
  import opened Text
  import opened Numerals

  /** A destination cell: column letters and row, as in "AA" and 10 for "AA10". */
  datatype CellRef = CellRef(column: string, row: int)

  predicate AllUpper(s: string) {
    forall i | 0 <= i < |s| :: IsUpper(s[i])
  }

  /** The twelve month columns: every third column starting at C. */
  const MonthColumns: seq<string> := ["C", "F", "I", "L", "O", "R", "U", "X", "AA", "AD", "AG", "AJ"]

  /** columnas[mes - 1] on a 12-entry Python list: indexes -12..11 are valid,
      a negative index counts from the end, anything else raises IndexError
      (None here). */
  function MonthToColumn(mes: int): (r: Option<string>)
    ensures r.Some? <==> -11 <= mes <= 12
    ensures r.Some? ==> r.value in MonthColumns
  {
    var index := mes - 1;
    if 0 <= index < 12 then Some(MonthColumns[index])
    else if -12 <= index < 0 then Some(MonthColumns[index + 12])
    else None
  }

  /** The spreadsheet name of the n-th column (1 = A, 26 = Z, 27 = AA):
      bijective base 26. */
  function ColumnName(n: nat): (r: string)
    requires n >= 1
    ensures |r| >= 1 && AllUpper(r)
    decreases n
  {
    var letter := [(65 + (n - 1) % 26) as char];
    if n <= 26 then letter else ColumnName((n - 1) / 26) + letter
  }

  /** The position of a column given by its letters (A = 1). */
  function ColumnNumber(s: string): (r: nat)
    requires AllUpper(s)
    ensures |s| > 0 ==> r >= 1
    decreases |s|
  {
    if s == [] then 0
    else ColumnNumber(s[..|s| - 1]) * 26 + (s[|s| - 1] as int - 64)
  }

  /** The text address f"{column}{row}". */
  function Address(c: CellRef): string {
    c.column + IntToString(c.row)
  }

  lemma DivModOf26(q: nat, d: nat)
    requires d < 26
    ensures (q * 26 + d) / 26 == q && (q * 26 + d) % 26 == d
  {
  }

  /** Reading back the letters of column n gives n. */
  lemma {:induction false} NumberOfName(n: nat)
    requires n >= 1
    ensures ColumnNumber(ColumnName(n)) == n
    decreases n
  {
    var letter := [(65 + (n - 1) % 26) as char];
    if n > 26 {
      var q := (n - 1) / 26;
      var prefix := ColumnName(q);
      NumberOfName(q);
      var r := prefix + letter;
      assert r == ColumnName(n);
      assert r[..|r| - 1] == prefix;
      assert n == q * 26 + (n - 1) % 26 + 1;
    }
  }

  /** Every non-empty run of capital letters names exactly one column. */
  lemma {:induction false} NameOfNumber(s: string)
    requires |s| > 0 && AllUpper(s)
    ensures ColumnName(ColumnNumber(s)) == s
    decreases |s|
  {
    var p := s[..|s| - 1];
    var d := s[|s| - 1] as int - 65;
    assert 0 <= d < 26;
    if p == [] {
      assert s == [s[0]];
    } else {
      NameOfNumber(p);
      var q := ColumnNumber(p);
      DivModOf26(q, d);
      assert ColumnNumber(s) - 1 == q * 26 + d;
      assert ColumnName(ColumnNumber(s)) == ColumnName(q) + [(65 + d) as char];
      assert s == p + [s[|s| - 1]];
    }
  }

  /** Different column positions have different names. */
  lemma ColumnNameInjective(a: nat, b: nat)
    requires a >= 1 && b >= 1 && ColumnName(a) == ColumnName(b)
    ensures a == b
  {
    NumberOfName(a);
    NumberOfName(b);
  }

  /** Columns 1..26 are the single letters A..Z. */
  lemma SingleLetterColumn(n: nat)
    requires 1 <= n <= 26
    ensures ColumnName(n) == [(64 + n) as char]
  {
  }

  /** mes_a_columna(m) for a month 1..12 is the column whose position is 3m. */
  lemma {:induction false} MonthColumnIsEveryThird(mes: int)
    requires 1 <= mes <= 12
    ensures MonthToColumn(mes) == Some(ColumnName(3 * mes))
  {
    if mes <= 8 {
      SingleLetterColumn(3 * mes);
    } else {
      var n := 3 * mes;
      assert (n - 1) / 26 == 1 && (n - 1) % 26 == n - 27;
      assert ColumnName(n) == ColumnName(1) + [(38 + n) as char];
      assert ColumnName(1) == "A";
      assert MonthColumns[mes - 1] == ['A', (38 + n) as char] by {
        if mes == 9 { assert (38 + n) as char == 'A'; }
        else if mes == 10 { assert (38 + n) as char == 'D'; }
        else if mes == 11 { assert (38 + n) as char == 'G'; }
        else { assert (38 + n) as char == 'J'; }
      }
      assert ColumnName(n) == ['A', (38 + n) as char];
      assert MonthToColumn(mes) == Some(MonthColumns[mes - 1]);
    }
  }

  /** Distinct months 1..12 go to distinct columns. */
  lemma MonthToColumnInjective(a: int, b: int)
    requires 1 <= a <= 12 && 1 <= b <= 12
    requires MonthToColumn(a) == MonthToColumn(b)
    ensures a == b
  {
    MonthColumnIsEveryThird(a);
    MonthColumnIsEveryThird(b);
    ColumnNameInjective(3 * a, 3 * b);
  }

  /** Python's negative indexing: month 0 reads the December column, -1 the
      November one, down to -11 for January. */
  lemma MonthToColumnAliases(mes: int)
    requires -11 <= mes <= 0
    ensures MonthToColumn(mes) == MonthToColumn(mes + 12)
  {
  }

  /** The length of the run of capital letters s starts with. */
  function LetterRun(s: string): (r: nat)
    ensures r <= |s|
    ensures r < |s| ==> !IsUpper(s[r])
  {
    if s != [] && IsUpper(s[0]) then 1 + LetterRun(s[1..]) else 0
  }

  /** The letters of an address are exactly its column. */
  lemma LetterRunOfAddress(c: CellRef)
    requires AllUpper(c.column)
    ensures LetterRun(Address(c)) == |c.column|
  {
    LetterRunOfPrefix(c.column, IntToString(c.row));
  }

  lemma {:induction false} LetterRunOfPrefix(x: string, rest: string)
    requires AllUpper(x) && rest != [] && !IsUpper(rest[0])
    ensures LetterRun(x + rest) == |x|
    decreases |x|
  {
    if x != [] {
      assert (x + rest)[1..] == x[1..] + rest;
      LetterRunOfPrefix(x[1..], rest);
    } else {
      assert x + rest == rest;
    }
  }

  /** Two cells with letter columns have the same text address only when they
      are the same cell, so keying a sheet by (column, row) loses nothing. */
  lemma AddressInjective(a: CellRef, b: CellRef)
    requires |a.column| > 0 && AllUpper(a.column)
    requires |b.column| > 0 && AllUpper(b.column)
    requires Address(a) == Address(b)
    ensures a == b
  {
    var x, y := Address(a), Address(b);
    var ra, rb := IntToString(a.row), IntToString(b.row);
    LetterRunOfAddress(a);
    LetterRunOfAddress(b);
    if |a.column| == |b.column| {
      assert a.column == x[..|a.column|] == y[..|b.column|] == b.column;
      assert ra == x[|a.column|..] == y[|b.column|..] == rb;
      IntToStringInjective(a.row, b.row);
    }
  }
}
