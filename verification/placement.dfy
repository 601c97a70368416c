/** Where the extracted values go in the workbook. Every script loops over the
    extracted dict and, for each code that has an entry (sheet, base cell) in
    its location table, computes a destination cell from the base cell and the
    month; it then assigns the code's value there. The three writers of the
    103/104 scripts differ only in that computation and all write into one
    named sheet, created when missing. The 103-form writer instead writes into
    the sheet each entry names and skips codes whose sheet does not exist. */
module Placement {
  import opened Wrappers
  import opened Text
  import opened Numerals
  import opened PyDict
  import opened Columns
  import opened Assignments

  /** An entry of the location table: the sheet it names and the base cell,
      such as ("103 VS ATS", "C10"). */
  datatype Location = Location(sheet: string, cell: string)

  type Sheet<V> = map<CellRef, V>

  /** Sheets by name. */
  type Workbook<V> = map<string, Sheet<V>>

  /** How the destination cell is computed from the base cell and the month.
      ByMonthColumn: the month's column (mes_a_columna), the base cell's row.
      ByMonthRow: the base cell's first character as column, row 11 + mes - 1.
      ByRowOffset: the base cell's first character as column, base row + mes - 1. */
  datatype Strategy = ByMonthColumn | ByMonthRow | ByRowOffset

  /** What raises inside the loop: int() on a row text that is not an
      integer, a month outside mes_a_columna's list, an empty base cell. */
  datatype PlaceError = BadRow(text: string) | MonthOutOfRange(mes: int) | EmptyCell

  /** cell[1:], which is "" for "". */
  function RowText(cell: string): (r: string)
    ensures cell != [] ==> cell == [cell[0]] + r
    ensures cell == [] ==> r == []
  {
    if cell == [] then [] else cell[1..]
  }

  /** The destination cell of one code, computed in the order the scripts
      compute it, so that the first thing to raise decides the error. */
  function Target(loc: Location, mes: int, strategy: Strategy): (r: Result<CellRef, PlaceError>)
    ensures strategy == ByMonthColumn ==>
      (r.Success? <==> ParseInt(RowText(loc.cell)).Some? && -11 <= mes <= 12)
    ensures strategy == ByMonthRow ==> (r.Success? <==> loc.cell != [])
    ensures strategy == ByRowOffset ==>
      (r.Success? <==> loc.cell != [] && ParseInt(RowText(loc.cell)).Some?)
    ensures r.Success? && strategy != ByMonthColumn ==> r.value.column == [loc.cell[0]]
    ensures r.Success? && strategy == ByMonthColumn ==> r.value.column in MonthColumns
    ensures r.Success? && strategy == ByMonthColumn ==>
      r.value == CellRef(MonthToColumn(mes).value, ParseInt(RowText(loc.cell)).value)
    ensures r.Success? && strategy == ByMonthRow ==> r.value.row == 10 + mes
    ensures r.Success? && strategy == ByRowOffset ==>
      r.value.row == ParseInt(RowText(loc.cell)).value + mes - 1
  {
    match strategy
    case ByMonthColumn =>
      var row := ParseInt(RowText(loc.cell));
      if row.None? then Failure(BadRow(RowText(loc.cell)))
      else
        var column := MonthToColumn(mes);
        if column.None? then Failure(MonthOutOfRange(mes))
        else Success(CellRef(column.value, row.value))
    case ByMonthRow =>
      var row := 11 + (mes - 1);
      if loc.cell == [] then Failure(EmptyCell)
      else Success(CellRef([loc.cell[0]], row))
    case ByRowOffset =>
      if loc.cell == [] then Failure(EmptyCell)
      else
        var row := ParseInt(RowText(loc.cell));
        if row.None? then Failure(BadRow(RowText(loc.cell)))
        else Success(CellRef([loc.cell[0]], row.value + (mes - 1)))
  }

  function StepOf(t: Result<CellRef, PlaceError>): Step<CellRef, PlaceError> {
    match t
    case Success(c) => Write(c)
    case Failure(e) => Fail(e)
  }

  /** `if indice in ubicaciones`: codes without an entry are skipped. */
  function Resolver(ubic: map<string, Location>, mes: int, strategy: Strategy): string -> Step<CellRef, PlaceError> {
    (k: string) => if k in ubic then StepOf(Target(ubic[k], mes, strategy)) else Skip
  }

  /** The sheet named name, or a new empty one. */
  function SheetOrNew<V>(wb: Workbook<V>, name: string): Sheet<V> {
    if name in wb then wb[name] else map[]
  }

  /** escribir_en_hoja, escribir_en_hoja_por_filas and
      escribir_en_hoja_por_ubicaciones: the named sheet is reused or created,
      then the loop runs over it. On a raise nothing is saved. */
  function Place<V>(wb: Workbook<V>, name: string, datos: Dict<V>, ubic: map<string, Location>, mes: int, strategy: Strategy): (r: Result<Workbook<V>, PlaceError>)
    requires datos.Valid()
    ensures r.Success? <==>
      forall k | k in datos.order && k in ubic :: Target(ubic[k], mes, strategy).Success?
    ensures r.Success? ==>
      r.value == wb[name := SheetOrNew(wb, name) + Writes(datos.order, datos.m, Resolver(ubic, mes, strategy))]
  {
    var resolve := Resolver(ubic, mes, strategy);
    ApplyOutcome(SheetOrNew(wb, name), datos.order, datos.m, resolve);
    match Apply(SheetOrNew(wb, name), datos.order, datos.m, resolve)
    case Success(s) => Success(wb[name := s])
    case Failure(e) => Failure(e)
  }

  // ---------------------------------------------------------------------
  // The placement loop

  /** Only the named sheet changes; it exists afterwards. */
  lemma PlaceTouchesNamedSheet<V>(wb: Workbook<V>, name: string, datos: Dict<V>, ubic: map<string, Location>, mes: int, strategy: Strategy)
    requires datos.Valid()
    requires Place(wb, name, datos, ubic, mes, strategy).Success?
    ensures Place(wb, name, datos, ubic, mes, strategy).value.Keys == wb.Keys + {name}
    ensures forall s | s in wb && s != name :: Place(wb, name, datos, ubic, mes, strategy).value[s] == wb[s]
  {
  }

  /** The named sheet after the loop is what the generic loop leaves in it. */
  lemma PlacedSheet<V>(wb: Workbook<V>, name: string, datos: Dict<V>, ubic: map<string, Location>, mes: int, strategy: Strategy)
    requires datos.Valid()
    requires Place(wb, name, datos, ubic, mes, strategy).Success?
    ensures Apply(SheetOrNew(wb, name), datos.order, datos.m, Resolver(ubic, mes, strategy)).Success?
    ensures Place(wb, name, datos, ubic, mes, strategy).value[name]
      == Apply(SheetOrNew(wb, name), datos.order, datos.m, Resolver(ubic, mes, strategy)).value
  {
  }

  /** The cells the loop writes are the destinations of the codes present
      both in the dict and in the location table. */
  lemma ResolverTargets(codes: seq<string>, ubic: map<string, Location>, mes: int, strategy: Strategy)
    requires forall k | k in codes && k in ubic :: Target(ubic[k], mes, strategy).Success?
    ensures Targets(codes, Resolver(ubic, mes, strategy))
      == set k | k in codes && k in ubic :: Target(ubic[k], mes, strategy).value
  {
    var resolve := Resolver(ubic, mes, strategy);
    var targets := set k | k in codes && k in ubic :: Target(ubic[k], mes, strategy).value;
    forall c | c in targets ensures c in Targets(codes, resolve) {
      var k :| k in codes && k in ubic && Target(ubic[k], mes, strategy).value == c;
      assert resolve(k).Write? && resolve(k).cell == c;
    }
  }

  /** Only codes present both in the dict and in the location table are
      written, each at its destination; every other cell of the sheet keeps
      its value. */
  lemma PlaceWritesSharedCodes<V>(wb: Workbook<V>, name: string, datos: Dict<V>, ubic: map<string, Location>, mes: int, strategy: Strategy)
    requires datos.Valid()
    requires Place(wb, name, datos, ubic, mes, strategy).Success?
    ensures var targets := set k | k in datos.order && k in ubic :: Target(ubic[k], mes, strategy).value;
      && Place(wb, name, datos, ubic, mes, strategy).value[name].Keys == SheetOrNew(wb, name).Keys + targets
      && forall c | c in SheetOrNew(wb, name) && c !in targets ::
           Place(wb, name, datos, ubic, mes, strategy).value[name][c] == SheetOrNew(wb, name)[c]
  {
    PlacedSheet(wb, name, datos, ubic, mes, strategy);
    ResolverTargets(datos.order, ubic, mes, strategy);
    ApplyCells(SheetOrNew(wb, name), datos.order, datos.m, Resolver(ubic, mes, strategy));
  }

  /** A cell two codes share keeps the later code's value: the last code
      resolved to a cell has an entry, the cell is its destination, and the
      cell holds its value. */
  lemma PlaceLastCodeWins<V>(wb: Workbook<V>, name: string, datos: Dict<V>, ubic: map<string, Location>, mes: int, strategy: Strategy)
    requires datos.Valid()
    requires Place(wb, name, datos, ubic, mes, strategy).Success?
    ensures forall c, i | IsLastWriter(datos.order, Resolver(ubic, mes, strategy), c, i) ::
      && datos.order[i] in ubic && Target(ubic[datos.order[i]], mes, strategy) == Success(c)
      && Place(wb, name, datos, ubic, mes, strategy).value[name][c] == datos.m[datos.order[i]]
  {
    PlacedSheet(wb, name, datos, ubic, mes, strategy);
    ApplyCells(SheetOrNew(wb, name), datos.order, datos.m, Resolver(ubic, mes, strategy));
  }

  /** Writing the same dict for the same month twice gives the same workbook
      as writing it once. */
  lemma PlaceIdempotent<V>(wb: Workbook<V>, name: string, datos: Dict<V>, ubic: map<string, Location>, mes: int, strategy: Strategy)
    requires datos.Valid()
    requires Place(wb, name, datos, ubic, mes, strategy).Success?
    ensures Place(Place(wb, name, datos, ubic, mes, strategy).value, name, datos, ubic, mes, strategy)
      == Place(wb, name, datos, ubic, mes, strategy)
  {
    var once := Place(wb, name, datos, ubic, mes, strategy).value;
    var w := Writes(datos.order, datos.m, Resolver(ubic, mes, strategy));
    var sheet := SheetOrNew(wb, name) + w;
    assert once == wb[name := sheet];
    assert SheetOrNew(once, name) == sheet;
    MergeTwice(SheetOrNew(wb, name), w);
    var twice := Place(once, name, datos, ubic, mes, strategy);
    assert twice.value == once[name := sheet];
    UpdateSame(wb, name, sheet);
  }

  /** A sheet that did not exist is created holding only the written cells. */
  lemma PlaceCreatesSheet<V>(wb: Workbook<V>, name: string, datos: Dict<V>, ubic: map<string, Location>, mes: int, strategy: Strategy)
    requires datos.Valid()
    requires Place(wb, name, datos, ubic, mes, strategy).Success?
    requires name !in wb
    ensures Place(wb, name, datos, ubic, mes, strategy).value[name] == Writes(datos.order, datos.m, Resolver(ubic, mes, strategy))
  {
    var w := Writes(datos.order, datos.m, Resolver(ubic, mes, strategy));
    assert SheetOrNew(wb, name) == map[];
    EmptyMerge(w);
  }

  lemma UpdateSame<K, V>(m: map<K, V>, k: K, v: V)
    ensures m[k := v][k := v] == m[k := v]
  {
  }

  lemma EmptyMerge<C, V>(w: map<C, V>)
    ensures map[] + w == w
  {
  }

  // ---------------------------------------------------------------------
  // The three destination rules

  /** ByMonthColumn: for a month 1..12 and a base cell made of one character
      and a row number, the destination is the column at position 3 * mes
      and the base row. */
  lemma MonthColumnTarget(ch: char, row: int, mes: int, sheet: string)
    requires 1 <= mes <= 12
    ensures Target(Location(sheet, [ch] + IntToString(row)), mes, ByMonthColumn)
      == Success(CellRef(ColumnName(3 * mes), row))
  {
    assert RowText([ch] + IntToString(row)) == IntToString(row);
    ParseIntRoundTrip(row);
    MonthColumnIsEveryThird(mes);
  }

  /** ByMonthColumn: for one code, different months 1..12 write different
      cells. */
  lemma MonthColumnTargetsDistinct(loc: Location, a: int, b: int)
    requires 1 <= a <= 12 && 1 <= b <= 12 && a != b
    requires Target(loc, a, ByMonthColumn).Success?
    ensures Target(loc, b, ByMonthColumn).Success?
    ensures Target(loc, a, ByMonthColumn).value != Target(loc, b, ByMonthColumn).value
  {
    if MonthToColumn(a) == MonthToColumn(b) {
      MonthToColumnInjective(a, b);
    }
  }

  /** ByMonthRow: months 1..12 go to rows 11..22 of the base cell's first
      column, a later month to a later row. */
  lemma MonthRowTarget(loc: Location, a: int, b: int)
    requires 1 <= a < b <= 12 && loc.cell != []
    ensures Target(loc, a, ByMonthRow).Success? && Target(loc, b, ByMonthRow).Success?
    ensures 11 <= Target(loc, a, ByMonthRow).value.row < Target(loc, b, ByMonthRow).value.row <= 22
    ensures Target(loc, a, ByMonthRow).value.row == 10 + a
    ensures Target(loc, a, ByMonthRow).value.column == Target(loc, b, ByMonthRow).value.column == [loc.cell[0]]
  {
  }

  /** ByRowOffset: with base cell ch + str(base), months 1..12 go to rows
      base..base + 11 of column ch, a later month to a later row. */
  lemma RowOffsetTarget(ch: char, base: int, sheet: string, a: int, b: int)
    requires 1 <= a < b <= 12
    ensures var loc := Location(sheet, [ch] + IntToString(base));
      && Target(loc, a, ByRowOffset).Success? && Target(loc, b, ByRowOffset).Success?
      && base <= Target(loc, a, ByRowOffset).value.row < Target(loc, b, ByRowOffset).value.row <= base + 11
      && Target(loc, a, ByRowOffset).value.row == base + a - 1
      && Target(loc, a, ByRowOffset).value.column == Target(loc, b, ByRowOffset).value.column == [ch]
  {
    assert RowText([ch] + IntToString(base)) == IntToString(base);
    ParseIntRoundTrip(base);
  }

  // ---------------------------------------------------------------------
  // escribir_en_plantilla

  /** One turn of the 103-form loop: the row and the month column are
      computed (and may raise) before the sheet is looked up; a code whose
      sheet is missing is skipped and no sheet is created. */
  function TemplateStep<V>(wb: Workbook<V>, k: string, v: V, ubic: map<string, Location>, mes: int): (r: Result<Workbook<V>, PlaceError>)
    ensures r.Success? ==> r.value.Keys == wb.Keys
  {
    if k !in ubic then Success(wb)
    else
      match Target(ubic[k], mes, ByMonthColumn)
      case Failure(e) => Failure(e)
      case Success(c) =>
        var name := ubic[k].sheet;
        if name in wb then Success(wb[name := wb[name][c := v]]) else Success(wb)
  }

  /** The 103-form loop over the codes in dict order. */
  function WriteTemplate<V>(wb: Workbook<V>, codes: seq<string>, values: map<string, V>, ubic: map<string, Location>, mes: int): (r: Result<Workbook<V>, PlaceError>)
    requires forall k | k in codes :: k in values
    ensures r.Success? ==> r.value.Keys == wb.Keys
    decreases |codes|
  {
    if codes == [] then Success(wb)
    else
      var k := codes[|codes| - 1];
      match WriteTemplate(wb, codes[..|codes| - 1], values, ubic, mes)
      case Failure(e) => Failure(e)
      case Success(w) => TemplateStep(w, k, values[k], ubic, mes)
  }

  /** escribir_en_plantilla */
  function PlaceInTemplate<V>(wb: Workbook<V>, datos: Dict<V>, ubic: map<string, Location>, mes: int): (r: Result<Workbook<V>, PlaceError>)
    requires datos.Valid()
    ensures r.Success? ==> r.value.Keys == wb.Keys
  {
    WriteTemplate(wb, datos.order, datos.m, ubic, mes)
  }

  /** The codes whose entry names sheet s, resolved as the 103-form writer
      resolves them. */
  function SheetResolver(ubic: map<string, Location>, mes: int, s: string): string -> Step<CellRef, PlaceError> {
    (k: string) => if k in ubic && ubic[k].sheet == s then StepOf(Target(ubic[k], mes, ByMonthColumn)) else Skip
  }

  /** The 103-form loop raises exactly when some code with an entry has a bad
      row or the month is out of range, whether or not the entry's sheet
      exists. */
  lemma {:induction false} TemplateSucceeds<V>(wb: Workbook<V>, codes: seq<string>, values: map<string, V>, ubic: map<string, Location>, mes: int)
    requires forall k | k in codes :: k in values
    ensures WriteTemplate(wb, codes, values, ubic, mes).Success? <==>
      forall k | k in codes && k in ubic :: Target(ubic[k], mes, ByMonthColumn).Success?
    decreases |codes|
  {
    if codes != [] {
      var prefix := codes[..|codes| - 1];
      var k := codes[|codes| - 1];
      assert codes == prefix + [k];
      TemplateSucceeds(wb, prefix, values, ubic, mes);
    }
  }

  /** One turn of the 103-form loop keeps the sheet-by-sheet picture: the
      code's value lands in the sheet its entry names, if that sheet exists. */
  lemma TemplateStepPerSheet<V>(wb: Workbook<V>, w: Workbook<V>, prefix: seq<string>, k: string, values: map<string, V>, ubic: map<string, Location>, mes: int)
    requires forall x | x in prefix + [k] :: x in values
    requires w.Keys == wb.Keys
    requires forall s | s in wb :: w[s] == wb[s] + Writes(prefix, values, SheetResolver(ubic, mes, s))
    requires TemplateStep(w, k, values[k], ubic, mes).Success?
    ensures forall s | s in wb ::
      TemplateStep(w, k, values[k], ubic, mes).value[s] == wb[s] + Writes(prefix + [k], values, SheetResolver(ubic, mes, s))
  {
    var after := TemplateStep(w, k, values[k], ubic, mes).value;
    forall s | s in wb
      ensures after[s] == wb[s] + Writes(prefix + [k], values, SheetResolver(ubic, mes, s))
    {
      var resolve := SheetResolver(ubic, mes, s);
      WritesSnoc(prefix, k, values, resolve);
      if resolve(k).Write? {
        MergeUpdate(wb[s], Writes(prefix, values, resolve), resolve(k).cell, values[k]);
      }
    }
  }

  /** The 103-form loop, sheet by sheet: each existing sheet receives exactly
      the codes whose entry names it, and no sheet is added. */
  lemma {:induction false} TemplatePerSheet<V>(wb: Workbook<V>, codes: seq<string>, values: map<string, V>, ubic: map<string, Location>, mes: int)
    requires forall k | k in codes :: k in values
    requires WriteTemplate(wb, codes, values, ubic, mes).Success?
    ensures forall s | s in wb ::
      WriteTemplate(wb, codes, values, ubic, mes).value[s] == wb[s] + Writes(codes, values, SheetResolver(ubic, mes, s))
    decreases |codes|
  {
    if codes == [] {
      forall s | s in wb ensures wb[s] == wb[s] + Writes(codes, values, SheetResolver(ubic, mes, s)) {
        EmptyMerge(wb[s]);
      }
    } else {
      var prefix := codes[..|codes| - 1];
      var k := codes[|codes| - 1];
      assert codes == prefix + [k];
      TemplatePerSheet(wb, prefix, values, ubic, mes);
      var before := WriteTemplate(wb, prefix, values, ubic, mes).value;
      TemplateStepPerSheet(wb, before, prefix, k, values, ubic, mes);
    }
  }

  /** Codes whose entries all name other sheets write nothing into s. */
  lemma NoWritesIntoSheet<V>(codes: seq<string>, values: map<string, V>, ubic: map<string, Location>, mes: int, s: string)
    requires forall k | k in codes :: k in values
    requires forall k | k in codes && k in ubic :: ubic[k].sheet != s
    ensures Writes(codes, values, SheetResolver(ubic, mes, s)) == map[]
  {
    assert Targets(codes, SheetResolver(ubic, mes, s)) == {};
  }

  /** A sheet no entry names is left as it was. */
  lemma TemplateUntouchedSheet<V>(wb: Workbook<V>, datos: Dict<V>, ubic: map<string, Location>, mes: int, s: string)
    requires datos.Valid()
    requires PlaceInTemplate(wb, datos, ubic, mes).Success?
    requires s in wb
    requires forall k | k in datos.order && k in ubic :: ubic[k].sheet != s
    ensures PlaceInTemplate(wb, datos, ubic, mes).value[s] == wb[s]
  {
    TemplatePerSheet(wb, datos.order, datos.m, ubic, mes);
    NoWritesIntoSheet(datos.order, datos.m, ubic, mes, s);
    assert wb[s] + map[] == wb[s];
  }

  /** In an existing sheet, a code whose entry names that sheet and that is
      the last one written to its destination leaves its value there. */
  lemma TemplateWritesNamedSheet<V>(wb: Workbook<V>, datos: Dict<V>, ubic: map<string, Location>, mes: int, s: string, c: CellRef, i: int)
    requires datos.Valid()
    requires PlaceInTemplate(wb, datos, ubic, mes).Success?
    requires s in wb
    requires IsLastWriter(datos.order, SheetResolver(ubic, mes, s), c, i)
    ensures datos.order[i] in ubic && ubic[datos.order[i]].sheet == s
    ensures Target(ubic[datos.order[i]], mes, ByMonthColumn) == Success(c)
    ensures c in PlaceInTemplate(wb, datos, ubic, mes).value[s]
    ensures PlaceInTemplate(wb, datos, ubic, mes).value[s][c] == datos.m[datos.order[i]]
  {
    var resolve := SheetResolver(ubic, mes, s);
    TemplatePerSheet(wb, datos.order, datos.m, ubic, mes);
    WritesLastWriter(datos.order, datos.m, resolve, c, i);
    var k := datos.order[i];
    assert resolve(k) == Write(c);
    var w := Writes(datos.order, datos.m, resolve);
    assert PlaceInTemplate(wb, datos, ubic, mes).value[s] == wb[s] + w;
    assert c in w && w[c] == datos.m[k];
  }
}
