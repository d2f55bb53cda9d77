/**
 * The journal generated from a sheet (`generate`): the decision taken for each row, the run
 * over all rows that numbers the lines, collects the account ids used and logs the skipped rows,
 * the header, the account descriptors, and the whole outcome of one generation.
 */
module Journal {
  import opened Wrappers
  import opened Text
  import opened Konto
  import opened Amount
  import opened Columns
  import opened Directory
  import opened Ledger
  import opened Sorting

  /** A cell read as text; `None` is a blank cell (a missing value in the sheet). */
  type Cell = Option<string>

  /** One sheet row: its index label and its cells by column name. */
  datatype Row = Row(index: int, cells: map<string, Cell>)

  /** The loaded sheet: its column headers in order and its rows. */
  datatype Frame = Frame(columns: seq<string>, rows: seq<Row>)

  /** `row.get(col, default)`. */
  function Get(row: Row, col: string, default: Cell): Cell {
    if col in row.cells then row.cells[col] else default
  }

  /** `str(x)` of a cell: a blank cell reads as "nan". */
  function CellText(c: Cell): (t: string)
    ensures c.Some? ==> t == c.value
    ensures c == None ==> t == "nan"
  {
    if c.Some? then c.value else "nan"
  }

  /** `'' if pd.isna(x) else str(x).strip()`. */
  function TextCell(c: Cell): (t: string)
    ensures c == None ==> t == ""
    ensures c.Some? ==> t == Strip(c.value)
    ensures t == [] || (!IsSpace(t[0]) && !IsSpace(t[|t| - 1]))
  {
    if c.Some? then Strip(c.value) else ""
  }

  /** `parse_date_to_iso_tz`: the date parser is a parameter; blank cells and unparsed text give `None`. */
  function DateCell(c: Cell, parseDate: string -> Option<Date>): (r: Option<string>)
    ensures c == None ==> r == None
    ensures r.Some? ==> exists d :: parseDate(c.value) == Some(d) && r.value == IsoMidnight(d)
    ensures c.Some? && parseDate(c.value).Some? ==> r == Some(IsoMidnight(parseDate(c.value).value))
  {
    if c.Some? && parseDate(c.value).Some? then Some(IsoMidnight(parseDate(c.value).value)) else None
  }

  /** An amount is written only when it parsed and is not zero (`x and float(x) != 0.0`). */
  function Kept(a: Option<string>): (r: Option<string>)
    ensures r.Some? <==> a.Some? && NonzeroAmount(a.value)
    ensures r.Some? ==> r == a
  {
    if a.Some? && NonzeroAmount(a.value) then a else None
  }

  /** The sheet columns the run reads, taken from the column mapping. */
  datatype Cols = Cols(konto: string, datum: string, dokument: string, duguje: string, potrazuje: string, opis: string)

  /** True when every required field has a column. */
  predicate Complete(mapping: map<string, string>) {
    forall f :: f in MainRequired ==> f in mapping
  }

  function ColsOf(mapping: map<string, string>): Cols
    requires Complete(mapping)
  {
    assert MainRequired[0] == "konto" && MainRequired[1] == "duguje" && MainRequired[2] == "potražuje";
    assert MainRequired[4] == "dokument" && MainRequired[5] == "datum promene" && MainRequired[6] == "opis";
    Cols(mapping["konto"], mapping["datum promene"], mapping["dokument"], mapping["duguje"], mapping["potražuje"], mapping["opis"])
  }

  /** With nothing missing, every required field is mapped. */
  lemma NothingMissingComplete(index: map<string, string>)
    requires MissingOf(index, MainRequired) == []
    ensures Complete(MappingOf(index, MainRequired))
  {
    forall f | f in MainRequired
      ensures f in MappingOf(index, MainRequired)
    {
      Partition(index, MainRequired, f);
    }
  }

  /** Why a row was skipped; the log writes 'konto empty', 'konto not in map' and 'zero amounts'. */
  datatype Reason = KontoEmpty | KontoNotInMap | ZeroAmounts

  /** The status every record of the debug log carries. */
  const SkipStatus: string := "SKIP"

  /** One record of the debug log: sheet row number, status, reason, raw and normalised account. */
  datatype DebugRow = DebugRow(row: int, status: string, reason: Reason, kontoRaw: string, kontoNorm: string)

  /**
   * What one row contributes: a skip (logged, and for a zero-amount row also an account id
   * used), or a line with its account id and the fields it writes.
   */
  datatype Verdict =
    | Skip(rec: DebugRow, used: Option<int>)
    | Emit(kid: int, date: Option<string>, document: string, duguje: Option<string>, potrazuje: Option<string>, opis: string)

  /** The account code of a row: `norm_konto` of the konto cell, "" when the column is absent. */
  function RowKonto(row: Row, cols: Cols): (code: string)
    ensures IsCode(code)
  {
    NormalizedKonto(Some(CellText(Get(row, cols.konto, Some("")))))
  }

  /** The amounts of a row that are written, debit then credit. */
  function RowDuguje(row: Row, cols: Cols): Option<string> {
    Kept(ParseAmount(Get(row, cols.duguje, None)))
  }

  function RowPotrazuje(row: Row, cols: Cols): Option<string> {
    Kept(ParseAmount(Get(row, cols.potrazuje, None)))
  }

  /** The body of the row loop: the checks in the order the code makes them. */
  function Decide(row: Row, cols: Cols, kmap: map<string, int>, parseDate: string -> Option<Date>): (v: Verdict)
    ensures v.Skip? ==> v.rec.status == SkipStatus && v.rec.row == row.index + 2 && v.rec.kontoNorm == RowKonto(row, cols)
    ensures v.Skip? && v.rec.reason == KontoEmpty <==> RowKonto(row, cols) == ""
    ensures v.Skip? && v.rec.reason == KontoNotInMap <==> RowKonto(row, cols) != "" && RowKonto(row, cols) !in kmap
    ensures v.Skip? ==> (v.used.Some? <==> v.rec.reason == ZeroAmounts)
    ensures KidOf(v).Some? <==> RowKonto(row, cols) != "" && RowKonto(row, cols) in kmap
    ensures KidOf(v).Some? ==> KidOf(v).value == kmap[RowKonto(row, cols)]
    ensures v.Emit? ==> (v.duguje.Some? || v.potrazuje.Some?) && v.duguje == RowDuguje(row, cols) && v.potrazuje == RowPotrazuje(row, cols)
    ensures v.Skip? && v.rec.reason == ZeroAmounts ==> RowDuguje(row, cols) == None && RowPotrazuje(row, cols) == None
  {
    var raw := CellText(Get(row, cols.konto, Some("")));
    var code := RowKonto(row, cols);
    var num := row.index + 2;
    if code == "" then Skip(DebugRow(num, SkipStatus, KontoEmpty, raw, code), None)
    else if code !in kmap then Skip(DebugRow(num, SkipStatus, KontoNotInMap, raw, code), None)
    else
      var du, po := RowDuguje(row, cols), RowPotrazuje(row, cols);
      if du == None && po == None then Skip(DebugRow(num, SkipStatus, ZeroAmounts, raw, code), Some(kmap[code]))
      else Emit(kmap[code], DateCell(Get(row, cols.datum, None), parseDate), TextCell(Get(row, cols.dokument, None)),
                du, po, TextCell(Get(row, cols.opis, None)))
  }

  /** A row whose account is known and which carries an amount becomes a line. */
  lemma DecideEmits(row: Row, cols: Cols, kmap: map<string, int>, parseDate: string -> Option<Date>)
    requires RowKonto(row, cols) != "" && RowKonto(row, cols) in kmap
    requires RowDuguje(row, cols).Some? || RowPotrazuje(row, cols).Some?
    ensures Decide(row, cols, kmap, parseDate)
      == Emit(kmap[RowKonto(row, cols)], DateCell(Get(row, cols.datum, None), parseDate), TextCell(Get(row, cols.dokument, None)),
              RowDuguje(row, cols), RowPotrazuje(row, cols), TextCell(Get(row, cols.opis, None)))
  {
  }

  /** The verdict of every row, in sheet order. */
  function Verdicts(rows: seq<Row>, cols: Cols, kmap: map<string, int>, parseDate: string -> Option<Date>): (vs: seq<Verdict>)
    ensures |vs| == |rows| && forall i :: 0 <= i < |rows| ==> vs[i] == Decide(rows[i], cols, kmap, parseDate)
  {
    seq(|rows|, i requires 0 <= i < |rows| => Decide(rows[i], cols, kmap, parseDate))
  }

  /** The state of the row loop: next line number, ids used, rows not in the map, lines, log. */
  datatype RunState = RunState(rb: int, usedKids: set<int>, notInMap: nat, items: seq<Item>, log: seq<DebugRow>)

  /** The state before the first row. */
  const Start: RunState := RunState(1, {}, 0, [], [])

  /** The account id a verdict uses: zero-amount rows use theirs too. */
  function KidOf(v: Verdict): Option<int> {
    if v.Emit? then Some(v.kid) else v.used
  }

  /** The line an emitting verdict writes as line `rb`. */
  function ItemOf(rb: int, v: Verdict): Item
    requires v.Emit?
  {
    Item(rb, v.kid, v.date, v.document, v.duguje, v.potrazuje, v.opis)
  }

  /** One row of the loop. */
  function Step(st: RunState, v: Verdict): RunState {
    match v
    case Skip(rec, kid) =>
      RunState(st.rb, if kid.Some? then st.usedKids + {kid.value} else st.usedKids,
               if rec.reason == KontoNotInMap then st.notInMap + 1 else st.notInMap, st.items, st.log + [rec])
    case Emit(kid, _, _, _, _, _) =>
      RunState(st.rb + 1, st.usedKids + {kid}, st.notInMap, st.items + [ItemOf(st.rb, v)], st.log)
  }

  /**
   * A step adds exactly one line or one record, keeps what came before, numbers lines
   * consecutively, uses the row's account id and counts a missing account only with its record.
   */
  lemma StepGrows(st: RunState, v: Verdict)
    ensures var r := Step(st, v);
      && st.items <= r.items && st.log <= r.log && st.usedKids <= r.usedKids
      && |r.items| + |r.log| == |st.items| + |st.log| + 1
      && r.rb - |r.items| == st.rb - |st.items|
      && st.notInMap <= r.notInMap && r.notInMap - st.notInMap <= |r.log| - |st.log|
      && (KidOf(v).Some? ==> KidOf(v).value in r.usedKids)
  {
  }

  lemma StepEmit(st: RunState, v: Verdict)
    requires v.Emit?
    ensures Step(st, v) == RunState(st.rb + 1, st.usedKids + {v.kid}, st.notInMap, st.items + [ItemOf(st.rb, v)], st.log)
  {
  }

  /** The line a row with a known account writes as line `rb`. */
  function RowItem(row: Row, cols: Cols, parseDate: string -> Option<Date>, rb: int, kid: int): Item {
    Item(rb, kid, DateCell(Get(row, cols.datum, None), parseDate), TextCell(Get(row, cols.dokument, None)),
         RowDuguje(row, cols), RowPotrazuje(row, cols), TextCell(Get(row, cols.opis, None)))
  }

  /** A row whose account is in the map and which keeps an amount uses the account and writes line `rb`. */
  lemma StepLine(st: RunState, row: Row, cols: Cols, kmap: map<string, int>, parseDate: string -> Option<Date>)
    requires RowKonto(row, cols) != "" && RowKonto(row, cols) in kmap
    requires RowDuguje(row, cols).Some? || RowPotrazuje(row, cols).Some?
    ensures var kid := kmap[RowKonto(row, cols)];
      Step(st, Decide(row, cols, kmap, parseDate))
      == RunState(st.rb + 1, st.usedKids + {kid}, st.notInMap, st.items + [RowItem(row, cols, parseDate, st.rb, kid)], st.log)
  {
    DecideEmits(row, cols, kmap, parseDate);
    StepEmit(st, Decide(row, cols, kmap, parseDate));
  }

  /** A row whose account is in the map but whose amounts are both dropped still uses the account, and is logged. */
  lemma StepZero(st: RunState, row: Row, cols: Cols, kmap: map<string, int>, parseDate: string -> Option<Date>)
    requires RowKonto(row, cols) != "" && RowKonto(row, cols) in kmap
    requires RowDuguje(row, cols) == None && RowPotrazuje(row, cols) == None
    ensures Step(st, Decide(row, cols, kmap, parseDate))
      == RunState(st.rb, st.usedKids + {kmap[RowKonto(row, cols)]}, st.notInMap, st.items,
                  st.log + [DebugRow(row.index + 2, SkipStatus, ZeroAmounts, CellText(Get(row, cols.konto, Some(""))), RowKonto(row, cols))])
  {
  }

  /** A row whose account is empty is logged and changes nothing else. */
  lemma StepEmpty(st: RunState, row: Row, cols: Cols, kmap: map<string, int>, parseDate: string -> Option<Date>)
    requires RowKonto(row, cols) == ""
    ensures Step(st, Decide(row, cols, kmap, parseDate))
      == RunState(st.rb, st.usedKids, st.notInMap, st.items,
                  st.log + [DebugRow(row.index + 2, SkipStatus, KontoEmpty, CellText(Get(row, cols.konto, Some(""))), "")])
  {
  }

  /** A row whose account is not in the map is logged and counted. */
  lemma StepNotInMap(st: RunState, row: Row, cols: Cols, kmap: map<string, int>, parseDate: string -> Option<Date>)
    requires RowKonto(row, cols) != "" && RowKonto(row, cols) !in kmap
    ensures Step(st, Decide(row, cols, kmap, parseDate))
      == RunState(st.rb, st.usedKids, st.notInMap + 1, st.items,
                  st.log + [DebugRow(row.index + 2, SkipStatus, KontoNotInMap, CellText(Get(row, cols.konto, Some(""))), RowKonto(row, cols))])
  {
    var rec := DebugRow(row.index + 2, SkipStatus, KontoNotInMap, CellText(Get(row, cols.konto, Some(""))), RowKonto(row, cols));
    SkipStep(st, Decide(row, cols, kmap, parseDate), rec);
  }

  /** A skipped row without an account id appends its record and counts it when it is not in the map. */
  lemma SkipStep(st: RunState, v: Verdict, rec: DebugRow)
    requires v == Skip(rec, None)
    ensures Step(st, v) == RunState(st.rb, st.usedKids, if rec.reason == KontoNotInMap then st.notInMap + 1 else st.notInMap,
                                    st.items, st.log + [rec])
  {
  }

  /**
   * The loop over the verdicts, in order: every row becomes exactly one line or one record, `rb`
   * is the number of lines plus one, and the 'konto not in map' counter never exceeds the records.
   */
  function Run(vs: seq<Verdict>): (r: RunState)
    ensures |r.items| + |r.log| == |vs|
    ensures r.rb == |r.items| + 1
    ensures r.notInMap <= |r.log|
  {
    if vs == [] then Start
    else
      var st := Run(vs[..|vs| - 1]);
      StepGrows(st, vs[|vs| - 1]);
      Step(st, vs[|vs| - 1])
  }

  /** Running one more verdict is one more step. */
  lemma RunOneMore(vs: seq<Verdict>, i: nat)
    requires i < |vs|
    ensures Run(vs[..i + 1]) == Step(Run(vs[..i]), vs[i])
  {
    assert vs[..i + 1][..i] == vs[..i];
  }

  // Independent descriptions of what the run produces.

  /** The records of the skipped verdicts, in order. */
  function Records(vs: seq<Verdict>): (r: seq<DebugRow>)
    ensures |r| <= |vs|
  {
    if vs == [] then []
    else Records(vs[..|vs| - 1]) + (if vs[|vs| - 1].Skip? then [vs[|vs| - 1].rec] else [])
  }

  /** The emitting verdicts, in order. */
  function Emitted(vs: seq<Verdict>): (r: seq<Verdict>)
    ensures |r| <= |vs| && forall i :: 0 <= i < |r| ==> r[i].Emit?
  {
    if vs == [] then []
    else Emitted(vs[..|vs| - 1]) + (if vs[|vs| - 1].Emit? then [vs[|vs| - 1]] else [])
  }

  /** Lines numbered 1, 2, ... in the order of the emitting verdicts. */
  function Numbered(es: seq<Verdict>): (r: seq<Item>)
    requires forall i :: 0 <= i < |es| ==> es[i].Emit?
    ensures |r| == |es| && forall i :: 0 <= i < |es| ==> r[i] == ItemOf(i + 1, es[i])
  {
    seq(|es|, i requires 0 <= i < |es| => ItemOf(i + 1, es[i]))
  }

  /** True when some verdict uses the id `k`. */
  predicate UsesKid(vs: seq<Verdict>, k: int) {
    exists i :: 0 <= i < |vs| && KidOf(vs[i]) == Some(k)
  }

  /** How many records carry the given reason. */
  function CountReason(log: seq<DebugRow>, r: Reason): (n: nat)
    ensures n <= |log|
  {
    if log == [] then 0
    else CountReason(log[..|log| - 1], r) + (if log[|log| - 1].reason == r then 1 else 0)
  }

  /**
   * The run, described without the loop: the log is the skipped rows' records in order, the lines
   * are the emitting rows numbered from 1, the ids are those of every row that reached the map,
   * the counter is the number of 'konto not in map' records, and `rb` is one past the last line.
   */
  lemma {:induction false} RunDescribed(vs: seq<Verdict>)
    ensures var st := Run(vs);
      && st.log == Records(vs)
      && st.items == Numbered(Emitted(vs))
      && st.rb == |Emitted(vs)| + 1
      && (forall k :: k in st.usedKids <==> UsesKid(vs, k))
      && st.notInMap == CountReason(Records(vs), KontoNotInMap)
  {
    RunLinesAndLog(vs);
    RunKids(vs);
  }

  /** The lines, the log, `rb` and the counter after the loop. */
  lemma {:induction false} RunLinesAndLog(vs: seq<Verdict>)
    ensures var st := Run(vs);
      && st.log == Records(vs)
      && st.items == Numbered(Emitted(vs))
      && st.rb == |Emitted(vs)| + 1
      && st.notInMap == CountReason(Records(vs), KontoNotInMap)
  {
    if vs != [] {
      var n := |vs|;
      var init, v := vs[..n - 1], vs[n - 1];
      RunLinesAndLog(init);
      var e0 := Emitted(init);
      assert Run(vs) == Step(Run(init), v);
      if v.Emit? {
        assert Emitted(vs) == e0 + [v];
        NumberedSnoc(e0, v);
      } else {
        assert Emitted(vs) == e0;
        assert Records(vs) == Records(init) + [v.rec];
        assert Records(vs)[..|Records(vs)| - 1] == Records(init);
      }
    }
  }

  /** The ids used after the loop are those of the rows that reached the map. */
  lemma {:induction false} RunKids(vs: seq<Verdict>)
    ensures forall k :: k in Run(vs).usedKids <==> UsesKid(vs, k)
  {
    if vs != [] {
      var n := |vs|;
      var init, v := vs[..n - 1], vs[n - 1];
      RunKids(init);
      assert Run(vs) == Step(Run(init), v);
      assert vs == init + [v];
      forall k
        ensures UsesKid(vs, k) <==> UsesKid(init, k) || KidOf(v) == Some(k)
      {
        UsesKidSnoc(init, v, k);
      }
    }
  }

  lemma NumberedSnoc(es: seq<Verdict>, v: Verdict)
    requires forall i :: 0 <= i < |es| ==> es[i].Emit?
    requires v.Emit?
    ensures Numbered(es + [v]) == Numbered(es) + [ItemOf(|es| + 1, v)]
  {
    var x, y := Numbered(es + [v]), Numbered(es) + [ItemOf(|es| + 1, v)];
    forall i | 0 <= i < |x|
      ensures x[i] == y[i]
    {
      if i < |es| {
        assert (es + [v])[i] == es[i];
      }
    }
  }

  lemma UsesKidSnoc(vs: seq<Verdict>, v: Verdict, k: int)
    ensures UsesKid(vs + [v], k) <==> UsesKid(vs, k) || KidOf(v) == Some(k)
  {
    var w := vs + [v];
    if UsesKid(w, k) {
      var i :| 0 <= i < |w| && KidOf(w[i]) == Some(k);
      if i < |vs| {
        assert w[i] == vs[i];
      }
    }
    if UsesKid(vs, k) {
      var i :| 0 <= i < |vs| && KidOf(vs[i]) == Some(k);
      assert w[i] == vs[i];
    }
    if KidOf(v) == Some(k) {
      assert w[|vs|] == v;
    }
  }

  /** Lines are numbered 1, 2, ... without gaps. */
  lemma LinesNumbered(vs: seq<Verdict>)
    ensures forall i :: 0 <= i < |Run(vs).items| ==> Run(vs).items[i].rb == i + 1
  {
    RunDescribed(vs);
  }

  /** A verdict the row loop can produce: records say SKIP, lines carry a nonzero amount. */
  predicate Sound(v: Verdict) {
    match v
    case Skip(rec, _) => rec.status == SkipStatus
    case Emit(_, _, _, du, po, _) =>
      (du.Some? || po.Some?) && (du.Some? ==> NonzeroAmount(du.value)) && (po.Some? ==> NonzeroAmount(po.value))
  }

  lemma DecideSound(row: Row, cols: Cols, kmap: map<string, int>, parseDate: string -> Option<Date>)
    ensures Sound(Decide(row, cols, kmap, parseDate))
  {
  }

  /** Every line written has a nonzero amount, and every record of the log says SKIP. */
  lemma {:induction false} RunSound(vs: seq<Verdict>)
    requires forall i :: 0 <= i < |vs| ==> Sound(vs[i])
    ensures forall it :: it in Run(vs).items ==> it.duguje.Some? || it.potrazuje.Some?
    ensures forall it :: it in Run(vs).items ==>
      (it.duguje.Some? ==> NonzeroAmount(it.duguje.value)) && (it.potrazuje.Some? ==> NonzeroAmount(it.potrazuje.value))
    ensures forall r :: r in Run(vs).log ==> r.status == SkipStatus
  {
    if vs != [] {
      var n := |vs|;
      RunSound(vs[..n - 1]);
      assert Sound(vs[n - 1]);
    }
  }

  /** The id of every line is among the ids used. */
  lemma {:induction false} LineKidsUsed(vs: seq<Verdict>)
    ensures forall it :: it in Run(vs).items ==> it.kontoId in Run(vs).usedKids
  {
    if vs != [] {
      LineKidsUsed(vs[..|vs| - 1]);
    }
  }

  /** A zero-amount row of an account uses the account without writing a line. */
  lemma ZeroAmountUsesAccount(st: RunState, rec: DebugRow, kid: int)
    requires rec.reason == ZeroAmounts
    ensures var st' := Step(st, Skip(rec, Some(kid)));
      kid in st'.usedKids && st'.items == st.items && st'.rb == st.rb && st'.log == st.log + [rec]
  {
  }

  /** One generated descriptor per id: `konta_meta.get(kid, {'Broj': '', 'Naziv': ''})`. */
  function BlockOf(kid: int, meta: map<int, KontoMeta>): (b: KontoBlock)
    ensures b.id == kid
    ensures kid in meta ==> b.broj == meta[kid].broj && b.naziv == meta[kid].naziv
    ensures kid !in meta ==> b.broj == "" && b.naziv == ""
  {
    if kid in meta then KontoBlock(kid, meta[kid].broj, meta[kid].naziv) else KontoBlock(kid, "", "")
  }

  /** The descriptors, in ascending order of id. */
  function Blocks(used: set<int>, meta: map<int, KontoMeta>): (bs: seq<KontoBlock>)
    ensures |bs| == |used|
    ensures forall i :: 0 <= i < |bs| ==> bs[i] == BlockOf(SortedIds(used)[i], meta)
  {
    var ids := SortedIds(used);
    seq(|ids|, i requires 0 <= i < |ids| => BlockOf(ids[i], meta))
  }

  /** The descriptors cover exactly the ids used, once each, in strictly ascending order. */
  lemma BlocksCover(used: set<int>, meta: map<int, KontoMeta>)
    ensures var bs := Blocks(used, meta);
      && (forall i, j :: 0 <= i < j < |bs| ==> bs[i].id < bs[j].id)
      && (forall k :: k in used <==> exists i :: 0 <= i < |bs| && bs[i].id == k)
  {
    var bs, ids := Blocks(used, meta), SortedIds(used);
    forall k | k in used
      ensures exists i :: 0 <= i < |bs| && bs[i].id == k
    {
      var i :| 0 <= i < |ids| && ids[i] == k;
      assert bs[i].id == k;
    }
  }

  /** Row `i` is the first whose date cell parses. */
  predicate FirstDateAt(rows: seq<Row>, col: string, parseDate: string -> Option<Date>, i: int) {
    && 0 <= i < |rows| && DateCell(Get(rows[i], col, None), parseDate).Some?
    && forall j :: 0 <= j < i ==> DateCell(Get(rows[j], col, None), parseDate).None?
  }

  /** The first date parsed from the cells of the date column, in row order. */
  function FirstDate(rows: seq<Row>, col: string, parseDate: string -> Option<Date>): (r: Option<string>)
    ensures r.Some? ==> |r.value| >= 15 && r.value[|r.value| - 15..] == MidnightSuffix
  {
    if rows == [] then None
    else Or(DateCell(Get(rows[0], col, None), parseDate), FirstDate(rows[1..], col, parseDate))
  }

  /** No date is found exactly when no date cell parses. */
  lemma {:induction false} FirstDateNone(rows: seq<Row>, col: string, parseDate: string -> Option<Date>)
    ensures FirstDate(rows, col, parseDate).None? <==> forall i :: 0 <= i < |rows| ==> DateCell(Get(rows[i], col, None), parseDate).None?
  {
    if rows != [] {
      FirstDateNone(rows[1..], col, parseDate);
      assert forall i :: 0 < i < |rows| ==> rows[i] == rows[1..][i - 1];
    }
  }

  /** A date found is the date of the first row whose date cell parses. */
  lemma {:induction false} FirstDateIndex(rows: seq<Row>, col: string, parseDate: string -> Option<Date>) returns (i: nat)
    requires FirstDate(rows, col, parseDate).Some?
    ensures FirstDateAt(rows, col, parseDate, i) && FirstDate(rows, col, parseDate) == DateCell(Get(rows[i], col, None), parseDate)
  {
    if DateCell(Get(rows[0], col, None), parseDate).Some? {
      i := 0;
    } else {
      var j := FirstDateIndex(rows[1..], col, parseDate);
      i := j + 1;
      assert rows[i] == rows[1..][j];
      forall k | 0 <= k < i
        ensures DateCell(Get(rows[k], col, None), parseDate).None?
      {
        if k > 0 {
          assert rows[k] == rows[1..][k - 1];
        }
      }
    }
  }

  /** The journal date: the first date in the date column, else today at midnight. */
  function HeaderDate(rows: seq<Row>, col: string, parseDate: string -> Option<Date>, now: Date): (r: string)
    ensures |r| >= 15 && r[|r| - 15..] == MidnightSuffix
  {
    var first := FirstDate(rows, col, parseDate);
    if first.Some? then first.value else IsoMidnight(now)
  }

  /** The journal date is the date of the first row whose date cell parses. */
  lemma HeaderDateFirst(rows: seq<Row>, col: string, parseDate: string -> Option<Date>, now: Date, i: int)
    requires FirstDateAt(rows, col, parseDate, i)
    ensures HeaderDate(rows, col, parseDate, now) == DateCell(Get(rows[i], col, None), parseDate).value
  {
    FirstDateNone(rows, col, parseDate);
    var j := FirstDateIndex(rows, col, parseDate);
    assert !(i < j) && !(j < i);
  }

  /** Without any parsed date the journal is dated today. */
  lemma HeaderDateToday(rows: seq<Row>, col: string, parseDate: string -> Option<Date>, now: Date)
    requires forall i :: 0 <= i < |rows| ==> DateCell(Get(rows[i], col, None), parseDate).None?
    ensures HeaderDate(rows, col, parseDate, now) == IsoMidnight(now)
  {
    FirstDateNone(rows, col, parseDate);
  }

  /** The journal type names and their ids. */
  const TipMap: map<string, int> := map[
    "Tekući promet" := 0, "Otvaranje p. knjiga" := 1, "Zatvaranje p. knjiga" := 2, "Izvod" := 20,
    "Ulazni racuni" := 21, "Uvoz" := 22, "Maloprodaja" := 23, "Izlazni racuni" := 24, "Zarade" := 24,
    "Nivelacije" := 26, "Kursne razlike" := 27, "Pdv nalog" := 28, "Amortizacija" := 29,
    "Vremenska razgranicenja (AVR & PVR)" := 30, "Putni nalog" := 31, "Izvoz" := 37,
    "Asignacije, Kompenzacije, Cesije" := 38]

  /** `TIP_MAP.get(tip_name, 24)`. */
  function TipIdOf(name: string): (id: int)
    ensures name in TipMap ==> id == TipMap[name]
    ensures name !in TipMap ==> id == DefaultTipId
  {
    if name in TipMap then TipMap[name] else DefaultTipId
  }

  /** The note written twice in the header: the stripped text, or a fixed text when that is empty. */
  const DefaultNote: string := "Generisano iz XLSX"

  function NoteOf(napomena: string): (note: string)
    ensures note != ""
    ensures Strip(napomena) != "" ==> note == Strip(napomena)
    ensures Strip(napomena) == "" ==> note == DefaultNote
  {
    if Strip(napomena) != "" then Strip(napomena) else DefaultNote
  }

  /** The journal header for the chosen company, journal type, note and date. */
  function HeaderOf(sifra: string, tipNaloga: string, napomena: string, datum: string): (h: Header)
    ensures h.sifra == Strip(sifra) && h.tip == Strip(tipNaloga) && h.tipId == TipIdOf(Strip(tipNaloga))
    ensures h.datum == datum && h.note == NoteOf(napomena)
  {
    Header(Strip(sifra), TipIdOf(Strip(tipNaloga)), Strip(tipNaloga), datum, NoteOf(napomena))
  }

  /** How one generation ends. `written` is false when the file written had no lines and was removed. */
  datatype Outcome =
    | NoSheet
    | NoCompany
    | MissingColumns(missing: seq<string>)
    | Generated(xml: Element, lines: nat, notInMap: nat, written: bool)

  /** The outcome and the debug log of one generation. */
  datatype Generation = Generation(outcome: Outcome, log: seq<DebugRow>)

  /** The document built from a sheet whose columns are all mapped. */
  function DocumentOf(frame: Frame, cols: Cols, sifra: string, tipNaloga: string, napomena: string,
                      kmap: map<string, int>, kmeta: map<int, KontoMeta>,
                      parseDate: string -> Option<Date>, now: Date): Document
  {
    var st := Run(Verdicts(frame.rows, cols, kmap, parseDate));
    var header := HeaderOf(sifra, tipNaloga, napomena, HeaderDate(frame.rows, cols.datum, parseDate, now));
    Document(header, st.items, Blocks(st.usedKids, kmeta))
  }

  /** `generate`, given the sheet, the form fields, the account maps in use, the date parser and today. */
  function GenerateSpec(df: Option<Frame>, sifra: string, tipNaloga: string, napomena: string,
                        kmap: map<string, int>, kmeta: map<int, KontoMeta>,
                        parseDate: string -> Option<Date>, now: Date): (g: Generation)
    ensures g.outcome == NoSheet <==> df == None
    ensures g.outcome == NoCompany <==> df.Some? && Strip(sifra) == ""
    ensures g.outcome.MissingColumns? <==>
      df.Some? && Strip(sifra) != "" && MissingOf(HeaderIndex(df.value.columns), MainRequired) != []
    ensures g.outcome.MissingColumns? ==>
      g.outcome.missing == MissingOf(HeaderIndex(df.value.columns), MainRequired) && g.outcome.missing != []
    ensures !g.outcome.Generated? ==> g.log == []
    ensures g.outcome.Generated? ==> g.outcome.lines + |g.log| == |df.value.rows| && g.outcome.notInMap <= |g.log|
  {
    if df == None then Generation(NoSheet, [])
    else if Strip(sifra) == "" then Generation(NoCompany, [])
    else
      var frame := df.value;
      var index := HeaderIndex(frame.columns);
      var missing := MissingOf(index, MainRequired);
      if missing != [] then Generation(MissingColumns(missing), [])
      else
        NothingMissingComplete(index);
        var cols := ColsOf(MappingOf(index, MainRequired));
        var st := Run(Verdicts(frame.rows, cols, kmap, parseDate));
        var doc := DocumentOf(frame, cols, sifra, tipNaloga, napomena, kmap, kmeta, parseDate, now);
        Generation(Generated(DocumentElement(doc), |st.items|, st.notInMap, st.rb != 1), st.log)
  }

  /** Every verdict of the row loop is sound. */
  lemma VerdictsSound(rows: seq<Row>, cols: Cols, kmap: map<string, int>, parseDate: string -> Option<Date>)
    ensures var vs := Verdicts(rows, cols, kmap, parseDate); forall i :: 0 <= i < |vs| ==> Sound(vs[i])
  {
    var vs := Verdicts(rows, cols, kmap, parseDate);
    forall i | 0 <= i < |vs|
      ensures Sound(vs[i])
    {
      DecideSound(rows[i], cols, kmap, parseDate);
    }
  }

  /** The totals of a run of sound verdicts. */
  lemma RunTotals(vs: seq<Verdict>)
    requires forall i :: 0 <= i < |vs| ==> Sound(vs[i])
    ensures var st := Run(vs);
      && (st.rb != 1 <==> |st.items| > 0)
      && |st.items| + |st.log| == |vs|
      && st.notInMap == CountReason(st.log, KontoNotInMap)
      && (forall r :: r in st.log ==> r.status == SkipStatus)
  {
    RunDescribed(vs);
    RunSound(vs);
  }

  /** The outcome of a generation that gets past the three early checks. */
  lemma GenerateReachesRows(df: Option<Frame>, sifra: string, tipNaloga: string, napomena: string,
                            kmap: map<string, int>, kmeta: map<int, KontoMeta>,
                            parseDate: string -> Option<Date>, now: Date)
    requires df.Some? && Strip(sifra) != "" && MissingOf(HeaderIndex(df.value.columns), MainRequired) == []
    ensures Complete(MappingOf(HeaderIndex(df.value.columns), MainRequired))
    ensures var cols := ColsOf(MappingOf(HeaderIndex(df.value.columns), MainRequired));
      var st := Run(Verdicts(df.value.rows, cols, kmap, parseDate));
      var doc := DocumentOf(df.value, cols, sifra, tipNaloga, napomena, kmap, kmeta, parseDate, now);
      GenerateSpec(df, sifra, tipNaloga, napomena, kmap, kmeta, parseDate, now)
        == Generation(Generated(DocumentElement(doc), |st.items|, st.notInMap, st.rb != 1), st.log)
  {
    NothingMissingComplete(HeaderIndex(df.value.columns));
  }

  /**
   * What a generation promises: the log is empty unless a document was built; the file is kept
   * exactly when some line was written; each row is a line or a record; the counter counts the
   * 'konto not in map' records; every record says SKIP.
   */
  lemma GenerateFacts(df: Option<Frame>, sifra: string, tipNaloga: string, napomena: string,
                      kmap: map<string, int>, kmeta: map<int, KontoMeta>,
                      parseDate: string -> Option<Date>, now: Date)
    ensures var g := GenerateSpec(df, sifra, tipNaloga, napomena, kmap, kmeta, parseDate, now);
      !g.outcome.Generated? ==> g.log == []
    ensures var g := GenerateSpec(df, sifra, tipNaloga, napomena, kmap, kmeta, parseDate, now);
      g.outcome.Generated? ==>
        && (g.outcome.written <==> g.outcome.lines > 0)
        && g.outcome.lines + |g.log| == |df.value.rows|
        && g.outcome.notInMap == CountReason(g.log, KontoNotInMap)
        && (forall r :: r in g.log ==> r.status == SkipStatus)
  {
    var g := GenerateSpec(df, sifra, tipNaloga, napomena, kmap, kmeta, parseDate, now);
    if g.outcome.Generated? {
      var frame := df.value;
      var index := HeaderIndex(frame.columns);
      NothingMissingComplete(index);
      var cols := ColsOf(MappingOf(index, MainRequired));
      VerdictsSound(frame.rows, cols, kmap, parseDate);
      RunTotals(Verdicts(frame.rows, cols, kmap, parseDate));
    }
  }
}
