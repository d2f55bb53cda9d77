/**
 * The application object: the loaded sheet, the form fields, the account maps loaded from the
 * database and the debug log of the last generation, with the two operations that change them:
 * loading the account table and generating the journal.
 */
module App {
  import opened Wrappers
  import opened Text
  import opened Konto
  import opened Amount
  import opened Columns
  import opened Directory
  import opened Ledger
  import opened Sorting
  import opened Journal

  class App {
    /** The loaded sheet, if any. */
    var df: Option<Frame>
    /** The form fields: company code, journal type name and note. */
    var sifra: string
    var tipNaloga: string
    var napomena: string
    /** The account maps loaded from the database; `None` before a load or after a failed one. */
    var sqlKontaMap: Option<map<string, int>>
    var sqlKontaMeta: Option<map<int, KontoMeta>>
    /** The debug log of the last generation. */
    var debugRows: seq<DebugRow>

    /** The state the window starts in. */
    constructor()
      ensures df == None && sifra == "" && tipNaloga == "Tekući promet" && napomena == DefaultNote
      ensures sqlKontaMap == None && sqlKontaMeta == None && debugRows == []
    {
      df := None;
      sifra := "";
      tipNaloga := "Tekući promet";
      napomena := DefaultNote;
      sqlKontaMap := None;
      sqlKontaMeta := None;
      debugRows := [];
    }

    /**
     * `load_konta_sql`: `fetched` is the result of the query, `None` when opening the
     * connection or running the query raised. A failure clears both maps; a success replaces both.
     */
    method LoadKonta(fetched: Option<seq<KontoRow>>)
      modifies this
      ensures fetched.None? ==> sqlKontaMap == None && sqlKontaMeta == None
      ensures fetched.Some? ==>
        sqlKontaMap == Some(DirectoryMap(fetched.value)) && sqlKontaMeta == Some(DirectoryMeta(fetched.value))
      ensures fetched.Some? ==>
        || (CurrentKontaMap() == DirectoryMap(fetched.value) && CurrentKontaMeta() == DirectoryMeta(fetched.value))
        || (CurrentKontaMap() == EmbeddedKontaMap && CurrentKontaMeta() == EmbeddedKontaMeta)
      ensures df == old(df) && sifra == old(sifra) && tipNaloga == old(tipNaloga) && napomena == old(napomena)
      ensures debugRows == old(debugRows)
    {
      if fetched.None? {
        sqlKontaMap := None;
        sqlKontaMeta := None;
        return;
      }
      var m, meta := BuildKontaMaps(fetched.value);
      sqlKontaMap := Some(m);
      sqlKontaMeta := Some(meta);
      SameSource(fetched.value);
    }

    /** `_current_konta_map`. */
    function CurrentKontaMap(): map<string, int>
      reads this
    {
      CurrentMap(sqlKontaMap)
    }

    /** `_current_konta_meta`. */
    function CurrentKontaMeta(): map<int, KontoMeta>
      reads this
    {
      CurrentMeta(sqlKontaMeta)
    }

    /**
     * `generate`: the date parser and today's date are parameters. The outcome and the new debug
     * log are those of `GenerateSpec` on the state before the call; nothing else changes.
     */
    method Generate(parseDate: string -> Option<Date>, now: Date) returns (outcome: Outcome)
      modifies this
      ensures var g := GenerateSpec(old(df), old(sifra), old(tipNaloga), old(napomena),
                                    CurrentMap(old(sqlKontaMap)), CurrentMeta(old(sqlKontaMeta)), parseDate, now);
        outcome == g.outcome && debugRows == g.log
      ensures df == old(df) && sifra == old(sifra) && tipNaloga == old(tipNaloga) && napomena == old(napomena)
      ensures sqlKontaMap == old(sqlKontaMap) && sqlKontaMeta == old(sqlKontaMeta)
    {
      debugRows := [];
      if df == None {
        return NoSheet;
      }
      if Strip(sifra) == "" {
        return NoCompany;
      }
      var frame := df.value;
      var mapping, missing := FindColumns(frame.columns, MainRequired);
      if missing != [] {
        return MissingColumns(missing);
      }
      GenerateReachesRows(df, sifra, tipNaloga, napomena, CurrentKontaMap(), CurrentKontaMeta(), parseDate, now);
      var cols := ColsOf(mapping);
      var tipName := Strip(tipNaloga);
      var tipId := TipIdOf(tipName);
      var headerDate := HeaderDate(frame.rows, cols.datum, parseDate, now);
      var header := Header(Strip(sifra), tipId, tipName, headerDate, NoteOf(napomena));
      var root := [HeaderElement(header)];
      var kontaMap := CurrentKontaMap();
      var kontaMeta := CurrentKontaMeta();
      var rb, usedKids, notInMap;
      rb, usedKids, notInMap, root := ReadRows(frame.rows, cols, kontaMap, parseDate, root);
      ghost var st := Run(Verdicts(frame.rows, cols, kontaMap, parseDate));
      root := AppendBlocks(root, usedKids, kontaMeta);
      outcome := Generated(Element(Dokumenti, "", root), rb - 1, notInMap, rb != 1);
    }

    /** The row loop of `generate`: appends the lines to `root` and the skipped rows to the log. */
    method ReadRows(rows: seq<Row>, cols: Cols, kontaMap: map<string, int>, parseDate: string -> Option<Date>, root: seq<Element>)
      returns (rb: int, usedKids: set<int>, notInMap: nat, root': seq<Element>)
      requires debugRows == []
      modifies this`debugRows
      ensures var st := Run(Verdicts(rows, cols, kontaMap, parseDate));
        rb == st.rb && usedKids == st.usedKids && notInMap == st.notInMap && debugRows == st.log
        && root' == root + ItemElements(st.items)
    {
      usedKids := {};
      rb := 1;
      notInMap := 0;
      root' := root;
      ghost var vs := Verdicts(rows, cols, kontaMap, parseDate);
      ghost var items: seq<Item> := [];
      for i := 0 to |rows|
        invariant Run(vs[..i]) == RunState(rb, usedKids, notInMap, items, debugRows)
        invariant root' == root + ItemElements(items)
      {
        ghost var before := RunState(rb, usedKids, notInMap, items, debugRows);
        var skipped;
        rb, usedKids, notInMap, root', items, skipped :=
          ReadRow(rows[i], cols, kontaMap, parseDate, rb, usedKids, notInMap, root, root', items, debugRows);
        debugRows := debugRows + skipped;
        RunAdvance(vs, i, Decide(rows[i], cols, kontaMap, parseDate), before, RunState(rb, usedKids, notInMap, items, debugRows));
      }
      assert vs[..|rows|] == vs;
    }

  }

  /** One more row of the loop: the run over one more verdict is its step from the run so far. */
  lemma RunAdvance(vs: seq<Verdict>, i: nat, v: Verdict, before: RunState, after: RunState)
    requires i < |vs| && vs[i] == v && Run(vs[..i]) == before && Step(before, v) == after
    ensures Run(vs[..i + 1]) == after
  {
    RunOneMore(vs, i);
  }

  /**
   * The body of the row loop for one row: the loop state is passed in and out, `skipped` is the
   * record the row adds to the debug log (none for a written line), and `root` holds `pre` then
   * the lines so far.
   */
  method ReadRow(row: Row, cols: Cols, kontaMap: map<string, int>, parseDate: string -> Option<Date>,
                 rb: int, usedKids: set<int>, notInMap: nat, ghost pre: seq<Element>, root: seq<Element>,
                 ghost items: seq<Item>, ghost log: seq<DebugRow>)
    returns (rb': int, usedKids': set<int>, notInMap': nat, root': seq<Element>, ghost items': seq<Item>, skipped: seq<DebugRow>)
    requires root == pre + ItemElements(items)
    ensures Step(RunState(rb, usedKids, notInMap, items, log), Decide(row, cols, kontaMap, parseDate))
      == RunState(rb', usedKids', notInMap', items', log + skipped)
    ensures root' == pre + ItemElements(items')
  {
    ghost var st := RunState(rb, usedKids, notInMap, items, log);
    rb', usedKids', notInMap', root', items' := rb, usedKids, notInMap, root, items;
    var kontoRaw := Get(row, cols.konto, Some(""));
    var kontoBroj := NormKonto(Some(CellText(kontoRaw)));
    if kontoBroj == "" || kontoBroj !in kontaMap {
      notInMap', skipped := SkipRow(row, cols, kontaMap, parseDate, st, notInMap, CellText(kontoRaw), kontoBroj);
    } else {
      rb', usedKids', root', items', skipped := KnownRow(row, cols, kontaMap, parseDate, st, rb, usedKids, pre, root, CellText(kontoRaw), kontoBroj);
    }
  }

  /** A row whose account is empty or not in the map: logged, and counted when not in the map. */
  method SkipRow(row: Row, cols: Cols, kontaMap: map<string, int>, parseDate: string -> Option<Date>,
                 ghost st: RunState, notInMap: nat, kontoRaw: string, kontoBroj: string)
    returns (notInMap': nat, skipped: seq<DebugRow>)
    requires st.notInMap == notInMap
    requires kontoRaw == CellText(Get(row, cols.konto, Some(""))) && kontoBroj == RowKonto(row, cols)
    requires kontoBroj == "" || kontoBroj !in kontaMap
    ensures Step(st, Decide(row, cols, kontaMap, parseDate)) == RunState(st.rb, st.usedKids, notInMap', st.items, st.log + skipped)
  {
    var rowNum := row.index + 2;
    if kontoBroj == "" {
      notInMap', skipped := notInMap, [DebugRow(rowNum, SkipStatus, KontoEmpty, kontoRaw, kontoBroj)];
      StepEmpty(st, row, cols, kontaMap, parseDate);
      SkipCombine(st, Step(st, Decide(row, cols, kontaMap, parseDate)), st.notInMap,
                  DebugRow(row.index + 2, SkipStatus, KontoEmpty, CellText(Get(row, cols.konto, Some(""))), ""), notInMap', skipped);
    } else {
      notInMap', skipped := notInMap + 1, [DebugRow(rowNum, SkipStatus, KontoNotInMap, kontoRaw, kontoBroj)];
      StepNotInMap(st, row, cols, kontaMap, parseDate);
      SkipCombine(st, Step(st, Decide(row, cols, kontaMap, parseDate)), st.notInMap + 1,
                  DebugRow(row.index + 2, SkipStatus, KontoNotInMap, CellText(Get(row, cols.konto, Some(""))), RowKonto(row, cols)),
                  notInMap', skipped);
    }
  }

  /** A skipped row's outcome, put together. */
  lemma SkipCombine(st: RunState, next: RunState, n: nat, rec: DebugRow, notInMap': nat, skipped: seq<DebugRow>)
    requires next == RunState(st.rb, st.usedKids, n, st.items, st.log + [rec])
    requires notInMap' == n && skipped == [rec]
    ensures next == RunState(st.rb, st.usedKids, notInMap', st.items, st.log + skipped)
  {
  }

  /** A row whose account is in the map: its id is used, and it becomes the next line or is logged. */
  method KnownRow(row: Row, cols: Cols, kontaMap: map<string, int>, parseDate: string -> Option<Date>,
                  ghost st: RunState, rb: int, usedKids: set<int>, ghost pre: seq<Element>, root: seq<Element>,
                  kontoRaw: string, kontoBroj: string)
    returns (rb': int, usedKids': set<int>, root': seq<Element>, ghost items': seq<Item>, skipped: seq<DebugRow>)
    requires st.rb == rb && st.usedKids == usedKids && root == pre + ItemElements(st.items)
    requires kontoRaw == CellText(Get(row, cols.konto, Some(""))) && kontoBroj == RowKonto(row, cols)
    requires kontoBroj != "" && kontoBroj in kontaMap
    ensures Step(st, Decide(row, cols, kontaMap, parseDate)) == RunState(rb', usedKids', st.notInMap, items', st.log + skipped)
    ensures root' == pre + ItemElements(items')
  {
    var kontoId := kontaMap[kontoBroj];
    rb', usedKids', root', items', skipped := ReadKnownRow(row, cols, parseDate, kontoId, kontoRaw, kontoBroj, rb, usedKids, pre, root, st.items);
    ghost var emits := RowDuguje(row, cols).Some? || RowPotrazuje(row, cols).Some?;
    if emits {
      StepLine(st, row, cols, kontaMap, parseDate);
    } else {
      StepZero(st, row, cols, kontaMap, parseDate);
    }
    KnownCombine(st, Step(st, Decide(row, cols, kontaMap, parseDate)), kontoId, RowItem(row, cols, parseDate, rb, kontoId),
                 DebugRow(row.index + 2, SkipStatus, ZeroAmounts, kontoRaw, kontoBroj), emits, rb', usedKids', items', skipped);
  }

  /** Both outcomes of a row with a known account, put together. */
  lemma KnownCombine(st: RunState, next: RunState, kid: int, line: Item, rec: DebugRow, emits: bool,
                     rb': int, usedKids': set<int>, items': seq<Item>, skipped: seq<DebugRow>)
    requires emits ==> next == RunState(st.rb + 1, st.usedKids + {kid}, st.notInMap, st.items + [line], st.log)
    requires !emits ==> next == RunState(st.rb, st.usedKids + {kid}, st.notInMap, st.items, st.log + [rec])
    requires usedKids' == st.usedKids + {kid}
    requires emits ==> rb' == st.rb + 1 && items' == st.items + [line] && skipped == []
    requires !emits ==> rb' == st.rb && items' == st.items && skipped == [rec]
    ensures next == RunState(rb', usedKids', st.notInMap, items', st.log + skipped)
  {
    if emits {
      assert st.log + skipped == st.log;
    }
  }

  /**
   * The rest of the row body once the account is known: the id is used, the line element is
   * appended and filled; without an amount it is removed again and the row is to be logged.
   */
  method ReadKnownRow(row: Row, cols: Cols, parseDate: string -> Option<Date>, kontoId: int, kontoRaw: string, kontoBroj: string,
                      rb: int, usedKids: set<int>, ghost pre: seq<Element>, root: seq<Element>, ghost items: seq<Item>)
    returns (rb': int, usedKids': set<int>, root': seq<Element>, ghost items': seq<Item>, skipped: seq<DebugRow>)
    requires root == pre + ItemElements(items)
    ensures usedKids' == usedKids + {kontoId}
    ensures RowDuguje(row, cols).Some? || RowPotrazuje(row, cols).Some? ==>
      rb' == rb + 1 && items' == items + [RowItem(row, cols, parseDate, rb, kontoId)] && skipped == []
    ensures RowDuguje(row, cols) == None && RowPotrazuje(row, cols) == None ==>
      rb' == rb && items' == items && skipped == [DebugRow(row.index + 2, SkipStatus, ZeroAmounts, kontoRaw, kontoBroj)]
    ensures root' == pre + ItemElements(items')
  {
    rb', root', items', skipped := rb, root, items, [];
    usedKids' := usedKids + {kontoId};
    // The line element joins the root as soon as it is created; its children follow.
    root' := root + [Element(StavkaNalogaZaKnjizenje, "", [])];
    var line, added := LineStart(row, cols, parseDate, rb, kontoId);
    if !added {
      // `root.remove(stavka)`: the root is as it was before the line was appended.
      root' := root'[..|root'| - 1];
      assert root' == root;
      skipped := [DebugRow(row.index + 2, SkipStatus, ZeroAmounts, kontoRaw, kontoBroj)];
      return;
    }
    ghost var l4 := line;
    var opis := TextCell(Get(row, cols.opis, None));
    if opis != "" {
      line := line + [Leaf(Opis, opis)];
    }
    ghost var l5 := line;
    assert l5 == l4 + NonEmpty(Opis, opis);
    line := line + [Leaf(Subanalitika, "")];
    line := line + [Leaf(ValutaId, "1")];
    line := line + [Leaf(Kurs, "0")];
    TailAppended(l5, line);
    ghost var it := RowItem(row, cols, parseDate, rb, kontoId);
    assert line == LineChildren(ItemHead(rb, kontoId), it);
    // The appended line element now holds its children.
    root' := root'[..|root'| - 1] + [Element(StavkaNalogaZaKnjizenje, "", line)];
    ReplaceLast(root, Element(StavkaNalogaZaKnjizenje, "", []), ItemElement(it));
    ItemElementsSnoc(items, it);
    Associative(pre, ItemElements(items), [ItemElement(it)]);
    items' := items + [it];
    rb' := rb + 1;
  }

  /** The descriptor loop of `generate`: one `Konto` element per id used, in ascending order. */
  method AppendBlocks(root: seq<Element>, usedKids: set<int>, kontaMeta: map<int, KontoMeta>) returns (root': seq<Element>)
    ensures root' == root + BlockElements(Blocks(usedKids, kontaMeta))
  {
    root' := root;
    var ids := SortedIds(usedKids);
    ghost var blocks := Blocks(usedKids, kontaMeta);
    for j := 0 to |ids|
      invariant root' == root + BlockElements(blocks[..j])
    {
      var kid := ids[j];
      var meta := if kid in kontaMeta then kontaMeta[kid] else KontoMeta("", "");
      var kb := Element(KontoTag, "", [
        Leaf(FkKpKontoId, IntText(kid)),
        Leaf(Broj, meta.broj),
        Leaf(Naziv, meta.naziv),
        Leaf(DozvoljenoKnjizenje, "1"),
        Leaf(Devizni, "0")
      ]);
      BlockAppended(root, blocks, j, kb);
      root' := root' + [kb];
    }
    assert blocks[..|ids|] == blocks;
  }

  /** Appending the element of the next descriptor extends the descriptor elements by one. */
  lemma BlockAppended(root: seq<Element>, blocks: seq<KontoBlock>, j: nat, kb: Element)
    requires j < |blocks| && kb == BlockElement(blocks[j])
    ensures root + BlockElements(blocks[..j]) + [kb] == root + BlockElements(blocks[..j + 1])
  {
    assert blocks[..j + 1] == blocks[..j] + [blocks[j]];
    BlockElementsSnoc(blocks[..j], blocks[j]);
    Associative(root, BlockElements(blocks[..j]), [kb]);
  }

  /**
   * The first part of a journal line, up to its amounts: the four head children, the change
   * date and the document number when present, then each amount that parsed and is not zero.
   * `added` tells whether some amount was written.
   */
  method LineStart(row: Row, cols: Cols, parseDate: string -> Option<Date>, rb: int, kontoId: int)
    returns (line: seq<Element>, added: bool)
    ensures added <==> RowDuguje(row, cols).Some? || RowPotrazuje(row, cols).Some?
    ensures line == ItemHead(rb, kontoId) + Optional(DatumPromene, DateCell(Get(row, cols.datum, None), parseDate))
      + NonEmpty(BrojDokumenta, TextCell(Get(row, cols.dokument, None)))
      + Optional(Duguje, RowDuguje(row, cols)) + Optional(Potrazuje, RowPotrazuje(row, cols))
  {
    line := [Leaf(FkStavkaNalogaZaKnjizenjeId, IntText(NalogId + rb))];
    line := line + [Leaf(FkNalogZaKnjizenjeId, NalogIdText)];
    line := line + [Leaf(FkKpKontoId, IntText(kontoId))];
    line := line + [Leaf(RedniBroj, IntText(rb))];
    ghost var head := line;
    assert head == ItemHead(rb, kontoId);
    var dProm := DateCell(Get(row, cols.datum, None), parseDate);
    if dProm.Some? {
      line := line + [Leaf(DatumPromene, dProm.value)];
    }
    ghost var l1 := line;
    assert l1 == head + Optional(DatumPromene, dProm);
    var doc := TextCell(Get(row, cols.dokument, None));
    if doc != "" {
      line := line + [Leaf(BrojDokumenta, doc)];
    }
    ghost var l2 := line;
    assert l2 == l1 + NonEmpty(BrojDokumenta, doc);
    var duguje := ParseAmount(Get(row, cols.duguje, None));
    var potrazuje := ParseAmount(Get(row, cols.potrazuje, None));
    added := false;
    if duguje.Some? && NonzeroAmount(duguje.value) {
      line := line + [Leaf(Duguje, duguje.value)];
      added := true;
    }
    KeptAppended(l2, line, Duguje, duguje);
    ghost var l3 := line;
    if potrazuje.Some? && NonzeroAmount(potrazuje.value) {
      line := line + [Leaf(Potrazuje, potrazuje.value)];
      added := true;
    }
    KeptAppended(l3, line, Potrazuje, potrazuje);
  }

  /** The three fixed children appended one by one are the fixed tail of a line. */
  lemma TailAppended(before: seq<Element>, after: seq<Element>)
    requires after == before + [Leaf(Subanalitika, "")] + [Leaf(ValutaId, "1")] + [Leaf(Kurs, "0")]
    ensures after == before + ItemTail
  {
  }

  lemma Associative(a: seq<Element>, b: seq<Element>, c: seq<Element>)
    ensures a + b + c == a + (b + c)
  {
  }

  /** Replacing the element just appended is appending the replacement. */
  lemma ReplaceLast(root: seq<Element>, x: Element, y: Element)
    ensures (root + [x])[..|root + [x]| - 1] + [y] == root + [y]
  {
    assert (root + [x])[..|root|] == root;
  }

  /** Appending an amount exactly when it is kept appends its optional child. */
  lemma KeptAppended(before: seq<Element>, after: seq<Element>, tag: Tag, a: Option<string>)
    requires a.Some? && NonzeroAmount(a.value) ==> after == before + [Leaf(tag, a.value)]
    requires !(a.Some? && NonzeroAmount(a.value)) ==> after == before
    ensures after == before + Optional(tag, Kept(a))
  {
    if !(a.Some? && NonzeroAmount(a.value)) {
      assert before + [] == before;
    }
  }
}
