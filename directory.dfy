/**
 * The account directory: the code-to-id map and the id-to-descriptor map built from the rows of
 * the account table (`load_konta_sql`), and the rule that picks the snapshot to use.
 */
module Directory {
  import opened Wrappers
  import opened Text
  import opened Konto
  import opened Columns

  /** One row of the account table: id, account number and name; the text columns may be NULL. */
  datatype KontoRow = KontoRow(id: int, broj: Option<string>, naziv: Option<string>)

  /** The descriptor kept per account id. */
  datatype KontoMeta = KontoMeta(broj: string, naziv: string)

  /** The account tables embedded in the program: both empty. */
  const EmbeddedKontaMap: map<string, int> := map[]
  const EmbeddedKontaMeta: map<int, KontoMeta> := map[]

  /** `norm_konto(str(r[1] or '').strip())`: the code is normalised after an extra strip. */
  function RowCode(r: KontoRow): (code: string)
    ensures IsCode(code)
  {
    NormalizedKonto(Some(Strip(r.broj.GetOr(""))))
  }

  /** True when a descriptor holds a usable code. */
  predicate GoodMeta(v: KontoMeta) {
    v.broj != "" && IsCode(v.broj)
  }

  /** The normalised code of every row, position by position. */
  function RowCodes(rows: seq<KontoRow>): (codes: seq<string>)
    ensures |codes| == |rows|
    ensures forall i :: 0 <= i < |rows| ==> codes[i] == RowCode(rows[i])
    ensures forall i :: 0 <= i < |rows| ==> IsCode(codes[i])
  {
    seq(|rows|, i requires 0 <= i < |rows| => RowCode(rows[i]))
  }

  /** The code map after the rows, with their codes, are read in order: empty codes are skipped. */
  function MapOf(rows: seq<KontoRow>, codes: seq<string>): (m: map<string, int>)
    requires |codes| == |rows|
    ensures forall k :: k in m ==> k != "" && k in codes
  {
    if rows == [] then map[]
    else
      var n := |rows|;
      var m := MapOf(rows[..n - 1], codes[..n - 1]);
      assert forall c :: c in codes[..n - 1] ==> c in codes;
      if codes[n - 1] == "" then m else m[codes[n - 1] := rows[n - 1].id]
  }

  /** The descriptor map after the rows, with their codes, are read in order. */
  function MetaOf(rows: seq<KontoRow>, codes: seq<string>): (meta: map<int, KontoMeta>)
    requires |codes| == |rows|
    ensures forall id :: id in meta ==> meta[id].broj != "" && meta[id].broj in codes
  {
    if rows == [] then map[]
    else
      var n := |rows|;
      var meta := MetaOf(rows[..n - 1], codes[..n - 1]);
      assert forall c :: c in codes[..n - 1] ==> c in codes;
      if codes[n - 1] == "" then meta else meta[rows[n - 1].id := KontoMeta(codes[n - 1], rows[n - 1].naziv.GetOr(""))]
  }

  /** `m` as `load_konta_sql` leaves it: every key is a non-empty normalised code. */
  function DirectoryMap(rows: seq<KontoRow>): (m: map<string, int>)
    ensures forall k :: k in m ==> k != "" && IsCode(k)
  {
    MapOf(rows, RowCodes(rows))
  }

  /** `meta` as `load_konta_sql` leaves it: every descriptor holds a non-empty normalised code. */
  function DirectoryMeta(rows: seq<KontoRow>): (meta: map<int, KontoMeta>)
    ensures forall id :: id in meta ==> GoodMeta(meta[id])
  {
    MetaOf(rows, RowCodes(rows))
  }

  /** The loop of `load_konta_sql` over the fetched rows. */
  method BuildKontaMaps(rows: seq<KontoRow>) returns (m: map<string, int>, meta: map<int, KontoMeta>)
    ensures m == DirectoryMap(rows) && meta == DirectoryMeta(rows)
  {
    ghost var codes := RowCodes(rows);
    m, meta := map[], map[];
    for i := 0 to |rows|
      invariant m == MapOf(rows[..i], codes[..i]) && meta == MetaOf(rows[..i], codes[..i])
    {
      ReadOneMore(rows, codes, i);
      var r := rows[i];
      var kid := r.id;
      var broj := Strip(r.broj.GetOr(""));
      var brojNorm := NormKonto(Some(broj));
      assert brojNorm == codes[i];
      if brojNorm == "" {
        continue;
      }
      m := m[brojNorm := kid];
      meta := meta[kid := KontoMeta(brojNorm, r.naziv.GetOr(""))];
    }
    assert rows[..|rows|] == rows && codes[..|rows|] == codes;
  }

  /** Reading one more row updates both maps with that row alone. */
  lemma ReadOneMore(rows: seq<KontoRow>, codes: seq<string>, i: nat)
    requires |codes| == |rows| && i < |rows|
    ensures var m := MapOf(rows[..i], codes[..i]);
      MapOf(rows[..i + 1], codes[..i + 1]) == if codes[i] == "" then m else m[codes[i] := rows[i].id]
    ensures var meta := MetaOf(rows[..i], codes[..i]);
      MetaOf(rows[..i + 1], codes[..i + 1])
      == if codes[i] == "" then meta else meta[rows[i].id := KontoMeta(codes[i], rows[i].naziv.GetOr(""))]
  {
    assert rows[..i + 1][..i] == rows[..i] && codes[..i + 1][..i] == codes[..i];
  }

  /** Every id in the code map has a descriptor. */
  lemma {:induction false} IdsHaveMetaOf(rows: seq<KontoRow>, codes: seq<string>)
    requires |codes| == |rows|
    ensures forall k :: k in MapOf(rows, codes) ==> MapOf(rows, codes)[k] in MetaOf(rows, codes)
  {
    if rows != [] {
      var n := |rows|;
      IdsHaveMetaOf(rows[..n - 1], codes[..n - 1]);
    }
  }

  /** Every id stored in the code map has a descriptor, and that descriptor holds a good code. */
  lemma IdsHaveMeta(rows: seq<KontoRow>)
    ensures forall k :: k in DirectoryMap(rows) ==>
      DirectoryMap(rows)[k] in DirectoryMeta(rows) && GoodMeta(DirectoryMeta(rows)[DirectoryMap(rows)[k]])
  {
    IdsHaveMetaOf(rows, RowCodes(rows));
  }

  /** A non-empty code is a key exactly when some code equals it, and the last such row gives the id. */
  lemma {:induction false} LastRowWinsOf(rows: seq<KontoRow>, codes: seq<string>, k: string)
    requires |codes| == |rows| && k != ""
    ensures k in MapOf(rows, codes) <==> LastPos(codes, k) >= 0
    ensures k in MapOf(rows, codes) ==> MapOf(rows, codes)[k] == rows[LastPos(codes, k)].id
  {
    if rows != [] {
      var n := |rows|;
      LastRowWinsOf(rows[..n - 1], codes[..n - 1], k);
    }
  }

  /**
   * Later rows overwrite earlier ones: a non-empty code is a key exactly when some row has it, and
   * it maps to the id of the LAST row whose code it is.
   */
  lemma LastRowWins(rows: seq<KontoRow>, k: string)
    requires k != ""
    ensures var codes := RowCodes(rows); var i := LastPos(codes, k);
      && (k in DirectoryMap(rows) <==> i >= 0)
      && (i >= 0 ==> codes[i] == k && DirectoryMap(rows)[k] == rows[i].id)
      && (forall j :: i < j < |rows| ==> codes[j] != k)
  {
    var codes := RowCodes(rows);
    assert DirectoryMap(rows) == MapOf(rows, codes);
    LastRowWinsOf(rows, codes, k);
  }

  /** The two maps are empty together: exactly when every code is empty. */
  lemma {:induction false} EmptyTogetherOf(rows: seq<KontoRow>, codes: seq<string>)
    requires |codes| == |rows|
    ensures MapOf(rows, codes) == map[] <==> MetaOf(rows, codes) == map[]
    ensures MapOf(rows, codes) == map[] <==> forall i :: 0 <= i < |codes| ==> codes[i] == ""
  {
    if rows != [] {
      var n := |rows|;
      var init := codes[..n - 1];
      EmptyTogetherOf(rows[..n - 1], init);
      if codes[n - 1] != "" {
        assert codes[n - 1] in MapOf(rows, codes);
        assert rows[n - 1].id in MetaOf(rows, codes);
      }
      assert forall i :: 0 <= i < n - 1 ==> init[i] == codes[i];
    }
  }

  /** The code map is empty exactly when the descriptor map is, that is when no row has a code. */
  lemma EmptyTogether(rows: seq<KontoRow>)
    ensures DirectoryMap(rows) == map[] <==> DirectoryMeta(rows) == map[]
    ensures DirectoryMap(rows) == map[] <==> forall i :: 0 <= i < |rows| ==> RowCodes(rows)[i] == ""
  {
    EmptyTogetherOf(rows, RowCodes(rows));
  }

  /** `self._sql_konta_map if self._sql_konta_map else EMBEDDED_KONTA_MAP`: a non-empty snapshot wins whole. */
  function CurrentMap(sql: Option<map<string, int>>): (m: map<string, int>)
    ensures sql.Some? && sql.value != map[] ==> m == sql.value
    ensures sql == None || sql.value == map[] ==> m == EmbeddedKontaMap
  {
    if sql.Some? && sql.value != map[] then sql.value else EmbeddedKontaMap
  }

  /** The same rule for the descriptor map. */
  function CurrentMeta(sql: Option<map<int, KontoMeta>>): (meta: map<int, KontoMeta>)
    ensures sql.Some? && sql.value != map[] ==> meta == sql.value
    ensures sql == None || sql.value == map[] ==> meta == EmbeddedKontaMeta
  {
    if sql.Some? && sql.value != map[] then sql.value else EmbeddedKontaMeta
  }

  /**
   * After a load from the account table, the code map and the descriptor map in use come from the
   * same source: both from the table, or both from the (empty) embedded tables; never a mixture.
   */
  lemma SameSource(rows: seq<KontoRow>)
    ensures var m := CurrentMap(Some(DirectoryMap(rows))); var meta := CurrentMeta(Some(DirectoryMeta(rows)));
      (m == DirectoryMap(rows) && meta == DirectoryMeta(rows)) || (m == EmbeddedKontaMap && meta == EmbeddedKontaMeta)
  {
    EmptyTogether(rows);
  }

  /** Every id the selected code map yields has a good descriptor in the selected descriptor map. */
  lemma SelectedIdsHaveMeta(rows: seq<KontoRow>)
    ensures var m := CurrentMap(Some(DirectoryMap(rows))); var meta := CurrentMeta(Some(DirectoryMeta(rows)));
      forall k :: k in m ==> m[k] in meta && GoodMeta(meta[m[k]])
  {
    var m, meta := DirectoryMap(rows), DirectoryMeta(rows);
    EmptyTogether(rows);
    if m == map[] {
      assert CurrentMap(Some(m)) == map[];
    } else {
      assert CurrentMap(Some(m)) == m && CurrentMeta(Some(meta)) == meta;
      IdsHaveMeta(rows);
    }
  }
}
