/**
 * Column resolution (`normalize_header`, `find_columns`): each required journal field is matched
 * to a spreadsheet column, first by its normalised header and then through a list of synonyms.
 */
module Columns {
  import opened Wrappers
  import opened Text

  /** The fields a journal sheet must provide, in the order they are resolved and reported. */
  const MainRequired: seq<string> :=
    ["konto", "duguje", "potražuje", "poslovni partner", "dokument", "datum promene", "opis"]

  /**
   * `normalize_header`: a header trimmed and lower-cased. The result has the stripped header's
   * letters in place, equal to them up to case, and no ASCII capital is left.
   */
  function NormalizeHeader(h: string): (r: string)
    ensures |r| == |Strip(h)| <= |h|
    ensures r == [] || (!IsSpace(r[0]) && !IsSpace(r[|r| - 1]))
    ensures forall i :: 0 <= i < |r| ==> LowerChar(r[i]) == LowerChar(Strip(h)[i])
    ensures forall i :: 0 <= i < |r| ==> !('A' <= r[i] <= 'Z')
    ensures forall i :: 0 <= i < |r| ==> 'A' <= Strip(h)[i] <= 'Z' ==> r[i] as int == Strip(h)[i] as int + 32
  {
    var t := Strip(h);
    LowerKeepsSpace(t);
    forall i | 0 <= i < |t|
      ensures LowerChar(Lower(t)[i]) == LowerChar(t[i])
    {
      LowerCharIdempotent(t[i]);
    }
    Lower(t)
  }

  /** Lower-casing never creates or removes whitespace. */
  lemma LowerKeepsSpace(t: string)
    ensures forall i :: 0 <= i < |t| ==> (IsSpace(Lower(t)[i]) <==> IsSpace(t[i]))
  {
  }

  /** Lower-casing a lower-case character changes nothing. */
  lemma LowerCharIdempotent(c: char)
    ensures LowerChar(LowerChar(c)) == LowerChar(c)
  {
  }

  /** A normalised header normalises to itself, so a synonym written in normal form finds its column. */
  lemma NormalizeHeaderIdempotent(h: string)
    ensures NormalizeHeader(NormalizeHeader(h)) == NormalizeHeader(h)
  {
    var r := NormalizeHeader(h);
    assert Strip(r) == r;
    forall i | 0 <= i < |r|
      ensures Lower(r)[i] == r[i]
    {
      LowerCharIdempotent(Strip(h)[i]);
    }
  }

  /** Every header of `hs` normalised, position by position. */
  function NormalizeAll(hs: seq<string>): (r: seq<string>)
    ensures |r| == |hs| && forall i :: 0 <= i < |hs| ==> r[i] == NormalizeHeader(hs[i])
  {
    seq(|hs|, i requires 0 <= i < |hs| => NormalizeHeader(hs[i]))
  }

  /** A dict built by assigning `keys[i]: values[i]` in order: a repeated key keeps its LAST value. */
  function IndexOf(keys: seq<string>, values: seq<string>): map<string, string>
    requires |keys| == |values|
  {
    if keys == [] then map[]
    else
      var n := |keys|;
      IndexOf(keys[..n - 1], values[..n - 1])[keys[n - 1] := values[n - 1]]
  }

  /** The last position of `k` in `keys`, or -1. */
  function LastPos(keys: seq<string>, k: string): (r: int)
    ensures -1 <= r < |keys|
    ensures r >= 0 ==> keys[r] == k
    ensures forall j :: r < j < |keys| ==> keys[j] != k
  {
    if keys == [] then -1
    else if keys[|keys| - 1] == k then |keys| - 1
    else LastPos(keys[..|keys| - 1], k)
  }

  /** The dict has exactly the listed keys, and each maps to the value paired with its last occurrence. */
  lemma {:induction false} IndexLastWins(keys: seq<string>, values: seq<string>, k: string)
    requires |keys| == |values|
    ensures k in IndexOf(keys, values) <==> LastPos(keys, k) >= 0
    ensures k in IndexOf(keys, values) ==> IndexOf(keys, values)[k] == values[LastPos(keys, k)]
  {
    if keys != [] {
      var n := |keys|;
      IndexLastWins(keys[..n - 1], values[..n - 1], k);
    }
  }

  /** Every value of the dict is one of the values. */
  lemma {:induction false} IndexValues(keys: seq<string>, values: seq<string>)
    requires |keys| == |values|
    ensures forall k :: k in IndexOf(keys, values) ==> IndexOf(keys, values)[k] in values
  {
    if keys != [] {
      var n := |keys|;
      IndexValues(keys[..n - 1], values[..n - 1]);
      assert forall c :: c in values[..n - 1] ==> c in values;
    }
  }

  /** `{normalize_header(c): c for c in df.columns}`. */
  function HeaderIndex(columns: seq<string>): map<string, string>
  {
    IndexOf(NormalizeAll(columns), columns)
  }

  /**
   * A normalised header is a key exactly when some column normalises to it, and it maps to the
   * LAST such column: when several columns normalise alike, the later one wins.
   */
  lemma HeaderIndexLastWins(columns: seq<string>, k: string)
    ensures var i := LastPos(NormalizeAll(columns), k);
      && (k in HeaderIndex(columns) <==> i >= 0)
      && (i >= 0 ==> HeaderIndex(columns)[k] == columns[i] && NormalizeHeader(columns[i]) == k)
      && (forall j :: i < j < |columns| ==> NormalizeHeader(columns[j]) != k)
  {
    IndexLastWins(NormalizeAll(columns), columns, k);
  }

  /** Every value of the index is one of the columns. */
  lemma HeaderIndexValues(columns: seq<string>)
    ensures forall k :: k in HeaderIndex(columns) ==> HeaderIndex(columns)[k] in columns
  {
    IndexValues(NormalizeAll(columns), columns);
  }

  /** `alt_map`: the synonyms of a field, in priority order, tried when no header matches exactly. */
  const AltMap: seq<(string, seq<string>)> := [
    ("potražuje", ["potrazuje", "potrazue", "potrazuj"]),
    ("duguje", ["dug", "duznik"]),
    ("datum promene", ["datum", "datum_promene", "datum promjena", "datum prom", "datumpromene", "datprom"]),
    ("poslovni partner", ["partner", "poslovni_partner", "poslovnipartner"])
  ]

  /** `alt_map.get(field, [])`. */
  function Synonyms(field: string): seq<string> {
    Lookup(AltMap, field)
  }

  /** The entry of the first pair whose key is `key`, or the empty list. */
  function Lookup(table: seq<(string, seq<string>)>, key: string): (r: seq<string>)
    ensures (forall i :: 0 <= i < |table| ==> table[i].0 != key) ==> r == []
    ensures forall i :: 0 <= i < |table| && table[i].0 == key && (forall j :: 0 <= j < i ==> table[j].0 != key) ==> r == table[i].1
  {
    if table == [] then []
    else if table[0].0 == key then table[0].1
    else
      var rest := Lookup(table[1..], key);
      assert forall i :: 1 <= i < |table| ==> table[i] == table[1..][i - 1];
      rest
  }

  /** The value of the first of `keys`, in list order, that is a key of `index`. */
  function FirstHit(index: map<string, string>, keys: seq<string>): (r: Option<string>)
    ensures r.Some? ==> r.value in index.Values
  {
    if keys == [] then None
    else if keys[0] in index then Some(index[keys[0]])
    else FirstHit(index, keys[1..])
  }

  /** The first hit wins; there is no hit exactly when none of the keys is present. */
  lemma {:induction false} FirstHitWins(index: map<string, string>, keys: seq<string>)
    ensures FirstHit(index, keys) == None <==> forall j :: 0 <= j < |keys| ==> keys[j] !in index
    ensures forall j :: 0 <= j < |keys| && keys[j] in index && (forall i :: 0 <= i < j ==> keys[i] !in index) ==> FirstHit(index, keys) == Some(index[keys[j]])
    ensures FirstHit(index, keys).Some? ==> exists j :: 0 <= j < |keys| && keys[j] in index && FirstHit(index, keys) == Some(index[keys[j]])
  {
    if keys != [] {
      var rest := keys[1..];
      FirstHitWins(index, rest);
      if keys[0] !in index && FirstHit(index, rest).Some? {
        var j :| 0 <= j < |rest| && rest[j] in index && FirstHit(index, rest) == Some(index[rest[j]]);
        assert keys[j + 1] == rest[j];
      }
      forall j | 0 < j < |keys| && keys[j] in index && (forall i :: 0 <= i < j ==> keys[i] !in index)
        ensures FirstHit(index, keys) == Some(index[keys[j]])
      {
        assert rest[j - 1] == keys[j];
        forall i | 0 <= i < j - 1
          ensures rest[i] !in index
        {
          assert rest[i] == keys[i + 1];
        }
      }
    }
  }

  /** The column found through the synonyms of `field`, if any. */
  function FirstSynonym(index: map<string, string>, field: string): (r: Option<string>)
    ensures r.Some? ==> r.value in index.Values
  {
    FirstHit(index, NormalizeAll(Synonyms(field)))
  }

  /**
   * How one field resolves: the exact header (the field name is looked up as written), else the
   * first synonym whose column name is not empty (`if found:` tests the name's truthiness).
   */
  function Resolve(index: map<string, string>, field: string): (r: Option<string>)
    ensures r.Some? ==> r.value in index.Values
    ensures field in index ==> r == Some(index[field])
  {
    if field in index then Some(index[field])
    else
      match FirstSynonym(index, field)
      case Some(c) => if c != "" then Some(c) else None
      case None => None
  }

  /** The resolution of each required field, position by position. */
  function Resolutions(index: map<string, string>, required: seq<string>): (res: seq<Option<string>>)
    ensures |res| == |required|
    ensures forall i :: 0 <= i < |required| ==> res[i] == Resolve(index, required[i])
  {
    seq(|required|, i requires 0 <= i < |required| => Resolve(index, required[i]))
  }

  /** The `mapping` dict after fields with the given resolutions are processed in order. */
  function MappingFrom(fields: seq<string>, res: seq<Option<string>>): map<string, string>
    requires |res| == |fields|
  {
    if fields == [] then map[]
    else
      var n := |fields|;
      var m := MappingFrom(fields[..n - 1], res[..n - 1]);
      match res[n - 1]
      case Some(c) => m[fields[n - 1] := c]
      case None => m
  }

  /** The `missing` list after fields with the given resolutions are processed in order. */
  function MissingFrom(fields: seq<string>, res: seq<Option<string>>): seq<string>
    requires |res| == |fields|
  {
    if fields == [] then []
    else
      var n := |fields|;
      var m := MissingFrom(fields[..n - 1], res[..n - 1]);
      if res[n - 1].None? then m + [fields[n - 1]] else m
  }

  /** The `mapping` dict after the fields of `required` are resolved in order. */
  function MappingOf(index: map<string, string>, required: seq<string>): map<string, string> {
    MappingFrom(required, Resolutions(index, required))
  }

  /** The `missing` list after the fields of `required` are resolved in order. */
  function MissingOf(index: map<string, string>, required: seq<string>): seq<string> {
    MissingFrom(required, Resolutions(index, required))
  }

  /** `find_columns`: the exact-header test first, then the synonym loop, which stops at the first hit. */
  method FindColumns(columns: seq<string>, required: seq<string>) returns (mapping: map<string, string>, missing: seq<string>)
    ensures mapping == MappingOf(HeaderIndex(columns), required)
    ensures missing == MissingOf(HeaderIndex(columns), required)
  {
    var normalized := HeaderIndex(columns);
    mapping, missing := ResolveAll(normalized, required);
  }

  /** The loop of `find_columns` over the required fields. */
  method ResolveAll(normalized: map<string, string>, required: seq<string>) returns (mapping: map<string, string>, missing: seq<string>)
    ensures mapping == MappingOf(normalized, required)
    ensures missing == MissingOf(normalized, required)
  {
    ghost var res := Resolutions(normalized, required);
    mapping, missing := map[], [];
    var i := 0;
    while i < |required|
      invariant 0 <= i <= |required|
      invariant mapping == MappingFrom(required[..i], res[..i])
      invariant missing == MissingFrom(required[..i], res[..i])
    {
      var col := required[i];
      ResolveOneMore(required, res, i);
      if col in normalized {
        mapping := mapping[col := normalized[col]];
      } else {
        var found := FindSynonym(normalized, col);
        assert res[i] == if found.Some? && found.value != "" then found else None;
        if found.Some? && found.value != "" {
          mapping := mapping[col := found.value];
        } else {
          missing := missing + [col];
        }
      }
      i := i + 1;
    }
    assert required[..i] == required && res[..i] == res;
  }

  /** The synonym loop of `find_columns`: the first synonym whose normal form is a header. */
  method FindSynonym(normalized: map<string, string>, col: string) returns (found: Option<string>)
    ensures found == FirstSynonym(normalized, col)
  {
    found := None;
    var alternatives := Synonyms(col);
    ghost var keys := NormalizeAll(alternatives);
    var j := 0;
    while j < |alternatives|
      invariant 0 <= j <= |alternatives|
      invariant FirstSynonym(normalized, col) == FirstHit(normalized, keys[j..])
    {
      assert keys[j..][1..] == keys[j + 1..];
      var aNorm := NormalizeHeader(alternatives[j]);
      assert aNorm == keys[j..][0];
      if aNorm in normalized {
        found := Some(normalized[aNorm]);
        return;
      }
      j := j + 1;
    }
  }

  /** Processing one more field extends `mapping` or `missing` by that field alone. */
  lemma ResolveOneMore(fields: seq<string>, res: seq<Option<string>>, i: nat)
    requires |res| == |fields| && i < |fields|
    ensures var f, m := fields[i], MappingFrom(fields[..i], res[..i]);
      MappingFrom(fields[..i + 1], res[..i + 1]) == match res[i] case Some(c) => m[f := c] case None => m
    ensures MissingFrom(fields[..i + 1], res[..i + 1])
      == MissingFrom(fields[..i], res[..i]) + (if res[i].None? then [fields[i]] else [])
  {
    assert fields[..i + 1][..i] == fields[..i] && res[..i + 1][..i] == res[..i];
  }

  /** Every required field is mapped or missing, never both: mapped exactly when it resolves. */
  lemma Partition(index: map<string, string>, required: seq<string>, f: string)
    requires f in required
    ensures f in MappingOf(index, required) <==> Resolve(index, f).Some?
    ensures f in MissingOf(index, required) <==> Resolve(index, f).None?
    ensures f in MappingOf(index, required) ==> MappingOf(index, required)[f] == Resolve(index, f).value
  {
    PartitionFrom(required, Resolutions(index, required), f, Resolve(index, f));
  }

  /** A listed field whose every occurrence has resolution `r` is mapped to `r` or missing, as `r` says. */
  lemma {:induction false} PartitionFrom(fields: seq<string>, res: seq<Option<string>>, f: string, r: Option<string>)
    requires |res| == |fields| && f in fields
    requires forall i :: 0 <= i < |fields| && fields[i] == f ==> res[i] == r
    ensures f in MappingFrom(fields, res) <==> r.Some?
    ensures f in MissingFrom(fields, res) <==> r.None?
    ensures f in MappingFrom(fields, res) ==> MappingFrom(fields, res)[f] == r.value
  {
    var n := |fields|;
    var init, rinit := fields[..n - 1], res[..n - 1];
    assert forall i :: 0 <= i < n - 1 ==> init[i] == fields[i] && rinit[i] == res[i];
    if f == fields[n - 1] {
      if f in init {
        PartitionFrom(init, rinit, f, r);
      } else {
        NotListedFrom(init, rinit, f);
      }
    } else {
      assert f in init by {
        var k :| 0 <= k < n && fields[k] == f;
        assert init[k] == f;
      }
      PartitionFrom(init, rinit, f, r);
    }
  }

  /** A field that was never listed is neither mapped nor missing. */
  lemma NotListed(index: map<string, string>, required: seq<string>, f: string)
    requires f !in required
    ensures f !in MappingOf(index, required) && f !in MissingOf(index, required)
  {
    NotListedFrom(required, Resolutions(index, required), f);
  }

  lemma {:induction false} NotListedFrom(fields: seq<string>, res: seq<Option<string>>, f: string)
    requires |res| == |fields| && f !in fields
    ensures f !in MappingFrom(fields, res) && f !in MissingFrom(fields, res)
  {
    if fields != [] {
      var n := |fields|;
      var init := fields[..n - 1];
      assert forall x :: x in init ==> x in fields;
      NotListedFrom(init, res[..n - 1], f);
    }
  }

  /**
   * Where the entries of `missing` come from: strictly increasing positions in `required`, so
   * `missing` keeps the order of `required`.
   */
  lemma MissingPositions(index: map<string, string>, required: seq<string>) returns (ps: seq<nat>)
    ensures |ps| == |MissingOf(index, required)|
    ensures forall k :: 0 <= k < |ps| ==> ps[k] < |required| && required[ps[k]] == MissingOf(index, required)[k]
    ensures forall i, j :: 0 <= i < j < |ps| ==> ps[i] < ps[j]
  {
    ps := MissingPositionsFrom(required, Resolutions(index, required));
  }

  lemma {:induction false} MissingPositionsFrom(fields: seq<string>, res: seq<Option<string>>) returns (ps: seq<nat>)
    requires |res| == |fields|
    ensures |ps| == |MissingFrom(fields, res)|
    ensures forall k :: 0 <= k < |ps| ==> ps[k] < |fields| && fields[ps[k]] == MissingFrom(fields, res)[k]
    ensures forall i, j :: 0 <= i < j < |ps| ==> ps[i] < ps[j]
  {
    if fields == [] {
      return [];
    }
    var n := |fields|;
    var init := fields[..n - 1];
    var p0 := MissingPositionsFrom(init, res[..n - 1]);
    var m0, m := MissingFrom(init, res[..n - 1]), MissingFrom(fields, res);
    forall k | 0 <= k < |p0|
      ensures p0[k] < n - 1 && fields[p0[k]] == m0[k]
    {
      assert fields[p0[k]] == init[p0[k]];
    }
    if res[n - 1].None? {
      assert m == m0 + [fields[n - 1]];
      ps := p0 + [n - 1];
      forall k | 0 <= k < |ps|
        ensures ps[k] < n && fields[ps[k]] == m[k]
      {
        if k < |p0| {
          assert ps[k] == p0[k] && m[k] == m0[k];
        }
      }
      forall i, j | 0 <= i < j < |ps|
        ensures ps[i] < ps[j]
      {
        if j < |p0| {
          assert ps[i] == p0[i] && ps[j] == p0[j];
        }
      }
    } else {
      assert m == m0;
      ps := p0;
    }
  }

  /** Every mapped value is a real column of the sheet. */
  lemma MappedAreColumns(columns: seq<string>, required: seq<string>, f: string)
    requires f in MappingOf(HeaderIndex(columns), required)
    ensures MappingOf(HeaderIndex(columns), required)[f] in columns
  {
    var index := HeaderIndex(columns);
    assert f in required by {
      if f !in required {
        NotListed(index, required, f);
      }
    }
    Partition(index, required, f);
    HeaderIndexValues(columns);
  }

  /** An exact normalised-header match beats every synonym. */
  lemma ExactFirst(index: map<string, string>, required: seq<string>, f: string)
    requires f in required && f in index
    ensures f in MappingOf(index, required) && MappingOf(index, required)[f] == index[f]
  {
    Partition(index, required, f);
  }

  /** Without an exact match, the first synonym in list order whose normal form is a header wins. */
  lemma FirstSynonymMapped(index: map<string, string>, required: seq<string>, f: string, j: nat)
    requires f in required && f !in index
    requires var keys := NormalizeAll(Synonyms(f));
      && j < |keys| && keys[j] in index && index[keys[j]] != ""
      && forall i :: 0 <= i < j ==> keys[i] !in index
    ensures var keys := NormalizeAll(Synonyms(f));
      f in MappingOf(index, required) && MappingOf(index, required)[f] == index[keys[j]]
  {
    Partition(index, required, f);
    FirstHitWins(index, NormalizeAll(Synonyms(f)));
  }

  /** A field with no exact match and no synonym that names a non-empty column is reported missing. */
  lemma UnmatchedMissing(index: map<string, string>, required: seq<string>, f: string)
    requires f in required && f !in index
    requires var keys := NormalizeAll(Synonyms(f));
      forall j :: 0 <= j < |keys| && keys[j] in index ==> index[keys[j]] == ""
    ensures f in MissingOf(index, required) && f !in MappingOf(index, required)
  {
    var keys := NormalizeAll(Synonyms(f));
    Partition(index, required, f);
    FirstHitWins(index, keys);
    if FirstSynonym(index, f).Some? {
      var j :| 0 <= j < |keys| && keys[j] in index && FirstHit(index, keys) == Some(index[keys[j]]);
      assert FirstSynonym(index, f) == Some("");
    }
  }
}
