/** The tables the three accident charts are drawn from: rows are selected,
    labelled, grouped by a key and counted (`groupby(...).agg(sum)` over a
    column of ones, or a pivot with `count`). Rendering is not modelled. */
module Charts {
  import opened Wrappers
  import opened Seqs
  import opened Accidents

  /** How many rows have key `k`. */
  function CountKey<T, K(==)>(rows: seq<T>, key: T -> Option<K>, k: K): nat
    decreases |rows|
  {
    if |rows| == 0 then 0
    else (if key(rows[0]) == Some(k) then 1 else 0) + CountKey(rows[1..], key, k)
  }

  /** A key that no row has counts zero. */
  lemma {:induction false} CountKeyAbsent<T, K>(rows: seq<T>, key: T -> Option<K>, k: K)
    requires forall i :: 0 <= i < |rows| ==> key(rows[i]) != Some(k)
    ensures CountKey(rows, key, k) == 0
    decreases |rows|
  {
    if |rows| > 0 {
      CountKeyAbsent(rows[1..], key, k);
    }
  }

  /** `groupby(key).size()`: one entry per key that occurs, holding the
      number of rows with that key. Rows whose key is missing (`None`) are
      dropped, as `groupby` drops NaN keys. */
  function GroupCount<T, K(!new)>(rows: seq<T>, key: T -> Option<K>): (m: map<K, nat>)
    ensures forall k :: k in m <==> exists i :: 0 <= i < |rows| && key(rows[i]) == Some(k)
    ensures forall k :: k in m ==> m[k] == CountKey(rows, key, k) && m[k] > 0
    decreases |rows|
  {
    if |rows| == 0 then map[]
    else
      var m := GroupCount(rows[1..], key);
      assert forall i :: 1 <= i < |rows| ==> rows[1..][i - 1] == rows[i];
      match key(rows[0])
      case None => m
      case Some(k) =>
        if k in m then m[k := m[k] + 1]
        else CountKeyAbsent(rows[1..], key, k); m[k := 1]
  }

  /** The count of a group, 0 for a group that does not occur. */
  function CountOf<K>(m: map<K, nat>, k: K): nat
  {
    if k in m then m[k] else 0
  }

  // ---------------------------------------------------------------------
  // plot_visibility

  /** Group of a row in the visibility table: its bucket and region, when
      the row is in one of the four regions and its code has a bucket. */
  function VisibilityKey(row: Accident): Option<(Visibility, string)>
  {
    if row.region !in VisibilityRegions then None
    else
      match VisibilityOf(row.p19)
      case Some(v) => Some((v, row.region))
      case None => None
  }

  /** Reference count: rows of region `reg` (one of the four) whose `p19`
      falls in bucket `v`. */
  function VisibilityCount(rows: seq<Accident>, v: Visibility, reg: string): nat
    decreases |rows|
  {
    if |rows| == 0 then 0
    else
      (if reg in VisibilityRegions && rows[0].region == reg && rows[0].p19 in VisibilityCodes(v) then 1 else 0)
      + VisibilityCount(rows[1..], v, reg)
  }

  /** Number of rows of region `reg` whose `p19` has some bucket (1 to 7). */
  function LabelledRows(rows: seq<Accident>, reg: string): nat
    decreases |rows|
  {
    if |rows| == 0 then 0
    else (if rows[0].region == reg && 1 <= rows[0].p19 <= 7 then 1 else 0) + LabelledRows(rows[1..], reg)
  }

  lemma {:induction false} VisibilityKeyCounts(rows: seq<Accident>, v: Visibility, reg: string)
    ensures CountKey(rows, VisibilityKey, (v, reg)) == VisibilityCount(rows, v, reg)
    decreases |rows|
  {
    if |rows| > 0 {
      VisibilityKeyCounts(rows[1..], v, reg);
      var r := rows[0];
      if r.region in VisibilityRegions && VisibilityOf(r.p19).Some? {
        VisibilityBucketsUnique(r.p19, v);
      }
    }
  }

  lemma VisibilityBucketsUnique(p19: int, v: Visibility)
    requires VisibilityOf(p19).Some?
    ensures VisibilityOf(p19) == Some(v) <==> p19 in VisibilityCodes(v)
  {
    var w := VisibilityOf(p19).value;
    if w != v {
      VisibilityBucketsDistinct(w, v);
    }
  }

  /** The table behind `plot_visibility`: one count per (bucket, region)
      group, counting one per row of the four regions whose code has a
      bucket; groups with no row are absent. */
  function VisibilityStats(rows: seq<Accident>): (m: map<(Visibility, string), nat>)
    ensures forall v, reg :: (v, reg) in m ==> reg in VisibilityRegions
    ensures forall v, reg :: (v, reg) in m <==> VisibilityCount(rows, v, reg) > 0
    ensures forall v, reg :: CountOf(m, (v, reg)) == VisibilityCount(rows, v, reg)
  {
    var m := GroupCount(rows, VisibilityKey);
    forall v, reg
      ensures CountKey(rows, VisibilityKey, (v, reg)) == VisibilityCount(rows, v, reg)
    {
      VisibilityKeyCounts(rows, v, reg);
    }
    CountKeyZero(rows, VisibilityKey, m);
    m
  }

  /** A key that never occurs counts zero. */
  lemma CountKeyZero<T, K(!new)>(rows: seq<T>, key: T -> Option<K>, m: map<K, nat>)
    requires m == GroupCount(rows, key)
    ensures forall k :: k !in m ==> CountKey(rows, key, k) == 0
  {
    forall k | k !in m
      ensures CountKey(rows, key, k) == 0
    {
      CountKeyAbsent(rows, key, k);
    }
  }

  /** In each region the four bucket counts add up to the region's rows
      with a visibility code from 1 to 7: every such row is counted once. */
  lemma {:induction false} VisibilityCountsAddUp(rows: seq<Accident>, reg: string)
    requires reg in VisibilityRegions
    ensures VisibilityCount(rows, DayClear, reg) + VisibilityCount(rows, DayImpaired, reg)
          + VisibilityCount(rows, NightClear, reg) + VisibilityCount(rows, NightImpaired, reg)
         == LabelledRows(rows, reg)
    decreases |rows|
  {
    if |rows| > 0 {
      VisibilityCountsAddUp(rows[1..], reg);
    }
  }

  // ---------------------------------------------------------------------
  // plot_direction

  /** Group of a selected row in the direction table: region, month and
      collision direction, when the code has a direction. */
  function DirectionKey(row: Accident): Option<(string, int, CrashType)>
  {
    match CrashTypeOf(row.p7)
    case Some(t) => Some((row.region, row.month, t))
    case None => None
  }

  /** Reference count: rows of region `reg` (one of the four), month
      `month`, with a `p7` code of direction `t`. */
  function DirectionCount(rows: seq<Accident>, reg: string, month: int, t: CrashType): nat
    decreases |rows|
  {
    if |rows| == 0 then 0
    else
      (if reg in DirectionRegions && rows[0].region == reg && rows[0].month == month
          && rows[0].p7 in CrashTypeCodes(t) then 1 else 0)
      + DirectionCount(rows[1..], reg, month, t)
  }

  lemma CrashTypeUnique(p7: int, t: CrashType)
    requires CrashTypeOf(p7).Some?
    ensures CrashTypeOf(p7) == Some(t) <==> p7 in CrashTypeCodes(t)
  {
    var u := CrashTypeOf(p7).value;
    if u != t {
      CrashTypesDistinct(u, t);
    }
  }

  /** What one row adds to a direction group: exactly the reference count's
      condition. */
  lemma DirectionRowCounts(r: Accident, reg: string, month: int, t: CrashType)
    ensures (DirectionMask(r) && DirectionKey(r) == Some((reg, month, t)))
        <==> (reg in DirectionRegions && r.region == reg && r.month == month && r.p7 in CrashTypeCodes(t))
  {
    if CrashTypeOf(r.p7).Some? {
      CrashTypeUnique(r.p7, t);
    }
  }

  lemma {:induction false} DirectionKeyCounts(rows: seq<Accident>, reg: string, month: int, t: CrashType)
    ensures CountKey(DirectionRows(rows), DirectionKey, (reg, month, t)) == DirectionCount(rows, reg, month, t)
    decreases |rows|
  {
    if |rows| > 0 {
      DirectionKeyCounts(rows[1..], reg, month, t);
      var r, rest := rows[0], DirectionRows(rows[1..]);
      DirectionRowCounts(r, reg, month, t);
      if DirectionMask(r) {
        assert DirectionRows(rows) == [r] + rest;
        assert ([r] + rest)[1..] == rest;
      } else {
        assert DirectionRows(rows) == rest;
      }
    }
  }

  /** The table behind `plot_direction`: rows with `p7` not 0 in the four
      regions, counted per (region, month, direction); codes without a
      direction are dropped. */
  function DirectionStats(rows: seq<Accident>): (m: map<(string, int, CrashType), nat>)
    ensures forall reg, month, t :: (reg, month, t) in m ==> reg in DirectionRegions
    ensures forall reg, month, t :: (reg, month, t) in m <==> DirectionCount(rows, reg, month, t) > 0
    ensures forall reg, month, t :: CountOf(m, (reg, month, t)) == DirectionCount(rows, reg, month, t)
  {
    var m := GroupCount(DirectionRows(rows), DirectionKey);
    forall reg, month, t
      ensures CountKey(DirectionRows(rows), DirectionKey, (reg, month, t)) == DirectionCount(rows, reg, month, t)
    {
      DirectionKeyCounts(rows, reg, month, t);
    }
    CountKeyZero(DirectionRows(rows), DirectionKey, m);
    m
  }

  // ---------------------------------------------------------------------
  // plot_consequences

  predicate ConsequenceMask(row: Accident)
  {
    row.region in DirectionRegions
  }

  /** Column of a row in the consequence pivot: severity, region, year and
      month of the accident. `count` skips rows whose `p9` is missing, and
      the "none" column is dropped after pivoting. */
  function ConsequenceKey(row: Accident): Option<(Severity, string, int, int)>
  {
    var s := InjuryOf(row.p13a, row.p13b, row.p13c);
    if !row.p9.Present() || s == NoInjury then None
    else Some((s, row.region, row.year, row.month))
  }

  /** Reference count: rows of region `reg` (one of the four), year `y` and
      month `mo` with a recorded `p9`, whose most serious injury is `s`,
      which is not "none". */
  function ConsequenceCount(rows: seq<Accident>, s: Severity, reg: string, y: int, mo: int): nat
    decreases |rows|
  {
    if |rows| == 0 then 0
    else
      var r := rows[0];
      (if s != NoInjury && reg in DirectionRegions && r.region == reg && r.year == y && r.month == mo
          && r.p9.Present() && Suffered(r.p13a, r.p13b, r.p13c, s)
          && forall t :: Suffered(r.p13a, r.p13b, r.p13c, t) ==> Rank(t) <= Rank(s)
       then 1 else 0)
      + ConsequenceCount(rows[1..], s, reg, y, mo)
  }

  /** The row counted by the reference is the row the pivot counts: its
      severity is the most serious one it suffered. */
  lemma ConsequenceRowCounts(r: Accident, s: Severity, reg: string, y: int, mo: int)
    ensures (ConsequenceMask(r) && ConsequenceKey(r) == Some((s, reg, y, mo)))
        <==> (s != NoInjury && reg in DirectionRegions && r.region == reg && r.year == y && r.month == mo
              && r.p9.Present() && Suffered(r.p13a, r.p13b, r.p13c, s)
              && forall t :: Suffered(r.p13a, r.p13b, r.p13c, t) ==> Rank(t) <= Rank(s))
  {
    var worst := InjuryOf(r.p13a, r.p13b, r.p13c);
    if Suffered(r.p13a, r.p13b, r.p13c, s) && (forall t :: Suffered(r.p13a, r.p13b, r.p13c, t) ==> Rank(t) <= Rank(s)) {
      assert Rank(worst) <= Rank(s) && Rank(s) <= Rank(worst);
    }
  }

  lemma {:induction false} ConsequenceKeyCounts(rows: seq<Accident>, s: Severity, reg: string, y: int, mo: int)
    ensures CountKey(Filter(rows, ConsequenceMask), ConsequenceKey, (s, reg, y, mo)) == ConsequenceCount(rows, s, reg, y, mo)
    decreases |rows|
  {
    if |rows| > 0 {
      ConsequenceKeyCounts(rows[1..], s, reg, y, mo);
      var r, rest := rows[0], Filter(rows[1..], ConsequenceMask);
      ConsequenceRowCounts(r, s, reg, y, mo);
      if ConsequenceMask(r) {
        assert Filter(rows, ConsequenceMask) == [r] + rest;
        assert ([r] + rest)[1..] == rest;
      } else {
        assert Filter(rows, ConsequenceMask) == rest;
      }
    }
  }

  /** The pivot counts of `plot_consequences` once the "none" column is
      gone: rows of the four regions counted per (severity, region, year,
      month). */
  function ConsequenceTable(rows: seq<Accident>): (m: map<(Severity, string, int, int), nat>)
    ensures forall s, reg, y, mo :: (s, reg, y, mo) in m ==> s != NoInjury && reg in DirectionRegions
    ensures forall s, reg, y, mo :: CountOf(m, (s, reg, y, mo)) == ConsequenceCount(rows, s, reg, y, mo)
  {
    var sel := Filter(rows, ConsequenceMask);
    var m := GroupCount(sel, ConsequenceKey);
    forall s, reg, y, mo
      ensures CountKey(sel, ConsequenceKey, (s, reg, y, mo)) == ConsequenceCount(rows, s, reg, y, mo)
    {
      ConsequenceKeyCounts(rows, s, reg, y, mo);
    }
    CountKeyZero(sel, ConsequenceKey, m);
    forall s, reg, y, mo | (s, reg, y, mo) in m
      ensures s != NoInjury && reg in DirectionRegions
    {
      var i :| 0 <= i < |sel| && ConsequenceKey(sel[i]) == Some((s, reg, y, mo));
      assert sel[i] in rows && ConsequenceMask(sel[i]);
    }
    m
  }

  /** A row of the four regions whose most serious injury is `s`: it gives
      the pivot a column for that severity. */
  predicate OfSeverity(row: Accident, s: Severity)
  {
    ConsequenceMask(row) && InjuryOf(row.p13a, row.p13b, row.p13c) == s
  }

  /** Some row of `rows` has severity `s` in the four regions. */
  predicate SeverityPresent(rows: seq<Accident>, s: Severity)
  {
    exists x :: x in rows && OfSeverity(x, s)
  }

  /** Some row of `sel` has `s` as its most serious injury. */
  predicate InjuryIn(sel: seq<Accident>, s: Severity)
  {
    exists x :: x in sel && InjuryOf(x.p13a, x.p13b, x.p13c) == s
  }

  /** The monthly table behind `plot_consequences`. Dropping the "none"
      column fails when the pivot has no such column, and the melt into
      long form fails when one of the three injury columns is missing; so
      the call succeeds exactly when every severity, "none" included, has a
      row in the four regions. Then no group has the "none" severity, and
      each group counts the rows with a recorded `p9` whose most serious
      injury is that severity. */
  function ConsequenceStats(rows: seq<Accident>): (r: Option<map<(Severity, string, int, int), nat>>)
    ensures r.Some? <==> forall s :: SeverityPresent(rows, s)
    ensures r.Some? ==> forall s, reg, y, mo :: (s, reg, y, mo) in r.value ==> s != NoInjury && reg in DirectionRegions
    ensures r.Some? ==> forall s, reg, y, mo :: CountOf(r.value, (s, reg, y, mo)) == ConsequenceCount(rows, s, reg, y, mo)
  {
    var sel := Filter(rows, ConsequenceMask);
    assert forall s :: SeverityPresent(rows, s) <==> InjuryIn(sel, s) by {
      forall s ensures SeverityPresent(rows, s) <==> InjuryIn(sel, s) {
        if InjuryIn(sel, s) {
          var x :| x in sel && InjuryOf(x.p13a, x.p13b, x.p13c) == s;
          assert OfSeverity(x, s);
        }
      }
    }
    if InjuryIn(sel, NoInjury) && InjuryIn(sel, LightInjury) && InjuryIn(sel, SevereInjury) && InjuryIn(sel, Fatal) then
      Some(ConsequenceTable(rows))
    else None
  }
}
