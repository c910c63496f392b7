/** The accident table of the second exercise: the fixed region table and
    the tagging done while loading, the cleaning step of `parse_data`, and
    the code-to-label rules of the three charts. A row is a record of the
    columns those rules read; the accident date is given as its year and
    month. */
module Accidents {
  import opened Wrappers
  import opened Seqs
  import opened Numeric

  /** One accident row. `p1` is the accident identifier; `region` is the tag
      added while loading; `d` and `e` are the coordinates. */
  datatype Accident = Accident(
    p1: int, region: string, p7: int, p9: Cell, p11: Cell,
    p13a: int, p13b: int, p13c: int, p19: int,
    year: int, month: int, d: Cell, e: Cell)

  // ---------------------------------------------------------------------
  // load_data: region table and tagging

  /** Region abbreviation and the two-digit code naming its CSV file, in
      the order `load_data` visits them. */
  const RegionTable: seq<(string, string)> := [
    ("PHA", "00"), ("STC", "01"), ("JHC", "02"), ("PLK", "03"), ("ULK", "04"),
    ("HKK", "05"), ("JHM", "06"), ("MSK", "07"), ("OLK", "14"), ("ZLK", "15"),
    ("VYS", "16"), ("PAK", "17"), ("LBK", "18"), ("KVK", "19")]

  function RegionNames(): seq<string>
  {
    seq(|RegionTable|, i requires 0 <= i < |RegionTable| => RegionTable[i].0)
  }

  /** The region table is a one-to-one map between 14 names and 14 codes. */
  lemma RegionTableIsBijective()
    ensures |RegionTable| == 14
    ensures forall i, j :: 0 <= i < j < |RegionTable| ==> RegionTable[i].0 != RegionTable[j].0
    ensures forall i, j :: 0 <= i < j < |RegionTable| ==> RegionTable[i].1 != RegionTable[j].1
  {
  }

  /** Two positions of the table carry two different region names. */
  lemma RegionNamesDiffer(i: nat, j: nat)
    requires i < |RegionTable| && j < |RegionTable| && i != j
    ensures RegionTable[i].0 != RegionTable[j].0
  {
    RegionTableIsBijective();
    if j < i {
      assert RegionTable[j].0 != RegionTable[i].0;
    }
  }

  /** The file of a region inside one yearly archive: `f'{code}.csv'`. */
  function CsvName(code: string): string
  {
    code + ".csv"
  }

  /** A yearly archive: the rows of each CSV file it contains, by file name. */
  type Archive = map<string, seq<Accident>>

  /** `df["region"] = name`: every row tagged with the region name. */
  function Tag(rows: seq<Accident>, name: string): seq<Accident>
  {
    seq(|rows|, i requires 0 <= i < |rows| => rows[i].(region := name))
  }

  /** The archive holds the files of the regions from position `from` of
      the table on. */
  predicate HasRegionFiles(zip: Archive, from: nat)
  {
    forall j :: from <= j < |RegionTable| ==> CsvName(RegionTable[j].1) in zip
  }

  /** The rows of one yearly archive, file by file in table order from
      position `from`; a missing file makes `zip.open` fail. */
  function LoadArchive(zip: Archive, from: nat): (r: Option<seq<Accident>>)
    requires from <= |RegionTable|
    ensures r.Some? <==> HasRegionFiles(zip, from)
    ensures r.Some? ==> forall row :: row in r.value ==> row.region in RegionNames()
    decreases |RegionTable| - from
  {
    if from == |RegionTable| then Some([])
    else
      var file := CsvName(RegionTable[from].1);
      if file !in zip then None
      else
        match LoadArchive(zip, from + 1)
        case None => None
        case Some(rest) =>
          assert RegionNames()[from] == RegionTable[from].0;
          Some(Tag(zip[file], RegionTable[from].0) + rest)
  }

  /** The yearly archives in turn, each read in table order, concatenated. */
  function LoadArchives(archives: seq<Archive>): (r: Option<seq<Accident>>)
    ensures r.Some? <==> forall i :: 0 <= i < |archives| ==> HasRegionFiles(archives[i], 0)
    ensures r.Some? ==> forall row :: row in r.value ==> row.region in RegionNames()
    decreases |archives|
  {
    if |archives| == 0 then Some([])
    else
      match LoadArchive(archives[0], 0)
      case None => None
      case Some(first) =>
        match LoadArchives(archives[1..])
        case None => None
        case Some(rest) => Some(first + rest)
  }

  /** `load_data`: every yearly archive in turn, concatenated. It fails
      when there is no archive at all (`pd.concat` of no frames) and when
      some archive lacks the file of some region; every row it returns is
      tagged with one of the 14 region names. */
  function LoadData(archives: seq<Archive>): (r: Option<seq<Accident>>)
    ensures r.Some? <==> |archives| > 0 && forall i :: 0 <= i < |archives| ==> HasRegionFiles(archives[i], 0)
    ensures r.Some? ==> forall row :: row in r.value ==> row.region in RegionNames()
  {
    if |archives| == 0 then None else LoadArchives(archives)
  }

  /** The mask selecting the rows of one region. */
  function InRegion(name: string): Accident -> bool
  {
    (row: Accident) => row.region == name
  }

  lemma {:induction false} FilterTag(rows: seq<Accident>, tag: string, name: string)
    ensures Filter(Tag(rows, tag), InRegion(name)) == if tag == name then Tag(rows, tag) else []
    decreases |rows|
  {
    if |rows| > 0 {
      FilterTag(rows[1..], tag, name);
      assert Tag(rows, tag)[1..] == Tag(rows[1..], tag);
    }
  }

  /** The rows a yearly archive contributes to region `j` of the table. */
  function ArchiveRegionRows(zip: Archive, j: nat): seq<Accident>
    requires j < |RegionTable|
  {
    var file := CsvName(RegionTable[j].1);
    if file in zip then Tag(zip[file], RegionTable[j].0) else []
  }

  lemma {:induction false} LoadArchiveRegion(zip: Archive, from: nat, j: nat)
    requires from <= |RegionTable| && j < |RegionTable|
    requires LoadArchive(zip, from).Some?
    ensures Filter(LoadArchive(zip, from).value, InRegion(RegionTable[j].0))
         == if from <= j then ArchiveRegionRows(zip, j) else []
    decreases |RegionTable| - from
  {
    if from < |RegionTable| {
      var file := CsvName(RegionTable[from].1);
      var rest := LoadArchive(zip, from + 1).value;
      LoadArchiveRegion(zip, from + 1, j);
      FilterAppend(Tag(zip[file], RegionTable[from].0), rest, InRegion(RegionTable[j].0));
      FilterTag(zip[file], RegionTable[from].0, RegionTable[j].0);
      if from != j {
        RegionNamesDiffer(from, j);
      }
    }
  }

  /** Region `j`'s rows across all yearly archives, archive by archive. */
  function RegionRows(archives: seq<Archive>, j: nat): seq<Accident>
    requires j < |RegionTable|
    decreases |archives|
  {
    if |archives| == 0 then [] else ArchiveRegionRows(archives[0], j) + RegionRows(archives[1..], j)
  }

  lemma {:induction false} LoadArchivesByRegion(archives: seq<Archive>, j: nat)
    requires j < |RegionTable|
    requires LoadArchives(archives).Some?
    ensures Filter(LoadArchives(archives).value, InRegion(RegionTable[j].0)) == RegionRows(archives, j)
    decreases |archives|
  {
    if |archives| > 0 {
      var first := LoadArchive(archives[0], 0).value;
      var rest := LoadArchives(archives[1..]).value;
      LoadArchivesByRegion(archives[1..], j);
      LoadArchiveRegion(archives[0], 0, j);
      FilterAppend(first, rest, InRegion(RegionTable[j].0));
    }
  }

  /** The tagging rule: the loaded rows tagged with a region's name are
      exactly the rows of that region's CSV file in each yearly archive, in
      archive order and file order. */
  lemma LoadDataByRegion(archives: seq<Archive>, j: nat)
    requires j < |RegionTable|
    requires LoadData(archives).Some?
    ensures Filter(LoadData(archives).value, InRegion(RegionTable[j].0)) == RegionRows(archives, j)
  {
    LoadArchivesByRegion(archives, j);
  }

  // ---------------------------------------------------------------------
  // parse_data: duplicate removal on p1 and numeric coordinates

  /** Row `i` is the first occurrence of its identifier. */
  predicate IsFirst(rows: seq<Accident>, i: nat)
    requires i < |rows|
  {
    forall k :: 0 <= k < i ==> rows[k].p1 != rows[i].p1
  }

  /** The positions, in increasing order, of the first occurrence of each
      identifier among the first `n` rows: what `drop_duplicates(subset="p1",
      keep="first")` keeps. */
  function FirstIndices(rows: seq<Accident>, n: nat): (idx: seq<nat>)
    requires n <= |rows|
    ensures forall j :: 0 <= j < |idx| ==> idx[j] < n && IsFirst(rows, idx[j])
    ensures forall j, k :: 0 <= j < k < |idx| ==> idx[j] < idx[k]
    ensures forall i :: 0 <= i < n && IsFirst(rows, i) ==> i in idx
    decreases n
  {
    if n == 0 then []
    else FirstIndices(rows, n - 1) + (if IsFirst(rows, n - 1) then [n - 1] else [])
  }

  /** Every row has a first occurrence of its identifier at or before it. */
  lemma {:induction false} FirstOccurrence(rows: seq<Accident>, i: nat) returns (f: nat)
    requires i < |rows|
    ensures f <= i && rows[f].p1 == rows[i].p1 && IsFirst(rows, f)
    decreases i
  {
    if IsFirst(rows, i) {
      f := i;
    } else {
      var k :| 0 <= k < i && rows[k].p1 == rows[i].p1;
      f := FirstOccurrence(rows, k);
    }
  }

  /** `pd.to_numeric(..., errors="coerce")` on the coordinate columns:
      `d` and `e` are coerced as `Coerce` states, and every other column is
      unchanged. */
  function CleanRow(row: Accident): (r: Accident)
    ensures r.(d := row.d, e := row.e) == row
    ensures r.d == Coerce(row.d) && r.e == Coerce(row.e)
  {
    row.(d := Coerce(row.d), e := Coerce(row.e))
  }

  /** The kept rows have pairwise distinct identifiers. */
  lemma FirstIndicesDistinctIds(rows: seq<Accident>, idx: seq<nat>)
    requires idx == FirstIndices(rows, |rows|)
    ensures forall j, k :: 0 <= j < k < |idx| ==> rows[idx[j]].p1 != rows[idx[k]].p1
  {
  }

  /** Every identifier of the input is among the kept rows. */
  lemma FirstIndicesCoverIds(rows: seq<Accident>, idx: seq<nat>)
    requires idx == FirstIndices(rows, |rows|)
    ensures forall i :: 0 <= i < |rows| ==> exists j :: 0 <= j < |idx| && rows[idx[j]].p1 == rows[i].p1
  {
    forall i | 0 <= i < |rows|
      ensures exists j :: 0 <= j < |idx| && rows[idx[j]].p1 == rows[i].p1
    {
      var f := FirstOccurrence(rows, i);
      assert f in idx;
      var j :| 0 <= j < |idx| && idx[j] == f;
      assert rows[idx[j]].p1 == rows[i].p1;
    }
  }

  /** The cleaned first occurrences among the first `n` rows, in input
      order: the reference result of `parse_data` on a prefix. */
  function Deduplicated(rows: seq<Accident>, n: nat): seq<Accident>
    requires n <= |rows|
    decreases n
  {
    if n == 0 then []
    else Deduplicated(rows, n - 1) + (if IsFirst(rows, n - 1) then [CleanRow(rows[n - 1])] else [])
  }

  /** The deduplicated prefix holds, position by position, the cleaned rows
      at the first-occurrence positions. */
  lemma {:induction false} DeduplicatedAt(rows: seq<Accident>, n: nat)
    requires n <= |rows|
    ensures |Deduplicated(rows, n)| == |FirstIndices(rows, n)|
    ensures forall j :: 0 <= j < |FirstIndices(rows, n)| ==>
      Deduplicated(rows, n)[j] == CleanRow(rows[FirstIndices(rows, n)[j]])
    decreases n
  {
    if n > 0 {
      DeduplicatedAt(rows, n - 1);
    }
  }

  /** The identifiers of the first `i` rows. */
  function IdsBefore(rows: seq<Accident>, i: nat): set<int>
    requires i <= |rows|
  {
    set k | 0 <= k < i :: rows[k].p1
  }

  /** A row is the first of its identifier exactly when the identifier was
      not seen before it; afterwards it has been seen. */
  lemma IdsBeforeStep(rows: seq<Accident>, i: nat)
    requires i < |rows|
    ensures rows[i].p1 in IdsBefore(rows, i) <==> !IsFirst(rows, i)
    ensures IdsBefore(rows, i + 1) == IdsBefore(rows, i) + {rows[i].p1}
  {
    if rows[i].p1 in IdsBefore(rows, i) {
      var k :| 0 <= k < i && rows[k].p1 == rows[i].p1;
    }
  }

  /** The single pass of `parse_data`: a set of identifiers seen so far
      decides whether a row is the first of its identifier. */
  method DropDuplicatesAndCoerce(rows: seq<Accident>) returns (out: seq<Accident>)
    ensures out == Deduplicated(rows, |rows|)
  {
    var seen: set<int> := {};
    out := [];
    var i := 0;
    while i < |rows|
      invariant 0 <= i <= |rows|
      invariant out == Deduplicated(rows, i)
      invariant seen == IdsBefore(rows, i)
    {
      IdsBeforeStep(rows, i);
      if rows[i].p1 !in seen {
        out := out + [CleanRow(rows[i])];
      }
      seen := seen + {rows[i].p1};
      i := i + 1;
    }
  }

  /** No two deduplicated rows share an identifier. */
  lemma DeduplicatedDistinctIds(rows: seq<Accident>)
    ensures var out := Deduplicated(rows, |rows|);
      forall j, k :: 0 <= j < k < |out| ==> out[j].p1 != out[k].p1
  {
    var idx := FirstIndices(rows, |rows|);
    DeduplicatedAt(rows, |rows|);
    FirstIndicesDistinctIds(rows, idx);
  }

  /** Every identifier of the input survives deduplication. */
  lemma DeduplicatedCoverIds(rows: seq<Accident>)
    ensures var out := Deduplicated(rows, |rows|);
      forall i :: 0 <= i < |rows| ==> exists j :: 0 <= j < |out| && out[j].p1 == rows[i].p1
  {
    var out := Deduplicated(rows, |rows|);
    var idx := FirstIndices(rows, |rows|);
    DeduplicatedAt(rows, |rows|);
    FirstIndicesCoverIds(rows, idx);
    forall i | 0 <= i < |rows|
      ensures exists j :: 0 <= j < |out| && out[j].p1 == rows[i].p1
    {
      var j :| 0 <= j < |idx| && rows[idx[j]].p1 == rows[i].p1;
      assert out[j] == CleanRow(rows[idx[j]]);
    }
  }

  /** No deduplicated row has a coordinate left as text. */
  lemma DeduplicatedNoText(rows: seq<Accident>)
    ensures var out := Deduplicated(rows, |rows|);
      forall j :: 0 <= j < |out| ==> !out[j].d.Text? && !out[j].e.Text?
  {
    DeduplicatedAt(rows, |rows|);
  }

  /** `parse_data`: keep the first row of each identifier in input order and
      coerce `d` and `e` to numbers. The input sequence is a value, so it is
      left as it was. */
  method ParseData(rows: seq<Accident>) returns (out: seq<Accident>)
    ensures |out| == |FirstIndices(rows, |rows|)|
    ensures forall j :: 0 <= j < |out| ==> out[j] == CleanRow(rows[FirstIndices(rows, |rows|)[j]])
    ensures forall j, k :: 0 <= j < k < |out| ==> out[j].p1 != out[k].p1
    ensures forall i :: 0 <= i < |rows| ==> exists j :: 0 <= j < |out| && out[j].p1 == rows[i].p1
    ensures forall j :: 0 <= j < |out| ==> !out[j].d.Text? && !out[j].e.Text?
  {
    out := DropDuplicatesAndCoerce(rows);
    DeduplicatedAt(rows, |rows|);
    DeduplicatedDistinctIds(rows);
    DeduplicatedCoverIds(rows);
    DeduplicatedNoText(rows);
  }

  // ---------------------------------------------------------------------
  // Chart labels

  /** Visibility buckets of `p19` (day/night, clear/impaired). */
  datatype Visibility = DayClear | DayImpaired | NightClear | NightImpaired

  function VisibilityName(v: Visibility): string
  {
    match v
    case DayClear => "ve dne - nezhoršená"
    case DayImpaired => "ve dne - zhoršená"
    case NightClear => "v noci - nezhoršená"
    case NightImpaired => "v noci - zhoršená"
  }

  /** The `p19` codes of each visibility bucket. */
  function VisibilityCodes(v: Visibility): set<int>
  {
    match v
    case DayClear => {1}
    case DayImpaired => {2, 3}
    case NightClear => {4, 6}
    case NightImpaired => {5, 7}
  }

  /** `replace_conditions`: codes 1 to 7 get the bucket whose code set holds
      them; any other code gets no label (`None`). */
  function VisibilityOf(p19: int): (r: Option<Visibility>)
    ensures r.Some? <==> 1 <= p19 <= 7
    ensures r.Some? ==> p19 in VisibilityCodes(r.value)
  {
    if p19 == 1 then Some(DayClear)
    else if p19 == 2 || p19 == 3 then Some(DayImpaired)
    else if p19 == 4 || p19 == 6 then Some(NightClear)
    else if p19 == 5 || p19 == 7 then Some(NightImpaired)
    else None
  }

  /** The code sets are disjoint, so a code determines its bucket, and the
      bucket names are distinct labels. */
  lemma VisibilityBucketsDistinct(v: Visibility, w: Visibility)
    requires v != w
    ensures VisibilityCodes(v) !! VisibilityCodes(w)
    ensures VisibilityName(v) != VisibilityName(w)
  {
  }

  /** Collision directions of `p7`. */
  datatype CrashType = HeadOn | Side | Rear

  function CrashTypeName(t: CrashType): string
  {
    match t
    case HeadOn => "čelní"
    case Side => "boční"
    case Rear => "zezadu"
  }

  function CrashTypeCodes(t: CrashType): set<int>
  {
    match t
    case HeadOn => {1}
    case Side => {2, 3}
    case Rear => {4}
  }

  /** `replace_crash_type`: codes 1 to 4 get the direction whose code set
      holds them; any other code gets no label. */
  function CrashTypeOf(p7: int): (r: Option<CrashType>)
    ensures r.Some? <==> 1 <= p7 <= 4
    ensures r.Some? ==> p7 in CrashTypeCodes(r.value)
  {
    if p7 == 1 then Some(HeadOn)
    else if p7 == 2 || p7 == 3 then Some(Side)
    else if p7 == 4 then Some(Rear)
    else None
  }

  lemma CrashTypesDistinct(t: CrashType, u: CrashType)
    requires t != u
    ensures CrashTypeCodes(t) !! CrashTypeCodes(u)
    ensures CrashTypeName(t) != CrashTypeName(u)
  {
  }

  /** Injury severity, from the most to the least serious. */
  datatype Severity = Fatal | SevereInjury | LightInjury | NoInjury

  function SeverityName(s: Severity): string
  {
    match s
    case Fatal => "Usmrcení"
    case SevereInjury => "Těžké zranění"
    case LightInjury => "Lehké zranění"
    case NoInjury => "Žádné"
  }

  function Rank(s: Severity): nat
  {
    match s
    case Fatal => 3
    case SevereInjury => 2
    case LightInjury => 1
    case NoInjury => 0
  }

  /** The accident has victims of category `s` (killed `p13a`, severely
      injured `p13b`, lightly injured `p13c`); "none" always applies. */
  predicate Suffered(p13a: int, p13b: int, p13c: int, s: Severity)
  {
    match s
    case Fatal => p13a > 0
    case SevereInjury => p13b > 0
    case LightInjury => p13c > 0
    case NoInjury => true
  }

  /** `injury_to_text`: the most serious category the accident has victims
      of; "none" when nobody was hurt. */
  function InjuryOf(p13a: int, p13b: int, p13c: int): (r: Severity)
    ensures Suffered(p13a, p13b, p13c, r)
    ensures forall s :: Suffered(p13a, p13b, p13c, s) ==> Rank(s) <= Rank(r)
  {
    if p13a > 0 then Fatal
    else if p13b > 0 then SevereInjury
    else if p13c > 0 then LightInjury
    else NoInjury
  }

  // ---------------------------------------------------------------------
  // Row selections of the charts

  /** Regions of the visibility chart. */
  const VisibilityRegions: seq<string> := ["JHC", "PHA", "PLK", "STC"]

  /** Regions of the direction and consequence charts. */
  const DirectionRegions: seq<string> := ["OLK", "PAK", "VYS", "ZLK"]

  predicate DirectionMask(row: Accident)
  {
    row.region in DirectionRegions && row.p7 != 0
  }

  /** The rows `plot_direction` keeps: a collision between moving vehicles
      (`p7` not 0) in one of its four regions, in input order. */
  function DirectionRows(rows: seq<Accident>): (r: seq<Accident>)
    ensures forall x :: x in r <==> x in rows && x.p7 != 0 && x.region in DirectionRegions
    ensures forall x :: multiset(r)[x] == if DirectionMask(x) then multiset(rows)[x] else 0
  {
    FilterMultiset(rows, DirectionMask);
    Filter(rows, DirectionMask)
  }

  /** The selection keeps input order: selecting from two tables one after
      the other is selecting from each and concatenating. */
  lemma DirectionRowsAppend(a: seq<Accident>, b: seq<Accident>)
    ensures DirectionRows(a + b) == DirectionRows(a) + DirectionRows(b)
  {
    FilterAppend(a, b, DirectionMask);
  }
}
