/**
 * The motif-report reader of the analysis script (`read_motif_data`).
 *
 * For every seed it opens the report the motif finder wrote for that seed's
 * edge file, skips to the line that starts the motif table, reads thirteen
 * two-line records, drops the records whose z-score is the sentinel
 * `888888`, maps each remaining motif id to its class through a fixed
 * table, divides the seed's kept z-scores by their common norm and appends
 * one value per kept class to that class's list.
 *
 * A report is a sequence of lines, and the reports present are given per
 * seed; `float()` is the parameter `toFloat`; the
 * norm is kept symbolic (the square root is not computed), so a normalised
 * score is the pair of its raw z-score and the norm it is divided by, and
 * unit length is stated on squares.
 */
module AnalysisTool {
  import opened Wrappers
  import opened Decimal
  import opened PyStr
  import EdgeFile

  /** Number of three-node motif classes, and of records in a report's table. */
  const ClassCount: nat := 13

  /** Motif id to class index: the class is plotted at x = 2 * index. */
  const Id2X: map<int, nat> :=
    map[6 := 0, 36 := 1, 12 := 2, 74 := 3, 14 := 4, 78 := 5, 38 := 6,
        98 := 7, 108 := 8, 46 := 9, 102 := 10, 110 := 11, 238 := 12]

  /** Motif ids in the order their glyphs are drawn below the axis. */
  const DrawOrder: seq<int> := [6, 36, 12, 74, 14, 78, 38, 98, 108, 46, 102, 110, 238]

  /** The id table and the drawing order describe the same thirteen classes. */
  lemma TablesInverse()
    ensures |DrawOrder| == ClassCount
    ensures forall i :: 0 <= i < |DrawOrder| ==> DrawOrder[i] in Id2X && Id2X[DrawOrder[i]] == i
    ensures forall id :: id in Id2X ==> Id2X[id] < ClassCount && DrawOrder[Id2X[id]] == id
    ensures forall i, j :: 0 <= i < j < |DrawOrder| ==> DrawOrder[i] != DrawOrder[j]
  {
  }

  /** The x positions of the thirteen classes. */
  function XAxis(): seq<int>
  {
    seq(ClassCount, i => 2 * i)
  }

  /**
   * The list of the motif drawn i-th sits at x = 2 * i, where the plot puts
   * the violin and error bar of list i: values and motif glyphs line up.
   */
  lemma XAxisAligned()
    ensures forall i :: 0 <= i < ClassCount ==>
      DrawOrder[i] in Id2X && Id2X[DrawOrder[i]] < |XAxis()| && XAxis()[Id2X[DrawOrder[i]]] == 2 * i
  {
    TablesInverse();
  }

  // ----- Reports -----------------------------------------------------------

  /** The header line that opens the motif table (fields separated by tabs). */
  const Marker: string := "ID\t\tSTATS\t\tZSCORE\tPVAL\t[MILI]"

  /** The z-score the motif finder prints for a motif it did not evaluate. */
  const Sentinel: string := "888888"

  /** A line whose first |Marker| characters are the marker. */
  predicate IsMarkerLine(line: string)
  {
    Marker <= line
  }

  /** The first marker line at or after index i, if any. */
  function MarkerFrom(lines: seq<string>, i: nat): (r: Option<nat>)
    requires i <= |lines|
    ensures r.Some? ==> i <= r.value < |lines| && IsMarkerLine(lines[r.value])
    ensures r.Some? ==> forall k :: i <= k < r.value ==> !IsMarkerLine(lines[k])
    ensures r.None? <==> forall k :: i <= k < |lines| ==> !IsMarkerLine(lines[k])
    decreases |lines| - i
  {
    if i == |lines| then None
    else if IsMarkerLine(lines[i]) then Some(i)
    else MarkerFrom(lines, i + 1)
  }

  /** The index of the report's first marker line, if any. */
  function FirstMarker(lines: seq<string>): Option<nat>
  {
    MarkerFrom(lines, 0)
  }

  /** The line iterator stops right after the first marker line. */
  method SkipToMarker(lines: seq<string>) returns (r: Option<nat>)
    ensures r == FirstMarker(lines)
    ensures r.Some? ==> r.value < |lines| && IsMarkerLine(lines[r.value])
    ensures r.Some? ==> forall k :: 0 <= k < r.value ==> !IsMarkerLine(lines[k])
    ensures r.None? ==> forall k :: 0 <= k < |lines| ==> !IsMarkerLine(lines[k])
  {
    var i := 0;
    while i < |lines|
      invariant 0 <= i <= |lines|
      invariant MarkerFrom(lines, i) == FirstMarker(lines)
    {
      if IsMarkerLine(lines[i]) {
        return Some(i);
      }
      i := i + 1;
    }
    return None;
  }

  /** `readline()`: the line at index i, or "" once the report is exhausted. */
  function LineAt(lines: seq<string>, i: nat): string
  {
    if i < |lines| then lines[i] else ""
  }

  /** The exceptions the reader can raise. */
  datatype ReadError =
    | MissingFile(name: string)   // the report for a seed does not exist
    | MissingToken                // a data line has fewer tokens than indexed
    | BadInt(token: string)       // the motif id is not an integer
    | BadFloat(token: string)     // the z-score is not a number
    | UnknownMotif(id: int)       // the motif id is not in the table

  /**
   * One data line: its class and raw z-score, None for a sentinel record.
   * Token 0 is converted before token 3 is indexed, and the z-score is
   * converted before the id is looked up.
   */
  function ParseRecord(line: string, toFloat: string -> Option<real>): (r: Result<Option<(nat, real)>, ReadError>)
    ensures r.Ok? && r.value.Some? ==> r.value.value.0 < ClassCount
  {
    var vals := Tokens(line);
    if |vals| == 0 then Err(MissingToken)
    else match ParseInt(vals[0])
      case None => Err(BadInt(vals[0]))
      case Some(id) =>
        if |vals| < 4 then Err(MissingToken)
        else if vals[3] == Sentinel then Ok(None)
        else match toFloat(vals[3])
          case None => Err(BadFloat(vals[3]))
          case Some(z) =>
            if id in Id2X then Ok(Some((Id2X[id], z))) else Err(UnknownMotif(id))
  }

  /**
   * A record is dropped exactly when it is well formed up to token 3 and
   * token 3 is the sentinel; a kept record carries the class of its id and
   * the value of token 3; an unknown id is an error only for a non-sentinel
   * record with a readable z-score. Conversely, a line with at least four
   * tokens, an integer id found in the table and a readable token 3 other
   * than the sentinel is kept under that id's class with that value.
   */
  lemma ParseRecordMeaning(line: string, toFloat: string -> Option<real>)
    ensures ParseRecord(line, toFloat).Ok? ==> |Tokens(line)| >= 4 && ParseInt(Tokens(line)[0]).Some?
    ensures ParseRecord(line, toFloat) == Ok(None) <==>
      |Tokens(line)| >= 4 && ParseInt(Tokens(line)[0]).Some? && Tokens(line)[3] == Sentinel
    ensures ParseRecord(line, toFloat).Ok? && ParseRecord(line, toFloat).value.Some? ==>
      && Tokens(line)[3] != Sentinel
      && toFloat(Tokens(line)[3]) == Some(ParseRecord(line, toFloat).value.value.1)
      && ParseInt(Tokens(line)[0]).value in Id2X
      && Id2X[ParseInt(Tokens(line)[0]).value] == ParseRecord(line, toFloat).value.value.0
    ensures ParseRecord(line, toFloat).Err? && ParseRecord(line, toFloat).error.UnknownMotif? ==>
      |Tokens(line)| >= 4 && Tokens(line)[3] != Sentinel && toFloat(Tokens(line)[3]).Some?
    ensures
      && |Tokens(line)| >= 4
      && ParseInt(Tokens(line)[0]).Some?
      && ParseInt(Tokens(line)[0]).value in Id2X
      && Tokens(line)[3] != Sentinel
      && toFloat(Tokens(line)[3]).Some?
      ==> ParseRecord(line, toFloat) ==
            Ok(Some((Id2X[ParseInt(Tokens(line)[0]).value], toFloat(Tokens(line)[3]).value)))
  {
  }

  /** A field the tokenizer keeps whole. */
  predicate Field(s: string)
  {
    |s| > 0 && NoSpace(s)
  }

  lemma DecimalIsField(n: nat)
    ensures Field(NatToString(n)) && ParseInt(NatToString(n)) == Some(n as int)
  {
    ParseNatToString(n);
  }

  /** The fields of a record row, the decimal motif id first. */
  predicate RecordFields(fields: seq<string>)
  {
    forall k :: 0 <= k < |fields| ==> |fields[k]| > 0 && NoSpace(fields[k])
  }

  lemma SentinelIsField()
    ensures Field(Sentinel)
  {
    assert forall i :: 0 <= i < |Sentinel| ==> Sentinel[i] == '8';
  }

  lemma RowFields(id: nat, f1: string, f2: string, zText: string, rest: seq<string>)
    requires Field(f1) && Field(f2) && Field(zText)
    requires forall k :: 0 <= k < |rest| ==> Field(rest[k])
    ensures RecordFields([NatToString(id), f1, f2, zText] + rest)
  {
    DecimalIsField(id);
  }

  /**
   * A sentinel record is dropped whatever its motif id is, known or not, and
   * whatever white space separates the fields or surrounds them (the table's
   * double tabs, the line break `readline` keeps).
   */
  lemma SentinelRecordDropped(id: nat, f1: string, f2: string, rest: seq<string>, gaps: seq<string>, toFloat: string -> Option<real>)
    requires Field(f1) && Field(f2)
    requires forall k :: 0 <= k < |rest| ==> Field(rest[k])
    requires |gaps| == |rest| + 5 && SpaceGaps(gaps)
    ensures ParseRecord(Spaced([NatToString(id), f1, f2, Sentinel] + rest, gaps), toFloat) == Ok(None)
  {
    var fields := [NatToString(id), f1, f2, Sentinel] + rest;
    SentinelIsField();
    RowFields(id, f1, f2, Sentinel, rest);
    TokensSpaced(fields, gaps);
    var line := Spaced(fields, gaps);
    assert Tokens(line)[0] == NatToString(id);
    DecimalIsField(id);
  }

  /**
   * A known motif with a readable z-score other than the sentinel yields its
   * class and that z-score, whatever white space separates and surrounds the
   * fields.
   */
  lemma KnownRecordKept(id: nat, f1: string, f2: string, zText: string, rest: seq<string>, gaps: seq<string>, toFloat: string -> Option<real>)
    requires id in Id2X
    requires Field(f1) && Field(f2) && Field(zText) && zText != Sentinel
    requires forall k :: 0 <= k < |rest| ==> Field(rest[k])
    requires |gaps| == |rest| + 5 && SpaceGaps(gaps)
    requires toFloat(zText).Some?
    ensures ParseRecord(Spaced([NatToString(id), f1, f2, zText] + rest, gaps), toFloat)
      == Ok(Some((Id2X[id], toFloat(zText).value)))
  {
    var fields := [NatToString(id), f1, f2, zText] + rest;
    RowFields(id, f1, f2, zText, rest);
    TokensSpaced(fields, gaps);
    var line := Spaced(fields, gaps);
    assert Tokens(line)[0] == NatToString(id) && Tokens(line)[3] == zText;
    DecimalIsField(id);
    ParseRecordMeaning(line, toFloat);
  }

  // ----- The thirteen records of one report --------------------------------

  /** The data line of record j when the table starts at line `start`. */
  function RecordLine(lines: seq<string>, start: nat, j: nat): string
  {
    LineAt(lines, start + 2 * j)
  }

  /** What one record contributes: a class and z-score, nothing, or an exception. */
  type RecordResult = Result<Option<(nat, real)>, ReadError>

  /** The outcomes of the thirteen records of a table that starts at line `start`. */
  function TableRecords(lines: seq<string>, start: nat, toFloat: string -> Option<real>): (rs: seq<RecordResult>)
    ensures |rs| == ClassCount
  {
    seq(ClassCount, j requires 0 <= j < ClassCount => ParseRecord(RecordLine(lines, start, j), toFloat))
  }

  /** Every kept record names one of the thirteen classes. */
  predicate Classed(rs: seq<RecordResult>)
  {
    forall j :: 0 <= j < |rs| && rs[j].Ok? && rs[j].value.Some? ==> rs[j].value.value.0 < ClassCount
  }

  lemma TableRecordsClassed(lines: seq<string>, start: nat, toFloat: string -> Option<real>)
    ensures Classed(TableRecords(lines, start, toFloat))
  {
  }

  /** One record applied to the dictionary built so far: `motif_z[id2x[id]] = z`, skip, or the exception. */
  function Step(acc: Result<map<nat, real>, ReadError>, record: RecordResult): Result<map<nat, real>, ReadError>
  {
    match acc
      case Err(e) => Err(e)
      case Ok(z) =>
        match record
          case Err(e) => Err(e)
          case Ok(None) => Ok(z)
          case Ok(Some(kv)) => Ok(z[kv.0 := kv.1])
  }

  /** The `motif_z` dictionary after the records rs, in order, or the first exception. */
  function Collect(rs: seq<RecordResult>): Result<map<nat, real>, ReadError>
  {
    if |rs| == 0 then Ok(map[]) else Step(Collect(rs[..|rs| - 1]), rs[|rs| - 1])
  }

  /** Every key of the dictionary is one of the thirteen classes. */
  lemma {:induction false} CollectClasses(rs: seq<RecordResult>)
    requires Classed(rs)
    ensures Collect(rs).Ok? ==> forall k :: k in Collect(rs).value ==> k < ClassCount
    decreases |rs|
  {
    if |rs| > 0 {
      assert Classed(rs[..|rs| - 1]);
      CollectClasses(rs[..|rs| - 1]);
    }
  }

  lemma CollectPrefix(rs: seq<RecordResult>, j: nat)
    requires j < |rs|
    ensures Collect(rs[..j + 1]) == Step(Collect(rs[..j]), rs[j])
  {
    assert rs[..j + 1][..j] == rs[..j];
  }

  /** Reference reading of one class: the z-score of the last kept record of that class. */
  function LastKept(rs: seq<RecordResult>, k: nat): Option<real>
  {
    if |rs| == 0 then None
    else match rs[|rs| - 1]
      case Ok(Some(kv)) => if kv.0 == k then Some(kv.1) else LastKept(rs[..|rs| - 1], k)
      case _ => LastKept(rs[..|rs| - 1], k)
  }

  /** Once a record fails, the failure is the outcome of the whole table. */
  lemma {:induction false} CollectErrorStays(rs: seq<RecordResult>, m: nat)
    requires m <= |rs| && Collect(rs[..m]).Err?
    ensures Collect(rs) == Collect(rs[..m])
    decreases |rs|
  {
    if m < |rs| {
      assert rs[..|rs| - 1][..m] == rs[..m];
      CollectErrorStays(rs[..|rs| - 1], m);
    } else {
      assert rs[..m] == rs;
    }
  }

  /** The table fails exactly when some record fails, with the first failing record's error. */
  lemma {:induction false} CollectFailure(rs: seq<RecordResult>)
    ensures Collect(rs).Ok? <==> forall j :: 0 <= j < |rs| ==> rs[j].Ok?
    ensures Collect(rs).Err? ==>
      exists j :: 0 <= j < |rs| && rs[j] == Err(Collect(rs).error) && forall i :: 0 <= i < j ==> rs[i].Ok?
    decreases |rs|
  {
    if |rs| > 0 {
      var front := rs[..|rs| - 1];
      CollectFailure(front);
      assert forall j :: 0 <= j < |front| ==> front[j] == rs[j];
      if Collect(front).Err? {
        var j :| 0 <= j < |front| && front[j] == Err(Collect(front).error) && forall i :: 0 <= i < j ==> front[i].Ok?;
        assert rs[j] == Err(Collect(rs).error);
      }
    }
  }

  /** A kept record of a class overrides earlier ones: each class holds its last kept z-score. */
  lemma {:induction false} CollectLastWins(rs: seq<RecordResult>, k: nat)
    requires Collect(rs).Ok?
    ensures k in Collect(rs).value <==> LastKept(rs, k).Some?
    ensures k in Collect(rs).value ==> Collect(rs).value[k] == LastKept(rs, k).value
    decreases |rs|
  {
    if |rs| > 0 {
      CollectLastWins(rs[..|rs| - 1], k);
    }
  }

  /** The record loop: 13 times, read a data line, parse it, then discard the next line. */
  method ReadRecords(lines: seq<string>, start: nat, toFloat: string -> Option<real>) returns (r: Result<map<nat, real>, ReadError>)
    ensures r == Collect(TableRecords(lines, start, toFloat))
  {
    ghost var rs := TableRecords(lines, start, toFloat);
    var motifZ: map<nat, real> := map[];
    var pos := start;
    for j := 0 to ClassCount
      invariant pos == start + 2 * j
      invariant Collect(rs[..j]) == Ok(motifZ)
    {
      var line := LineAt(lines, pos);
      assert line == RecordLine(lines, start, j);
      pos := pos + 1;
      var record := ParseRecord(line, toFloat);
      CollectPrefix(rs, j);
      assert record == rs[j];
      if record.Err? {
        CollectErrorStays(rs, j + 1);
        return Err(record.error);
      }
      if record.value.Some? {
        motifZ := motifZ[record.value.value.0 := record.value.value.1];
      }
      pos := pos + 1;
    }
    assert rs[..ClassCount] == rs;
    r := Ok(motifZ);
  }

  // ----- Normalisation ------------------------------------------------------

  /** The divisor of one seed's z-scores: 1, or the Euclidean norm of the kept z-scores. */
  datatype Norm = Unit | L2Of(scores: map<nat, real>)

  /** A normalised z-score: `raw` divided by the value of `norm`. */
  datatype Score = Score(raw: real, norm: Norm)

  /** The norm is 1 exactly when no record was kept. */
  function NormOf(motifZ: map<nat, real>): Norm
  {
    if motifZ != map[] then L2Of(motifZ) else Unit
  }

  /** The sum of the squared z-scores of the classes below k: `np.sum(values**2)` over those classes. */
  function SumOfSquares(motifZ: map<nat, real>, k: nat): real
  {
    if k == 0 then 0.0
    else SumOfSquares(motifZ, k - 1) + (if k - 1 in motifZ then motifZ[k - 1] * motifZ[k - 1] else 0.0)
  }

  /** The square of the divisor: 1, or the sum of the squared z-scores (the norm is its square root). */
  function NormSquared(norm: Norm): real
  {
    match norm
    case Unit => 1.0
    case L2Of(scores) => SumOfSquares(scores, ClassCount)
  }

  /** The sum, over the kept classes below k, of the squared z-scores each divided by d. */
  function ScaledSquares(motifZ: map<nat, real>, d: real, k: nat): real
    requires d != 0.0
  {
    if k == 0 then 0.0
    else ScaledSquares(motifZ, d, k - 1) + (if k - 1 in motifZ then motifZ[k - 1] * motifZ[k - 1] / d else 0.0)
  }

  lemma ShareOfSum(a: real, b: real, d: real)
    requires d != 0.0
    ensures a / d + b / d == (a + b) / d
  {
  }

  lemma SelfQuotient(d: real)
    requires d != 0.0
    ensures d / d == 1.0
  {
  }

  /** Dividing each squared z-score by the same d divides their sum by d. */
  lemma {:induction false} ScaledSquaresShare(motifZ: map<nat, real>, d: real, k: nat)
    requires d != 0.0
    ensures ScaledSquares(motifZ, d, k) == SumOfSquares(motifZ, k) / d
  {
    if k > 0 {
      ScaledSquaresShare(motifZ, d, k - 1);
      if k - 1 in motifZ {
        ShareOfSum(SumOfSquares(motifZ, k - 1), motifZ[k - 1] * motifZ[k - 1], d);
      }
    }
  }

  /**
   * The normalisation gives the seed's z-scores unit length: unless they are
   * all zero, the norm is that of the kept z-scores, and the squares of the
   * normalised values (each squared z-score over the squared norm) sum to 1.
   */
  lemma UnitLength(motifZ: map<nat, real>)
    requires SumOfSquares(motifZ, ClassCount) != 0.0
    ensures NormOf(motifZ) == L2Of(motifZ)
    ensures ScaledSquares(motifZ, NormSquared(NormOf(motifZ)), ClassCount) == 1.0
  {
    if motifZ == map[] {
      EmptySquares(ClassCount);
    }
    var d := SumOfSquares(motifZ, ClassCount);
    assert NormSquared(L2Of(motifZ)) == d;
    ScaledSquaresShare(motifZ, d, ClassCount);
    SelfQuotient(d);
  }

  lemma {:induction false} EmptySquares(k: nat)
    ensures SumOfSquares(map[], k) == 0.0
  {
    if k > 0 {
      EmptySquares(k - 1);
    }
  }

  // ----- Collecting the seeds ----------------------------------------------

  /** `y_data` after one seed: each kept class gets that seed's normalised z-score. */
  function Appended(y: seq<seq<Score>>, motifZ: map<nat, real>): (r: seq<seq<Score>>)
    requires |y| == ClassCount
    ensures |r| == ClassCount
  {
    seq(ClassCount, k requires 0 <= k < ClassCount =>
      if k in motifZ then y[k] + [Score(motifZ[k], NormOf(motifZ))] else y[k])
  }

  /** `y_data` once the classes in `done` have had their value appended. */
  function AppendedOn(y: seq<seq<Score>>, motifZ: map<nat, real>, norm: Norm, done: set<nat>): (r: seq<seq<Score>>)
    requires |y| == ClassCount
    ensures |r| == ClassCount
  {
    seq(ClassCount, k requires 0 <= k < ClassCount =>
      if k in motifZ && k in done then y[k] + [Score(motifZ[k], norm)] else y[k])
  }

  lemma AppendedOnStep(y: seq<seq<Score>>, motifZ: map<nat, real>, norm: Norm, done: set<nat>, key: nat)
    requires |y| == ClassCount && key in motifZ && key !in done && key < ClassCount
    ensures AppendedOn(y, motifZ, norm, done + {key})
         == AppendedOn(y, motifZ, norm, done)[key := AppendedOn(y, motifZ, norm, done)[key] + [Score(motifZ[key], norm)]]
  {
  }

  lemma AppendedOnAll(y: seq<seq<Score>>, motifZ: map<nat, real>)
    requires |y| == ClassCount
    ensures AppendedOn(y, motifZ, NormOf(motifZ), motifZ.Keys) == Appended(y, motifZ)
  {
  }

  /** The rescaling loop: every kept class gets its z-score over the seed's norm, appended to its list. */
  method AppendSeed(y: seq<seq<Score>>, motifZ: map<nat, real>) returns (y': seq<seq<Score>>, scaled: map<nat, Score>)
    requires |y| == ClassCount
    requires forall k :: k in motifZ ==> k < ClassCount
    ensures y' == Appended(y, motifZ)
    ensures scaled.Keys == motifZ.Keys
    ensures forall k :: k in scaled ==> scaled[k] == Score(motifZ[k], NormOf(motifZ))
  {
    var norm := NormOf(motifZ);
    y' := y;
    scaled := map[];
    var todo := motifZ.Keys;
    ghost var done: set<nat> := {};
    while todo != {}
      invariant done + todo == motifZ.Keys && done !! todo
      invariant y' == AppendedOn(y, motifZ, norm, done)
      invariant scaled == map k | k in done :: Score(motifZ[k], norm)
      decreases |todo|
    {
      var key :| key in todo;
      AppendedOnStep(y, motifZ, norm, done, key);
      y' := y'[key := y'[key] + [Score(motifZ[key], norm)]];
      scaled := scaled[key := Score(motifZ[key], norm)];
      todo := todo - {key};
      done := done + {key};
    }
    assert done == motifZ.Keys;
    AppendedOnAll(y, motifZ);
  }

  /** The report of a seed (the motif finder's output for `seed=NN.edges`). */
  function ReportName(seed: nat): string
  {
    EdgeFile.SeedFileName(seed, ".e_OUT.txt")
  }

  /** What the whole reader returns: the data, None after a report without a table, or an exception. */
  datatype ReadOutcome =
    | Data(x: seq<int>, y: seq<seq<Score>>)
    | NoMotifInfo(name: string)
    | Crash(error: ReadError)

  /**
   * One seed's kept z-scores, or the outcome that ends the reading.
   * `reports` holds, for each seed whose report file `ReportName(seed)`
   * exists, the lines of that file (report names of different seeds differ,
   * see `EdgeFile.SeedFileNamesDistinct`).
   */
  function SeedRead(reports: map<nat, seq<string>>, toFloat: string -> Option<real>, seed: nat): Result<map<nat, real>, ReadOutcome>
  {
    if seed !in reports then Err(Crash(MissingFile(ReportName(seed))))
    else match FirstMarker(reports[seed])
      case None => Err(NoMotifInfo(ReportName(seed)))
      case Some(m) =>
        match Collect(TableRecords(reports[seed], m + 1, toFloat))
          case Err(e) => Err(Crash(e))
          case Ok(z) => Ok(z)
  }

  /** One pass of the seed loop's body: open the report, find the header, read the table. */
  method ReadSeed(reports: map<nat, seq<string>>, toFloat: string -> Option<real>, seed: nat) returns (r: Result<map<nat, real>, ReadOutcome>)
    ensures r == SeedRead(reports, toFloat, seed)
    ensures r.Ok? ==> forall k :: k in r.value ==> k < ClassCount
  {
    if seed !in reports {
      return Err(Crash(MissingFile(ReportName(seed))));
    }
    var lines := reports[seed];
    var marker := SkipToMarker(lines);
    if marker.None? {
      return Err(NoMotifInfo(ReportName(seed)));
    }
    var motifZ := ReadRecords(lines, marker.value + 1, toFloat);
    if motifZ.Err? {
      return Err(Crash(motifZ.error));
    }
    TableRecordsClassed(lines, marker.value + 1, toFloat);
    CollectClasses(TableRecords(lines, marker.value + 1, toFloat));
    return Ok(motifZ.value);
  }

  /** What one seed contributes: its kept z-scores, or the outcome that ends the reading. */
  type SeedResult = Result<map<nat, real>, ReadOutcome>

  /** Reading in progress with the current `y_data`, or stopped with the function's outcome. */
  datatype Progress = Reading(y: seq<seq<Score>>) | Stopped(outcome: ReadOutcome)

  /** One pass of the seed loop on the state so far. */
  function Advance(p: Progress, result: SeedResult): (q: Progress)
    requires p.Reading? ==> |p.y| == ClassCount
    ensures q.Reading? ==> |q.y| == ClassCount
  {
    match p
      case Stopped(o) => Stopped(o)
      case Reading(y) =>
        match result
          case Err(o) => Stopped(o)
          case Ok(z) => Reading(Appended(y, z))
  }

  /** The state after the seeds whose results are `results`, in order. */
  function Run(results: seq<SeedResult>): (p: Progress)
    ensures p.Reading? ==> |p.y| == ClassCount
  {
    if |results| == 0 then Reading(seq(ClassCount, _ => []))
    else Advance(Run(results[..|results| - 1]), results[|results| - 1])
  }

  lemma RunPrefix(results: seq<SeedResult>, j: nat)
    requires j < |results|
    ensures Run(results[..j + 1]) == Advance(Run(results[..j]), results[j])
  {
    assert results[..j + 1][..j] == results[..j];
  }

  /** The results of seeds 0..n-1. */
  function SeedResults(reports: map<nat, seq<string>>, toFloat: string -> Option<real>, n: nat): (rs: seq<SeedResult>)
    ensures |rs| == n
  {
    seq(n, s requires 0 <= s => SeedRead(reports, toFloat, s))
  }

  /** The result of reading the reports of seeds 0..n-1. */
  function ReadOutcomeOf(reports: map<nat, seq<string>>, toFloat: string -> Option<real>, n: nat): ReadOutcome
  {
    match Run(SeedResults(reports, toFloat, n))
      case Stopped(o) => o
      case Reading(y) => Data(XAxis(), y)
  }

  /** Once the reader stops, later reports are never looked at. */
  lemma {:induction false} StoppedStays(results: seq<SeedResult>, m: nat)
    requires m <= |results| && Run(results[..m]).Stopped?
    ensures Run(results) == Run(results[..m])
    decreases |results|
  {
    if m < |results| {
      assert results[..|results| - 1][..m] == results[..m];
      StoppedStays(results[..|results| - 1], m);
    } else {
      assert results[..m] == results;
    }
  }

  /** `read_motif_data(N_nw)`: the seed loop. */
  method ReadMotifData(reports: map<nat, seq<string>>, toFloat: string -> Option<real>, n: nat) returns (r: ReadOutcome)
    ensures r == ReadOutcomeOf(reports, toFloat, n)
    ensures r.Data? ==> r.x == XAxis() && |r.y| == ClassCount
  {
    ghost var results := SeedResults(reports, toFloat, n);
    var yData: seq<seq<Score>> := seq(ClassCount, _ => []);
    for seed := 0 to n
      invariant Run(results[..seed]) == Reading(yData)
    {
      var motifZ := ReadSeed(reports, toFloat, seed);
      RunPrefix(results, seed);
      assert motifZ == results[seed];
      if motifZ.Err? {
        StoppedStays(results, seed + 1);
        return motifZ.error;
      }
      var scaled;
      yData, scaled := AppendSeed(yData, motifZ.value);
    }
    assert results[..n] == results;
    r := Data(XAxis(), yData);
  }

  /** The reading stops at the first seed whose result is an outcome, with that outcome. */
  lemma {:induction false} StopCause(results: seq<SeedResult>)
    requires Run(results).Stopped?
    ensures exists s :: (0 <= s < |results|
      && Run(results[..s]).Reading?
      && results[s] == Err(Run(results).outcome))
    decreases |results|
  {
    var front := results[..|results| - 1];
    if Run(front).Stopped? {
      StopCause(front);
      var s :| 0 <= s < |front| && Run(front[..s]).Reading? && front[s] == Err(Run(front).outcome);
      assert front[..s] == results[..s];
    } else {
      assert results[..|results| - 1] == front;
    }
  }

  /** A seed's read ends the reading with None exactly when its report has no motif header. */
  lemma SeedReadNoMotifInfo(reports: map<nat, seq<string>>, toFloat: string -> Option<real>, seed: nat, name: string)
    ensures SeedRead(reports, toFloat, seed) == Err(NoMotifInfo(name))
        <==> seed in reports && FirstMarker(reports[seed]).None? && name == ReportName(seed)
  {
  }

  /** A report without a motif table ends the reading; every earlier report was read in full. */
  lemma NoMotifInfoCause(reports: map<nat, seq<string>>, toFloat: string -> Option<real>, n: nat)
    requires ReadOutcomeOf(reports, toFloat, n).NoMotifInfo?
    ensures exists s :: (0 <= s < n
      && Run(SeedResults(reports, toFloat, s)).Reading?
      && ReportName(s) == ReadOutcomeOf(reports, toFloat, n).name
      && s in reports
      && FirstMarker(reports[s]).None?)
  {
    var results := SeedResults(reports, toFloat, n);
    StopCause(results);
    var s :| 0 <= s < n && Run(results[..s]).Reading? && results[s] == Err(Run(results).outcome);
    assert results[..s] == SeedResults(reports, toFloat, s);
    SeedReadNoMotifInfo(reports, toFloat, s, ReadOutcomeOf(reports, toFloat, n).name);
  }

  // ----- The per-class lists ------------------------------------------------

  /** Seed s was read and kept a z-score of class k. */
  predicate Keeps(results: seq<SeedResult>, s: nat, k: nat)
  {
    s < |results| && results[s].Ok? && k in results[s].value
  }

  /** The normalised z-score seed s contributes to class k. */
  function ScoreOf(results: seq<SeedResult>, s: nat, k: nat): Score
    requires Keeps(results, s, k)
  {
    var z := results[s].value;
    Score(z[k], NormOf(z))
  }

  /** The seeds that kept class k, in increasing order. */
  function KeptSeeds(results: seq<SeedResult>, k: nat): (r: seq<nat>)
    ensures forall i :: 0 <= i < |r| ==> Keeps(results, r[i], k)
    ensures forall i, j :: 0 <= i < j < |r| ==> r[i] < r[j]
    ensures forall s :: Keeps(results, s, k) ==> s in r
    ensures |r| <= |results|
  {
    if |results| == 0 then []
    else
      var n := |results| - 1;
      var before := KeptSeeds(results[..n], k);
      assert forall s: nat :: Keeps(results[..n], s, k) <==> s < n && Keeps(results, s, k);
      if Keeps(results, n, k) then before + [n] else before
  }

  lemma KeptSeedsStep(results: seq<SeedResult>, k: nat)
    requires |results| > 0
    ensures KeptSeeds(results, k) == KeptSeeds(results[..|results| - 1], k)
      + (if Keeps(results, |results| - 1, k) then [|results| - 1] else [])
  {
  }

  lemma RunStep(results: seq<SeedResult>, k: nat)
    requires |results| > 0 && k < ClassCount && Run(results).Reading?
    ensures Run(results[..|results| - 1]).Reading?
    ensures Run(results).y[k] == Run(results[..|results| - 1]).y[k]
      + (if Keeps(results, |results| - 1, k) then [ScoreOf(results, |results| - 1, k)] else [])
  {
  }

  /**
   * The list of class k holds one value per seed that kept class k, in seed
   * order: the value that seed's z-score over its norm.
   */
  lemma {:induction false} ClassLists(results: seq<SeedResult>, k: nat)
    requires k < ClassCount && Run(results).Reading?
    ensures |Run(results).y[k]| == |KeptSeeds(results, k)|
    ensures forall i :: 0 <= i < |KeptSeeds(results, k)| ==>
      Run(results).y[k][i] == ScoreOf(results, KeptSeeds(results, k)[i], k)
    decreases |results|
  {
    if |results| > 0 {
      var n := |results| - 1;
      var front := results[..n];
      RunStep(results, k);
      KeptSeedsStep(results, k);
      ClassLists(front, k);
      var before := KeptSeeds(front, k);
      forall i | 0 <= i < |before|
        ensures ScoreOf(front, before[i], k) == ScoreOf(results, before[i], k)
      {
      }
    }
  }
}
