/** The recovery loop of the CSV reader (ckan-ingestor-rs/ckan-ingestor-lib/src/readers/csv_reader.rs).
    The file, the Arrow parser, the sniffer and the Jev service are an oracle that may answer anything, and
    differently at every attempt. */
module CsvRecovery {
  import opened Common

  const MAX_JEV_CSV_REPAIRS := 2000
  const INITIAL_SAMPLE_RECORDS := 25_000
  const MAX_SAMPLE_RECORDS := 800_000

  datatype ColumnType = Unsigned | Signed | Float | Boolean | Date | DateTime | NULL | Text

  datatype ArrowType = Int64 | Float64 | ArrowBoolean | Utf8

  function ArrowDataType(t: ColumnType): ArrowType {
    match t
    case Unsigned => Int64
    case Signed => Int64
    case Float => Float64
    case Boolean => ArrowBoolean
    case Date => Utf8
    case DateTime => Utf8
    case NULL => Utf8
    case Text => Utf8
  }

  /** Dates are read as text, like everything whose type is not known. */
  lemma TypesRead(t: ColumnType)
    ensures ArrowDataType(t) == Int64 <==> t in {Unsigned, Signed}
    ensures ArrowDataType(t) == Float64 <==> t == Float
    ensures ArrowDataType(t) == ArrowBoolean <==> t == Boolean
    ensures ArrowDataType(t) == Utf8 <==> t in {Date, DateTime, NULL, Text}
  {}

  datatype SampleSize = Records(n: nat) | Bytes(n: nat) | All

  function NextSize(s: SampleSize): SampleSize {
    match s
    case Records(n) => if n < MAX_SAMPLE_RECORDS then Records(n * 2) else All
    case Bytes(_) => All
    case All => All
  }

  /** How one attempt ends after its good batches. */
  datatype End = Clean | TypeMismatch(column: nat) | CountMismatch | ParserError | UnknownError

  type Batch = seq<string>

  datatype Parse = Parse(batches: seq<Batch>, end: End)

  datatype JevAnswer = FixInput | FixMetadata | NoUsableAnswer

  /** Answers by attempt number; `sniff` gives the column types of a fresh inference, if it succeeds. */
  datatype Oracle = Oracle(
    parse: (nat, seq<ColumnType>) -> Parse,
    sniff: nat -> Option<seq<ColumnType>>,
    jev: Option<nat -> JevAnswer>)

  /** The only thing asked of the parser: a type mismatch names a column that is not read as text. */
  ghost predicate NamesTypedColumns(o: Oracle) {
    forall a, types :: o.parse(a, types).end.TypeMismatch? ==>
      var c := o.parse(a, types).end.column;
      c < |types| ==> ArrowDataType(types[c]) != Utf8
  }

  ghost predicate AtMostColumns(o: Oracle, c: nat) {
    forall a :: o.sniff(a).Some? ==> |o.sniff(a).value| <= c
  }

  datatype ReadResult =
    | Read(rows: seq<string>, strict: bool, sample: SampleSize)
    | Failed(end: End)

  // ----- Measures -----

  /** A sample of zero records would never grow. */
  predicate CanGrow(s: SampleSize) { s.Records? ==> s.n > 0 }

  /** Enlargements left before everything is sampled. */
  function Rank(s: SampleSize): (r: nat)
    requires CanGrow(s)
    ensures r == 0 <==> s == All
    decreases if s.Records? && s.n < MAX_SAMPLE_RECORDS then MAX_SAMPLE_RECORDS - s.n else 0
  {
    match s
    case All => 0
    case Bytes(_) => 1
    case Records(n) => if n < MAX_SAMPLE_RECORDS then 1 + Rank(Records(n * 2)) else 1
  }

  /** The reader starts with 25 000 records: five doublings, then everything. */
  lemma InitialRank()
    ensures Rank(Records(INITIAL_SAMPLE_RECORDS)) == 6
  {
    assert Rank(Records(400_000)) == 2 by { assert Rank(Records(800_000)) == 1; }
    assert Rank(Records(100_000)) == 4 by { assert Rank(Records(200_000)) == 3; }
    assert Rank(Records(50_000)) == 5;
  }

  function TypedColumns(types: seq<ColumnType>): (n: nat)
    ensures n <= |types|
  {
    if types == [] then 0
    else TypedColumns(types[..|types| - 1]) + if ArrowDataType(types[|types| - 1]) != Utf8 then 1 else 0
  }

  lemma {:induction false} PromotionShrinks(types: seq<ColumnType>, c: nat)
    requires c < |types| && ArrowDataType(types[c]) != Utf8
    ensures TypedColumns(types[c := Text]) + 1 == TypedColumns(types)
  {
    var n := |types| - 1;
    if c == n {
      assert types[c := Text][..n] == types[..n];
    } else {
      assert types[c := Text][..n] == types[..n][c := Text];
      PromotionShrinks(types[..n], c);
    }
  }

  function RepairsLeft(jevRepairCount: nat): nat {
    if jevRepairCount <= MAX_JEV_CSV_REPAIRS then MAX_JEV_CSV_REPAIRS + 1 - jevRepairCount else 0
  }

  /** Parse attempts that may still be made. */
  function Budget(types: seq<ColumnType>, sample: SampleSize, jevRepairCount: nat, c: nat): nat
    requires CanGrow(sample)
  {
    TypedColumns(types) + 1 + Rounds(c, Rank(sample) + RepairsLeft(jevRepairCount))
  }

  /** That many full rounds of promotions. */
  function Rounds(c: nat, phases: nat): nat {
    if phases == 0 then 0 else Rounds(c, phases - 1) + (c + 1)
  }

  lemma {:induction false} RoundsMultiply(c: nat, phases: nat)
    ensures Rounds(c, phases) == (c + 1) * phases
  {
    if phases > 0 {
      RoundsMultiply(c, phases - 1);
      assert (c + 1) * phases == (c + 1) * (phases - 1) + (c + 1);
    }
  }

  // ----- The run of attempts, as if repairs were never refused -----

  /** What an attempt starts from. */
  datatype Phase = Phase(types: seq<ColumnType>, sample: SampleSize, strict: bool, repairs: nat)

  function Enlarged(o: Oracle, p: Phase, attempt: nat): Option<Phase> {
    match o.sniff(attempt + 1)
    case None => None
    case Some(types) => Some(p.(types := types, sample := NextSize(p.sample)))
  }

  function Repaired(o: Oracle, p: Phase, attempt: nat): Option<Phase> {
    if o.jev.None? then None
    else
      match o.jev.value(attempt + 1)
      case FixInput => Some(p.(strict := false, repairs := p.repairs + 1))
      case FixMetadata =>
        if o.sniff(attempt + 1).None? then None
        else Some(p.(types := o.sniff(attempt + 1).value, strict := false, repairs := p.repairs + 1))
      case NoUsableAnswer => None
  }

  /** How the reader goes on after a failed attempt, if it can. */
  function Recovery(o: Oracle, p: Phase, attempt: nat): Option<Phase> {
    match o.parse(attempt, p.types).end
    case TypeMismatch(c) => if c < |p.types| then Some(p.(types := p.types[c := Text], strict := false)) else None
    case CountMismatch => if p.sample != All then Enlarged(o, p, attempt) else Repaired(o, p, attempt)
    case ParserError => if p.sample != All then Enlarged(o, p, attempt) else None
    case Clean => None
    case UnknownError => None
  }

  /** The phase after `n` recoveries from the attempt `first` on, if there are so many. */
  function Unlimited(o: Oracle, p: Phase, first: nat, n: nat): Option<Phase>
    decreases n
  {
    if n == 0 then Some(p)
    else
      match Recovery(o, p, first)
      case None => None
      case Some(next) => Unlimited(o, next, first + 1, n - 1)
  }

  /** The run ends here: nothing more can be done, or the repair that would come next is refused. */
  predicate Stopped(o: Oracle, p: Phase, attempt: nat) {
    match Recovery(o, p, attempt)
    case None => true
    case Some(next) => next.repairs > p.repairs > MAX_JEV_CSV_REPAIRS
  }

  // ----- The steps of a run by their fields -----

  /** `q` differs from `p` in the one column that is now read as text, and is no longer strict. */
  ghost predicate Promotes(p: Phase, q: Phase, column: nat) {
    && column < |p.types| == |q.types| && q.types[column] == Text
    && (forall i :: 0 <= i < |p.types| && i != column ==> q.types[i] == p.types[i])
    && q.sample == p.sample && !q.strict && q.repairs == p.repairs
  }

  /** `q` has the types of the new inference, from twice the records or from everything. */
  ghost predicate Resamples(p: Phase, q: Phase, inferred: Option<seq<ColumnType>>) {
    && inferred == Some(q.types) && p.sample != All
    && (if p.sample.Records? && p.sample.n < 800_000 then q.sample.Records? && q.sample.n == p.sample.n + p.sample.n else q.sample == All)
    && q.strict == p.strict && q.repairs == p.repairs
  }

  /** `q` counts one repair more; its types are new when Jev corrected the header setting. */
  ghost predicate Repairs(p: Phase, q: Phase, answer: JevAnswer, inferred: Option<seq<ColumnType>>) {
    && (answer == FixInput ==> q.types == p.types) && (answer == FixMetadata ==> inferred == Some(q.types)) && answer != NoUsableAnswer
    && q.sample == p.sample == All && !q.strict && q.repairs == p.repairs + 1
  }

  /** How the run goes on from an attempt made in phase `p`. */
  ghost predicate GoesOn(o: Oracle, p: Phase, attempt: nat, q: Phase) {
    var end := o.parse(attempt, p.types).end;
    || (end.TypeMismatch? && Promotes(p, q, end.column))
    || ((end.CountMismatch? || end.ParserError?) && Resamples(p, q, o.sniff(attempt + 1)))
    || (end.CountMismatch? && o.jev.Some? && Repairs(p, q, o.jev.value(attempt + 1), o.sniff(attempt + 1)))
  }

  /** A run is exactly a sequence of such steps. */
  lemma RunSteps(o: Oracle, p: Phase, first: nat, n: nat, q: Phase)
    ensures Unlimited(o, p, first, 0) == Some(p)
    ensures Unlimited(o, p, first, n + 1) == Some(q) <==>
            Unlimited(o, p, first, n).Some? && GoesOn(o, Unlimited(o, p, first, n).value, first + n, q)
  {
    if Unlimited(o, p, first, n).Some? {
      var r := Unlimited(o, p, first, n).value;
      UnlimitedSplit(o, p, first, n, 1);
      RecoveryExact(o, r, first + n, q);
      assert Unlimited(o, r, first + n, 1) == Recovery(o, r, first + n) by {
        if Recovery(o, r, first + n).Some? { assert Unlimited(o, Recovery(o, r, first + n).value, first + n + 1, 0).Some?; }
      }
    } else {
      NoneStays(o, p, first, n);
    }
  }

  lemma RecoveryExact(o: Oracle, p: Phase, attempt: nat, q: Phase)
    ensures Recovery(o, p, attempt) == Some(q) <==> GoesOn(o, p, attempt, q)
  {
    var end := o.parse(attempt, p.types).end;
    if end.TypeMismatch? && Promotes(p, q, end.column) {
      assert q.types == p.types[end.column := Text];
    }
  }

  /** A run stops where no step is possible, and where another repair would follow more than 2000. */
  lemma StoppedExact(o: Oracle, p: Phase, attempt: nat)
    ensures Stopped(o, p, attempt) <==>
            || (forall q :: !GoesOn(o, p, attempt, q))
            || (p.repairs > 2000 && p.sample == All && o.parse(attempt, p.types).end.CountMismatch?)
  {
    forall q ensures GoesOn(o, p, attempt, q) <==> Recovery(o, p, attempt) == Some(q) { RecoveryExact(o, p, attempt, q); }
    if Recovery(o, p, attempt).Some? { assert GoesOn(o, p, attempt, Recovery(o, p, attempt).value); }
  }

  lemma {:induction false} NoneStays(o: Oracle, p: Phase, first: nat, n: nat)
    requires Unlimited(o, p, first, n).None?
    ensures Unlimited(o, p, first, n + 1).None?
    decreases n
  {
    if Recovery(o, p, first).Some? { NoneStays(o, Recovery(o, p, first).value, first + 1, n - 1); }
  }

  /** The measure of the recovery: repairs left, enlargements left, columns left to promote. */
  ghost predicate Smaller(q: Phase, p: Phase)
    requires CanGrow(q.sample) && CanGrow(p.sample)
  {
    || RepairsLeft(q.repairs) < RepairsLeft(p.repairs)
    || (RepairsLeft(q.repairs) == RepairsLeft(p.repairs) &&
        (Rank(q.sample) < Rank(p.sample) || (Rank(q.sample) == Rank(p.sample) && TypedColumns(q.types) < TypedColumns(p.types))))
  }

  function FirstPhase(types: seq<ColumnType>): Phase { Phase(types, Records(INITIAL_SAMPLE_RECORDS), true, 0) }

  /** `n` recoveries include more repairs than the announced limit. */
  ghost predicate Exceeds(o: Oracle, p: Phase, first: nat, n: nat) {
    Unlimited(o, p, first, n).Some? && Unlimited(o, p, first, n).value.repairs > MAX_JEV_CSV_REPAIRS
  }

  lemma {:induction false} UnlimitedSplit(o: Oracle, p: Phase, first: nat, a: nat, b: nat)
    requires Unlimited(o, p, first, a).Some?
    ensures Unlimited(o, p, first, a + b) == Unlimited(o, Unlimited(o, p, first, a).value, first + a, b)
    decreases a
  {
    if a > 0 { UnlimitedSplit(o, Recovery(o, p, first).value, first + 1, a - 1, b); }
  }

  lemma {:induction false} RepairsGrow(o: Oracle, p: Phase, first: nat, n: nat)
    requires Unlimited(o, p, first, n).Some?
    ensures p.repairs <= Unlimited(o, p, first, n).value.repairs
    decreases n
  {
    if n > 0 { RepairsGrow(o, Recovery(o, p, first).value, first + 1, n - 1); }
  }

  lemma EndsThere(o: Oracle, p: Phase, first: nat, n: nat, m: nat)
    requires n < m && Unlimited(o, p, first, n).Some? && Recovery(o, Unlimited(o, p, first, n).value, first + n).None?
    ensures Unlimited(o, p, first, m).None?
  {
    UnlimitedSplit(o, p, first, n, m - n);
  }

  /** A run that stopped has made more repairs than the limit says if and only if, never stopped, it would. */
  lemma LimitExact(o: Oracle, p: Phase, first: nat, n: nat)
    requires Unlimited(o, p, first, n).Some? && Stopped(o, Unlimited(o, p, first, n).value, first + n)
    ensures Unlimited(o, p, first, n).value.repairs > MAX_JEV_CSV_REPAIRS <==>
            exists m: nat :: Exceeds(o, p, first, m)
  {
    var last := Unlimited(o, p, first, n).value;
    if last.repairs > MAX_JEV_CSV_REPAIRS {
      assert Exceeds(o, p, first, n);
    } else if exists m: nat :: Exceeds(o, p, first, m) {
      var m: nat :| Exceeds(o, p, first, m);
      if m > n { EndsThere(o, p, first, n, m); }
      UnlimitedSplit(o, p, first, m, n - m);
      RepairsGrow(o, Unlimited(o, p, first, m).value, first + m, n - m);
    }
  }

  // ----- An oracle that asks for every repair -----

  /** Every parse ends with a wrong number of fields, and Jev always has an answer. */
  function StubbornOracle(): Oracle {
    Oracle((_, _) => Parse([], CountMismatch), _ => Some([]), Some(_ => FixInput))
  }

  lemma {:induction false} StubbornRepairs(p: Phase, first: nat, n: nat)
    requires p.sample == All
    ensures Unlimited(StubbornOracle(), p, first, n) == Some(p.(strict := if n == 0 then p.strict else false, repairs := p.repairs + n))
    decreases n
  {
    if n > 0 { StubbornRepairs(p.(strict := false, repairs := p.repairs + 1), first + 1, n - 1); }
  }

  lemma {:induction false} StubbornSamples(p: Phase, first: nat)
    requires CanGrow(p.sample) && p.types == []
    ensures Unlimited(StubbornOracle(), p, first, Rank(p.sample)) == Some(p.(sample := All))
    decreases Rank(p.sample)
  {
    if p.sample != All {
      StubbornSamples(p.(sample := NextSize(p.sample)), first + 1);
    }
  }

  /** Reading with it makes a repair more than the announced limit. */
  lemma StubbornDemands()
    ensures NamesTypedColumns(StubbornOracle()) && AtMostColumns(StubbornOracle(), 0)
    ensures exists n: nat :: Exceeds(StubbornOracle(), FirstPhase([]), 0, n)
  {
    var o, p := StubbornOracle(), FirstPhase([]);
    InitialRank();
    StubbornSamples(p, 0);
    UnlimitedSplit(o, p, 0, 6, MAX_JEV_CSV_REPAIRS + 1);
    StubbornRepairs(p.(sample := All), 6, MAX_JEV_CSV_REPAIRS + 1);
    assert Exceeds(o, p, 0, 6 + (MAX_JEV_CSV_REPAIRS + 1));
  }

  class CsvReader {
    var types: seq<ColumnType>
    var attempts: nat
    ghost var promotions: nat
    ghost var repairs: nat

    constructor ()
      ensures types == [] && attempts == promotions == repairs == 0
    {
      types, attempts, promotions, repairs := [], 0, 0, 0;
    }

    /** What every call promises, from the given counts on: progress is bounded, strictness is honest, and the sample
        only grows and is the whole file after a repair. */
    ghost predicate Outcome(c: nat, attempted: nat, promoted: nat, repaired: nat, allowed: nat, strict: bool, sample: SampleSize, r: ReadResult)
      requires CanGrow(sample)
      reads this
    {
      && attempts <= attempted && promoted <= promotions && repaired <= repairs <= repaired + allowed
      && |types| <= c
      && (r.Read? ==>
            && (r.strict <==> strict && promotions == promoted && repairs == repaired)
            && CanGrow(r.sample) && Rank(r.sample) <= Rank(sample) && (repairs > repaired ==> r.sample == All))
    }

    /** The attempts from `first` on went as the unlimited run does, up to where that run is stopped; `base` repairs were
        made before. The last attempt decides the result. */
    ghost predicate Followed(o: Oracle, p: Phase, first: nat, base: nat, r: ReadResult)
      reads this
    {
      && attempts > first
      && var run := Unlimited(o, p, first, attempts - first - 1);
      && run.Some? && run.value.types == types && repairs + p.repairs == base + run.value.repairs
      && Stopped(o, run.value, attempts - 1)
      && var last := o.parse(attempts - 1, types);
      && (r.Read? <==> last.end == Clean && last.batches != [])
      && (r.Read? ==> r == Read(Flatten(last.batches), run.value.strict, run.value.sample))
    }

    method ReadBatches(o: Oracle, c: nat) returns (r: ReadResult)
      requires NamesTypedColumns(o) && AtMostColumns(o, c)
      requires attempts == promotions == repairs == 0 && types == []
      modifies this
      ensures attempts <= (c + 1) * (1 + 6 + MAX_JEV_CSV_REPAIRS + 1)
      ensures repairs <= MAX_JEV_CSV_REPAIRS + 1
      ensures if o.sniff(0).None? then r.Failed? && attempts == repairs == 0 else Followed(o, FirstPhase(o.sniff(0).value), 0, 0, r)
      ensures o.sniff(0).Some? ==> (repairs > MAX_JEV_CSV_REPAIRS <==> exists n: nat :: Exceeds(o, FirstPhase(o.sniff(0).value), 0, n))
      ensures r.Read? ==> (r.strict <==> promotions == 0 && repairs == 0)
      ensures r.Read? ==> attempts > 0 && r.rows == Flatten(o.parse(attempts - 1, types).batches)
      ensures r.Read? && repairs > 0 ==> r.sample == All
    {
      var metadata := o.sniff(0);
      if metadata.None? {
        return Failed(UnknownError);
      }
      types := metadata.value;
      InitialRank();
      r := TryReadCsv(o, true, Records(INITIAL_SAMPLE_RECORDS), 0, c);
      LimitExact(o, FirstPhase(metadata.value), 0, attempts - 1);
      assert Budget(metadata.value, Records(INITIAL_SAMPLE_RECORDS), 0, c) <= (c + 1) * (1 + 6 + MAX_JEV_CSV_REPAIRS + 1) by {
        RoundsMultiply(c, 6 + MAX_JEV_CSV_REPAIRS + 1);
        assert (c + 1) + (c + 1) * (6 + MAX_JEV_CSV_REPAIRS + 1) == (c + 1) * (1 + 6 + MAX_JEV_CSV_REPAIRS + 1);
      }
    }

    method TryReadCsv(o: Oracle, strict: bool, sample: SampleSize, jevRepairCount: nat, ghost c: nat) returns (r: ReadResult)
      requires NamesTypedColumns(o) && AtMostColumns(o, c) && CanGrow(sample) && |types| <= c
      modifies this
      ensures Outcome(c, old(attempts) + Budget(old(types), sample, jevRepairCount, c), old(promotions), old(repairs),
                      RepairsLeft(jevRepairCount), strict, sample, r)
      ensures Followed(o, Phase(old(types), sample, strict, jevRepairCount), old(attempts), old(repairs), r)
      decreases RepairsLeft(jevRepairCount), Rank(sample), TypedColumns(types), 3
    {
      var parse := NextParse(o);
      var parquet := WriteBatches(parse.batches);
      if parse.end == Clean {
        r := if parquet.Some? then Read(parquet.value, strict, sample) else Failed(UnknownError);
      } else {
        r := Recover(o, strict, sample, jevRepairCount, parse.end, c);
      }
    }

    /** The error of a parse decides how to go on. */
    method Recover(o: Oracle, strict: bool, sample: SampleSize, jevRepairCount: nat, end: End, ghost c: nat) returns (r: ReadResult)
      requires NamesTypedColumns(o) && AtMostColumns(o, c) && CanGrow(sample) && |types| <= c
      requires attempts > 0 && end == o.parse(attempts - 1, types).end && end != Clean
      modifies this
      ensures Outcome(c, old(attempts) + Budget(old(types), sample, jevRepairCount, c) - 1, old(promotions), old(repairs),
                      RepairsLeft(jevRepairCount), strict, sample, r)
      ensures Followed(o, Phase(old(types), sample, strict, jevRepairCount), old(attempts) - 1, old(repairs), r)
      decreases RepairsLeft(jevRepairCount), Rank(sample), TypedColumns(types), 2
    {
      match end {
        case TypeMismatch(column) =>
          r := TryReadCsvPromotingColumn(o, false, sample, jevRepairCount, column, c, Phase(types, sample, strict, jevRepairCount));
        case UnknownError =>
          r := Failed(UnknownError);
        case CountMismatch =>
          if sample != All {
            r := TryReadCsvIncreasingMetadataSample(o, strict, sample, jevRepairCount, c);
          } else {
            r := TryReadCsvRepairingWithJev(o, jevRepairCount, c, Phase(types, sample, strict, jevRepairCount));
          }
        case ParserError =>
          if sample != All {
            r := TryReadCsvIncreasingMetadataSample(o, strict, sample, jevRepairCount, c);
          } else {
            r := Failed(ParserError);
          }
      }
    }

    /** Writes the batches one after the other; the file is made for the first. */
    static method WriteBatches(batches: seq<seq<string>>) returns (parquet: Option<seq<string>>)
      ensures parquet == if batches == [] then None else Some(Flatten(batches))
    {
      parquet := None;
      var i := 0;
      while i < |batches|
        invariant 0 <= i <= |batches|
        invariant parquet == if i == 0 then None else Some(Flatten(batches[..i]))
      {
        assert batches[..i + 1][..i] == batches[..i];
        if parquet.None? {
          parquet := Some([]);
        }
        parquet := Some(parquet.value + batches[i]);
        i := i + 1;
      }
      assert batches[..i] == batches;
    }

    /** One pass of the parser over the file. */
    method NextParse(o: Oracle) returns (parse: Parse)
      modifies this`attempts
      ensures attempts == old(attempts) + 1
      ensures parse == o.parse(old(attempts), types)
    {
      parse := o.parse(attempts, types);
      attempts := attempts + 1;
    }

    /** Starts over after a recovery. */
    method StartOver(o: Oracle, next: Phase, ghost c: nat, ghost p: Phase, ghost base: nat) returns (r: ReadResult)
      requires NamesTypedColumns(o) && AtMostColumns(o, c) && |next.types| <= c && CanGrow(next.sample) && CanGrow(p.sample)
      requires attempts > 0 && Recovery(o, p, attempts - 1) == Some(next) && Smaller(next, p)
      requires Budget(next.types, next.sample, next.repairs, c) < Budget(p.types, p.sample, p.repairs, c)
      requires repairs + p.repairs == base + next.repairs
      modifies this
      ensures Outcome(c, old(attempts) + Budget(p.types, p.sample, p.repairs, c) - 1, old(promotions), old(repairs),
                      RepairsLeft(next.repairs), next.strict, next.sample, r)
      ensures Followed(o, p, old(attempts) - 1, base, r)
      decreases RepairsLeft(p.repairs), Rank(p.sample), TypedColumns(p.types), 0
    {
      types := next.types;
      r := TryReadCsv(o, next.strict, next.sample, next.repairs, c);
    }

    /** Reads the offending column as text and starts over; an unknown column is an error. */
    method TryReadCsvPromotingColumn(o: Oracle, strict: bool, sample: SampleSize, jevRepairCount: nat, column: nat, ghost c: nat, ghost p: Phase)
      returns (r: ReadResult)
      requires NamesTypedColumns(o) && AtMostColumns(o, c) && CanGrow(sample) && |types| <= c && !strict
      requires attempts > 0 && o.parse(attempts - 1, types).end == TypeMismatch(column)
      requires p == Phase(types, sample, p.strict, jevRepairCount)
      modifies this
      ensures Outcome(c, old(attempts) + Budget(old(types), sample, jevRepairCount, c) - 1, old(promotions), old(repairs),
                      RepairsLeft(jevRepairCount), strict, sample, r)
      ensures Followed(o, p, old(attempts) - 1, old(repairs), r)
      ensures promotions + repairs > old(promotions + repairs) || r.Failed?
      decreases RepairsLeft(jevRepairCount), Rank(sample), TypedColumns(types), 1
    {
      if column < |types| {
        BudgetPromoted(types, column, sample, jevRepairCount, c);
        promotions := promotions + 1;
        r := StartOver(o, Phase(types[column := Text], sample, strict, jevRepairCount), c, p, repairs);
      } else {
        r := Failed(UnknownError);
      }
    }

    method LargerSample(sample: SampleSize) returns (next: SampleSize)
      requires CanGrow(sample) && sample != All
      ensures next == NextSize(sample) && CanGrow(next) && Rank(next) + 1 == Rank(sample)
    {
      next := NextSize(sample);
    }

    /** Infers the metadata again from a larger sample. */
    method TryReadCsvIncreasingMetadataSample(o: Oracle, strict: bool, sample: SampleSize, jevRepairCount: nat, ghost c: nat)
      returns (r: ReadResult)
      requires NamesTypedColumns(o) && AtMostColumns(o, c) && CanGrow(sample) && |types| <= c && sample != All
      requires attempts > 0 && o.parse(attempts - 1, types).end in {CountMismatch, ParserError}
      modifies this
      ensures Outcome(c, old(attempts) + Budget(old(types), sample, jevRepairCount, c) - 1, old(promotions), old(repairs),
                      RepairsLeft(jevRepairCount), strict, sample, r)
      ensures Followed(o, Phase(old(types), sample, strict, jevRepairCount), old(attempts) - 1, old(repairs), r)
      decreases RepairsLeft(jevRepairCount), Rank(sample), TypedColumns(types), 1
    {
      var metadata := o.sniff(attempts);
      if metadata.None? {
        return Failed(UnknownError);
      }
      var larger := LargerSample(sample);
      BudgetShrinks(types, metadata.value, sample, larger, jevRepairCount, jevRepairCount, c);
      r := StartOver(o, Phase(metadata.value, larger, strict, jevRepairCount), c, Phase(types, sample, strict, jevRepairCount), repairs);
    }

    /** Asks Jev to merge two fields of the bad line, or to correct the header setting. */
    method TryReadCsvRepairingWithJev(o: Oracle, jevRepairCount: nat, ghost c: nat, ghost p: Phase) returns (r: ReadResult)
      requires NamesTypedColumns(o) && AtMostColumns(o, c) && |types| <= c
      requires attempts > 0 && o.parse(attempts - 1, types).end == CountMismatch && p == Phase(types, All, p.strict, jevRepairCount)
      modifies this
      ensures Outcome(c, old(attempts) + Budget(old(types), All, jevRepairCount, c) - 1, old(promotions), old(repairs),
                      RepairsLeft(jevRepairCount), false, All, r)
      ensures Followed(o, p, old(attempts) - 1, old(repairs), r)
      ensures repairs > old(repairs) || r.Failed?
      ensures jevRepairCount > MAX_JEV_CSV_REPAIRS ==> r.Failed? && attempts == old(attempts) && repairs == old(repairs)
      decreases RepairsLeft(jevRepairCount), 0, TypedColumns(types), 1
    {
      if o.jev.None? || jevRepairCount > MAX_JEV_CSV_REPAIRS {
        return Failed(UnknownError);
      }
      var metadata := Some(types);
      match o.jev.value(attempts) {
        case FixInput =>
        case FixMetadata => metadata := o.sniff(attempts);
        case NoUsableAnswer => return Failed(CountMismatch);
      }
      if metadata.None? {
        return Failed(UnknownError);
      }
      BudgetShrinks(types, metadata.value, All, All, jevRepairCount, jevRepairCount + 1, c);
      repairs := repairs + 1;
      r := StartOver(o, Phase(metadata.value, All, false, jevRepairCount + 1), c, p, old(repairs));
    }
  }

  lemma BudgetPromoted(types: seq<ColumnType>, column: nat, sample: SampleSize, jevRepairCount: nat, c: nat)
    requires column < |types| && ArrowDataType(types[column]) != Utf8 && CanGrow(sample)
    ensures TypedColumns(types[column := Text]) < TypedColumns(types)
    ensures Budget(types[column := Text], sample, jevRepairCount, c) + 1 == Budget(types, sample, jevRepairCount, c)
  {
    PromotionShrinks(types, column);
  }

  /** One phase less is worth one full round of promotions. */
  lemma BudgetShrinks(types: seq<ColumnType>, next: seq<ColumnType>, sample: SampleSize, nextSample: SampleSize,
                      count: nat, nextCount: nat, c: nat)
    requires |next| <= c && CanGrow(sample) && CanGrow(nextSample)
    requires Rank(nextSample) + RepairsLeft(nextCount) + 1 == Rank(sample) + RepairsLeft(count)
    ensures Budget(next, nextSample, nextCount, c) < Budget(types, sample, count, c)
  {
    var phases := Rank(nextSample) + RepairsLeft(nextCount);
    assert Rounds(c, phases + 1) == Rounds(c, phases) + (c + 1);
  }
}
