/** The whole `preprocess` transformation, from the loaded table to the table
    that is written out: deduplicate, check and encode the target, filter age
    outliers, bin ages, split features from the target, one-hot encode the
    features, and put the target back as the last column. Reading and writing
    files and the standardisation of the values are not part of the model. */
module Pipeline {
  import opened Seqs
  import opened Frames
  import opened Dedup
  import opened Target
  import opened Outliers
  import opened Binning
  import opened OneHot
  import opened Categories

  /** The three switches of `preprocess`. */
  datatype Flags = Flags(dropDuplicates: bool, handleOutlierAge: bool, binAge: bool)

  /** A name without the `_` separator cannot be an indicator column. */
  predicate PlainName(n: string)
  {
    forall i :: 0 <= i < |n| ==> n[i] != '_'
  }

  lemma PlainNameIsNoIndicator(n: string, c: string, levels: seq<string>)
    ensures PlainName(n) ==> n !in IndicatorNames(c, levels)
  {
    if n in IndicatorNames(c, levels) {
      IndicatorNameShape(c, levels, n);
      assert !PlainName(n) by { assert n[|c|] == '_'; }
    }
  }

  /** One-hot encoding introduces no plain name: a plain name in the encoded
      table was already a column of the input. */
  lemma PlainNamesSurvive(x: Table, d: Dtypes, n: string)
    requires WellFormed(x) && Describes(d, x)
    ensures PlainName(n) && n in GetDummies(x, d).cols ==> n in x.cols
  {
    var r := GetDummies(x, d);
    GetDummiesColumns(x, d);
    if n in r.cols && n !in x.cols {
      var c :| c in x.cols && EncodingFor(x, d, c).Dummies? &&
        n in IndicatorNames(c, EncodingFor(x, d, c).levels);
      PlainNameIsNoIndicator(n, c, EncodingFor(x, d, c).levels);
    }
  }

  /** `X = df.drop(columns=["y"])` and `y = df["y"]`. */
  function Split(t: Table): (r: (Table, seq<Value>))
    requires WellFormed(t) && TargetColumn in t.cols
    ensures WellFormed(r.0) && |r.0.rows| == |t.rows| && |r.1| == |t.rows|
    ensures TargetColumn !in r.0.cols
    ensures forall c :: c in r.0.cols <==> c in t.cols && c != TargetColumn
    ensures r.0.cols == RemoveAt(t.cols, IndexOf(t.cols, TargetColumn))
    ensures forall c :: c in r.0.cols ==> Column(r.0, c) == Column(t, c)
    ensures forall k :: 0 <= k < |t.rows| ==> r.1[k] == t.rows[k][IndexOf(t.cols, TargetColumn)]
  {
    (DropColumn(t, TargetColumn), Column(t, TargetColumn))
  }

  /** `processed_df["y"] = y.values`: the target appended, positionally, as
      the last column of the encoded features. */
  function Assemble(features: Table, y: seq<Value>): (r: Table)
    requires Rectangular(features) && |y| == |features.rows| && TargetColumn !in features.cols
    ensures Rectangular(r) && |r.rows| == |features.rows|
    ensures r.cols == features.cols + [TargetColumn]
    ensures Column(r, TargetColumn) == y
    ensures forall c :: c in features.cols ==> Column(r, c) == Column(features, c)
  {
    var r := Table(features.cols + [TargetColumn],
                   seq(|features.rows|, k requires 0 <= k < |features.rows| => features.rows[k] + [y[k]]));
    assert IndexOf(r.cols, TargetColumn) == |features.cols| by {
      assert r.cols[|features.cols|] == TargetColumn;
    }
    assert forall c :: c in features.cols ==> IndexOf(r.cols, c) == IndexOf(features.cols, c) by {
      forall c | c in features.cols { IndexOfPrefix(features.cols, [TargetColumn], c); }
    }
    r
  }

  /** Stages 2 and 3: deduplication, then the target checks and encoding. */
  function Encoded(raw: Table, flags: Flags): (r: Result<Table>)
    requires WellFormed(raw)
    ensures r.Ok? ==> WellFormed(r.value) && r.value.cols == raw.cols && |r.value.rows| <= |raw.rows|
    ensures r.Ok? ==> forall c :: c in raw.cols && c != TargetColumn ==>
      Column(r.value, c) == Column(Deduplicate(raw, flags.dropDuplicates), c)
  {
    EncodeTarget(Deduplicate(raw, flags.dropDuplicates))
  }

  /** Deduplication neither hides nor creates a bad label, so the target
      checks fail on the deduplicated table exactly when they would on the
      input. */
  lemma EncodedOutcome(raw: Table, flags: Flags)
    requires WellFormed(raw)
    ensures TargetColumn !in raw.cols <==> Encoded(raw, flags) == Err(MissingTarget)
    ensures Encoded(raw, flags) == Err(InvalidTarget) <==>
      TargetColumn in raw.cols && exists k :: 0 <= k < |raw.rows| && !ValidLabel(Column(raw, TargetColumn)[k])
    ensures Encoded(raw, flags).Ok? || Encoded(raw, flags) == Err(MissingTarget) || Encoded(raw, flags) == Err(InvalidTarget)
    ensures Encoded(raw, flags).Ok? ==>
      && WellFormed(Encoded(raw, flags).value)
      && Encoded(raw, flags).value.cols == raw.cols
      && |Encoded(raw, flags).value.rows| == |Deduplicate(raw, flags.dropDuplicates).rows|
      && forall k :: 0 <= k < |Encoded(raw, flags).value.rows| ==> IsBinary(Column(Encoded(raw, flags).value, TargetColumn)[k])
  {
    var deduped := Deduplicate(raw, flags.dropDuplicates);
    if TargetColumn in raw.cols {
      forall v { DeduplicateKeepsColumnValues(raw, flags.dropDuplicates, TargetColumn, v); }
      assert (exists k :: 0 <= k < |raw.rows| && !ValidLabel(Column(raw, TargetColumn)[k])) <==>
        (exists k :: 0 <= k < |deduped.rows| && !ValidLabel(Column(deduped, TargetColumn)[k]));
    }
  }

  /** Stages 4 and 5 on an encoded table. */
  function Prepared(encoded: Table, flags: Flags): (t: Table)
    requires WellFormed(encoded) && TargetColumn in encoded.cols
    ensures WellFormed(t) && TargetColumn in t.cols && |t.rows| <= |encoded.rows|
    ensures IsSubseq(Column(t, TargetColumn), Column(encoded, TargetColumn))
  {
    var filtered := FilterAgeOutliers(encoded, flags.handleOutlierAge);
    BinAge(filtered, flags.binAge)
  }

  /** Some cell of column `c` is a string. */
  predicate HoldsString(t: Table, c: string)
    requires Rectangular(t) && c in t.cols
  {
    exists k :: 0 <= k < |t.rows| && Column(t, c)[k].Str?
  }

  /** The columns holding some string: those `read_csv` gives object dtype.
      Deduplication keeps every value of every column and the target
      encoding leaves the other columns alone, so on the encoded table these
      are the object columns of the loaded table, except `y`, which the
      encoding made numeric. */
  function ObjectColumns(t: Table): (r: set<string>)
    requires WellFormed(t)
    ensures forall c :: c in r <==> c in t.cols && HoldsString(t, c)
    ensures Describes(Dtypes(map[], r), t)
  {
    var r := set c | c in t.cols && HoldsString(t, c);
    forall k, j | 0 <= k < |t.rows| && 0 <= j < |t.cols| && t.cols[j] !in r
      ensures !t.rows[k][j].Str?
    {
      ColumnNamedAt(t, j);
      assert Column(t, t.cols[j])[k] == t.rows[k][j];
    }
    r
  }

  /** The dtypes the features reach `get_dummies` with. They are fixed
      before the row stages, so a column of object dtype stays one even when
      the outlier filter removes every string from it. `age_group`, when
      binning creates it, is categorical with the four age labels. */
  function FeatureDtypes(encoded: Table, flags: Flags): (d: Dtypes)
    requires WellFormed(encoded)
    ensures Describes(d, encoded)
    ensures d.objects == ObjectColumns(encoded)
    ensures forall c :: c in d.categorical ==> c == GroupColumn && d.categorical[c] == AgeLabels
    ensures GroupColumn in d.categorical <==> flags.binAge && AgeColumn in encoded.cols
  {
    Dtypes(if flags.binAge && AgeColumn in encoded.cols then map[GroupColumn := AgeLabels] else map[],
           ObjectColumns(encoded))
  }

  /** A column after the row stages, other than a new `age_group`, holds
      values of the same column of the encoded table. */
  lemma PreparedColumnValues(encoded: Table, flags: Flags, c: string)
    requires WellFormed(encoded) && TargetColumn in encoded.cols
    requires c in Prepared(encoded, flags).cols
    requires !(flags.binAge && AgeColumn in encoded.cols && c == GroupColumn)
    ensures c in encoded.cols
    ensures forall v :: v in Column(Prepared(encoded, flags), c) ==> v in Column(encoded, c)
  {
    var filtered := FilterAgeOutliers(encoded, flags.handleOutlierAge);
    var prepared := Prepared(encoded, flags);
    assert c in filtered.cols && Column(prepared, c) == Column(filtered, c);
    SubseqMembers(Column(filtered, c), Column(encoded, c));
  }

  /** The dtypes fixed before the row stages still describe the features. */
  lemma PreparedDescribed(encoded: Table, flags: Flags)
    requires WellFormed(encoded) && TargetColumn in encoded.cols
    ensures Describes(FeatureDtypes(encoded, flags), Split(Prepared(encoded, flags)).0)
  {
    var prepared := Prepared(encoded, flags);
    var x := Split(prepared).0;
    var d := FeatureDtypes(encoded, flags);
    forall k, j | 0 <= k < |x.rows| && 0 <= j < |x.cols| && Numeric(d, x.cols[j])
      ensures !x.rows[k][j].Str?
    {
      var c := x.cols[j];
      PreparedColumnValues(encoded, flags, c);
      ColumnNamedAt(x, j);
      assert x.rows[k][j] == Column(prepared, c)[k];
      assert Column(prepared, c)[k] in Column(encoded, c);
    }
  }

  /** A prepared table and dtypes that describe its features. */
  predicate Ready(prepared: Table, d: Dtypes)
  {
    WellFormed(prepared) && TargetColumn in prepared.cols && Describes(d, Split(prepared).0)
  }

  /** An object column whose strings are all gone, to the outlier filter
      say, still counts as object: it gets no levels and so no indicator,
      and it leaves the table instead of passing through as a number. */
  lemma EmptiedObjectColumnDropped(x: Table, d: Dtypes, c: string)
    requires WellFormed(x) && Describes(d, x) && c in x.cols
    requires c !in d.categorical && c in d.objects
    requires forall k :: 0 <= k < |x.rows| ==> !Column(x, c)[k].Str?
    ensures EncodingFor(x, d, c) == Dummies([])
    ensures PlainName(c) ==> c !in GetDummies(x, d).cols
  {
    NoStringsNoLevels(Column(x, c));
    var r := GetDummies(x, d);
    GetDummiesColumns(x, d);
    if PlainName(c) && c in r.cols {
      var c' :| c' in x.cols && EncodingFor(x, d, c').Dummies? &&
        c in IndicatorNames(c', EncodingFor(x, d, c').levels);
      PlainNameIsNoIndicator(c, c', EncodingFor(x, d, c').levels);
    }
  }

  /** Stages 6 and 7: the one-hot encoded feature matrix. */
  function Matrix(prepared: Table, d: Dtypes): Table
    requires Ready(prepared, d)
  {
    GetDummies(Split(prepared).0, d)
  }

  /** The target never becomes a feature column. */
  lemma TargetNotInMatrix(prepared: Table, d: Dtypes)
    requires Ready(prepared, d)
    ensures TargetColumn !in Matrix(prepared, d).cols
  {
    var x := Split(prepared).0;
    assert PlainName(TargetColumn);
    PlainNamesSurvive(x, d, TargetColumn);
  }

  /** Stages 6 to 8 on a prepared table: split off the target, one-hot
      encode the features, refuse an empty matrix as `get_dummies` or the
      scaler does, and put the target back as the last column. */
  function Finish(prepared: Table, d: Dtypes): (r: Result<Table>)
    requires Ready(prepared, d)
    ensures r.Err? <==> |prepared.rows| == 0 || |Matrix(prepared, d).cols| == 0
    ensures r.Err? ==> r.error == EmptyMatrix
    ensures r.Ok? ==>
      && Rectangular(r.value) && |r.value.rows| == |prepared.rows|
      && r.value.cols == Matrix(prepared, d).cols + [TargetColumn]
      && TargetColumn !in Matrix(prepared, d).cols
      && Column(r.value, TargetColumn) == Column(prepared, TargetColumn)
      && (forall k, j :: 0 <= k < |r.value.rows| && 0 <= j < |r.value.cols| - 1 ==> !r.value.rows[k][j].Str?)
  {
    var features := Matrix(prepared, d);
    if |features.rows| == 0 || |features.cols| == 0 then Err(EmptyMatrix)
    else
      TargetNotInMatrix(prepared, d);
      var out := Assemble(features, Split(prepared).1);
      assert forall k, j :: 0 <= k < |out.rows| && 0 <= j < |out.cols| - 1 ==> out.rows[k][j] == features.rows[k][j];
      Ok(out)
  }

  /** The target values kept by the row filters are still encoded labels. */
  lemma PreparedTargetBinary(encoded: Table, flags: Flags)
    requires WellFormed(encoded) && TargetColumn in encoded.cols
    requires forall k :: 0 <= k < |encoded.rows| ==> IsBinary(Column(encoded, TargetColumn)[k])
    ensures forall k :: 0 <= k < |Prepared(encoded, flags).rows| ==>
      IsBinary(Column(Prepared(encoded, flags), TargetColumn)[k])
  {
    var ys := Column(Prepared(encoded, flags), TargetColumn);
    var zs := Column(encoded, TargetColumn);
    SubseqMembers(ys, zs);
    forall k | 0 <= k < |ys|
      ensures IsBinary(ys[k])
    {
      assert ys[k] in zs;
    }
  }

  /** What the stages after the target checks guarantee: the only error is
      the empty matrix, and an output ends with the surviving 0/1 targets
      after feature columns free of strings. */
  lemma FinishOutcome(encoded: Table, flags: Flags)
    requires WellFormed(encoded) && TargetColumn in encoded.cols
    requires forall k :: 0 <= k < |encoded.rows| ==> IsBinary(Column(encoded, TargetColumn)[k])
    ensures Ready(Prepared(encoded, flags), FeatureDtypes(encoded, flags))
    ensures var r := Finish(Prepared(encoded, flags), FeatureDtypes(encoded, flags));
      && (r.Err? ==> r.error == EmptyMatrix)
      && (r.Ok? ==>
        && Rectangular(r.value)
        && 0 < |r.value.rows| <= |encoded.rows|
        && |r.value.cols| >= 2
        && r.value.cols[|r.value.cols| - 1] == TargetColumn
        && TargetColumn !in r.value.cols[..|r.value.cols| - 1]
        && IsSubseq(Column(r.value, TargetColumn), Column(encoded, TargetColumn))
        && (forall k :: 0 <= k < |r.value.rows| ==> IsBinary(Column(r.value, TargetColumn)[k]))
        && (forall k, j :: 0 <= k < |r.value.rows| && 0 <= j < |r.value.cols| - 1 ==> !r.value.rows[k][j].Str?))
  {
    var prepared := Prepared(encoded, flags);
    var d := FeatureDtypes(encoded, flags);
    PreparedTargetBinary(encoded, flags);
    PreparedDescribed(encoded, flags);
    var r := Finish(prepared, d);
    if r.Ok? {
      assert r.value.cols[..|r.value.cols| - 1] == Matrix(prepared, d).cols;
    }
  }

  /** `preprocess`, from the loaded table to the table written out. */
  function Preprocess(raw: Table, flags: Flags): (r: Result<Table>)
    requires WellFormed(raw)
    ensures TargetColumn !in raw.cols <==> r == Err(MissingTarget)
    ensures r == Err(InvalidTarget) <==>
      TargetColumn in raw.cols && exists k :: 0 <= k < |raw.rows| && !ValidLabel(Column(raw, TargetColumn)[k])
    ensures r == Err(EmptyMatrix) ==> Encoded(raw, flags).Ok?
    ensures r.Ok? ==>
      && Encoded(raw, flags).Ok?
      && Rectangular(r.value)
      && 0 < |r.value.rows| <= |Deduplicate(raw, flags.dropDuplicates).rows| <= |raw.rows|
      && |r.value.cols| >= 2
      && r.value.cols[|r.value.cols| - 1] == TargetColumn
      && TargetColumn !in r.value.cols[..|r.value.cols| - 1]
      && IsSubseq(Column(r.value, TargetColumn), Column(Encoded(raw, flags).value, TargetColumn))
      && (forall k :: 0 <= k < |r.value.rows| ==> IsBinary(Column(r.value, TargetColumn)[k]))
      && (forall k, j :: 0 <= k < |r.value.rows| && 0 <= j < |r.value.cols| - 1 ==> !r.value.rows[k][j].Str?)
  {
    EncodedOutcome(raw, flags);
    match Encoded(raw, flags)
    case Err(e) => Err(e)
    case Ok(encoded) =>
      FinishOutcome(encoded, flags);
      Finish(Prepared(encoded, flags), FeatureDtypes(encoded, flags))
  }
}

/** End-to-end properties of `preprocess` that relate its output to its
    input across several stages. */
module PipelineProperties {
  import opened Seqs
  import opened Frames
  import opened Dedup
  import opened Target
  import opened Outliers
  import opened Binning
  import opened OneHot
  import opened Pipeline

  /** The encoded table keeps the columns of the input. */
  lemma EncodedColumns(raw: Table, flags: Flags)
    requires WellFormed(raw) && Encoded(raw, flags).Ok?
    ensures Encoded(raw, flags).value.cols == raw.cols
    ensures |Encoded(raw, flags).value.rows| == |Deduplicate(raw, flags.dropDuplicates).rows|
  {
  }

  /** With neither row filter on, every input row reaches the output, and
      the output target is the input's labels encoded, in input order. */
  lemma WithoutRowFilters(raw: Table, flags: Flags)
    requires WellFormed(raw) && !flags.dropDuplicates && !flags.handleOutlierAge
    requires Preprocess(raw, flags).Ok?
    ensures |Preprocess(raw, flags).value.rows| == |raw.rows|
    ensures TargetColumn in raw.cols
    ensures forall k :: 0 <= k < |raw.rows| ==>
      (Column(Preprocess(raw, flags).value, TargetColumn)[k] == Num(1.0) <==> Column(raw, TargetColumn)[k] == Str("yes"))
  {
    var encoded := Encoded(raw, flags).value;
    var prepared := Prepared(encoded, flags);
    assert FilterAgeOutliers(encoded, false) == encoded;
    assert Column(prepared, TargetColumn) == Column(encoded, TargetColumn);
  }

  /** A column declared categorical gets the indicator of each of its kept
      levels. */
  lemma DeclaredIndicators(x: Table, d: Dtypes, c: string)
    requires WellFormed(x) && Describes(d, x) && c in x.cols && c in d.categorical
    ensures forall n :: n in IndicatorNames(c, d.categorical[c]) ==> n in GetDummies(x, d).cols
  {
    var levels := d.categorical[c];
    var r := GetDummies(x, d);
    GetDummiesColumns(x, d);
    assert EncodingFor(x, d, c) == Dummies(levels);
    forall n | n in IndicatorNames(c, levels)
      ensures n in r.cols
    {
      var m :| 0 <= m < |Kept(levels)| && IndicatorNames(c, levels)[m] == n;
      assert Kept(levels)[m] in Kept(levels);
    }
  }

  /** The categorical `age_group` column yields the indicators of its three
      levels after the reference level `Young`. */
  lemma GroupIndicators(x: Table, d: Dtypes)
    requires WellFormed(x) && Describes(d, x) && GroupColumn in x.cols
    requires GroupColumn in d.categorical && d.categorical[GroupColumn] == AgeLabels
    ensures forall l :: l in ["Adult", "Senior", "Elder"] ==> GroupColumn + "_" + l in GetDummies(x, d).cols
  {
    DeclaredIndicators(x, d, GroupColumn);
    var ns := IndicatorNames(GroupColumn, AgeLabels);
    assert Kept(AgeLabels) == ["Adult", "Senior", "Elder"];
    assert ns[0] == GroupColumn + "_" + "Adult";
    assert ns[1] == GroupColumn + "_" + "Senior";
    assert ns[2] == GroupColumn + "_" + "Elder";
  }

  /** `y` and `age` carry no separator. */
  lemma KnownNamesArePlain()
    ensures PlainName(TargetColumn) && PlainName(AgeColumn)
  {
  }

  /** After binning, the features hold `age_group` and no `age`. */
  lemma BinnedFeatures(encoded: Table, flags: Flags)
    requires WellFormed(encoded) && TargetColumn in encoded.cols
    requires flags.binAge && AgeColumn in encoded.cols
    ensures GroupColumn in Split(Prepared(encoded, flags)).0.cols
    ensures AgeColumn !in Split(Prepared(encoded, flags)).0.cols
  {
  }

  /** With binning on and an age column present, the output holds no raw
      `age` column, and the age-group indicators for the three levels after
      the dropped reference level `Young`. */
  lemma BinnedColumns(raw: Table, flags: Flags)
    requires WellFormed(raw) && flags.binAge && AgeColumn in raw.cols
    requires Preprocess(raw, flags).Ok?
    ensures AgeColumn !in Preprocess(raw, flags).value.cols
    ensures forall l :: l in ["Adult", "Senior", "Elder"] ==>
      GroupColumn + "_" + l in Preprocess(raw, flags).value.cols
  {
    var encoded := Encoded(raw, flags).value;
    EncodedColumns(raw, flags);
    var prepared := Prepared(encoded, flags);
    var d := FeatureDtypes(encoded, flags);
    assert d.categorical == map[GroupColumn := AgeLabels];
    var x := Split(prepared).0;
    PreparedDescribed(encoded, flags);
    BinnedFeatures(encoded, flags);
    GroupIndicators(x, d);
    KnownNamesArePlain();
    PlainNamesSurvive(x, d, AgeColumn);
    assert Preprocess(raw, flags).value.cols == GetDummies(x, d).cols + [TargetColumn];
  }

  /** Every value a non-target column holds after the row stages is a value
      the same column held in the input. */
  lemma PreparedValuesFromInput(raw: Table, flags: Flags, c: string)
    requires WellFormed(raw) && Encoded(raw, flags).Ok?
    requires c in raw.cols && c != TargetColumn && c != AgeColumn && c != GroupColumn
    ensures c in Prepared(Encoded(raw, flags).value, flags).cols
    ensures forall v :: v in Column(Prepared(Encoded(raw, flags).value, flags), c) ==> v in Column(raw, c)
  {
    var deduped := Deduplicate(raw, flags.dropDuplicates);
    var encoded := Encoded(raw, flags).value;
    EncodedColumns(raw, flags);
    var filtered := FilterAgeOutliers(encoded, flags.handleOutlierAge);
    var prepared := Prepared(encoded, flags);
    assert Column(prepared, c) == Column(filtered, c);
    SubseqMembers(Column(filtered, c), Column(encoded, c));
    assert Column(encoded, c) == Column(deduped, c);
    forall v | v in Column(prepared, c)
      ensures v in Column(raw, c)
    {
      DeduplicateKeepsColumnValues(raw, flags.dropDuplicates, c, v);
    }
  }

  /** The age values after the row stages, when binning is off, are ages of
      the input. */
  lemma UnbinnedAgeFromInput(raw: Table, flags: Flags)
    requires WellFormed(raw) && Encoded(raw, flags).Ok? && !flags.binAge && AgeColumn in raw.cols
    ensures AgeColumn in Prepared(Encoded(raw, flags).value, flags).cols
    ensures forall v :: v in Column(Prepared(Encoded(raw, flags).value, flags), AgeColumn) ==> v in Column(raw, AgeColumn)
  {
    var deduped := Deduplicate(raw, flags.dropDuplicates);
    var encoded := Encoded(raw, flags).value;
    EncodedColumns(raw, flags);
    var filtered := FilterAgeOutliers(encoded, flags.handleOutlierAge);
    var prepared := Prepared(encoded, flags);
    assert prepared == filtered;
    SubseqMembers(Column(filtered, AgeColumn), Column(encoded, AgeColumn));
    assert Column(encoded, AgeColumn) == Column(deduped, AgeColumn);
    forall v | v in Column(prepared, AgeColumn)
      ensures v in Column(raw, AgeColumn)
    {
      DeduplicateKeepsColumnValues(raw, flags.dropDuplicates, AgeColumn, v);
    }
  }

  /** A column of the loaded table other than `y` that holds no string is
      not of object dtype. */
  lemma NoStringNotObject(raw: Table, flags: Flags, c: string)
    requires WellFormed(raw) && Encoded(raw, flags).Ok? && c in raw.cols && c != TargetColumn
    requires forall k :: 0 <= k < |raw.rows| ==> !Column(raw, c)[k].Str?
    ensures c !in ObjectColumns(Encoded(raw, flags).value)
  {
    var deduped := Deduplicate(raw, flags.dropDuplicates);
    var encoded := Encoded(raw, flags).value;
    EncodedColumns(raw, flags);
    assert Column(encoded, c) == Column(deduped, c);
    forall k | 0 <= k < |encoded.rows|
      ensures !Column(encoded, c)[k].Str?
    {
      var v := Column(encoded, c)[k];
      DeduplicateKeepsColumnValues(raw, flags.dropDuplicates, c, v);
    }
  }

  /** A feature column of numeric dtype passes through the encoding with its
      values, at the front of the output. */
  lemma NumericFeatureSurvives(prepared: Table, d: Dtypes, c: string)
    requires Ready(prepared, d)
    requires c in prepared.cols && c != TargetColumn && Numeric(d, c)
    requires Finish(prepared, d).Ok?
    ensures c in Finish(prepared, d).value.cols
    ensures Column(Finish(prepared, d).value, c) == Column(prepared, c)
  {
    var x := Split(prepared).0;
    assert Column(x, c) == Column(prepared, c);
    assert EncodingFor(x, d, c) == Pass;
    GetDummiesColumns(x, d);
  }

  /** With binning off, an age column without strings stays a numeric
      feature whose values are ages of the input. */
  lemma AgeKeptWithoutBinning(raw: Table, flags: Flags)
    requires WellFormed(raw) && !flags.binAge && AgeColumn in raw.cols
    requires forall k :: 0 <= k < |raw.rows| ==> !Column(raw, AgeColumn)[k].Str?
    requires Preprocess(raw, flags).Ok?
    ensures AgeColumn in Preprocess(raw, flags).value.cols
    ensures forall v :: v in Column(Preprocess(raw, flags).value, AgeColumn) ==> v in Column(raw, AgeColumn)
  {
    var encoded := Encoded(raw, flags).value;
    var prepared := Prepared(encoded, flags);
    EncodedOutcome(raw, flags);
    UnbinnedAgeFromInput(raw, flags);
    NoStringNotObject(raw, flags, AgeColumn);
    PreparedDescribed(encoded, flags);
    NumericFeatureSurvives(prepared, FeatureDtypes(encoded, flags), AgeColumn);
  }

  /** A numeric column other than the target and the age columns reaches
      the output as a feature, holding only values of the input column. */
  lemma NumericColumnKept(raw: Table, flags: Flags, c: string)
    requires WellFormed(raw) && c in raw.cols
    requires c != TargetColumn && c != AgeColumn && c != GroupColumn
    requires forall k :: 0 <= k < |raw.rows| ==> !Column(raw, c)[k].Str?
    requires Preprocess(raw, flags).Ok?
    ensures c in Preprocess(raw, flags).value.cols
    ensures forall v :: v in Column(Preprocess(raw, flags).value, c) ==> v in Column(raw, c)
  {
    var encoded := Encoded(raw, flags).value;
    var prepared := Prepared(encoded, flags);
    EncodedOutcome(raw, flags);
    PreparedValuesFromInput(raw, flags, c);
    NoStringNotObject(raw, flags, c);
    PreparedDescribed(encoded, flags);
    NumericFeatureSurvives(prepared, FeatureDtypes(encoded, flags), c);
  }

  /** An age outside [0, 100] gets no group, and a row without a group gets
      the same all-zero indicators as a `Young` row: after encoding the two
      cannot be told apart. */
  lemma OutOfRangeAgeLooksYoung(x: real)
    requires x < 0.0 || 100.0 < x
    ensures AgeGroup(Num(x)) == Null
    ensures Indicators(AgeGroup(Num(x)), AgeLabels) == Indicators(Str("Young"), AgeLabels)
  {
    AgeGroupBands(x);
    assert Kept(AgeLabels) == ["Adult", "Senior", "Elder"];
  }
}
