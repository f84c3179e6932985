/** What the text sent to Oracle does to a table, as it is read, against what the upsert does
    (ingestor_orchestrator/oracle-repositories/merge.go, tx.go). */
module OracleOutcome {
  import opened Common
  import opened OracleMerge
  import opened OracleText
  import opened OracleTranslation
  import opened OracleEffect
  import opened OracleReading

  // ----- What a statement does, as it is read -----

  predicate Known(r: Ref, target: Entry, source: Entry) {
    match r case Target(c) => c in target case Source(c) => c in source
  }

  function ColumnValue(r: Ref, target: Entry, source: Entry): Value
    requires Known(r, target, source)
  {
    match r case Target(c) => target[c] case Source(c) => source[c]
  }

  predicate Matches(on: seq<Equation>, target: Entry, source: Entry) {
    forall e :: e in on ==>
      && Known(e.left, target, source) && Known(e.right, target, source)
      && ColumnValue(e.left, target, source) == ColumnValue(e.right, target, source)
  }

  ghost predicate Settable(settings: seq<Setting>, target: Entry, source: Entry) {
    forall x :: x in settings ==> (x.value.Column? ==> Known(x.value.ref, target, source))
  }

  function OperandValue(o: Operand, target: Entry, source: Entry, meaning: Meaning): Value
    requires o.Column? ==> Known(o.ref, target, source)
  {
    match o case Column(r) => ColumnValue(r, target, source) case Text(t) => meaning(t)
  }

  /** All columns are set from the row as it was. */
  ghost function WithSettings(target: Entry, settings: seq<Setting>, source: Entry, meaning: Meaning): Entry
    requires Settable(settings, target, source)
    decreases |settings|
  {
    if settings == [] then target
    else
      var last := settings[|settings| - 1];
      WithSettings(target, settings[..|settings| - 1], source, meaning)[last.column := OperandValue(last.value, target, source, meaning)]
  }

  ghost predicate Runs(before: set<Entry>, r: Reading, meaning: Meaning) {
    var s := SourceRow(r.source, meaning);
    && |r.columns| == |r.values| && (forall v :: v in r.values ==> Known(v, map[], s))
    && (r.settings.Some? ==> forall e :: e in before ==> Settable(r.settings.value, e, s))
  }

  ghost function Updated(e: Entry, r: Reading, meaning: Meaning): Entry
    requires r.settings.Some? ==> Settable(r.settings.value, e, SourceRow(r.source, meaning))
  {
    if r.settings.None? then e else WithSettings(e, r.settings.value, SourceRow(r.source, meaning), meaning)
  }

  function ValuesOf(refs: seq<Ref>, s: Entry): seq<Value>
    requires forall v :: v in refs ==> Known(v, map[], s)
  {
    seq(|refs|, i requires 0 <= i < |refs| => ColumnValue(refs[i], map[], s))
  }

  /** Rows that match are updated; if there is none, a row is inserted, unless a unique index refuses it. */
  ghost function ReadingEffect(before: set<Entry>, r: Reading, meaning: Meaning): Effect
    requires Runs(before, r, meaning)
  {
    var s := SourceRow(r.source, meaning);
    if exists e :: e in before && Matches(r.on, e, s) then
      Done(set e | e in before :: if Matches(r.on, e, s) then Updated(e, r, meaning) else e)
    else
      var row := Proposal(r.columns, ValuesOf(r.values, s));
      if Conflicts(before, row, r.table) then Violation else Done(before + {row})
  }

  // ----- It is what the structure of the statement does -----

  lemma MatchesKeys(keys: seq<string>, e: Entry, s: Entry)
    ensures Matches(EquationsOf(keys), e, s) <==> Agree(e, s, keys)
  {
    forall k | k in keys ensures Equation(Target(k), Source(k)) in EquationsOf(keys) {
      var i :| 0 <= i < |keys| && keys[i] == k;
      assert EquationsOf(keys)[i] == Equation(Target(k), Source(k));
    }
  }

  lemma SettingsEvaluable(updates: seq<Assignment>, e: Entry, s: Entry)
    requires Evaluable(updates, s)
    ensures Settable(SettingsOf(updates), e, s)
  {
    forall x | x in SettingsOf(updates) ensures x.value.Column? ==> Known(x.value.ref, e, s) {
      var i :| 0 <= i < |updates| && SettingsOf(updates)[i] == x;
      assert updates[i] in updates;
    }
  }

  lemma {:induction false} SettingsAssign(e: Entry, updates: seq<Assignment>, s: Entry, meaning: Meaning)
    requires Evaluable(updates, s)
    ensures Settable(SettingsOf(updates), e, s)
    ensures WithSettings(e, SettingsOf(updates), s, meaning) == AssignInOrder(e, updates, s, meaning)
    decreases |updates|
  {
    SettingsEvaluable(updates, e, s);
    if updates != [] {
      var n := |updates| - 1;
      assert updates[n] in updates;
      assert SettingsOf(updates)[..n] == SettingsOf(updates[..n]);
      SettingsAssign(e, updates[..n], s, meaning);
    }
  }

  lemma ReferredSame(refs: seq<string>, s: Entry)
    requires forall c :: c in refs ==> c in s
    ensures forall v :: v in SourcesOf(refs) ==> Known(v, map[], s)
    ensures ValuesOf(SourcesOf(refs), s) == ReferredValues(refs, s)
  {
    forall v | v in SourcesOf(refs) ensures Known(v, map[], s) {
      var i :| 0 <= i < |refs| && SourcesOf(refs)[i] == v;
      assert refs[i] in refs;
    }
  }

  lemma UpdatedSame(e: Entry, m: Merge, meaning: Meaning)
    requires Applicable(m, meaning)
    ensures m.updates.Some? ==> Settable(SettingsOf(m.updates.value), e, SourceRow(m.source, meaning))
    ensures Updated(e, ReadingOf(m), meaning) == Changed(e, m, meaning)
  {
    if m.updates.Some? {
      var s := SourceRow(m.source, meaning);
      SettingsAssign(e, m.updates.value, s, meaning);
      OrderIrrelevant(e, m.updates.value, s, meaning);
    }
  }

  lemma ReadingRuns(before: set<Entry>, m: Merge, meaning: Meaning)
    requires Applicable(m, meaning)
    ensures Runs(before, ReadingOf(m), meaning)
  {
    ReferredSame(m.refs, SourceRow(m.source, meaning));
    forall e | e in before ensures m.updates.Some? ==> Settable(SettingsOf(m.updates.value), e, SourceRow(m.source, meaning)) {
      UpdatedSame(e, m, meaning);
    }
  }

  /** Reading loses nothing: what is read does what the structure does. */
  lemma ReadingDoes(before: set<Entry>, m: Merge, meaning: Meaning)
    requires Applicable(m, meaning)
    ensures Runs(before, ReadingOf(m), meaning) && ReadingEffect(before, ReadingOf(m), meaning) == MergeEffect(before, m, meaning)
  {
    var s, r := SourceRow(m.source, meaning), ReadingOf(m);
    ReadingRuns(before, m, meaning);
    ReferredSame(m.refs, s);
    forall e ensures Matches(r.on, e, s) <==> Agree(e, s, m.keys) { MatchesKeys(m.keys, e, s); }
    forall e ensures Updated(e, r, meaning) == Changed(e, m, meaning) { UpdatedSame(e, m, meaning); }
    var read := set e | e in before :: if Matches(r.on, e, s) then Updated(e, r, meaning) else e;
    var done := set e | e in before :: if Agree(e, s, m.keys) then Changed(e, m, meaning) else e;
    assert read == done;
  }

  // ----- The statement that is sent -----

  /** The values and texts of the repository's statements. */
  ghost predicate Legible(u: Upsert) {
    && (forall i :: 0 <= i < |u.values| ==> Plain(u.values[i]))
    && (u.updates.Some? ==> forall i :: 0 <= i < |u.updates.value| ==> PlainUpdate(u.updates.value[i].rhs, UNMATCHED))
  }

  lemma KeysAreNames(table: string)
    requires KeysOf(table) != []
    ensures Names(KeysOf(table))
  {
    assert Identifier("resource_id") && Identifier("label");
  }

  lemma LegibleReadable(u: Upsert)
    requires Cuttable(u) && Legible(u)
    ensures Readable(Translate(u))
  {
    KeysAreNames(u.table);
  }

  /** Each expression under the name of its own column, the keys of the table against the same columns of the source, each
      assignment with its own operand, and each column filled from its own. */
  ghost predicate Says(r: Reading, u: Upsert) {
    && r.table == u.table && r.columns == u.columns && |r.source| == |u.columns| == |r.values| == |u.values|
    && (forall i :: 0 <= i < |u.columns| ==> r.source[i] == Selected(u.values[i], u.columns[i]) && r.values[i] == Source(u.columns[i]))
    && (forall e :: e in r.on <==> exists k :: k in KeysOf(u.table) && e == Equation(Target(k), Source(k)))
    && (r.settings.Some? <==> u.updates.Some?)
    && (u.updates.Some? ==>
          && |r.settings.value| == |u.updates.value|
          && forall i :: 0 <= i < |u.updates.value| ==> SetsAs(r.settings.value[i], u.updates.value[i]))
  }

  predicate SetsAs(x: Setting, a: Assignment) {
    x.column == a.column && match a.rhs case Proposed(c) => x.value == Column(Source(c)) case Verbatim(t) => x.value == Text(t)
  }

  lemma EquationsAre(keys: seq<string>)
    ensures forall e :: e in EquationsOf(keys) <==> exists k :: k in keys && e == Equation(Target(k), Source(k))
  {
    forall k | k in keys ensures Equation(Target(k), Source(k)) in EquationsOf(keys) {
      var i :| 0 <= i < |keys| && keys[i] == k;
      assert EquationsOf(keys)[i] == Equation(Target(k), Source(k));
    }
  }

  lemma TranslationSays(u: Upsert)
    requires |u.values| == |u.columns|
    ensures Says(ReadingOf(Translate(u)), u)
  {
    EquationsAre(KeysOf(u.table));
  }

  lemma SentReading(u: Upsert)
    requires Cuttable(u) && Legible(u)
    ensures Accepted(UpsertText(u)) && ReadMerge(Rewritten(UpsertText(u))) == Some(ReadingOf(Translate(u)))
  {
    MergeOfUpsert(u);
    LegibleReadable(u);
    ReadsBack(Translate(u));
  }

  /** What is read in the statement that is sent is what the upsert says. */
  lemma SentIsRead(u: Upsert)
    requires Cuttable(u) && Legible(u)
    ensures Accepted(UpsertText(u)) && ReadMerge(Rewritten(UpsertText(u))).Some?
    ensures Says(ReadMerge(Rewritten(UpsertText(u))).value, u)
  {
    SentReading(u);
    TranslationSays(u);
  }

  lemma EffectRead(before: set<Entry>, u: Upsert, meaning: Meaning, r: Reading)
    requires Executable(u) && KeyedBy(before, KeysOf(u.table)) && r == ReadingOf(Translate(u))
    requires u.updates.Some? ==> Evaluable(u.updates.value, Row(u, meaning))
    ensures Runs(before, r, meaning)
    ensures (forall after :: UpsertLeads(before, u, meaning, after) <==> ReadingEffect(before, r, meaning) == Done(after)) <==>
            (Taken(before, Row(u, meaning), KeysOf(u.table)) || !Taken(before, Row(u, meaning), OtherKeys(u.table)))
  {
    MergeKeepsEffect(before, u, meaning);
    ReadingDoes(before, Translate(u), meaning);
  }

  /** The text that is sent does to every keyed table what the upsert did, with the one exception of a new row that takes
      another unique index. */
  lemma SentKeepsEffect(before: set<Entry>, u: Upsert, meaning: Meaning)
    requires Cuttable(u) && Legible(u) && Executable(u) && KeyedBy(before, KeysOf(u.table))
    requires u.updates.Some? ==> Evaluable(u.updates.value, Row(u, meaning))
    ensures Accepted(UpsertText(u)) && ReadMerge(Rewritten(UpsertText(u))).Some?
    ensures var r := ReadMerge(Rewritten(UpsertText(u))).value;
            && Runs(before, r, meaning)
            && ((forall after :: UpsertLeads(before, u, meaning, after) <==> ReadingEffect(before, r, meaning) == Done(after)) <==>
                (Taken(before, Row(u, meaning), KeysOf(u.table)) || !Taken(before, Row(u, meaning), OtherKeys(u.table))))
  {
    SentReading(u);
    EffectRead(before, u, meaning, ReadingOf(Translate(u)));
  }

  // ----- A statement of the repository, in letters -----

  const HINT := "INSERT INTO csv_hint (" + "resource_id,delimiter" + ") VALUES (" + "?,?" + ")"
                + " ON DUPLICATE KEY UPDATE " + "delimiter=VALUES(delimiter)"

  const HINT_MERGE := "MERGE INTO csv_hint t USING (SELECT " + "? AS resource_id,? AS delimiter" + " FROM dual) s ON ("
                      + "t.resource_id=s.resource_id" + ")"
                      + (" WHEN MATCHED THEN UPDATE SET " + "t.delimiter=s.delimiter")
                      + (" WHEN NOT MATCHED THEN INSERT (" + "resource_id,delimiter" + ") VALUES (" + "s.resource_id,s.delimiter" + ")")

  function Hint(): Upsert {
    Upsert("csv_hint", ["resource_id", "delimiter"], ["?", "?"], Some([Assignment("delimiter", Proposed("delimiter"))]))
  }

  lemma JoinTwo(a: string, b: string, separator: string)
    ensures Join([a, b], separator) == a + separator + b && Join([a], separator) == a
  {
    assert [a, b][1..] == [b];
  }

  lemma HintUpdates()
    ensures UpdatesText(Hint()) == Some("delimiter=VALUES(delimiter)")
  {
    var texts := AssignmentTexts(Hint().updates.value, "", ProposedUpsert);
    assert texts[0] == "" + "delimiter" + "=" + ("VALUES(" + "delimiter" + ")");
    assert texts[0] == "delimiter=VALUES(delimiter)";
    assert texts == ["delimiter=VALUES(delimiter)"];
    JoinTwo("delimiter=VALUES(delimiter)", "", ",");
  }

  lemma HintText()
    ensures UpsertText(Hint()) == HINT
  {
    HintUpdates();
    JoinTwo("resource_id", "delimiter", ",");
    JoinTwo("?", "?", ",");
    assert "resource_id" + "," + "delimiter" == "resource_id,delimiter";
    assert "?" + "," + "?" == "?,?";
    assert INSERT + "csv_hint" + " (" == "INSERT INTO csv_hint (";
  }

  lemma TwoSources(a: string, b: string, c: string, d: string)
    ensures Join(SourceTexts([Selected(a, b), Selected(c, d)]), ",") == a + " AS " + b + "," + (c + " AS " + d)
  {
    var texts := SourceTexts([Selected(a, b), Selected(c, d)]);
    assert texts == [a + " AS " + b, c + " AS " + d];
    JoinTwo(a + " AS " + b, c + " AS " + d, ",");
  }

  lemma SourceLetters()
    ensures "?" + " AS " + "resource_id" + "," + ("?" + " AS " + "delimiter") == "? AS resource_id,? AS delimiter"
  {
    assert "?" + " AS " + "resource_id" == "? AS resource_id";
    assert "?" + " AS " + "delimiter" == "? AS delimiter";
  }

  lemma HintSource()
    ensures Join(SourceTexts(Translate(Hint()).source), ",") == "? AS resource_id,? AS delimiter"
  {
    TwoSources("?", "resource_id", "?", "delimiter");
    SourceLetters();
    assert Translate(Hint()).source == [Selected("?", "resource_id"), Selected("?", "delimiter")];
  }

  lemma HintOn()
    ensures Join(KeyTexts(Translate(Hint()).keys), " AND ") == "t.resource_id=s.resource_id"
  {
    var texts := KeyTexts(Translate(Hint()).keys);
    assert texts[0] == "t." + "resource_id" + "=s." + "resource_id";
    assert "t." + "resource_id" + "=s." + "resource_id" == "t.resource_id=s.resource_id";
    assert texts == ["t.resource_id=s.resource_id"];
    JoinTwo("t.resource_id=s.resource_id", "", " AND ");
  }

  lemma HintSettings()
    ensures Join(AssignmentTexts(Hint().updates.value, "t.", ProposedMerge), ",") == "t.delimiter=s.delimiter"
  {
    var texts := AssignmentTexts(Hint().updates.value, "t.", ProposedMerge);
    assert texts[0] == "t." + "delimiter" + "=" + ("s." + "delimiter");
    assert "t." + "delimiter" + "=" + ("s." + "delimiter") == "t.delimiter=s.delimiter";
    assert texts == ["t.delimiter=s.delimiter"];
    JoinTwo("t.delimiter=s.delimiter", "", ",");
  }

  lemma HintColumns()
    ensures Join(Hint().columns, ",") == "resource_id,delimiter"
  {
    JoinTwo("resource_id", "delimiter", ",");
    assert "resource_id" + "," + "delimiter" == "resource_id,delimiter";
  }

  lemma TwoRefs(a: string, b: string)
    ensures Join(Each([a, b], "s.", ""), ",") == "s." + a + "," + ("s." + b)
  {
    var refs := Each([a, b], "s.", "");
    assert refs[0] == "s." + a + "" == "s." + a && refs[1] == "s." + b + "" == "s." + b;
    assert refs == ["s." + a, "s." + b];
    JoinTwo("s." + a, "s." + b, ",");
  }

  lemma HintRefs()
    ensures Join(Each(Hint().columns, "s.", ""), ",") == "s.resource_id,s.delimiter"
  {
    TwoRefs("resource_id", "delimiter");
    assert "s." + "resource_id" == "s.resource_id" && "s." + "delimiter" == "s.delimiter";
    assert "s.resource_id" + "," + "s.delimiter" == "s.resource_id,s.delimiter";
  }

  lemma HintMergeText()
    ensures MergeText(Translate(Hint())) == HINT_MERGE
  {
    HintSource();
    HintOn();
    HintSettings();
    HintColumns();
    HintRefs();
    assert "MERGE INTO " + "csv_hint" + " t USING (SELECT " == "MERGE INTO csv_hint t USING (SELECT ";
  }

  lemma HintCuttable()
    ensures Cuttable(Hint())
  {
    JoinTwo("?", "?", ",");
    assert "?" + "," + "?" == "?,?" && ' ' in UPDATE && ' ' in IGNORE;
    if Occurs("?,?", UPDATE) { OccurrenceHasChar("?,?", UPDATE, ' '); }
    if Occurs("?,?", IGNORE) { OccurrenceHasChar("?,?", IGNORE, ' '); }
  }

  /** The statement that stores the delimiter of a resource, before and after. */
  lemma HintExample()
    ensures Accepted(HINT) && Rewritten(HINT) == HINT_MERGE
  {
    HintText();
    HintMergeText();
    HintCuttable();
    MergeOfUpsert(Hint());
  }
}
