/** What an upsert and the MERGE statement made from it do to a table
    (ingestor_orchestrator/oracle-repositories/merge.go, schema.sql). */
module OracleEffect {
  import opened Common
  import opened OracleMerge

  // ----- Tables -----

  type Value = string

  type Entry = map<string, Value>

  predicate Distinct(names: seq<string>) { forall i, j :: 0 <= i < j < |names| ==> names[i] != names[j] }

  /** What an expression is worth to one statement: its bound parameters and the clock. */
  type Meaning = string -> Value

  /** Equal on all these columns. */
  predicate Agree(a: Entry, b: Entry, keys: seq<string>) {
    forall k :: k in keys ==> k in a && k in b && a[k] == b[k]
  }

  ghost predicate KeyedBy(table: set<Entry>, keys: seq<string>) {
    && (forall e :: e in table ==> Agree(e, e, keys))
    && (forall a, b :: a in table && b in table && Agree(a, b, keys) ==> a == b)
  }

  /** The other unique index: a label also has an id of its own. */
  function OtherKeys(table: string): seq<string> {
    if table == "resource_metadata_label" then ["id"] else []
  }

  /** The unique indexes of the schema, primary keys among them. */
  function UniqueIndexes(table: string): seq<seq<string>> {
    if table in {"latest_resource_job", "last_terminal_status", "csv_hint"} then [["resource_id"]]
    else if table == "resource_metadata_label" then [["id"], ["resource_id", "label"]]
    else []
  }

  /** The columns by which a statement finds its row are a unique index, and there is at most one other. */
  lemma IndexesAre(table: string)
    requires KeysOf(table) != []
    ensures forall index :: index in UniqueIndexes(table) <==>
              index == KeysOf(table) || (OtherKeys(table) != [] && index == OtherKeys(table))
  {}

  ghost predicate Taken(table: set<Entry>, e: Entry, keys: seq<string>) {
    keys != [] && exists other :: other in table && Agree(other, e, keys)
  }

  /** Some unique index refuses the row. */
  ghost predicate Conflicts(rows: set<Entry>, e: Entry, table: string) {
    exists index :: index in UniqueIndexes(table) && Taken(rows, e, index)
  }

  lemma ConflictsAre(rows: set<Entry>, e: Entry, table: string)
    requires KeysOf(table) != []
    ensures Conflicts(rows, e, table) <==> Taken(rows, e, KeysOf(table)) || Taken(rows, e, OtherKeys(table))
  {
    IndexesAre(table);
  }

  lemma MeetsBy(met: Entry, row: Entry, table: string)
    requires KeysOf(table) != []
    ensures Meets(met, row, table) <==> Agree(met, row, KeysOf(table)) || (OtherKeys(table) != [] && Agree(met, row, OtherKeys(table)))
  {
    IndexesAre(table);
  }

  /** The proposed row: each column with its own value; a repeated column would keep the last. */
  function Proposal(columns: seq<string>, values: seq<Value>): Entry
    requires |columns| == |values|
  {
    if columns == [] then map[]
    else Proposal(columns[..|columns| - 1], values[..|columns| - 1])[columns[|columns| - 1] := values[|columns| - 1]]
  }

  lemma {:induction false} ProposalAt(columns: seq<string>, values: seq<Value>, i: nat)
    requires |columns| == |values| && Distinct(columns) && i < |columns|
    ensures columns[i] in Proposal(columns, values) && Proposal(columns, values)[columns[i]] == values[i]
  {
    var n := |columns| - 1;
    if i < n {
      assert columns[..n][i] == columns[i] && columns[i] != columns[n];
      
      ProposalAt(columns[..n], values[..n], i);
    }
  }

  lemma {:induction false} ProposalKeys(columns: seq<string>, values: seq<Value>)
    requires |columns| == |values|
    ensures forall k :: k in Proposal(columns, values) <==> k in columns
  {
    if columns != [] {
      var n := |columns| - 1;
      ProposalKeys(columns[..n], values[..n]);
      assert columns == columns[..n] + [columns[n]];
    }
  }

  // ----- The upsert -----

  function Meanings(texts: seq<string>, meaning: Meaning): seq<Value> {
    seq(|texts|, i requires 0 <= i < |texts| => meaning(texts[i]))
  }

  function RhsValue(r: Rhs, proposed: Entry, meaning: Meaning): Value
    requires r.Proposed? ==> r.column in proposed
  {
    match r
    case Proposed(c) => proposed[c]
    case Verbatim(t) => meaning(t)
  }

  ghost predicate Evaluable(updates: seq<Assignment>, proposed: Entry) {
    forall a :: a in updates ==> (a.rhs.Proposed? ==> a.rhs.column in proposed)
  }

  /** MySQL carries out the assignments one after the other. */
  ghost function AssignInOrder(e: Entry, updates: seq<Assignment>, proposed: Entry, meaning: Meaning): Entry
    requires Evaluable(updates, proposed)
    decreases |updates|
  {
    if updates == [] then e
    else
      var a := updates[|updates| - 1];
      AssignInOrder(e, updates[..|updates| - 1], proposed, meaning)[a.column := RhsValue(a.rhs, proposed, meaning)]
  }

  /** INSERT IGNORE drops a row that any unique index refuses; an upsert updates the row it meets. */
  ghost predicate UpsertLeads(before: set<Entry>, u: Upsert, meaning: Meaning, after: set<Entry>)
    requires |u.values| == |u.columns|
    requires u.updates.Some? ==> Evaluable(u.updates.value, Proposal(u.columns, Meanings(u.values, meaning)))
  {
    var row := Proposal(u.columns, Meanings(u.values, meaning));
    if !Conflicts(before, row, u.table) then after == before + {row}
    else if u.updates.None? then after == before
    else exists met :: met in before && Meets(met, row, u.table) && after == before - {met} + {AssignInOrder(met, u.updates.value, row, meaning)}
  }

  ghost predicate Meets(met: Entry, row: Entry, table: string) {
    exists index :: index in UniqueIndexes(table) && Agree(met, row, index)
  }

  // ----- The MERGE statement -----

  function SourceRow(source: seq<Selected>, meaning: Meaning): Entry {
    if source == [] then map[]
    else SourceRow(source[..|source| - 1], meaning)[source[|source| - 1].name := meaning(source[|source| - 1].value)]
  }

  function AssignedColumns(updates: seq<Assignment>): seq<string> {
    seq(|updates|, i requires 0 <= i < |updates| => updates[i].column)
  }

  /** The assignment of a column. */
  function AssignmentOf(updates: seq<Assignment>, c: string): (r: Assignment)
    requires c in AssignedColumns(updates)
    ensures r in updates && r.column == c
    decreases |updates|
  {
    var last := updates[|updates| - 1];
    assert AssignedColumns(updates) == AssignedColumns(updates[..|updates| - 1]) + [last.column];
    if last.column == c then last else AssignmentOf(updates[..|updates| - 1], c)
  }

  function NewValue(e: Entry, updates: seq<Assignment>, s: Entry, meaning: Meaning, c: string): Value
    requires Evaluable(updates, s) && (c in e || c in AssignedColumns(updates))
  {
    if c in AssignedColumns(updates) then RhsValue(AssignmentOf(updates, c).rhs, s, meaning) else e[c]
  }

  /** Oracle assigns all columns at once. */
  function AssignAtOnce(e: Entry, updates: seq<Assignment>, s: Entry, meaning: Meaning): Entry
    requires Evaluable(updates, s)
  {
    map c | c in e.Keys + (set c | c in AssignedColumns(updates)) :: NewValue(e, updates, s, meaning, c)
  }

  datatype Effect = Done(table: set<Entry>) | Violation

  function ReferredValues(refs: seq<string>, s: Entry): seq<Value>
    requires forall c :: c in refs ==> c in s
  {
    seq(|refs|, i requires 0 <= i < |refs| => s[refs[i]])
  }

  ghost predicate Applicable(m: Merge, meaning: Meaning) {
    && |m.columns| == |m.refs|
    && (forall c :: c in m.refs ==> c in SourceRow(m.source, meaning))
    && (m.updates.Some? ==> Evaluable(m.updates.value, SourceRow(m.source, meaning)))
  }

  function Changed(e: Entry, m: Merge, meaning: Meaning): Entry
    requires Applicable(m, meaning)
  {
    if m.updates.None? then e else AssignAtOnce(e, m.updates.value, SourceRow(m.source, meaning), meaning)
  }

  /** Rows that match the source row are changed; if there is none, a row is inserted, unless a unique index refuses it. */
  ghost function MergeEffect(before: set<Entry>, m: Merge, meaning: Meaning): Effect
    requires Applicable(m, meaning)
  {
    var s := SourceRow(m.source, meaning);
    if exists met :: met in before && Agree(met, s, m.keys) then
      Done(set e | e in before :: if Agree(e, s, m.keys) then Changed(e, m, meaning) else e)
    else
      var row := Proposal(m.columns, ReferredValues(m.refs, s));
      if Conflicts(before, row, m.table) then Violation else Done(before + {row})
  }

  // ----- They agree -----

  /** What the databases demand of the statement: its keys are among its columns, and it assigns no key and no column twice. */
  ghost predicate Executable(u: Upsert) {
    && |u.values| == |u.columns| && Distinct(u.columns) && KeysOf(u.table) != []
    && (forall k :: k in KeysOf(u.table) || k in OtherKeys(u.table) ==> k in u.columns)
    && (u.updates.Some? ==> OtherKeys(u.table) == [] && Updatable(u.updates.value, u.columns, KeysOf(u.table)))
  }

  ghost predicate Updatable(updates: seq<Assignment>, columns: seq<string>, keys: seq<string>) {
    && Distinct(AssignedColumns(updates))
    && (forall a :: a in updates ==> a.column !in keys)
    && (forall a :: a in updates ==> (a.rhs.Proposed? ==> a.rhs.column in columns))
  }

  function Row(u: Upsert, meaning: Meaning): Entry
    requires |u.values| == |u.columns|
  {
    Proposal(u.columns, Meanings(u.values, meaning))
  }

  lemma {:induction false} SourceIsProposal(values: seq<string>, columns: seq<string>, meaning: Meaning)
    requires |values| == |columns|
    ensures SourceRow(Zip(values, columns), meaning) == Proposal(columns, Meanings(values, meaning))
  {
    if columns != [] {
      var n := |columns| - 1;
      assert Zip(values, columns)[..n] == Zip(values[..n], columns[..n]);
      assert Meanings(values, meaning)[..n] == Meanings(values[..n], meaning);
      SourceIsProposal(values[..n], columns[..n], meaning);
    }
  }

  /** The row inserted by the MERGE statement is the proposed one: no column takes the value of another. */
  lemma InsertedIsProposal(u: Upsert, meaning: Meaning)
    requires Executable(u)
    ensures var m := Translate(u);
            && SourceRow(m.source, meaning) == Row(u, meaning)
            && Applicable(m, meaning)
            && Proposal(m.columns, ReferredValues(m.refs, SourceRow(m.source, meaning))) == Row(u, meaning)
  {
    var m := Translate(u);
    assert m.source == Zip(u.values, u.columns);
    SourceIsProposal(u.values, u.columns, meaning);
    ProposalKeys(u.columns, Meanings(u.values, meaning));
    forall i | 0 <= i < |u.columns| ensures Row(u, meaning)[u.columns[i]] == meaning(u.values[i]) {
      ProposalAt(u.columns, Meanings(u.values, meaning), i);
    }
    assert ReferredValues(m.refs, Row(u, meaning)) == Meanings(u.values, meaning);
  }

  lemma LastAssigned(e: Entry, updates: seq<Assignment>, s: Entry, meaning: Meaning, c: string)
    requires updates != [] && Evaluable(updates, s)
    requires c in e || c in AssignedColumns(updates)
    ensures var n := |updates| - 1;
            && Evaluable(updates[..n], s)
            && AssignedColumns(updates) == AssignedColumns(updates[..n]) + [updates[n].column]
            && (if c == updates[n].column then NewValue(e, updates, s, meaning, c) == RhsValue(updates[n].rhs, s, meaning)
                else NewValue(e, updates, s, meaning, c) == NewValue(e, updates[..n], s, meaning, c))
  {
    var n := |updates| - 1;
    assert AssignedColumns(updates) == AssignedColumns(updates[..n]) + [updates[n].column];
    if c in AssignedColumns(updates) && c != updates[n].column {
      assert AssignmentOf(updates, c) == AssignmentOf(updates[..n], c);
    }
  }

  lemma AtOnceStep(e: Entry, updates: seq<Assignment>, s: Entry, meaning: Meaning)
    requires updates != [] && Evaluable(updates, s) && Evaluable(updates[..|updates| - 1], s)
    ensures var n := |updates| - 1;
            AssignAtOnce(e, updates, s, meaning) ==
            AssignAtOnce(e, updates[..n], s, meaning)[updates[n].column := RhsValue(updates[n].rhs, s, meaning)]
  {
    var n := |updates| - 1;
    var whole := AssignAtOnce(e, updates, s, meaning);
    var step := AssignAtOnce(e, updates[..n], s, meaning)[updates[n].column := RhsValue(updates[n].rhs, s, meaning)];
    assert AssignedColumns(updates) == AssignedColumns(updates[..n]) + [updates[n].column];
    assert whole.Keys == step.Keys;
    forall c | c in whole ensures whole[c] == step[c] {
      LastAssigned(e, updates, s, meaning, c);
    }
  }

  /** Carrying the assignments out in order or at once is the same. */
  lemma {:induction false} OrderIrrelevant(e: Entry, updates: seq<Assignment>, s: Entry, meaning: Meaning)
    requires Evaluable(updates, s)
    ensures AssignInOrder(e, updates, s, meaning) == AssignAtOnce(e, updates, s, meaning)
    decreases |updates|
  {
    if updates == [] {
      assert AssignAtOnce(e, updates, s, meaning) == e;
    } else {
      AtOnceStep(e, updates, s, meaning);
      OrderIrrelevant(e, updates[..|updates| - 1], s, meaning);
    }
  }

  /** The matched row changes alike. */
  lemma SameChange(met: Entry, u: Upsert, meaning: Meaning)
    requires Executable(u) && u.updates.Some?
    ensures Evaluable(u.updates.value, Row(u, meaning))
    ensures Applicable(Translate(u), meaning)
    ensures Changed(met, Translate(u), meaning) == AssignInOrder(met, u.updates.value, Row(u, meaning), meaning)
  {
    InsertedIsProposal(u, meaning);
    ProposalKeys(u.columns, Meanings(u.values, meaning));
    OrderIrrelevant(met, u.updates.value, Row(u, meaning), meaning);
  }

  lemma AgreeOnKeys(a: Entry, b: Entry, row: Entry, keys: seq<string>)
    requires Agree(a, row, keys) && Agree(b, row, keys)
    ensures Agree(a, b, keys)
  {
  }

  /** Exactly one row can be met, so changing the rows that match is replacing it. */
  lemma OneRowChanges(before: set<Entry>, met: Entry, row: Entry, m: Merge, meaning: Meaning)
    requires Applicable(m, meaning) && KeyedBy(before, m.keys) && met in before && Agree(met, row, m.keys)
    ensures (set e | e in before :: if Agree(e, row, m.keys) then Changed(e, m, meaning) else e) == before - {met} + {Changed(met, m, meaning)}
  {
    forall e | e in before && Agree(e, row, m.keys) ensures e == met {
      AgreeOnKeys(e, met, row, m.keys);
    }
    var after := set e | e in before :: if Agree(e, row, m.keys) then Changed(e, m, meaning) else e;
    forall x | x in before - {met} + {Changed(met, m, meaning)} ensures x in after {
      if x in before && x != met {
        assert !Agree(x, row, m.keys);
      } else {
        assert met in before && Agree(met, row, m.keys);
      }
    }
  }

  ghost predicate SameEffect(before: set<Entry>, u: Upsert, meaning: Meaning)
    requires Executable(u) && Applicable(Translate(u), meaning)
    requires u.updates.Some? ==> Evaluable(u.updates.value, Row(u, meaning))
  {
    forall after :: UpsertLeads(before, u, meaning, after) <==> MergeEffect(before, Translate(u), meaning) == Done(after)
  }

  lemma UpdatesAgree(before: set<Entry>, u: Upsert, meaning: Meaning, met: Entry)
    requires Executable(u) && u.updates.Some? && KeyedBy(before, KeysOf(u.table))
    requires met in before && Agree(met, Row(u, meaning), KeysOf(u.table))
    requires Applicable(Translate(u), meaning) && Evaluable(u.updates.value, Row(u, meaning))
    ensures SameEffect(before, u, meaning)
  {
    var row, m := Row(u, meaning), Translate(u);
    InsertedIsProposal(u, meaning);
    SameChange(met, u, meaning);
    OneRowChanges(before, met, row, m, meaning);
    var result := before - {met} + {Changed(met, m, meaning)};
    assert MergeEffect(before, m, meaning) == Done(result);
    ConflictsAre(before, row, u.table);
    forall e ensures Meets(e, row, u.table) <==> Agree(e, row, KeysOf(u.table)) { MeetsBy(e, row, u.table); }
    forall after ensures UpsertLeads(before, u, meaning, after) <==> after == result {
      if UpsertLeads(before, u, meaning, after) {
        var other :| other in before && Meets(other, row, u.table) && after == before - {other} + {AssignInOrder(other, u.updates.value, row, meaning)};
        AgreeOnKeys(other, met, row, KeysOf(u.table));
      }
    }
  }

  lemma IgnoredAgree(before: set<Entry>, u: Upsert, meaning: Meaning, met: Entry)
    requires Executable(u) && u.updates.None? && KeyedBy(before, KeysOf(u.table))
    requires met in before && Agree(met, Row(u, meaning), KeysOf(u.table))
    requires Applicable(Translate(u), meaning)
    ensures SameEffect(before, u, meaning)
  {
    MatchedEffect(before, u, meaning, met);
    ConflictsAre(before, Row(u, meaning), u.table);
    assert before - {met} + {Changed(met, Translate(u), meaning)} == before;
  }

  /** On every keyed table the MERGE statement does what its upsert did, unless the row is new by its keys
      but its other unique index is taken: there MySQL ignores the row and Oracle refuses the statement. */
  lemma MergeKeepsEffect(before: set<Entry>, u: Upsert, meaning: Meaning)
    requires Executable(u) && KeyedBy(before, KeysOf(u.table))
    ensures Applicable(Translate(u), meaning) && (u.updates.Some? ==> Evaluable(u.updates.value, Row(u, meaning)))
    ensures SameEffect(before, u, meaning) <==>
            (Taken(before, Row(u, meaning), KeysOf(u.table)) || !Taken(before, Row(u, meaning), OtherKeys(u.table)))
  {
    var row, m := Row(u, meaning), Translate(u);
    InsertedIsProposal(u, meaning);
    ConflictsAre(before, row, u.table);
    if u.updates.Some? { SameChange(row, u, meaning); }
    if Taken(before, row, KeysOf(u.table)) {
      var met :| met in before && Agree(met, row, KeysOf(u.table));
      if u.updates.Some? { UpdatesAgree(before, u, meaning, met); } else { IgnoredAgree(before, u, meaning, met); }
    } else if !Taken(before, row, OtherKeys(u.table)) {
      assert MergeEffect(before, m, meaning) == Done(before + {row});
    } else {
      assert UpsertLeads(before, u, meaning, before);
      assert MergeEffect(before, m, meaning) == Violation;
    }
  }

  /** Each assignment counts, since none is repeated. */
  lemma {:induction false} OwnAssignment(updates: seq<Assignment>, i: nat)
    requires Distinct(AssignedColumns(updates)) && i < |updates|
    ensures updates[i].column in AssignedColumns(updates) && AssignmentOf(updates, updates[i].column) == updates[i]
    decreases |updates|
  {
    var n := |updates| - 1;
    assert AssignedColumns(updates)[i] == updates[i].column && AssignedColumns(updates)[n] == updates[n].column;
    if i < n {
      assert forall j :: 0 <= j < n ==> AssignedColumns(updates[..n])[j] == AssignedColumns(updates)[j];
      OwnAssignment(updates[..n], i);
    }
  }

  lemma MatchedEffect(before: set<Entry>, u: Upsert, meaning: Meaning, met: Entry)
    requires Executable(u) && KeyedBy(before, KeysOf(u.table)) && Applicable(Translate(u), meaning)
    requires met in before && Agree(met, Row(u, meaning), KeysOf(u.table))
    ensures MergeEffect(before, Translate(u), meaning) == Done(before - {met} + {Changed(met, Translate(u), meaning)})
  {
    InsertedIsProposal(u, meaning);
    OneRowChanges(before, met, Row(u, meaning), Translate(u), meaning);
  }

  lemma NewEffect(before: set<Entry>, u: Upsert, meaning: Meaning, after: set<Entry>)
    requires Executable(u) && Applicable(Translate(u), meaning) && !Taken(before, Row(u, meaning), KeysOf(u.table))
    requires MergeEffect(before, Translate(u), meaning) == Done(after)
    ensures after == before + {Row(u, meaning)}
  {
    InsertedIsProposal(u, meaning);
  }

  lemma ReplacementKeyed(before: set<Entry>, met: Entry, changed: Entry, keys: seq<string>)
    requires KeyedBy(before, keys) && met in before && Agree(changed, met, keys)
    ensures KeyedBy(before - {met} + {changed}, keys)
    ensures forall e, row :: e in before - {met} + {changed} && Agree(met, row, keys) && Agree(e, row, keys) ==> e == changed
  {
    forall e | e in before && Agree(e, changed, keys) ensures e == met { assert Agree(e, met, keys); }
    forall e, row | e in before && Agree(met, row, keys) && Agree(e, row, keys) ensures e == met { AgreeOnKeys(e, met, row, keys); }
  }

  /** The MERGE statement leaves at most one row for each key. */
  lemma KeysKept(before: set<Entry>, u: Upsert, meaning: Meaning, after: set<Entry>)
    requires Executable(u) && KeyedBy(before, KeysOf(u.table)) && Applicable(Translate(u), meaning)
    requires MergeEffect(before, Translate(u), meaning) == Done(after)
    ensures KeyedBy(after, KeysOf(u.table))
  {
    var row, keys := Row(u, meaning), KeysOf(u.table);
    if Taken(before, row, keys) {
      var met :| met in before && Agree(met, row, keys);
      MatchedEffect(before, u, meaning, met);
      ReplacementKeyed(before, met, Changed(met, Translate(u), meaning), keys);
    } else {
      NewEffect(before, u, meaning, after);
      ProposalKeys(u.columns, Meanings(u.values, meaning));
      InsertionKeyed(before, row, keys);
    }
  }

  lemma InsertionKeyed(before: set<Entry>, row: Entry, keys: seq<string>)
    requires KeyedBy(before, keys) && keys != [] && !Taken(before, row, keys) && Agree(row, row, keys)
    ensures KeyedBy(before + {row}, keys)
    ensures forall e :: e in before + {row} && Agree(e, row, keys) ==> e == row
  {
    forall e | e in before && Agree(row, e, keys) ensures false { assert Agree(e, row, keys); }
  }

  ghost predicate HoldsValues(e: Entry, u: Upsert, meaning: Meaning)
    requires |u.values| == |u.columns|
  {
    forall i :: 0 <= i < |u.columns| ==> u.columns[i] in e && e[u.columns[i]] == meaning(u.values[i])
  }

  ghost predicate HoldsAssignments(e: Entry, u: Upsert, meaning: Meaning)
    requires Executable(u) && u.updates.Some? && Evaluable(u.updates.value, Row(u, meaning))
  {
    forall i :: 0 <= i < |u.updates.value| ==>
      && u.updates.value[i].column in e
      && e[u.updates.value[i].column] == RhsValue(u.updates.value[i].rhs, Row(u, meaning), meaning)
  }

  /** The row for the key then holds its own values: every column its own if the row is new, every assigned column otherwise. */
  lemma RowHolds(before: set<Entry>, u: Upsert, meaning: Meaning, after: set<Entry>, e: Entry)
    requires Executable(u) && KeyedBy(before, KeysOf(u.table)) && Applicable(Translate(u), meaning)
    requires u.updates.Some? ==> Evaluable(u.updates.value, Row(u, meaning))
    requires MergeEffect(before, Translate(u), meaning) == Done(after) && e in after && Agree(e, Row(u, meaning), KeysOf(u.table))
    ensures !Taken(before, Row(u, meaning), KeysOf(u.table)) ==> HoldsValues(e, u, meaning)
    ensures Taken(before, Row(u, meaning), KeysOf(u.table)) && u.updates.Some? ==> HoldsAssignments(e, u, meaning)
  {
    var row, keys := Row(u, meaning), KeysOf(u.table);
    if Taken(before, row, keys) {
      var met :| met in before && Agree(met, row, keys);
      MatchedEffect(before, u, meaning, met);
      ReplacementKeyed(before, met, Changed(met, Translate(u), meaning), keys);
      if u.updates.Some? { AssignedHolds(met, u, meaning); }
    } else {
      NewEffect(before, u, meaning, after);
      ProposalKeys(u.columns, Meanings(u.values, meaning));
      InsertionKeyed(before, row, keys);
      NewHolds(u, meaning);
    }
  }

  lemma NewHolds(u: Upsert, meaning: Meaning)
    requires Executable(u)
    ensures HoldsValues(Row(u, meaning), u, meaning)
  {
    forall i | 0 <= i < |u.columns| ensures u.columns[i] in Row(u, meaning) && Row(u, meaning)[u.columns[i]] == meaning(u.values[i]) {
      ProposalAt(u.columns, Meanings(u.values, meaning), i);
    }
  }

  lemma AssignedHolds(met: Entry, u: Upsert, meaning: Meaning)
    requires Executable(u) && u.updates.Some? && Applicable(Translate(u), meaning) && Evaluable(u.updates.value, Row(u, meaning))
    ensures HoldsAssignments(Changed(met, Translate(u), meaning), u, meaning)
  {
    InsertedIsProposal(u, meaning);
    forall i | 0 <= i < |u.updates.value|
      ensures u.updates.value[i].column in AssignedColumns(u.updates.value)
      ensures AssignmentOf(u.updates.value, u.updates.value[i].column) == u.updates.value[i]
    {
      OwnAssignment(u.updates.value, i);
    }
  }

  /** The statement that adds a label, its placeholders numbered; the id is a random UUID. */
  function AddLabel(): Upsert {
    Upsert("resource_metadata_label", ["id", "resource_id", "label", "created_at"], [":p1", ":p2", ":p3", "UTC_TIMESTAMP()"], None)
  }

  lemma LabelRow(meaning: Meaning)
    ensures var row := Row(AddLabel(), meaning);
            && "id" in row && row["id"] == meaning(":p1")
            && "resource_id" in row && row["resource_id"] == meaning(":p2")
            && "label" in row && row["label"] == meaning(":p3")
  {
    var u := AddLabel();
    var values := Meanings(u.values, meaning);
    ProposalAt(u.columns, values, 0);
    ProposalAt(u.columns, values, 1);
    ProposalAt(u.columns, values, 2);
  }

  lemma LabelExecutable()
    ensures Executable(AddLabel())
  {}

  /** Only should a random UUID repeat: a new label under an id in use is ignored by MySQL and refused by Oracle. */
  lemma TakenIdExample(meaning: Meaning, entry: Entry)
    requires Agree(entry, entry, KeysOf(AddLabel().table)) && "id" in entry && entry["id"] == meaning(":p1")
    requires entry["resource_id"] != meaning(":p2") || entry["label"] != meaning(":p3")
    ensures Executable(AddLabel()) && KeyedBy({entry}, KeysOf(AddLabel().table)) && Applicable(Translate(AddLabel()), meaning)
    ensures !SameEffect({entry}, AddLabel(), meaning)
  {
    var u := AddLabel();
    LabelRow(meaning);
    LabelExecutable();
    assert Agree(entry, Row(u, meaning), OtherKeys(u.table));
    assert !Agree(entry, Row(u, meaning), KeysOf(u.table));
    MergeKeepsEffect({entry}, u, meaning);
  }
}
