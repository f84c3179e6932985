/** Placeholders keep the names of their arguments through the rewriting of a statement
    (ingestor_orchestrator/oracle-repositories/dialect.go, merge.go). */
module OracleBinding {
  import opened Common
  import opened OracleMerge
  import opened OracleText
  import opened OracleTranslation
  import opened OracleDialect

  // ----- Numbering the expressions of an upsert -----

  function NumberedRhs(r: Rhs, k: nat, name: nat -> string): Rhs {
    match r
    case Proposed(_) => r
    case Verbatim(t) => Verbatim(Renumber(t, false, k, name))
  }

  function RhsMarks(r: Rhs): nat {
    match r
    case Proposed(_) => 0
    case Verbatim(t) => Marks(t, false)
  }

  function NumberedUpdates(updates: seq<Assignment>, k: nat, name: nat -> string): (r: seq<Assignment>)
    ensures |r| == |updates|
  {
    if updates == [] then []
    else [Assignment(updates[0].column, NumberedRhs(updates[0].rhs, k, name))] + NumberedUpdates(updates[1..], k + RhsMarks(updates[0].rhs), name)
  }

  /** The upsert with the k-th placeholder of its expressions, values first, replaced by the k-th name. */
  function NumberedUpsert(u: Upsert, name: nat -> string): Upsert {
    Upsert(u.table, u.columns, NumberedList(u.values, 0, name),
           if u.updates.Some? then Some(NumberedUpdates(u.updates.value, AllMarks(u.values), name)) else None)
  }

  lemma Wrap(before: string, middle: string, after: string, k: nat, name: nat -> string)
    requires Inert(before) && Closed(middle) && Inert(after)
    ensures Renumber(before + middle + after, false, k, name) == before + Renumber(middle, false, k, name) + after
    ensures Marks(before + middle + after, false) == Marks(middle, false) && Closed(before + middle + after)
  {
    InertBefore(before, middle, k, name);
    InertAfter(before + middle, after, k, name);
  }

  lemma InertConcat(a: string, b: string)
    requires Inert(a) && Inert(b)
    ensures Inert(a + b)
  {
  }

  lemma {:induction false} JoinInert(parts: seq<string>, separator: string)
    requires Inert(separator) && forall i :: 0 <= i < |parts| ==> Inert(parts[i])
    ensures Inert(Join(parts, separator))
    decreases |parts|
  {
    if |parts| > 1 {
      JoinInert(parts[1..], separator);
      InertConcat(parts[0], separator);
      InertConcat(parts[0] + separator, Join(parts[1..], separator));
    }
  }

  // ----- Values and assignments in the two statements -----

  lemma NumberedHead(head: string, tail: seq<string>, k: nat, name: nat -> string)
    ensures NumberedList([head] + tail, k, name) == [Renumber(head, false, k, name)] + NumberedList(tail, k + Marks(head, false), name)
    ensures AllMarks([head] + tail) == Marks(head, false) + AllMarks(tail)
  {
    assert ([head] + tail)[1..] == tail;
  }

  function SourceText(value: string, column: string): string { value + " AS " + column }

  lemma SourceTextsHead(values: seq<string>, columns: seq<string>)
    requires |values| == |columns| && values != []
    ensures SourceTexts(Zip(values, columns)) == [SourceText(values[0], columns[0])] + SourceTexts(Zip(values[1..], columns[1..]))
  {
  }

  lemma {:induction false} SourcesNumbered(values: seq<string>, columns: seq<string>, k: nat, name: nat -> string)
    requires |values| == |columns| && (forall i :: 0 <= i < |values| ==> Closed(values[i]) && Inert(columns[i]))
    ensures NumberedList(SourceTexts(Zip(values, columns)), k, name) == SourceTexts(Zip(NumberedList(values, k, name), columns))
    ensures AllMarks(SourceTexts(Zip(values, columns))) == AllMarks(values)
    decreases |values|
  {
    if values != [] {
      var next := k + Marks(values[0], false);
      SourceTextsHead(values, columns);
      SourceNumbered(values[0], columns[0], k, name);
      SourcesNumbered(values[1..], columns[1..], next, name);
      NumberedHead(SourceText(values[0], columns[0]), SourceTexts(Zip(values[1..], columns[1..])), k, name);
      var numbered := NumberedList(values, k, name);
      assert numbered[1..] == NumberedList(values[1..], next, name);
      SourceTextsHead(numbered, columns);
    }
  }

  lemma SourceNumbered(value: string, column: string, k: nat, name: nat -> string)
    requires Closed(value) && Inert(column)
    ensures Renumber(SourceText(value, column), false, k, name) == SourceText(Renumber(value, false, k, name), column)
    ensures Marks(SourceText(value, column), false) == Marks(value, false) && Closed(SourceText(value, column))
  {
    assert Inert(" AS ");
    InertAfter(value, " AS ", k, name);
    InertAfter(value + " AS ", column, k, name);
  }

  lemma SourcesClosed(values: seq<string>, columns: seq<string>, name: nat -> string)
    requires |values| == |columns| && (forall i :: 0 <= i < |values| ==> Closed(values[i]) && Inert(columns[i]))
    ensures forall i :: 0 <= i < |values| ==> Closed(SourceTexts(Zip(values, columns))[i])
  {
    forall i | 0 <= i < |values| ensures Closed(SourceTexts(Zip(values, columns))[i]) {
      SourceNumbered(values[i], columns[i], 0, name);
    }
  }

  /** The proposed value of a column is written without placeholders. */
  ghost predicate Harmless(proposed: string -> string) { forall c :: Inert(c) ==> Inert(proposed(c)) }

  ghost predicate Numberable(a: Assignment) {
    && Inert(a.column)
    && (a.rhs.Proposed? ==> Inert(a.rhs.column))
    && (a.rhs.Verbatim? ==> Closed(a.rhs.text))
  }

  lemma AssignmentNumbered(a: Assignment, before: string, proposed: string -> string, k: nat, name: nat -> string)
    requires Numberable(a) && Inert(before) && Harmless(proposed)
    ensures Renumber(AssignmentText(a, before, proposed), false, k, name) ==
            AssignmentText(Assignment(a.column, NumberedRhs(a.rhs, k, name)), before, proposed)
    ensures Marks(AssignmentText(a, before, proposed), false) == RhsMarks(a.rhs) && Closed(AssignmentText(a, before, proposed))
  {
    var rhs := RhsText(a.rhs, proposed);
    var left := before + a.column + "=";
    InertConcat(before, a.column);
    InertConcat(before + a.column, "=");
    match a.rhs {
      case Proposed(c) => InertStays(rhs, k, name);
      case Verbatim(t) =>
    }
    InertBefore(left, rhs, k, name);
  }

  lemma AssignmentTextsHead(updates: seq<Assignment>, before: string, proposed: string -> string)
    requires updates != []
    ensures AssignmentTexts(updates, before, proposed) ==
            [AssignmentText(updates[0], before, proposed)] + AssignmentTexts(updates[1..], before, proposed)
  {
  }

  lemma {:induction false} AssignmentsNumbered(updates: seq<Assignment>, before: string, proposed: string -> string, k: nat, name: nat -> string)
    requires (forall i :: 0 <= i < |updates| ==> Numberable(updates[i])) && Inert(before) && Harmless(proposed)
    ensures NumberedList(AssignmentTexts(updates, before, proposed), k, name) == AssignmentTexts(NumberedUpdates(updates, k, name), before, proposed)
    ensures forall i :: 0 <= i < |updates| ==> Closed(AssignmentTexts(updates, before, proposed)[i])
    decreases |updates|
  {
    if updates != [] {
      var next := k + RhsMarks(updates[0].rhs);
      AssignmentTextsHead(updates, before, proposed);
      AssignmentNumbered(updates[0], before, proposed, k, name);
      AssignmentsNumbered(updates[1..], before, proposed, next, name);
      NumberedHead(AssignmentText(updates[0], before, proposed), AssignmentTexts(updates[1..], before, proposed), k, name);
      var numbered := NumberedUpdates(updates, k, name);
      assert numbered[1..] == NumberedUpdates(updates[1..], next, name);
      AssignmentTextsHead(numbered, before, proposed);
    }
  }

  // ----- The two statements -----

  lemma SupportedParts(u: Upsert)
    requires Cuttable(u)
    ensures Inert(u.table) && forall i :: 0 <= i < |u.columns| ==> Inert(u.columns[i]) && Closed(u.values[i])
    ensures u.updates.Some? ==> forall i :: 0 <= i < |u.updates.value| ==> Numberable(u.updates.value[i])
  {
    forall i | 0 <= i < |u.values| ensures Closed(u.values[i]) { UnbrokenClosed(u.values[i], TOP); }
    if u.updates.Some? {
      forall i | 0 <= i < |u.updates.value| ensures Numberable(u.updates.value[i]) {
        var a := u.updates.value[i];
        assert SupportedAssignment(a, u.columns);
        if a.rhs.Verbatim? { UnbrokenClosed(a.rhs.text, TOP); }
      }
    }
  }

  lemma MarksInert()
    ensures Inert(",") && Inert(" (") && Inert(LIST)
  {
  }

  lemma HeadInert(word: string, table: string, columns: seq<string>)
    requires Inert(word) && Inert(table) && forall i :: 0 <= i < |columns| ==> Inert(columns[i])
    ensures Inert(word + table + " (" + Join(columns, ",") + LIST)
  {
    MarksInert();
    JoinInert(columns, ",");
    InertConcat(word, table);
    InertConcat(word + table, " (");
    InertConcat(word + table + " (", Join(columns, ","));
    InertConcat(word + table + " (" + Join(columns, ","), LIST);
  }

  lemma InsertNumbered(word: string, u: Upsert, name: nat -> string)
    requires Cuttable(u) && Inert(word)
    ensures Renumber(InsertStatement(word, u), false, 0, name) == InsertStatement(word, NumberedUpsert(u, name))
    ensures Marks(InsertStatement(word, u), false) == AllMarks(u.values) && Closed(InsertStatement(word, u))
  {
    SupportedParts(u);
    HeadInert(word, u.table, u.columns);
    var before := word + u.table + " (" + Join(u.columns, ",") + LIST;
    JoinNumbered(u.values, ",", 0, name);
    Wrap(before, Join(u.values, ","), ")", 0, name);
    Regroup(before, Join(u.values, ","), ")");
    Regroup(before, Join(NumberedList(u.values, 0, name), ","), ")");
  }

  lemma WordsInert()
    ensures Inert(INSERT) && Inert(IGNORE) && Inert(UPDATE)
  {
  }

  lemma UpsertHarmless()
    ensures Harmless(ProposedUpsert) && Harmless(ProposedMerge)
  {
    forall c | Inert(c) ensures Inert(ProposedUpsert(c)) && Inert(ProposedMerge(c)) {
      assert Inert("VALUES(") && Inert(")") && Inert("s.");
      InertConcat("VALUES(", c);
      InertConcat("VALUES(" + c, ")");
      InertConcat("s.", c);
    }
  }

  lemma JoinedAssignments(u: Upsert, before: string, proposed: string -> string, name: nat -> string)
    requires Cuttable(u) && u.updates.Some? && Inert(before) && Harmless(proposed)
    ensures var k := AllMarks(u.values);
            Renumber(Join(AssignmentTexts(u.updates.value, before, proposed), ","), false, k, name) ==
            Join(AssignmentTexts(NumberedUpdates(u.updates.value, k, name), before, proposed), ",")
    ensures Closed(Join(AssignmentTexts(u.updates.value, before, proposed), ","))
  {
    SupportedParts(u);
    AssignmentsNumbered(u.updates.value, before, proposed, AllMarks(u.values), name);
    JoinNumbered(AssignmentTexts(u.updates.value, before, proposed), ",", AllMarks(u.values), name);
  }

  /** Numbering the upsert numbers its expressions, values first. */
  lemma UpsertNumbered(u: Upsert, name: nat -> string)
    requires Cuttable(u)
    ensures Renumber(UpsertText(u), false, 0, name) == UpsertText(NumberedUpsert(u, name))
  {
    WordsInert();
    if u.updates.None? { InsertNumbered(IGNORE, u, name); } else { UpdateNumbered(u, name); }
  }

  lemma UpdateNumbered(u: Upsert, name: nat -> string)
    requires Cuttable(u) && u.updates.Some? && Inert(INSERT) && Inert(UPDATE)
    ensures Renumber(UpsertText(u), false, 0, name) == UpsertText(NumberedUpsert(u, name))
  {
    InsertNumbered(INSERT, u, name);
    UpsertHarmless();
    JoinedAssignments(u, "", ProposedUpsert, name);
    Glue(u, NumberedUpsert(u, name), InsertStatement(INSERT, u), UpdatesText(u).value, name);
  }

  lemma Glue(u: Upsert, v: Upsert, base: string, assignments: string, name: nat -> string)
    requires base == InsertStatement(INSERT, u) && UpdatesText(u) == Some(assignments)
    requires Closed(base) && Inert(UPDATE) && v.updates.Some?
    requires Renumber(base, false, 0, name) == InsertStatement(INSERT, v)
    requires Renumber(assignments, false, Marks(base, false), name) == UpdatesText(v).value
    ensures Renumber(UpsertText(u), false, 0, name) == UpsertText(v)
  {
    ThreeNumbered(base, UPDATE, assignments, 0, name);
  }

  // ----- The MERGE statement -----

  lemma KeysInert(keys: seq<string>)
    requires forall i :: 0 <= i < |keys| ==> Inert(keys[i])
    ensures Inert(Join(KeyTexts(keys), " AND "))
  {
    assert Inert("t.") && Inert("=s.") && Inert(" AND ");
    forall i | 0 <= i < |keys| ensures Inert(KeyTexts(keys)[i]) {
      InertConcat("t.", keys[i]);
      InertConcat("t." + keys[i], "=s.");
      InertConcat("t." + keys[i] + "=s.", keys[i]);
    }
    JoinInert(KeyTexts(keys), " AND ");
  }

  lemma HeadNumbered(table: string, values: seq<string>, columns: seq<string>, keys: seq<string>, name: nat -> string)
    requires Inert(table) && |values| == |columns| && (forall i :: 0 <= i < |values| ==> Closed(values[i]) && Inert(columns[i]))
    requires forall i :: 0 <= i < |keys| ==> Inert(keys[i])
    ensures Renumber(MergeHead(table, SourceTexts(Zip(values, columns)), keys), false, 0, name) ==
            MergeHead(table, SourceTexts(Zip(NumberedList(values, 0, name), columns)), keys)
    ensures Marks(MergeHead(table, SourceTexts(Zip(values, columns)), keys), false) == AllMarks(values)
    ensures Closed(MergeHead(table, SourceTexts(Zip(values, columns)), keys))
  {
    var sources := SourceTexts(Zip(values, columns));
    SourcesNumbered(values, columns, 0, name);
    SourcesClosed(values, columns, name);
    JoinNumbered(sources, ",", 0, name);
    KeysInert(keys);
    HeadFrame(table, Join(sources, ","), Join(KeyTexts(keys), " AND "), name);
  }

  lemma HeadFrame(table: string, sources: string, conditions: string, name: nat -> string)
    requires Inert(table) && Closed(sources) && Inert(conditions)
    ensures var frame := (middle: string) => "MERGE INTO " + table + " t USING (SELECT " + middle + " FROM dual) s ON (" + conditions + ")";
            && Renumber(frame(sources), false, 0, name) == frame(Renumber(sources, false, 0, name))
            && Marks(frame(sources), false) == Marks(sources, false) && Closed(frame(sources))
  {
    var before := "MERGE INTO " + table + " t USING (SELECT ";
    assert Inert("MERGE INTO ") && Inert(" t USING (SELECT ") && Inert(" FROM dual) s ON (") && Inert(")");
    InertConcat("MERGE INTO ", table);
    InertConcat("MERGE INTO " + table, " t USING (SELECT ");
    Wrap(before, sources, " FROM dual) s ON (", 0, name);
    var front := before + sources + " FROM dual) s ON (";
    InertAfter(front, conditions, 0, name);
    InertAfter(front + conditions, ")", 0, name);
  }

  lemma EachInert(columns: seq<string>)
    requires forall i :: 0 <= i < |columns| ==> Inert(columns[i])
    ensures Inert(InsertText(columns, Each(columns, "s.", "")))
  {
    var refs := Each(columns, "s.", "");
    assert Inert(",") && Inert("s.") && Inert(" WHEN NOT MATCHED THEN INSERT (") && Inert(") VALUES (") && Inert(")");
    forall i | 0 <= i < |columns| ensures Inert(refs[i]) { InertConcat("s.", columns[i]); }
    JoinInert(columns, ",");
    JoinInert(refs, ",");
    InertConcat(" WHEN NOT MATCHED THEN INSERT (", Join(columns, ","));
    InertConcat(" WHEN NOT MATCHED THEN INSERT (" + Join(columns, ","), ") VALUES (");
    InertConcat(" WHEN NOT MATCHED THEN INSERT (" + Join(columns, ",") + ") VALUES (", Join(refs, ","));
    InertConcat(" WHEN NOT MATCHED THEN INSERT (" + Join(columns, ",") + ") VALUES (" + Join(refs, ","), ")");
  }

  lemma MatchedNumbered(u: Upsert, name: nat -> string)
    requires Cuttable(u) && u.updates.Some?
    ensures var k := AllMarks(u.values);
            Renumber(MatchedText(AssignmentTexts(u.updates.value, "t.", ProposedMerge)), false, k, name) ==
            MatchedText(AssignmentTexts(NumberedUpdates(u.updates.value, k, name), "t.", ProposedMerge))
    ensures Closed(MatchedText(AssignmentTexts(u.updates.value, "t.", ProposedMerge)))
  {
    assert Inert(" WHEN MATCHED THEN UPDATE SET ") && Inert("t.");
    UpsertHarmless();
    JoinedAssignments(u, "t.", ProposedMerge, name);
    InertBefore(" WHEN MATCHED THEN UPDATE SET ", Join(AssignmentTexts(u.updates.value, "t.", ProposedMerge), ","), AllMarks(u.values), name);
  }

  function MergeParts(u: Upsert): (string, string, string)
    requires |u.values| == |u.columns|
  {
    (MergeHead(u.table, SourceTexts(Zip(u.values, u.columns)), KeysOf(u.table)),
     if u.updates.Some? then MatchedText(AssignmentTexts(u.updates.value, "t.", ProposedMerge)) else "",
     InsertText(u.columns, Each(u.columns, "s.", "")))
  }

  lemma PartsMakeMerge(u: Upsert)
    requires |u.values| == |u.columns|
    ensures MergeText(Translate(u)) == MergeParts(u).0 + MergeParts(u).1 + MergeParts(u).2
  {
    assert Translate(u).source == Zip(u.values, u.columns);
  }

  /** Numbering the MERGE statement gives its expressions the names they have in the numbered upsert. */
  lemma MergeNumbered(u: Upsert, name: nat -> string)
    requires Cuttable(u) && forall i :: 0 <= i < |KeysOf(u.table)| ==> KeysOf(u.table)[i] in u.columns
    ensures Renumber(MergeText(Translate(u)), false, 0, name) == MergeText(Translate(NumberedUpsert(u, name)))
  {
    SupportedParts(u);
    var (head, matched, insert) := MergeParts(u);
    HeadNumbered(u.table, u.values, u.columns, KeysOf(u.table), name);
    EachInert(u.columns);
    if u.updates.Some? { MatchedNumbered(u, name); }
    GlueThree(head, matched, insert, name);
    PartsMakeMerge(u);
    PartsMakeMerge(NumberedUpsert(u, name));
  }

  lemma GlueThree(head: string, matched: string, insert: string, name: nat -> string)
    requires Closed(head) && Closed(matched) && Inert(insert)
    ensures Renumber(head + matched + insert, false, 0, name) ==
            Renumber(head, false, 0, name) + Renumber(matched, false, Marks(head, false), name) + insert
  {
    ClosedConcat(head, matched, 0, name);
    InertAfter(head + matched, insert, 0, name);
  }

  // ----- Binding by name -----

  predicate NameCharacter(c: char) { 'a' <= c <= 'z' || 'A' <= c <= 'Z' || '0' <= c <= '9' || c == '_' }

  function NameLength(s: string): (n: nat)
    ensures n <= |s|
  {
    if s == [] || !NameCharacter(s[0]) then 0 else 1 + NameLength(s[1..])
  }

  lemma {:induction false} NameSpan(n: string, rest: string)
    requires (forall i :: 0 <= i < |n| ==> NameCharacter(n[i])) && (rest == [] || !NameCharacter(rest[0]))
    ensures NameLength(n + rest) == |n|
    decreases |n|
  {
    if n == [] {
      assert n + rest == rest;
    } else {
      assert (n + rest)[1..] == n[1..] + rest;
      NameSpan(n[1..], rest);
    }
  }

  /** A statement with each reference outside of quoted texts replaced by what its name stands for. */
  function FillNamed(s: string, quoted: bool, named: string -> string): string
    decreases |s|
  {
    if s == [] then []
    else if s[0] == ':' && !quoted then
      var n := NameLength(s[1..]);
      named(s[1..1 + n]) + FillNamed(s[1 + n..], quoted, named)
    else [s[0]] + FillNamed(s[1..], Toggle(s[0], quoted), named)
  }

  /** No reference yet, and no name running on from a placeholder. */
  predicate Positional(s: string, quoted: bool)
    decreases |s|
  {
    s == [] || (
      && (quoted || s[0] != ':')
      && (IsMark(s[0], quoted) && |s| > 1 ==> !NameCharacter(s[1]))
      && Positional(s[1..], Toggle(s[0], quoted)))
  }

  ghost predicate Named(bind: nat -> string, reference: nat -> string, named: string -> string, args: nat -> string, k: nat) {
    && (forall i :: 0 <= i < |bind(k)| ==> NameCharacter(bind(k)[i]))
    && reference(k) == ":" + bind(k) && named(bind(k)) == args(k)
  }

  lemma FillReference(reference: string, n: string, rest: string, named: string -> string)
    requires reference == ":" + n && (forall i :: 0 <= i < |n| ==> NameCharacter(n[i])) && (rest == [] || !NameCharacter(rest[0]))
    ensures FillNamed(reference + rest, false, named) == named(n) + FillNamed(rest, false, named)
  {
    var s := reference + rest;
    assert s[1..] == n + rest && s[0] == ':';
    NameSpan(n, rest);
    assert s[1..1 + |n|] == n && s[1 + |n|..] == rest;
  }

  lemma FillCharacter(c: char, rest: string, quoted: bool, named: string -> string)
    requires quoted || c != ':'
    ensures FillNamed([c] + rest, quoted, named) == [c] + FillNamed(rest, Toggle(c, quoted), named)
  {
    assert ([c] + rest)[1..] == rest;
  }

  /** Filling the numbered statement by name is filling the statement by position. */
  lemma {:induction false} NamesFillPositions(s: string, quoted: bool, k: nat, bind: nat -> string, reference: nat -> string,
      named: string -> string, args: nat -> string)
    requires Positional(s, quoted) && forall j: nat :: Named(bind, reference, named, args, j)
    ensures FillNamed(Renumber(s, quoted, k, reference), quoted, named) == Renumber(s, quoted, k, args)
    decreases |s|
  {
    if s != [] {
      var tail, inner, next := s[1..], Toggle(s[0], quoted), k + Count(s[0], quoted);
      NamesFillPositions(tail, inner, next, bind, reference, named, args);
      assert Named(bind, reference, named, args, k) && Named(bind, reference, named, args, next);
      if IsMark(s[0], quoted) {
        FillReference(reference(k), bind(k), Renumber(tail, inner, next, reference), named);
      } else {
        FillCharacter(s[0], Renumber(tail, inner, next, reference), quoted, named);
      }
    }
  }

  /** What a name stands for, when the arguments are bound under the names of their places. */
  ghost function Lookup(args: nat -> string, n: string): string {
    if exists j: nat :: BindName(j) == n then
      var j: nat :| BindName(j) == n;
      args(j)
    else ""
  }

  lemma NamesStandForPlaces(args: nat -> string, named: string -> string, j: nat)
    requires forall n :: named(n) == Lookup(args, n)
    ensures Named(BindName, Reference, named, args, j)
  {
    assert BindName(j) == BindName(j);
    var i: nat :| BindName(i) == BindName(j) && Lookup(args, BindName(j)) == args(i);
    NamesDiffer(i, j);
  }

  // ----- A statement on its way to Oracle -----

  method OracleSql(query: string) returns (b: string)
    requires Accepted(query)
    ensures b == Renumber(Rewritten(query), false, 0, Reference)
  {
    var merged := MergeSql(query);
    b := NumberPlaceholders(merged);
  }

  /** The statement sent to Oracle, with its arguments bound by name, is the MERGE statement of the upsert
      with the same arguments bound by position: every expression keeps its own arguments. */
  lemma ArgumentsKept(u: Upsert, args: nat -> string, named: string -> string)
    requires Cuttable(u) && forall i :: 0 <= i < |KeysOf(u.table)| ==> KeysOf(u.table)[i] in u.columns
    requires Positional(MergeText(Translate(u)), false) && forall n :: named(n) == Lookup(args, n)
    ensures Accepted(UpsertText(u))
    ensures FillNamed(Renumber(Rewritten(UpsertText(u)), false, 0, Reference), false, named) == MergeText(Translate(NumberedUpsert(u, args)))
    ensures Renumber(UpsertText(u), false, 0, args) == UpsertText(NumberedUpsert(u, args))
  {
    MergeOfUpsert(u);
    forall j: nat ensures Named(BindName, Reference, named, args, j) { NamesStandForPlaces(args, named, j); }
    NamesFillPositions(MergeText(Translate(u)), false, 0, BindName, Reference, named, args);
    MergeNumbered(u, args);
    UpsertNumbered(u, args);
  }
}
