/** The MERGE statement written by `mergeSQL` is the one its upsert stands for. */
module OracleTranslation {
  import opened Common
  import opened OracleMerge
  import opened OracleText

  // ----- Surrounding space -----

  lemma {:induction false} TrimmedEnd(s: string)
    ensures TrimRight(s) <= s && (TrimRight(s) != [] ==> !IsSpace(TrimRight(s)[|TrimRight(s)| - 1]))
    decreases |s|
  {
    if s != [] && IsSpace(s[|s| - 1]) { TrimmedEnd(s[..|s| - 1]); }
  }

  /** A trimmed text does not end in space. */
  lemma BalancedEnd(s: string)
    requires Balanced(s) && s != []
    ensures !IsSpace(s[|s| - 1])
  {
    TrimmedEnd(TrimLeft(s));
  }

  // ----- Assignments are balanced -----

  predicate PlainCharacter(c: char) { c != '(' && c != ')' && c != ',' && c != '\'' }

  predicate PlainText(s: string) { forall i :: 0 <= i < |s| ==> PlainCharacter(s[i]) }

  lemma {:induction false} PlainUnbroken(plain: string, rest: string, at: Scan)
    requires PlainText(plain) && !at.quoted
    ensures Unbroken(plain + rest, at) == Unbroken(rest, at)
    decreases |plain|
  {
    if plain == [] {
      assert plain + rest == rest;
    } else {
      assert (plain + rest)[1..] == plain[1..] + rest;
      assert Step(at, plain[0]) == at;
      PlainUnbroken(plain[1..], rest, at);
    }
  }

  lemma ReferenceUnbroken(c: string)
    requires Identifier(c)
    ensures Unbroken(ProposedUpsert(c), TOP)
  {
    var inner := c + ")";
    assert ProposedUpsert(c) == "VALUES" + ("(" + inner);
    PlainUnbroken("VALUES", "(" + inner, TOP);
    assert ("(" + inner)[1..] == inner && Step(TOP, '(') == Scan(1, false);
    PlainUnbroken(c, ")", Scan(1, false));
    assert ")"[1..] == "" && Step(Scan(1, false), ')') == TOP;
  }

  function AssignmentText(a: Assignment, before: string, proposed: string -> string): string {
    before + a.column + "=" + RhsText(a.rhs, proposed)
  }

  lemma AssignmentBalanced(a: Assignment, columns: seq<string>)
    requires SupportedAssignment(a, columns) && forall i :: 0 <= i < |columns| ==> Identifier(columns[i])
    ensures Balanced(AssignmentText(a, "", ProposedUpsert))
  {
    var rhs := RhsText(a.rhs, ProposedUpsert);
    var text := a.column + ("=" + rhs);
    assert AssignmentText(a, "", ProposedUpsert) == text;
    match a.rhs {
      case Proposed(c) =>
        ReferenceUnbroken(c);
        assert !IsSpace(rhs[|rhs| - 1]);
      case Verbatim(t) =>
        if t != [] { BalancedEnd(t); }
    }
    PlainUnbroken(a.column, "=" + rhs, TOP);
    PlainUnbroken("=", rhs, TOP);
    assert text[0] == a.column[0] && text[|text| - 1] == ("=" + rhs)[|rhs|];
  }

  // ----- Rewriting an assignment -----

  lemma {:induction false} FirstEquals(left: string, right: string)
    requires '=' !in left
    ensures '=' in left + "=" + right && EqualsAt(left + "=" + right) == |left|
  {
    var s := left + "=" + right;
    assert s[|left|] == '=' && forall i :: 0 <= i < |left| ==> s[i] == left[i];
  }

  lemma RhsRewritten(r: Rhs, columns: seq<string>)
    requires forall i :: 0 <= i < |columns| ==> Identifier(columns[i])
    requires r.Proposed? ==> r.column in columns
    requires r.Verbatim? ==> !Occurs(r.text, VALUES)
    ensures RewriteRhs(RhsText(r, ProposedUpsert), columns) == RhsText(r, ProposedMerge)
  {
    match r {
      case Proposed(c) => RewriteReference(c, columns);
      case Verbatim(t) => RewriteVerbatim(t, columns);
    }
  }

  lemma AssignmentSplit(column: string, rhs: string, columns: seq<string>)
    requires Identifier(column)
    ensures var text := column + "=" + rhs;
            '=' in text && RewriteAssignment(text, columns) == "t." + column + "=" + RewriteRhs(rhs, columns)
  {
    var text := column + "=" + rhs;
    FirstEquals(column, rhs);
    assert text[..|column|] == column && text[|column| + 1..] == rhs;
  }

  lemma AssignmentRewritten(a: Assignment, columns: seq<string>)
    requires SupportedAssignment(a, columns) && forall i :: 0 <= i < |columns| ==> Identifier(columns[i])
    ensures var text := AssignmentText(a, "", ProposedUpsert);
            '=' in text && RewriteAssignment(text, columns) == AssignmentText(a, "t.", ProposedMerge)
  {
    var rhs := RhsText(a.rhs, ProposedUpsert);
    assert AssignmentText(a, "", ProposedUpsert) == a.column + "=" + rhs;
    AssignmentSplit(a.column, rhs, columns);
    RhsRewritten(a.rhs, columns);
  }

  lemma AllRewritten(updates: seq<Assignment>, columns: seq<string>)
    requires updates != [] && forall i :: 0 <= i < |updates| ==> SupportedAssignment(updates[i], columns)
    requires forall i :: 0 <= i < |columns| ==> Identifier(columns[i])
    ensures var texts := AssignmentTexts(updates, "", ProposedUpsert);
            && Split(Join(texts, ","), TOP, "") == texts
            && (forall a :: a in texts ==> '=' in a)
            && RewriteAll(texts, columns) == AssignmentTexts(updates, "t.", ProposedMerge)
  {
    var texts := AssignmentTexts(updates, "", ProposedUpsert);
    forall i | 0 <= i < |texts|
      ensures Balanced(texts[i]) && '=' in texts[i]
      ensures RewriteAssignment(texts[i], columns) == AssignmentTexts(updates, "t.", ProposedMerge)[i]
    {
      assert texts[i] == AssignmentText(updates[i], "", ProposedUpsert);
      AssignmentBalanced(updates[i], columns);
      AssignmentRewritten(updates[i], columns);
    }
    SplitInvertsJoin(texts);
  }

  lemma TrimmedColumns(columns: seq<string>)
    requires forall i :: 0 <= i < |columns| ==> Identifier(columns[i])
    ensures TrimAll(columns) == columns
  {
    forall i | 0 <= i < |columns| ensures TrimAll(columns)[i] == columns[i] {
    }
  }

  // ----- The whole statement -----

  lemma BuiltIsTranslation(u: Upsert)
    requires Supported(u)
    ensures Split(Join(u.values, ","), TOP, "") == u.values && Assigns(UpdatesText(u))
    ensures BuiltText(u.table, u.columns, Join(u.values, ","), UpdatesText(u)) == MergeText(Translate(u))
  {
    SplitInvertsJoin(u.values);
    TrimmedColumns(u.columns);
    assert Zip(u.values, u.columns) == Translate(u).source;
    if u.updates.Some? { AllRewritten(u.updates.value, u.columns); }
  }

  /** Every upsert of the supported form becomes the MERGE statement with its values, keys and assignments. */
  lemma MergeOfUpsert(u: Upsert)
    requires Cuttable(u)
    ensures Accepted(UpsertText(u)) && Rewritten(UpsertText(u)) == MergeText(Translate(u))
  {
    CutUpsert(u);
    BuiltIsTranslation(u);
  }

  /** Every other statement is left as it is. */
  lemma OthersUntouched(q: string)
    requires !Occurs(q, UPDATE) && !(IGNORE <= q)
    ensures Accepted(q) && Rewritten(q) == q
  {
    IndexAbsent(q, UPDATE);
  }
}
