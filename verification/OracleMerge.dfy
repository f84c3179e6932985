/** Upserts rewritten as MERGE statements (ingestor_orchestrator/oracle-repositories/merge.go), as text
    and in what they do to a table. */
module OracleMerge {
  import opened Common

  // ----- Splitting a list of expressions -----

  predicate IsSpace(c: char) { c == ' ' || c == '\t' || c == '\n' || c == '\r' }

  function TrimLeft(s: string): string {
    if s != [] && IsSpace(s[0]) then TrimLeft(s[1..]) else s
  }

  function TrimRight(s: string): string {
    if s != [] && IsSpace(s[|s| - 1]) then TrimRight(s[..|s| - 1]) else s
  }

  function Trim(s: string): string { TrimRight(TrimLeft(s)) }

  /** Position of a scan: nesting of parentheses, and inside a quoted text or not. */
  datatype Scan = Scan(depth: int, quoted: bool)

  const TOP := Scan(0, false)

  function Step(at: Scan, c: char): Scan {
    var quoted := if c == '\'' then !at.quoted else at.quoted;
    Scan(if quoted then at.depth else if c == '(' then at.depth + 1 else if c == ')' then at.depth - 1 else at.depth, quoted)
  }

  predicate Separates(at: Scan, c: char) { c == ',' && at == TOP }

  function Split(s: string, at: Scan, current: string): seq<string>
    decreases |s|
  {
    if s == [] then [Trim(current)]
    else if Separates(at, s[0]) then [Trim(current)] + Split(s[1..], at, "")
    else Split(s[1..], Step(at, s[0]), current + [s[0]])
  }

  lemma SplitNext(s: string, start: nat, i: nat, at: Scan)
    requires start <= i < |s|
    ensures Split(s[i..], at, s[start..i]) ==
            if Separates(at, s[i]) then [Trim(s[start..i])] + Split(s[i + 1..], TOP, s[i + 1..i + 1])
            else Split(s[i + 1..], Step(at, s[i]), s[start..i + 1])
  {
    assert s[i..][0] == s[i] && s[i..][1..] == s[i + 1..] && s[i + 1..i + 1] == "";
    assert s[start..i] + [s[i]] == s[start..i + 1];
  }

  method SplitExpressions(s: string) returns (out: seq<string>)
    ensures out == Split(s, TOP, "")
  {
    out := [];
    var depth, start := 0, 0;
    var quoted := false;
    var i := 0;
    assert s[0..] == s && s[0..0] == "";
    while i < |s|
      invariant 0 <= start <= i <= |s|
      invariant out + Split(s[i..], Scan(depth, quoted), s[start..i]) == Split(s, TOP, "")
    {
      var c := s[i];
      SplitNext(s, start, i, Scan(depth, quoted));
      ghost var rest := Split(s[i + 1..], TOP, s[i + 1..i + 1]);
      assert out + ([Trim(s[start..i])] + rest) == out + [Trim(s[start..i])] + rest;
      if c == '\'' {
        quoted := !quoted;
      }
      if !quoted {
        if c == '(' {
          depth := depth + 1;
        } else if c == ')' {
          depth := depth - 1;
        } else if c == ',' && depth == 0 {
          out := out + [Trim(s[start..i])];
          start := i + 1;
        }
      }
      i := i + 1;
    }
    assert s[i..] == [] && s[start..i] == s[start..];
    out := out + [Trim(s[start..])];
  }

  function Join(parts: seq<string>, separator: string): string {
    if parts == [] then [] else if |parts| == 1 then parts[0] else parts[0] + separator + Join(parts[1..], separator)
  }

  /** No separating comma inside, and parentheses and quotes closed at the end. */
  predicate Unbroken(s: string, at: Scan)
    decreases |s|
  {
    if s == [] then at == TOP else !Separates(at, s[0]) && Unbroken(s[1..], Step(at, s[0]))
  }

  predicate Balanced(s: string) { Unbroken(s, TOP) && Trim(s) == s }

  lemma {:induction false} UnbrokenScan(s: string, rest: string, at: Scan, current: string)
    requires Unbroken(s, at)
    ensures Split(s + rest, at, current) == Split(rest, TOP, current + s)
    decreases |s|
  {
    if s == [] {
      assert s + rest == rest && current + s == current;
    } else {
      assert (s + rest)[1..] == s[1..] + rest;
      assert current + [s[0]] + s[1..] == current + s;
      UnbrokenScan(s[1..], rest, Step(at, s[0]), current + [s[0]]);
    }
  }

  lemma SplitStep(part: string, tail: string)
    requires Balanced(part)
    ensures Split(part + ("," + tail), TOP, "") == [part] + Split(tail, TOP, "")
  {
    var rest := "," + tail;
    UnbrokenScan(part, rest, TOP, "");
    assert "" + part == part && rest[0] == ',' && rest[1..] == tail;
  }

  /** Splitting inverts joining by commas. */
  lemma {:induction false} SplitInvertsJoin(parts: seq<string>)
    requires parts != [] && forall i :: 0 <= i < |parts| ==> Balanced(parts[i])
    ensures Split(Join(parts, ","), TOP, "") == parts
    decreases |parts|
  {
    if |parts| == 1 {
      UnbrokenScan(parts[0], [], TOP, "");
      assert parts[0] + [] == parts[0] && "" + parts[0] == parts[0] && [parts[0]] == parts;
    } else {
      var tail := Join(parts[1..], ",");
      assert Join(parts, ",") == parts[0] + ("," + tail);
      SplitStep(parts[0], tail);
      SplitInvertsJoin(parts[1..]);
      assert [parts[0]] + parts[1..] == parts;
    }
  }

  // ----- The statements -----

  /** The value of an assignment: the proposed value of a column, or a text without such references. */
  datatype Rhs = Proposed(column: string) | Verbatim(text: string)

  datatype Assignment = Assignment(column: string, rhs: Rhs)

  /** `updates` is absent for INSERT IGNORE. */
  datatype Upsert = Upsert(table: string, columns: seq<string>, values: seq<string>, updates: Option<seq<Assignment>>)

  datatype Selected = Selected(value: string, name: string)

  datatype Merge = Merge(table: string, source: seq<Selected>, keys: seq<string>, updates: Option<seq<Assignment>>,
                         columns: seq<string>, refs: seq<string>)

  function KeysOf(table: string): seq<string> {
    if table == "latest_resource_job" || table == "last_terminal_status" || table == "csv_hint" then ["resource_id"]
    else if table == "resource_metadata_label" then ["resource_id", "label"]
    else []
  }

  function Translate(u: Upsert): Merge
    requires |u.values| == |u.columns|
  {
    Merge(u.table, seq(|u.columns|, i requires 0 <= i < |u.columns| => Selected(u.values[i], u.columns[i])), KeysOf(u.table),
          u.updates, u.columns, u.columns)
  }

  // ----- Their text -----

  function Each(parts: seq<string>, before: string, after: string): seq<string> {
    seq(|parts|, i requires 0 <= i < |parts| => before + parts[i] + after)
  }

  function RhsText(r: Rhs, proposed: string -> string): string {
    match r
    case Proposed(c) => proposed(c)
    case Verbatim(t) => t
  }

  function ProposedUpsert(c: string): string { "VALUES(" + c + ")" }

  function ProposedMerge(c: string): string { "s." + c }

  function AssignmentTexts(updates: seq<Assignment>, before: string, proposed: string -> string): seq<string> {
    seq(|updates|, i requires 0 <= i < |updates| => before + updates[i].column + "=" + RhsText(updates[i].rhs, proposed))
  }

  function SourceTexts(source: seq<Selected>): seq<string> {
    seq(|source|, i requires 0 <= i < |source| => source[i].value + " AS " + source[i].name)
  }

  function KeyTexts(keys: seq<string>): seq<string> {
    seq(|keys|, i requires 0 <= i < |keys| => "t." + keys[i] + "=s." + keys[i])
  }

  function MergeHead(table: string, sources: seq<string>, keys: seq<string>): string {
    "MERGE INTO " + table + " t USING (SELECT " + Join(sources, ",") + " FROM dual) s ON (" + Join(KeyTexts(keys), " AND ") + ")"
  }

  function MatchedText(assignments: seq<string>): string { " WHEN MATCHED THEN UPDATE SET " + Join(assignments, ",") }

  function InsertText(columns: seq<string>, refs: seq<string>): string {
    " WHEN NOT MATCHED THEN INSERT (" + Join(columns, ",") + ") VALUES (" + Join(refs, ",") + ")"
  }

  function MergeText(m: Merge): string {
    MergeHead(m.table, SourceTexts(m.source), m.keys)
      + (if m.updates.Some? then MatchedText(AssignmentTexts(m.updates.value, "t.", ProposedMerge)) else "")
      + InsertText(m.columns, Each(m.refs, "s.", ""))
  }

  // ----- Replacing the references -----

  function ReplaceAll(s: string, part: string, sub: string): string
    requires part != []
    decreases |s|
  {
    if |s| < |part| then s
    else if part <= s then sub + ReplaceAll(s[|part|..], part, sub)
    else [s[0]] + ReplaceAll(s[1..], part, sub)
  }

  predicate Occurs(s: string, part: string) {
    part <= s || (s != [] && Occurs(s[1..], part))
  }

  predicate Identifier(s: string) {
    s != [] && forall i :: 0 <= i < |s| ==> 'a' <= s[i] <= 'z' || '0' <= s[i] <= '9' || s[i] == '_'
  }

  lemma {:induction false} ReplaceAbsent(s: string, part: string, sub: string)
    requires part != [] && !Occurs(s, part)
    ensures ReplaceAll(s, part, sub) == s
    decreases |s|
  {
    if |s| >= |part| {
      ReplaceAbsent(s[1..], part, sub);
      assert [s[0]] + s[1..] == s;
    }
  }

  lemma {:induction false} OccursPrefix(s: string, part: string, longer: string)
    requires !Occurs(s, part) && part <= longer
    ensures !Occurs(s, longer)
  {
    if s != [] { OccursPrefix(s[1..], part, longer); }
  }

  ghost predicate OccursHere(s: string, part: string, p: nat) {
    p + |part| <= |s| && s[p..p + |part|] == part
  }

  /** Any occurrence starts somewhere. */
  lemma {:induction false} OccursAt(s: string, part: string)
    requires Occurs(s, part)
    ensures exists p: nat :: OccursHere(s, part, p)
  {
    if part <= s {
      assert OccursHere(s, part, 0);
    } else {
      OccursAt(s[1..], part);
      var p: nat :| OccursHere(s[1..], part, p);
      assert s[1..][p..p + |part|] == s[p + 1..p + 1 + |part|];
      assert OccursHere(s, part, p + 1);
    }
  }

  lemma OccurrenceHasChar(s: string, part: string, c: char)
    requires Occurs(s, part) && c in part
    ensures c in s
  {
    OccursAt(s, part);
    var p: nat :| OccursHere(s, part, p);
    var i :| 0 <= i < |part| && part[i] == c;
    assert s[p + i] == s[p..p + |part|][i];
  }

  const VALUES := "VALUES("

  /** A reference is rewritten by the pattern of its own column and by no other. */
  lemma ReplaceReference(c: string, x: string)
    requires Identifier(c) && Identifier(x)
    ensures ReplaceAll(ProposedUpsert(c), ProposedUpsert(x), ProposedMerge(x)) == (if x == c then ProposedMerge(c) else ProposedUpsert(c))
  {
    var s, part := ProposedUpsert(c), ProposedUpsert(x);
    assert |VALUES| == 7 && VALUES[6] == '(';
    if x == c {
      assert s[|part|..] == "" && ReplaceAll("", part, ProposedMerge(x)) == "";
      assert ProposedMerge(x) + "" == ProposedMerge(x);
    } else {
      var tail := s[1..];
      assert !(part <= s) by {
        if part <= s { SameReference(c, x); }
      }
      assert !Occurs(tail, part) by { ReferenceOnce(c, x); }
      ReplaceAbsent(s, part, ProposedMerge(x));
    }
  }

  lemma ReferenceOnce(c: string, x: string)
    requires Identifier(c)
    ensures !Occurs(ProposedUpsert(c)[1..], ProposedUpsert(x))
  {
    var tail, part := ProposedUpsert(c)[1..], ProposedUpsert(x);
    assert part[6] == '(' && tail == "ALUES(" + c + ")";
    assert forall i :: 6 <= i < |tail| ==> tail[i] == (if i - 6 < |c| then c[i - 6] else ')');
    forall p: nat ensures !OccursHere(tail, part, p) {
      if OccursHere(tail, part, p) { HereHasParenthesis(tail, part, p); }
    }
    if Occurs(tail, part) { OccursAt(tail, part); }
  }

  lemma HereHasParenthesis(s: string, part: string, p: nat)
    requires OccursHere(s, part, p) && |part| > 6 && part[6] == '('
    ensures s[p + 6] == '('
  {
    assert s[p + 6] == s[p..p + |part|][6];
  }

  lemma SameReference(c: string, x: string)
    requires Identifier(c) && Identifier(x) && ProposedUpsert(x) <= ProposedUpsert(c)
    ensures x == c
  {
    var s, part := ProposedUpsert(c), ProposedUpsert(x);
    assert part[7 + |x|] == ')';
    assert |x| == |c|;
    assert part[7..7 + |x|] == x && s[7..7 + |c|] == c;
  }

  /** All columns in turn. */
  function RewriteRhs(rhs: string, columns: seq<string>): string {
    if columns == [] then rhs
    else ReplaceAll(RewriteRhs(rhs, columns[..|columns| - 1]), ProposedUpsert(columns[|columns| - 1]), ProposedMerge(columns[|columns| - 1]))
  }

  lemma MergedReferenceStays(c: string, x: string)
    requires Identifier(c)
    ensures !Occurs(ProposedMerge(c), ProposedUpsert(x))
  {
    assert ProposedUpsert(x)[6] == '(';
    assert forall i :: 0 <= i < |ProposedMerge(c)| ==> ProposedMerge(c)[i] == (if i == 0 then 's' else if i == 1 then '.' else c[i - 2]);
    if Occurs(ProposedMerge(c), ProposedUpsert(x)) { OccurrenceHasChar(ProposedMerge(c), ProposedUpsert(x), '('); }
  }

  lemma {:induction false} RewriteReference(c: string, columns: seq<string>)
    requires Identifier(c) && forall i :: 0 <= i < |columns| ==> Identifier(columns[i])
    ensures RewriteRhs(ProposedUpsert(c), columns) == if c in columns then ProposedMerge(c) else ProposedUpsert(c)
  {
    if columns != [] {
      var n := |columns| - 1;
      assert columns == columns[..n] + [columns[n]];
      RewriteReference(c, columns[..n]);
      ReplaceReference(c, columns[n]);
      if c in columns[..n] {
        MergedReferenceStays(c, columns[n]);
        ReplaceAbsent(ProposedMerge(c), ProposedUpsert(columns[n]), ProposedMerge(columns[n]));
      }
    }
  }

  lemma {:induction false} RewriteVerbatim(text: string, columns: seq<string>)
    requires !Occurs(text, VALUES)
    ensures RewriteRhs(text, columns) == text
  {
    if columns != [] {
      var n := |columns| - 1;
      RewriteVerbatim(text, columns[..n]);
      assert ProposedUpsert(columns[n]) == VALUES + (columns[n] + ")");
      OccursPrefix(text, VALUES, ProposedUpsert(columns[n]));
      ReplaceAbsent(text, ProposedUpsert(columns[n]), ProposedMerge(columns[n]));
    }
  }

  // ----- Building the statement -----

  /** Splits at the first equals sign. */
  function EqualsAt(a: string): nat
    requires '=' in a
    ensures EqualsAt(a) < |a| && a[EqualsAt(a)] == '=' && forall i :: 0 <= i < EqualsAt(a) ==> a[i] != '='
  {
    if a[0] == '=' then 0 else 1 + EqualsAt(a[1..])
  }

  function RewriteAssignment(a: string, columns: seq<string>): string
    requires '=' in a
  {
    "t." + Trim(a[..EqualsAt(a)]) + "=" + RewriteRhs(a[EqualsAt(a) + 1..], columns)
  }

  predicate Assigns(updates: Option<string>) {
    updates.Some? ==> forall a :: a in Split(updates.value, TOP, "") ==> '=' in a
  }

  method SelectValues(columnList: seq<string>, expressions: seq<string>) returns (columns: seq<string>, selectValues: seq<string>)
    requires |expressions| == |columnList|
    ensures columns == TrimAll(columnList) && selectValues == SourceTexts(Zip(expressions, columns))
  {
    columns, selectValues := [], [];
    var i := 0;
    while i < |columnList|
      invariant 0 <= i <= |columnList| && |columns| == |selectValues| == i
      invariant forall j :: 0 <= j < i ==> columns[j] == Trim(columnList[j]) && selectValues[j] == expressions[j] + " AS " + columns[j]
    {
      columns := columns + [Trim(columnList[i])];
      selectValues := selectValues + [expressions[i] + " AS " + columns[i]];
      i := i + 1;
    }
  }

  method RewriteUpdates(texts: seq<string>, columns: seq<string>) returns (assignments: seq<string>)
    requires forall a :: a in texts ==> '=' in a
    ensures assignments == RewriteAll(texts, columns)
  {
    assignments := texts;
    var i := 0;
    while i < |assignments|
      invariant 0 <= i <= |assignments| == |texts|
      invariant forall j :: i <= j < |texts| ==> assignments[j] == texts[j]
      invariant forall j :: 0 <= j < i ==> assignments[j] == RewriteAll(texts, columns)[j]
    {
      var a := assignments[i];
      assert texts[i] in texts;
      var rhs := a[EqualsAt(a) + 1..];
      var k := 0;
      while k < |columns|
        invariant 0 <= k <= |columns| && rhs == RewriteRhs(a[EqualsAt(a) + 1..], columns[..k])
      {
        assert columns[..k + 1][..k] == columns[..k];
        rhs := ReplaceAll(rhs, ProposedUpsert(columns[k]), ProposedMerge(columns[k]));
        k := k + 1;
      }
      assert columns[..k] == columns;
      assignments := assignments[i := "t." + Trim(a[..EqualsAt(a)]) + "=" + rhs];
      i := i + 1;
    }
  }

  /** The part of `mergeSQL` after the statement has been cut into its table, its column list, the text of its
      values and, if present, of its assignments. No result means that the statement is left alone. */
  method BuildMerge(table: string, columnList: seq<string>, rawValues: string, updates: Option<string>) returns (r: Option<string>)
    requires Assigns(updates)
    ensures r.Some? <==> |Split(rawValues, TOP, "")| == |columnList| && KeysOf(table) != []
    ensures r.Some? ==> r.value == BuiltText(table, columnList, rawValues, updates)
  {
    var expressions := SplitExpressions(rawValues);
    if |expressions| != |columnList| {
      return None;
    }
    var keys := KeysOf(table);
    if |keys| == 0 {
      return None;
    }
    var columns, selectValues := SelectValues(columnList, expressions);
    var result := MergeHead(table, selectValues, keys);
    if updates.Some? {
      var parts := SplitExpressions(updates.value);
      var assignments := RewriteUpdates(parts, columns);
      result := result + MatchedText(assignments);
    }
    return Some(result + InsertText(columns, Each(columns, "s.", "")));
  }

  function TrimAll(parts: seq<string>): seq<string> { seq(|parts|, i requires 0 <= i < |parts| => Trim(parts[i])) }

  function Zip(values: seq<string>, names: seq<string>): seq<Selected>
    requires |values| == |names|
  {
    seq(|values|, i requires 0 <= i < |values| => Selected(values[i], names[i]))
  }

  function RewriteAll(texts: seq<string>, columns: seq<string>): seq<string>
    requires forall a :: a in texts ==> '=' in a
  {
    seq(|texts|, i requires 0 <= i < |texts| => (assert texts[i] in texts; RewriteAssignment(texts[i], columns)))
  }

  function BuiltText(table: string, columnList: seq<string>, rawValues: string, updates: Option<string>): string
    requires |Split(rawValues, TOP, "")| == |columnList| && Assigns(updates)
  {
    var columns := TrimAll(columnList);
    MergeHead(table, SourceTexts(Zip(Split(rawValues, TOP, ""), columns)), KeysOf(table))
      + (if updates.Some? then MatchedText(RewriteAll(Split(updates.value, TOP, ""), columns)) else "")
      + InsertText(columns, Each(columns, "s.", ""))
  }

  // ----- Text and structure agree -----

  /** The statements the repository issues. */
  ghost predicate Supported(u: Upsert) {
    && |u.values| == |u.columns| && u.columns != [] && KeysOf(u.table) != []
    && (forall i :: 0 <= i < |u.columns| ==> Identifier(u.columns[i]) && Balanced(u.values[i]))
    && (u.updates.Some? ==> u.updates.value != [] && forall i :: 0 <= i < |u.updates.value| ==> SupportedAssignment(u.updates.value[i], u.columns))
  }

  ghost predicate SupportedAssignment(a: Assignment, columns: seq<string>) {
    && Identifier(a.column)
    && match a.rhs
       case Proposed(c) => c in columns
       case Verbatim(t) => !Occurs(t, VALUES) && Balanced(t)
  }

  function UpdatesText(u: Upsert): Option<string> {
    if u.updates.Some? then Some(Join(AssignmentTexts(u.updates.value, "", ProposedUpsert), ",")) else None
  }
}
