/** `mergeSQL` from the text of an upsert to the text of the MERGE statement (ingestor_orchestrator/oracle-repositories/merge.go). */
module OracleText {
  import opened Common
  import opened OracleMerge

  // ----- Finding and replacing text -----

  /** The first occurrence. */
  function Index(s: string, part: string): (r: Option<nat>)
    ensures r.Some? ==> r.value + |part| <= |s|
  {
    if part <= s then Some(0)
    else if s == [] then None
    else match Index(s[1..], part)
         case None => None
         case Some(p) => Some(p + 1)
  }

  lemma PrefixIsHere(s: string, part: string)
    ensures part <= s <==> OccursHere(s, part, 0)
  {
    if |part| <= |s| { assert s[..|part|] == s[0..0 + |part|]; }
  }

  lemma {:induction false} IndexFirst(s: string, part: string, p: nat)
    requires OccursHere(s, part, p) && forall q: nat :: q < p ==> !OccursHere(s, part, q)
    ensures Index(s, part) == Some(p)
  {
    PrefixIsHere(s, part);
    if p > 0 {
      assert !OccursHere(s, part, 0);
      var k := p - 1;
      assert s[1..][k..k + |part|] == s[k + 1..k + 1 + |part|];
      forall q: nat | q < k ensures !OccursHere(s[1..], part, q) {
        assert !OccursHere(s, part, q + 1);
        if q + |part| <= |s[1..]| {
          assert s[1..][q..q + |part|] == s[q + 1..q + 1 + |part|];
        }
      }
      IndexFirst(s[1..], part, k);
    }
  }

  lemma {:induction false} IndexAbsent(s: string, part: string)
    requires !Occurs(s, part)
    ensures Index(s, part) == None
  {
    if s != [] { IndexAbsent(s[1..], part); }
  }

  function ReplaceFirst(s: string, part: string, sub: string): string {
    match Index(s, part)
    case None => s
    case Some(p) => s[..p] + sub + s[p + |part|..]
  }

  function TrimPrefix(s: string, prefix: string): string { if prefix <= s then s[|prefix|..] else s }

  function TrimSuffix(s: string, suffix: string): string {
    if |suffix| <= |s| && s[|s| - |suffix|..] == suffix then s[..|s| - |suffix|] else s
  }

  function SplitAtCommas(s: string, current: string): seq<string>
    decreases |s|
  {
    if s == [] then [current]
    else if s[0] == ',' then [current] + SplitAtCommas(s[1..], "")
    else SplitAtCommas(s[1..], current + [s[0]])
  }

  lemma {:induction false} CommaFree(part: string, rest: string, current: string)
    requires ',' !in part
    ensures SplitAtCommas(part + rest, current) == SplitAtCommas(rest, current + part)
    decreases |part|
  {
    if part == [] {
      assert part + rest == rest && current + part == current;
    } else {
      assert (part + rest)[1..] == part[1..] + rest;
      assert current + [part[0]] + part[1..] == current + part;
      CommaFree(part[1..], rest, current + [part[0]]);
    }
  }

  lemma CommaStep(part: string, rest: string)
    requires ',' !in part
    ensures SplitAtCommas(part + ("," + rest), "") == [part] + SplitAtCommas(rest, "")
  {
    var tail := "," + rest;
    CommaFree(part, tail, "");
    assert "" + part == part && tail[0] == ',' && tail[1..] == rest;
  }

  lemma {:induction false} CommasInvertJoin(parts: seq<string>)
    requires parts != [] && forall i :: 0 <= i < |parts| ==> ',' !in parts[i]
    ensures SplitAtCommas(Join(parts, ","), "") == parts
    decreases |parts|
  {
    if |parts| == 1 {
      CommaFree(parts[0], [], "");
      assert parts[0] + [] == parts[0] && "" + parts[0] == parts[0] && [parts[0]] == parts;
    } else {
      var rest := Join(parts[1..], ",");
      assert Join(parts, ",") == parts[0] + ("," + rest);
      CommaStep(parts[0], rest);
      CommasInvertJoin(parts[1..]);
      assert [parts[0]] + parts[1..] == parts;
    }
  }

  // ----- Cutting a statement into its parts -----

  const UPDATE := " ON DUPLICATE KEY UPDATE "
  const IGNORE := "INSERT IGNORE INTO "
  const INSERT := "INSERT INTO "
  const LIST := ") VALUES ("

  /** `Malformed`: the source would slice out of range. */
  datatype Cutting = Untouched | Malformed | Pieces(table: string, columns: seq<string>, values: string, updates: Option<string>)

  function CutInsert(base: string, updates: Option<string>): Cutting {
    var start, values := Index(base, " ("), Index(base, LIST);
    if start.None? || values.None? then Untouched
    else if values.value < start.value + 2 then Malformed
    else Pieces(TrimPrefix(base[..start.value], INSERT), SplitAtCommas(base[start.value + 2..values.value], ""),
                TrimSuffix(base[values.value + |LIST|..], ")"), updates)
  }

  function Cut(q: string): Cutting {
    match Index(q, UPDATE)
    case None => if IGNORE <= q then CutInsert(ReplaceFirst(q, IGNORE, INSERT), None) else Untouched
    case Some(mark) => CutInsert(ReplaceFirst(q[..mark], IGNORE, INSERT), Some(q[mark + |UPDATE|..]))
  }

  /** An assignment without an equals sign would be indexed out of range. */
  predicate Accepted(q: string) {
    var cut := Cut(q);
    cut.Untouched? || (cut.Pieces? && Assigns(cut.updates))
  }

  function Rewritten(q: string): string
    requires Accepted(q)
  {
    match Cut(q)
    case Untouched => q
    case Pieces(table, columns, values, updates) =>
      if |Split(values, TOP, "")| == |columns| && KeysOf(table) != [] then BuiltText(table, columns, values, updates) else q
  }

  method MergeSql(q: string) returns (r: string)
    requires Accepted(q)
    ensures r == Rewritten(q)
  {
    var cut := Cut(q);
    if cut.Untouched? {
      return q;
    }
    var built := BuildMerge(cut.table, cut.columns, cut.values, cut.updates);
    return if built.Some? then built.value else q;
  }

  // ----- The text of an upsert -----

  function InsertStatement(word: string, u: Upsert): string {
    word + u.table + " (" + Join(u.columns, ",") + LIST + (Join(u.values, ",") + ")")
  }

  function UpsertText(u: Upsert): string {
    match UpdatesText(u)
    case None => InsertStatement(IGNORE, u)
    case Some(assignments) => InsertStatement(INSERT, u) + UPDATE + assignments
  }

  /** An upsert without assignments is written to be ignored if it conflicts. */
  lemma UpsertForm(u: Upsert)
    ensures u.updates.None? ==>
              UpsertText(u) == "INSERT IGNORE INTO " + u.table + " (" + Join(u.columns, ",") + ") VALUES (" + (Join(u.values, ",") + ")")
    ensures u.updates.Some? ==>
              UpsertText(u) == "INSERT INTO " + u.table + " (" + Join(u.columns, ",") + ") VALUES (" + (Join(u.values, ",") + ")")
                               + " ON DUPLICATE KEY UPDATE " + UpdatesText(u).value
  {
  }

  /** The values hold none of the phrases by which the statement is cut. */
  ghost predicate Cuttable(u: Upsert) {
    && Supported(u) && Identifier(u.table)
    && !Occurs(Join(u.values, ","), UPDATE)
    && !Occurs(Join(u.values, ","), IGNORE)
  }

  lemma {:induction false} JoinWithout(parts: seq<string>, separator: string, c: char)
    requires c !in separator && forall i :: 0 <= i < |parts| ==> c !in parts[i]
    ensures c !in Join(parts, separator)
    decreases |parts|
  {
    if |parts| > 1 { JoinWithout(parts[1..], separator, c); }
  }

  /** A part without the character between two texts lies in one of them. */
  lemma OccursEither(left: string, c: char, right: string, part: string)
    requires c !in part && Occurs(left + [c] + right, part)
    ensures Occurs(left, part) || Occurs(right, part)
  {
    var s := left + [c] + right;
    OccursAt(s, part);
    var p: nat :| OccursHere(s, part, p);
    var end := p + |part|;
    assert !(p <= |left| < end) by {
      if p <= |left| < end { HereCharacter(s, part, p, |left| - p); }
    }
    if end <= |left| {
      assert left[p..end] == s[p..end];
      HereOccurs(left, part, p);
    } else {
      var from := p - |left| - 1;
      assert right[from..from + |part|] == s[p..end];
      HereOccurs(right, part, from);
    }
  }

  lemma HereCharacter(s: string, part: string, p: nat, i: nat)
    requires OccursHere(s, part, p) && i < |part|
    ensures s[p + i] == part[i]
  {
    assert s[p..p + |part|][i] == s[p + i];
  }

  lemma {:induction false} HereOccurs(s: string, part: string, p: nat)
    requires OccursHere(s, part, p)
    ensures Occurs(s, part)
  {
    if p == 0 {
      assert part == s[..|part|];
    } else {
      assert s[1..][p - 1..p - 1 + |part|] == s[p..p + |part|];
      HereOccurs(s[1..], part, p - 1);
    }
  }

  lemma PhraseAbsent(head: string, values: string, part: string, c: char)
    requires c in part && c !in head && '(' !in part && ')' !in part && !Occurs(values, part)
    ensures !Occurs(head + "(" + values + ")", part)
  {
    var rest := values + ")";
    assert head + "(" + values + ")" == head + ['('] + rest && rest == values + [')'] + "";
    if Occurs(head + ['('] + rest, part) {
      OccursEither(head, '(', rest, part);
      if Occurs(head, part) { OccurrenceHasChar(head, part, c); } else { OccursEither(values, ')', "", part); }
    }
  }

  /** The character `c` of the part is first met where the part stands. */
  lemma FirstAt(before: string, part: string, after: string, c: char)
    requires c !in before && |part| >= 2 && (part[0] == c || (part[0] != c && part[1] == c))
    ensures Index(before + part + after, part) == Some(|before|)
  {
    var s := before + part + after;
    assert s[|before|..|before| + |part|] == part;
    assert s[|before|] == part[0] && forall i :: 0 <= i < |before| ==> s[i] == before[i];
    forall q: nat | q < |before| ensures !OccursHere(s, part, q) {
      if OccursHere(s, part, q) { HereStarts(s, part, q); }
    }
    IndexFirst(s, part, |before|);
  }

  lemma HereStarts(s: string, part: string, p: nat)
    requires OccursHere(s, part, p) && |part| >= 2
    ensures s[p] == part[0] && s[p + 1] == part[1]
  {
    HereCharacter(s, part, p, 0);
    HereCharacter(s, part, p, 1);
  }

  lemma Slices(a: string, b: string, c: string, d: string, e: string)
    ensures var s := a + b + c + d + e;
            && s == a + b + (c + d + e)
            && s[..|a|] == a
            && s[|a| + |b|..|a| + |b| + |c|] == c
            && s[|a| + |b| + |c| + |d|..] == e
  {
  }

  /** Where the two cuts of an INSERT statement fall. */
  lemma CutPoints(head: string, open: string, list: string, close: string, tail: string)
    requires Mark(open, close)
    requires '(' !in head && ')' !in head && ')' !in list
    ensures var base := head + open + list + close + tail;
            && Index(base, open) == Some(|head|)
            && Index(base, close) == Some(|head| + |open| + |list|)
  {
    var base := head + open + list + close + tail;
    assert base == head + open + (list + close + tail);
    FirstAt(head, open, list + close + tail, '(');
    var front := head + open + list;
    assert ')' !in front;
    assert base == front + close + tail;
    FirstAt(front, close, tail, ')');
  }

  predicate Mark(open: string, close: string) {
    |open| >= 2 && open[0] != '(' && open[1] == '(' && ')' !in open && |close| >= 2 && close[0] == ')'
  }

  lemma CutWith(head: string, open: string, list: string, close: string, tail: string, updates: Option<string>)
    requires open == " (" && close == LIST && Mark(open, close)
    requires '(' !in head && ')' !in head && ')' !in list
    ensures CutInsert(head + open + list + close + tail, updates) ==
            Pieces(TrimPrefix(head, INSERT), SplitAtCommas(list, ""), TrimSuffix(tail, ")"), updates)
  {
    CutPoints(head, open, list, close, tail);
    CutPieces(head, open, list, close, tail, updates);
  }

  lemma CutRaw(head: string, list: string, tail: string, updates: Option<string>)
    requires '(' !in head && ')' !in head && ')' !in list
    ensures CutInsert(head + " (" + list + LIST + tail, updates) ==
            Pieces(TrimPrefix(head, INSERT), SplitAtCommas(list, ""), TrimSuffix(tail, ")"), updates)
  {
    CutWith(head, " (", list, LIST, tail, updates);
  }

  /** An INSERT statement is cut at its table, its columns and its values. */
  lemma CutInsertText(table: string, columns: seq<string>, values: string, updates: Option<string>)
    requires Identifier(table) && columns != [] && forall i :: 0 <= i < |columns| ==> Identifier(columns[i])
    ensures CutInsert(INSERT + table + " (" + Join(columns, ",") + LIST + (values + ")"), updates) == Pieces(table, columns, values, updates)
  {
    JoinWithout(columns, ",", ')');
    CommasInvertJoin(columns);
    InsertHead(table);
    CutRaw(INSERT + table, Join(columns, ","), values + ")", updates);
    Ends(INSERT, table);
    Ends(values, ")");
  }

  lemma InsertHead(table: string)
    requires Identifier(table)
    ensures '(' !in INSERT + table && ')' !in INSERT + table
  {
    assert '(' !in INSERT && ')' !in INSERT;
  }

  lemma CutPieces(head: string, open: string, list: string, close: string, tail: string, updates: Option<string>)
    requires open == " (" && close == LIST
    requires var base := head + open + list + close + tail;
             && Index(base, open) == Some(|head|)
             && Index(base, close) == Some(|head| + |open| + |list|)
    ensures CutInsert(head + open + list + close + tail, updates) ==
            Pieces(TrimPrefix(head, INSERT), SplitAtCommas(list, ""), TrimSuffix(tail, ")"), updates)
  {
    Slices(head, open, list, close, tail);
  }

  lemma Ends(a: string, b: string)
    ensures TrimPrefix(a + b, a) == b && TrimSuffix(a + b, b) == a
  {
    assert (a + b)[|a|..] == b && (a + b)[..|a|] == a;
  }

  /** A phrase with a capital letter of its own, and no parenthesis, is not in the statement unless a value holds it. */
  lemma StatementLacks(word: string, table: string, columns: seq<string>, values: string, part: string, c: char)
    requires Identifier(table) && forall i :: 0 <= i < |columns| ==> Identifier(columns[i])
    requires c in part && c !in word && c !in " ()," && c !in "VALUES" && !('a' <= c <= 'z' || '0' <= c <= '9' || c == '_')
    requires '(' !in part && ')' !in part && !Occurs(values, part)
    ensures !Occurs(word + table + " (" + Join(columns, ",") + LIST + (values + ")"), part)
  {
    JoinWithout(columns, ",", c);
    var front := word + table + " (" + Join(columns, ",");
    var head := front + ") VALUES ";
    PhraseAbsent(head, values, part, c);
    assert ") VALUES " + "(" == LIST;
    assert head + "(" + values + ")" == front + (") VALUES " + "(") + (values + ")");
  }

  lemma IndexAfter(before: string, part: string, after: string)
    requires !Occurs(before, part) && before != [] && before[|before| - 1] !in part && part != []
    ensures Index(before + part + after, part) == Some(|before|)
  {
    var s := before + part + after;
    assert s[|before|..|before| + |part|] == part;
    forall q: nat | q < |before| ensures !OccursHere(s, part, q) {
      if OccursHere(s, part, q) { EarlierOccurrence(before, part + after, part, q); }
    }
    assert before + (part + after) == s;
    IndexFirst(s, part, |before|);
  }

  /** No occurrence reaches over the last character of the first text. */
  lemma EarlierOccurrence(before: string, rest: string, part: string, q: nat)
    requires before != [] && before[|before| - 1] !in part && q < |before| && OccursHere(before + rest, part, q)
    ensures Occurs(before, part)
  {
    var last := |before| - 1;
    if q + |part| > last {
      HereCharacter(before + rest, part, q, last - q);
    } else {
      assert before[q..q + |part|] == (before + rest)[q..q + |part|];
      HereOccurs(before, part, q);
    }
  }

  lemma ReplaceAtStart(part: string, sub: string, rest: string)
    ensures ReplaceFirst(part + rest, part, sub) == sub + rest
  {
    assert part <= part + rest;
    assert (part + rest)[..0] == "" && (part + rest)[|part|..] == rest && "" + sub == sub;
  }

  lemma UpdateLetters(word: string)
    requires word == INSERT || word == IGNORE
    ensures 'K' in UPDATE && 'K' !in word && 'K' !in " ()," && 'K' !in "VALUES" && '(' !in UPDATE && ')' !in UPDATE
  {
    assert UPDATE[14] == 'K';
  }

  lemma UpdatePhrase(word: string, u: Upsert)
    requires Cuttable(u) && (word == INSERT || word == IGNORE)
    ensures !Occurs(InsertStatement(word, u), UPDATE)
  {
    UpdateLetters(word);
    StatementLacks(word, u.table, u.columns, Join(u.values, ","), UPDATE, 'K');
  }

  lemma IgnorePhrase(u: Upsert)
    requires Cuttable(u)
    ensures !Occurs(InsertStatement(INSERT, u), IGNORE)
  {
    assert IGNORE[8] == 'G';
    StatementLacks(INSERT, u.table, u.columns, Join(u.values, ","), IGNORE, 'G');
  }

  lemma CutWithoutUpdate(word: string, rest: string)
    requires word == IGNORE && !Occurs(word + rest, UPDATE)
    ensures Cut(word + rest) == CutInsert(INSERT + rest, None)
  {
    IndexAbsent(word + rest, UPDATE);
    ReplaceAtStart(word, INSERT, rest);
    assert word <= word + rest;
  }

  lemma CutAtUpdate(base: string, mark: string, assignments: string)
    requires mark == UPDATE && !Occurs(base, mark) && !Occurs(base, IGNORE) && base != [] && base[|base| - 1] == ')'
    ensures Cut(base + mark + assignments) == CutInsert(base, Some(assignments))
  {
    IndexAfter(base, mark, assignments);
    IndexAbsent(base, IGNORE);
    var q := base + mark + assignments;
    assert q[..|base|] == base && q[|base| + |mark|..] == assignments;
  }

  /** The statement is cut into the very parts it was written from. */
  lemma CutUpsert(u: Upsert)
    requires Cuttable(u)
    ensures Cut(UpsertText(u)) == Pieces(u.table, u.columns, Join(u.values, ","), UpdatesText(u))
  {
    var values := Join(u.values, ",");
    var rest := u.table + " (" + Join(u.columns, ",") + LIST + (values + ")");
    CutInsertText(u.table, u.columns, values, UpdatesText(u));
    if u.updates.None? {
      UpdatePhrase(IGNORE, u);
      SameStatement(IGNORE, u, rest);
      SameStatement(INSERT, u, rest);
      CutWithoutUpdate(IGNORE, rest);
    } else {
      UpdatePhrase(INSERT, u);
      IgnorePhrase(u);
      CutAtUpdate(InsertStatement(INSERT, u), UPDATE, UpdatesText(u).value);
    }
  }

  lemma SameStatement(word: string, u: Upsert, rest: string)
    requires rest == u.table + " (" + Join(u.columns, ",") + LIST + (Join(u.values, ",") + ")")
    ensures InsertStatement(word, u) == word + rest
  {
  }
}
