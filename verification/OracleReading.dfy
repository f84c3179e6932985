/** A reader of MERGE statements, and what it reads in those that are written for upserts
    (ingestor_orchestrator/oracle-repositories/merge.go). */
module OracleReading {
  import opened Common
  import opened OracleMerge
  import opened OracleText
  import opened OracleTranslation

  // ----- What a MERGE statement says -----

  /** A column of the target `t` or of the source `s`. */
  datatype Ref = Target(column: string) | Source(column: string)

  datatype Operand = Column(ref: Ref) | Text(text: string)

  datatype Equation = Equation(left: Ref, right: Ref)

  datatype Setting = Setting(column: string, value: Operand)

  /** `settings` is absent if rows that match stay as they are. */
  datatype Reading = Reading(table: string, source: seq<Selected>, on: seq<Equation>, settings: Option<seq<Setting>>,
                             columns: seq<string>, values: seq<Ref>)

  // ----- The reader -----

  function After(s: string, prefix: string): Option<string> {
    if prefix <= s then Some(s[|prefix|..]) else None
  }

  predicate NameCharacter(c: char) { 'a' <= c <= 'z' || '0' <= c <= '9' || c == '_' }

  /** The length of the name at the start. */
  function NameLength(s: string): (n: nat)
    ensures n <= |s|
  {
    if s != [] && NameCharacter(s[0]) then 1 + NameLength(s[1..]) else 0
  }

  /** The place of the parenthesis that closes the group in which the text starts. */
  function Close(s: string, at: Scan): (r: Option<nat>)
    ensures r.Some? ==> r.value < |s|
    decreases |s|
  {
    if s == [] then None
    else if s[0] == ')' && at == TOP then Some(0)
    else match Close(s[1..], Step(at, s[0]))
         case None => None
         case Some(p) => Some(p + 1)
  }

  function LastSpace(s: string): (r: Option<nat>)
    ensures r.Some? ==> r.value < |s|
  {
    if s == [] then None else if s[|s| - 1] == ' ' then Some(|s| - 1) else LastSpace(s[..|s| - 1])
  }

  function Pieced(s: string, separator: string): seq<string>
    requires separator != []
    decreases |s|
  {
    match Index(s, separator)
    case None => [s]
    case Some(p) => [s[..p]] + Pieced(s[p + |separator|..], separator)
  }

  function ReadAll<T>(parts: seq<string>, read: string -> Option<T>): Option<seq<T>> {
    if parts == [] then Some([])
    else match (read(parts[0]), ReadAll(parts[1..], read))
         case (Some(first), Some(rest)) => Some([first] + rest)
         case _ => None
  }

  /** `value AS name` */
  function ReadItem(s: string): Option<Selected> {
    match LastSpace(s)
    case None => None
    case Some(p) => if p >= 3 && s[p - 3..p] == " AS" then Some(Selected(s[..p - 3], s[p + 1..])) else None
  }

  function ReadRef(s: string): Option<Ref> {
    if "t." <= s && Identifier(s[2..]) then Some(Target(s[2..]))
    else if "s." <= s && Identifier(s[2..]) then Some(Source(s[2..]))
    else None
  }

  function ReadEquation(s: string): Option<Equation> {
    if '=' !in s then None
    else match (ReadRef(s[..EqualsAt(s)]), ReadRef(s[EqualsAt(s) + 1..]))
         case (Some(left), Some(right)) => Some(Equation(left, right))
         case _ => None
  }

  function ReadOperand(s: string): Operand {
    match ReadRef(s) case Some(ref) => Column(ref) case None => Text(s)
  }

  function ReadSetting(s: string): Option<Setting> {
    if '=' !in s then None
    else match ReadRef(s[..EqualsAt(s)])
         case Some(Target(c)) => Some(Setting(c, ReadOperand(s[EqualsAt(s) + 1..])))
         case _ => None
  }

  /** The words of the statement. */
  datatype Words = Words(merge: string, using: string, dual: string, on: string, matched: string, unmatched: string, values: string)

  const MERGE := "MERGE INTO "
  const USING := " t USING (SELECT "
  const DUAL := " FROM dual"
  const ON := " s ON ("
  const MATCHED := " WHEN MATCHED THEN UPDATE SET "
  const UNMATCHED := " WHEN NOT MATCHED THEN INSERT ("
  const REFERENCES := " VALUES ("

  /** A part of the statement and what follows it. */
  datatype Part<T> = Part(value: T, rest: string)

  /** `table t USING (SELECT` */
  function ReadTable(w: Words, q: string): Option<Part<string>> {
    match After(q, w.merge)
    case None => None
    case Some(rest) =>
      match After(rest[NameLength(rest)..], w.using)
      case None => None
      case Some(select) => Some(Part(rest[..NameLength(rest)], select))
  }

  /** `value AS name, … FROM dual) s ON (` */
  function ReadSource(w: Words, s: string): Option<Part<seq<Selected>>> {
    match Close(s, TOP)
    case None => None
    case Some(end) =>
      if !(|w.dual| <= end && s[end - |w.dual|..end] == w.dual) then None
      else match (ReadAll(Split(s[..end - |w.dual|], TOP, ""), ReadItem), After(s[end + 1..], w.on))
           case (Some(source), Some(rest)) => Some(Part(source, rest))
           case _ => None
  }

  /** The equations, up to the parenthesis that closes the condition. */
  function ReadOn(s: string): Option<Part<seq<Equation>>> {
    match Close(s, TOP)
    case None => None
    case Some(end) =>
      match ReadAll(Pieced(s[..end], " AND "), ReadEquation)
      case None => None
      case Some(on) => Some(Part(on, s[end + 1..]))
  }

  /** The assignments, if there are any, up to the clause that inserts. */
  function ReadUpdates(w: Words, s: string): Option<Part<Option<seq<Setting>>>> {
    match After(s, w.matched)
    case None =>
      (match After(s, w.unmatched)
       case None => None
       case Some(rest) => Some(Part(None, rest)))
    case Some(updates) =>
      match Index(updates, w.unmatched)
      case None => None
      case Some(p) =>
        match ReadAll(Split(updates[..p], TOP, ""), ReadSetting)
        case None => None
        case Some(settings) => Some(Part(Some(settings), updates[p + |w.unmatched|..]))
  }

  /** `columns) VALUES (references)` */
  function ReadInsert(w: Words, s: string): Option<(seq<string>, seq<Ref>)> {
    match Close(s, TOP)
    case None => None
    case Some(end) =>
      match After(s[end + 1..], w.values)
      case None => None
      case Some(rest) =>
        match Close(rest, TOP)
        case None => None
        case Some(last) =>
          match ReadAll(SplitAtCommas(rest[..last], ""), ReadRef)
          case None => None
          case Some(values) => if rest[last + 1..] == "" then Some((SplitAtCommas(s[..end], ""), values)) else None
  }

  function ReadStatement(w: Words, q: string): Option<Reading> {
    match ReadTable(w, q)
    case None => None
    case Some(table) =>
      match ReadSource(w, table.rest)
      case None => None
      case Some(source) =>
        match ReadOn(source.rest)
        case None => None
        case Some(on) =>
          match ReadUpdates(w, on.rest)
          case None => None
          case Some(updates) =>
            match ReadInsert(w, updates.rest)
            case None => None
            case Some(insert) => Some(Reading(table.value, source.value, on.value, updates.value, insert.0, insert.1))
  }

  const ORACLE := Words(MERGE, USING, DUAL, ON, MATCHED, UNMATCHED, REFERENCES)

  function ReadMerge(q: string): Option<Reading> { ReadStatement(ORACLE, q) }

  // ----- What is to be read -----

  /** No parenthesis is closed that was not opened. */
  predicate Nested(s: string, at: Scan)
    decreases |s|
  {
    s == [] || (!(s[0] == ')' && at == TOP) && Nested(s[1..], Step(at, s[0])))
  }

  function Scanned(s: string, at: Scan): Scan
    decreases |s|
  {
    if s == [] then at else Scanned(s[1..], Step(at, s[0]))
  }

  /** A value that stands for itself in a list. */
  ghost predicate Plain(value: string) { value != [] && Balanced(value) && Nested(value, TOP) }

  /** A text that is not the reference to a column, and does not hold the phrase that ends the assignments. */
  ghost predicate PlainUpdate(r: Rhs, phrase: string) {
    match r
    case Proposed(c) => Identifier(c)
    case Verbatim(t) => Balanced(t) && ReadRef(t).None? && !Occurs(t, phrase)
  }

  ghost predicate Names(names: seq<string>) {
    names != [] && forall i :: 0 <= i < |names| ==> Identifier(names[i])
  }

  ghost predicate PlainSource(source: seq<Selected>) {
    source != [] && forall i :: 0 <= i < |source| ==> Plain(source[i].value) && Identifier(source[i].name)
  }

  ghost predicate PlainUpdates(updates: seq<Assignment>, phrase: string) {
    updates != [] && forall i :: 0 <= i < |updates| ==> Identifier(updates[i].column) && PlainUpdate(updates[i].rhs, phrase)
  }

  ghost predicate Readable(m: Merge) {
    && Identifier(m.table) && PlainSource(m.source) && Names(m.keys) && Names(m.columns) && Names(m.refs)
    && (m.updates.Some? ==> PlainUpdates(m.updates.value, UNMATCHED))
  }

  function OperandOf(r: Rhs): Operand {
    match r
    case Proposed(c) => Column(Source(c))
    case Verbatim(t) => Text(t)
  }

  function SettingsOf(updates: seq<Assignment>): seq<Setting> {
    seq(|updates|, i requires 0 <= i < |updates| => Setting(updates[i].column, OperandOf(updates[i].rhs)))
  }

  function EquationsOf(keys: seq<string>): seq<Equation> {
    seq(|keys|, i requires 0 <= i < |keys| => Equation(Target(keys[i]), Source(keys[i])))
  }

  function SourcesOf(refs: seq<string>): seq<Ref> { seq(|refs|, i requires 0 <= i < |refs| => Source(refs[i])) }

  /** Each key of the target against the same key of the source, each column filled from its own column of the source. */
  function ReadingOf(m: Merge): Reading {
    Reading(m.table, m.source, EquationsOf(m.keys),
            if m.updates.Some? then Some(SettingsOf(m.updates.value)) else None,
            m.columns, SourcesOf(m.refs))
  }

  // ----- Groups -----

  lemma {:induction false} ScannedConcat(a: string, b: string, at: Scan)
    ensures Scanned(a + b, at) == Scanned(b, Scanned(a, at))
    ensures Nested(a + b, at) <==> Nested(a, at) && Nested(b, Scanned(a, at))
    decreases |a|
  {
    if a == [] {
      assert a + b == b;
    } else {
      assert (a + b)[1..] == a[1..] + b;
      ScannedConcat(a[1..], b, Step(at, a[0]));
    }
  }

  lemma {:induction false} CloseAt(inside: string, rest: string, at: Scan)
    requires Nested(inside, at) && Scanned(inside, at) == TOP
    ensures Close(inside + ")" + rest, at) == Some(|inside|)
    decreases |inside|
  {
    var s := inside + ")" + rest;
    if inside != [] {
      assert s[1..] == inside[1..] + ")" + rest;
      CloseAt(inside[1..], rest, Step(at, inside[0]));
    }
  }

  /** A group: its inside, and what follows it. */
  lemma GroupRead(inside: string, rest: string)
    requires Nested(inside, TOP) && Scanned(inside, TOP) == TOP
    ensures var s := inside + ")" + rest;
            Close(s, TOP) == Some(|inside|) && s[..|inside|] == inside && s[|inside| + 1..] == rest
  {
    CloseAt(inside, rest, TOP);
  }

  lemma {:induction false} UnbrokenScanned(s: string, at: Scan)
    requires Unbroken(s, at)
    ensures Scanned(s, at) == TOP
    decreases |s|
  {
    if s != [] { UnbrokenScanned(s[1..], Step(at, s[0])); }
  }

  /** Without parentheses and quotes. */
  predicate Bare(s: string) { forall i :: 0 <= i < |s| ==> s[i] != '(' && s[i] != ')' && s[i] != '\'' }

  lemma {:induction false} BareScanned(s: string)
    requires Bare(s)
    ensures Nested(s, TOP) && Scanned(s, TOP) == TOP
    decreases |s|
  {
    if s != [] { BareScanned(s[1..]); }
  }

  lemma {:induction false} JoinBare(parts: seq<string>, separator: string)
    requires Bare(separator) && forall i :: 0 <= i < |parts| ==> Bare(parts[i])
    ensures Bare(Join(parts, separator))
    decreases |parts|
  {
    if |parts| > 1 { JoinBare(parts[1..], separator); }
  }

  lemma {:induction false} JoinNested(parts: seq<string>)
    requires forall i :: 0 <= i < |parts| ==> Nested(parts[i], TOP) && Scanned(parts[i], TOP) == TOP
    ensures Nested(Join(parts, ","), TOP) && Scanned(Join(parts, ","), TOP) == TOP
    decreases |parts|
  {
    if |parts| > 1 {
      JoinNested(parts[1..]);
      BareScanned(",");
      ScannedConcat(parts[0], ",", TOP);
      ScannedConcat(parts[0] + ",", Join(parts[1..], ","), TOP);
    }
  }

  // ----- Lists -----

  /** A list of texts that are all read is read. */
  lemma {:induction false} AllRead<T>(parts: seq<string>, read: string -> Option<T>, values: seq<T>)
    requires |parts| == |values| && forall i :: 0 <= i < |parts| ==> read(parts[i]) == Some(values[i])
    ensures ReadAll(parts, read) == Some(values)
    decreases |parts|
  {
    if parts != [] {
      AllRead(parts[1..], read, values[1..]);
      assert [values[0]] + values[1..] == values;
    }
  }

  lemma RefRead(alias: string, c: string)
    requires Identifier(c) && alias in {"t.", "s."}
    ensures ReadRef(alias + c) == Some(if alias == "t." then Target(c) else Source(c))
  {
    assert (alias + c)[2..] == c;
  }

  lemma RefsRead(refs: seq<string>)
    requires Names(refs)
    ensures ReadAll(SplitAtCommas(Join(Each(refs, "s.", ""), ","), ""), ReadRef) ==
            Some(SourcesOf(refs))
    ensures Bare(Join(Each(refs, "s.", ""), ","))
  {
    var texts := Each(refs, "s.", "");
    forall i | 0 <= i < |texts| ensures ',' !in texts[i] && ReadRef(texts[i]) == Some(Source(refs[i])) && Bare(texts[i]) {
      assert texts[i] == "s." + refs[i];
      RefRead("s.", refs[i]);
    }
    CommasInvertJoin(texts);
    JoinBare(texts, ",");
    AllRead(texts, ReadRef, SourcesOf(refs));
  }

  lemma ColumnsRead(columns: seq<string>)
    requires Names(columns)
    ensures SplitAtCommas(Join(columns, ","), "") == columns && Bare(Join(columns, ","))
  {
    CommasInvertJoin(columns);
    JoinBare(columns, ",");
  }

  // ----- The source -----

  lemma {:induction false} LastSpaceAt(before: string, name: string)
    requires ' ' !in name
    ensures LastSpace(before + " " + name) == Some(|before|)
    decreases |name|
  {
    var s := before + " " + name;
    if name == [] {
      assert s[|s| - 1] == ' ';
    } else {
      assert s[..|s| - 1] == before + " " + name[..|name| - 1];
      LastSpaceAt(before, name[..|name| - 1]);
    }
  }

  lemma ItemRead(value: string, name: string)
    requires ' ' !in name
    ensures ReadItem(value + " AS " + name) == Some(Selected(value, name))
  {
    var s := value + " AS " + name;
    assert s == (value + " AS") + " " + name;
    LastSpaceAt(value + " AS", name);
    assert s[|value|..|value| + 3] == " AS" && s[..|value|] == value && s[|value| + 4..] == name;
  }

  lemma ItemPlain(value: string, name: string)
    requires Plain(value) && Identifier(name)
    ensures var s := value + " AS " + name; Balanced(s) && Nested(s, TOP) && Scanned(s, TOP) == TOP
  {
    var tail := " AS " + name;
    var s := value + tail;
    assert s == value + " AS " + name;
    UnbrokenScanned(value, TOP);
    BareScanned(tail);
    ScannedConcat(value, tail, TOP);
    PlainUnbroken(tail, "", TOP);
    assert tail + "" == tail;
    UnbrokenThen(value, tail, TOP);
    BalancedStart(value);
    assert s[0] == value[0] && s[|s| - 1] == name[|name| - 1];
  }

  lemma {:induction false} UnbrokenThen(a: string, b: string, at: Scan)
    requires Unbroken(a, at) && Unbroken(b, TOP)
    ensures Unbroken(a + b, at)
    decreases |a|
  {
    if a == [] {
      assert a + b == b;
    } else {
      assert (a + b)[1..] == a[1..] + b;
      UnbrokenThen(a[1..], b, Step(at, a[0]));
    }
  }

  /** A trimmed text does not start with space. */
  lemma BalancedStart(s: string)
    requires Balanced(s) && s != []
    ensures !IsSpace(s[0])
  {
    TrimmedEnd(TrimLeft(s));
    TrimmedStart(s);
  }

  lemma {:induction false} TrimmedStart(s: string)
    ensures |TrimLeft(s)| <= |s| && (s != [] && IsSpace(s[0]) ==> |TrimLeft(s)| < |s|)
  {
    if s != [] && IsSpace(s[0]) { TrimmedStart(s[1..]); }
  }

  lemma SourceRead(source: seq<Selected>)
    requires PlainSource(source)
    ensures var list := Join(SourceTexts(source), ",");
            && ReadAll(Split(list, TOP, ""), ReadItem) == Some(source)
            && Nested(list, TOP) && Scanned(list, TOP) == TOP
  {
    var texts := SourceTexts(source);
    forall i | 0 <= i < |texts|
      ensures Balanced(texts[i]) && Nested(texts[i], TOP) && Scanned(texts[i], TOP) == TOP && ReadItem(texts[i]) == Some(source[i])
    {
      ItemPlain(source[i].value, source[i].name);
      ItemRead(source[i].value, source[i].name);
    }
    SplitInvertsJoin(texts);
    JoinNested(texts);
    AllRead(texts, ReadItem, source);
  }

  // ----- The condition -----

  lemma EquationSplit(left: string, right: string, a: Ref, b: Ref)
    requires '=' !in left && ReadRef(left) == Some(a) && ReadRef(right) == Some(b)
    ensures ReadEquation(left + "=" + right) == Some(Equation(a, b))
  {
    var s := left + "=" + right;
    FirstEquals(left, right);
    assert s[..|left|] == left && s[|left| + 1..] == right;
  }

  lemma EquationText(left: string, k: string, equals: string, right: string)
    ensures left + k + (equals + right) + k == (left + k) + equals + (right + k)
  {}

  lemma EquationRead(k: string)
    requires Identifier(k)
    ensures ReadEquation("t." + k + "=s." + k) == Some(Equation(Target(k), Source(k)))
  {
    RefRead("t.", k);
    RefRead("s.", k);
    EquationSplit("t." + k, "s." + k, Target(k), Source(k));
    EquationText("t.", k, "=", "s.");
    assert "=" + "s." == "=s.";
  }

  lemma EquationBare(k: string)
    requires Identifier(k)
    ensures ' ' !in "t." + k + "=s." + k && Bare("t." + k + "=s." + k)
  {}

  lemma {:induction false} PiecesInvertJoin(parts: seq<string>)
    requires parts != [] && forall i :: 0 <= i < |parts| ==> ' ' !in parts[i]
    ensures Pieced(Join(parts, " AND "), " AND ") == parts
    decreases |parts|
  {
    if |parts| == 1 {
      if Occurs(parts[0], " AND ") { OccurrenceHasChar(parts[0], " AND ", ' '); }
      IndexAbsent(parts[0], " AND ");
      assert [parts[0]] == parts;
    } else {
      var tail := Join(parts[1..], " AND ");
      var s := parts[0] + " AND " + tail;
      FirstAt(parts[0], " AND ", tail, ' ');
      assert s[..|parts[0]|] == parts[0] && s[|parts[0]| + 5..] == tail;
      PiecesInvertJoin(parts[1..]);
      assert [parts[0]] + parts[1..] == parts;
    }
  }

  lemma OnRead(keys: seq<string>)
    requires Names(keys)
    ensures var list := Join(KeyTexts(keys), " AND ");
            ReadAll(Pieced(list, " AND "), ReadEquation) == Some(EquationsOf(keys)) && Bare(list)
  {
    var texts := KeyTexts(keys);
    forall i | 0 <= i < |texts| ensures ' ' !in texts[i] && Bare(texts[i]) && ReadEquation(texts[i]) == Some(EquationsOf(keys)[i]) {
      assert texts[i] == "t." + keys[i] + "=s." + keys[i];
      EquationBare(keys[i]);
      EquationRead(keys[i]);
    }
    PiecesInvertJoin(texts);
    JoinBare(texts, " AND ");
    AllRead(texts, ReadEquation, EquationsOf(keys));
  }

  // ----- The assignments -----

  lemma SettingRead(a: Assignment, phrase: string)
    requires Identifier(a.column) && PlainUpdate(a.rhs, phrase)
    ensures ReadSetting(AssignmentText(a, "t.", ProposedMerge)) == Some(Setting(a.column, OperandOf(a.rhs)))
  {
    var left, right := "t." + a.column, RhsText(a.rhs, ProposedMerge);
    var s := left + "=" + right;
    assert AssignmentText(a, "t.", ProposedMerge) == s;
    FirstEquals(left, right);
    assert s[..|left|] == left && s[|left| + 1..] == right;
    RefRead("t.", a.column);
    if a.rhs.Proposed? { RefRead("s.", a.rhs.column); }
  }

  lemma RhsBalanced(r: Rhs, phrase: string)
    requires PlainUpdate(r, phrase)
    ensures var text := RhsText(r, ProposedMerge); Unbroken(text, TOP) && (text != [] ==> !IsSpace(text[|text| - 1]))
  {
    var text := RhsText(r, ProposedMerge);
    if r.Proposed? {
      PlainUnbroken(text, "", TOP);
      assert text + "" == text;
    } else if text != [] {
      BalancedEnd(text);
    }
  }

  lemma SettingBalanced(a: Assignment, phrase: string)
    requires Identifier(a.column) && PlainUpdate(a.rhs, phrase)
    ensures Balanced(AssignmentText(a, "t.", ProposedMerge))
  {
    var front, right := "t." + a.column + "=", RhsText(a.rhs, ProposedMerge);
    var s := front + right;
    assert AssignmentText(a, "t.", ProposedMerge) == s;
    RhsBalanced(a.rhs, phrase);
    PlainUnbroken(front, right, TOP);
    assert s[0] == 't' && s[|s| - 1] == (if right == [] then '=' else right[|right| - 1]);
  }

  lemma EitherLacks(left: string, right: string, phrase: string, c: char)
    requires c in phrase && c !in left && '=' !in phrase && !Occurs(right, phrase)
    ensures !Occurs(left + "=" + right, phrase)
  {
    assert left + "=" + right == left + ['='] + right;
    if Occurs(left + ['='] + right, phrase) {
      OccursEither(left, '=', right, phrase);
      OccurrenceHasChar(left, phrase, c);
    }
  }

  lemma SettingLacks(a: Assignment, phrase: string)
    requires Identifier(a.column) && PlainUpdate(a.rhs, phrase) && 'W' in phrase && '=' !in phrase
    ensures !Occurs(AssignmentText(a, "t.", ProposedMerge), phrase)
  {
    var left, right := "t." + a.column, RhsText(a.rhs, ProposedMerge);
    assert AssignmentText(a, "t.", ProposedMerge) == left + "=" + right;
    if Occurs(right, phrase) { OccurrenceHasChar(right, phrase, 'W'); }
    EitherLacks(left, right, phrase, 'W');
  }

  lemma {:induction false} JoinLacks(parts: seq<string>, phrase: string)
    requires ',' !in phrase && phrase != [] && forall i :: 0 <= i < |parts| ==> !Occurs(parts[i], phrase)
    ensures !Occurs(Join(parts, ","), phrase)
    decreases |parts|
  {
    if |parts| > 1 {
      var tail := Join(parts[1..], ",");
      JoinLacks(parts[1..], phrase);
      assert Join(parts, ",") == parts[0] + [','] + tail;
      if Occurs(Join(parts, ","), phrase) { OccursEither(parts[0], ',', tail, phrase); }
    }
  }

  lemma SettingsRead(updates: seq<Assignment>, phrase: string)
    requires PlainUpdates(updates, phrase) && 'W' in phrase && '=' !in phrase && ',' !in phrase
    ensures var list := Join(AssignmentTexts(updates, "t.", ProposedMerge), ",");
            && ReadAll(Split(list, TOP, ""), ReadSetting) == Some(SettingsOf(updates))
            && !Occurs(list, phrase)
  {
    var texts := AssignmentTexts(updates, "t.", ProposedMerge);
    forall i | 0 <= i < |texts|
      ensures Balanced(texts[i]) && !Occurs(texts[i], phrase) && ReadSetting(texts[i]) == Some(SettingsOf(updates)[i])
    {
      assert texts[i] == AssignmentText(updates[i], "t.", ProposedMerge);
      SettingBalanced(updates[i], phrase);
      SettingLacks(updates[i], phrase);
      SettingRead(updates[i], phrase);
    }
    SplitInvertsJoin(texts);
    JoinLacks(texts, phrase);
    AllRead(texts, ReadSetting, SettingsOf(updates));
  }

  // ----- The whole statement -----

  lemma AfterPrefix(prefix: string, rest: string)
    ensures After(prefix + rest, prefix) == Some(rest)
  {
    assert (prefix + rest)[|prefix|..] == rest;
  }

  /** A phrase whose second character is its own does not overlap itself. */
  ghost predicate Distinctive(phrase: string) {
    |phrase| > 2 && phrase[0] != phrase[|phrase| - 1] && forall i :: 2 <= i < |phrase| ==> phrase[i] != phrase[1]
  }

  /** What the reading relies on in the words. */
  ghost predicate Fit(w: Words) {
    && Bare(w.dual) && w.using != "" && !NameCharacter(w.using[0])
    && Distinctive(w.unmatched) && 'W' in w.unmatched && '=' !in w.unmatched && ',' !in w.unmatched
    && |w.matched| > 6 && |w.unmatched| > 6 && w.matched[6] != w.unmatched[6]
  }

  lemma InsertRead(w: Words, columns: seq<string>, refs: seq<string>)
    requires Names(columns) && Names(refs)
    ensures ReadInsert(w, InsertPart(w, columns, refs)) == Some((columns, SourcesOf(refs)))
  {
    var list, values := Join(columns, ","), Join(Each(refs, "s.", ""), ",");
    ColumnsRead(columns);
    RefsRead(refs);
    BareScanned(list);
    BareScanned(values);
    GroupRead(list, w.values + (values + ")" + ""));
    AfterPrefix(w.values, values + ")" + "");
    GroupRead(values, "");
  }

  lemma NoOverlap(list: string, phrase: string, insert: string, q: nat)
    requires Distinctive(phrase) && !Occurs(list, phrase) && q < |list|
    ensures !OccursHere(list + (phrase + insert), phrase, q)
  {
    var s := list + (phrase + insert);
    if OccursHere(s, phrase, q) {
      if q + |phrase| <= |list| {
        assert list[q..q + |phrase|] == s[q..q + |phrase|];
        HereOccurs(list, phrase, q);
      } else {
        var m := |list| - q;
        assert s[|list|] == phrase[0] && s[|list| + 1] == phrase[1];
        HereCharacter(s, phrase, q, m);
        if m + 1 < |phrase| { HereCharacter(s, phrase, q, m + 1); }
      }
    }
  }

  lemma PhraseFound(list: string, phrase: string, insert: string)
    requires Distinctive(phrase) && !Occurs(list, phrase)
    ensures var s := list + (phrase + insert);
            Index(s, phrase) == Some(|list|) && s[..|list|] == list && s[|list| + |phrase|..] == insert
  {
    var s := list + (phrase + insert);
    forall q: nat | q < |list| ensures !OccursHere(s, phrase, q) { NoOverlap(list, phrase, insert, q); }
    assert s[|list|..|list| + |phrase|] == phrase;
    IndexFirst(s, phrase, |list|);
  }

  lemma UpdatesRead(w: Words, updates: seq<Assignment>, insert: string)
    requires Fit(w) && PlainUpdates(updates, w.unmatched)
    ensures ReadUpdates(w, w.matched + Join(AssignmentTexts(updates, "t.", ProposedMerge), ",") + (w.unmatched + insert)) ==
            Some(Part(Some(SettingsOf(updates)), insert))
  {
    var list := Join(AssignmentTexts(updates, "t.", ProposedMerge), ",");
    SettingsRead(updates, w.unmatched);
    Associate(w.matched, list, w.unmatched + insert);
    AfterPrefix(w.matched, list + (w.unmatched + insert));
    PhraseFound(list, w.unmatched, insert);
  }

  lemma NoUpdatesRead(w: Words, insert: string)
    requires Fit(w)
    ensures ReadUpdates(w, w.unmatched + insert) == Some(Part(None, insert))
  {
    AfterPrefix(w.unmatched, insert);
    assert !(w.matched <= w.unmatched + insert);
  }

  lemma OnPart(keys: seq<string>, tail: string)
    requires Names(keys)
    ensures ReadOn(Join(KeyTexts(keys), " AND ") + ")" + tail) == Some(Part(EquationsOf(keys), tail))
  {
    OnRead(keys);
    BareScanned(Join(KeyTexts(keys), " AND "));
    GroupRead(Join(KeyTexts(keys), " AND "), tail);
  }

  lemma DualEnds(list: string, dual: string, rest: string)
    ensures var s := list + dual + ")" + rest;
            && s[..|list + dual| - |dual|] == list && s[|list + dual| - |dual|..|list + dual|] == dual
  {}

  lemma SourcePart(w: Words, source: seq<Selected>, rest: string)
    requires PlainSource(source) && Fit(w)
    ensures ReadSource(w, Join(SourceTexts(source), ",") + w.dual + ")" + (w.on + rest)) == Some(Part(source, rest))
  {
    var list := Join(SourceTexts(source), ",");
    SourceRead(source);
    BareScanned(w.dual);
    ScannedConcat(list, w.dual, TOP);
    GroupRead(list + w.dual, w.on + rest);
    AfterPrefix(w.on, rest);
    DualEnds(list, w.dual, w.on + rest);
  }

  lemma {:induction false} NameRead(name: string, rest: string)
    requires (forall i :: 0 <= i < |name| ==> NameCharacter(name[i])) && (rest == "" || !NameCharacter(rest[0]))
    ensures NameLength(name + rest) == |name|
    decreases |name|
  {
    if name == "" {
      assert name + rest == rest;
    } else {
      assert (name + rest)[1..] == name[1..] + rest;
      NameRead(name[1..], rest);
    }
  }

  lemma TablePart(w: Words, table: string, select: string)
    requires Identifier(table) && Fit(w)
    ensures ReadTable(w, w.merge + (table + (w.using + select))) == Some(Part(table, select))
  {
    var rest := w.using + select;
    AfterPrefix(w.merge, table + rest);
    NameRead(table, rest);
    assert (table + rest)[..|table|] == table && (table + rest)[|table|..] == rest;
    AfterPrefix(w.using, select);
  }

  ghost function InsertPart(w: Words, columns: seq<string>, refs: seq<string>): string {
    Join(columns, ",") + ")" + (w.values + (Join(Each(refs, "s.", ""), ",") + ")" + ""))
  }

  ghost function ClausesPart(w: Words, m: Merge): string {
    var insert := w.unmatched + InsertPart(w, m.columns, m.refs);
    if m.updates.Some? then w.matched + Join(AssignmentTexts(m.updates.value, "t.", ProposedMerge), ",") + insert else insert
  }

  ghost function SelectPart(w: Words, m: Merge): string {
    Join(SourceTexts(m.source), ",") + w.dual + ")" + (w.on + (Join(KeyTexts(m.keys), " AND ") + ")" + ClausesPart(w, m)))
  }

  lemma ClausesRead(w: Words, m: Merge)
    requires Fit(w) && (m.updates.Some? ==> PlainUpdates(m.updates.value, w.unmatched))
    ensures ReadUpdates(w, ClausesPart(w, m)) == Some(Part(ReadingOf(m).settings, InsertPart(w, m.columns, m.refs)))
  {
    var insert := InsertPart(w, m.columns, m.refs);
    if m.updates.Some? { UpdatesRead(w, m.updates.value, insert); } else { NoUpdatesRead(w, insert); }
  }

  lemma StatementRead(w: Words, m: Merge)
    requires Fit(w) && Identifier(m.table) && PlainSource(m.source) && Names(m.keys) && Names(m.columns) && Names(m.refs)
    requires m.updates.Some? ==> PlainUpdates(m.updates.value, w.unmatched)
    ensures ReadStatement(w, w.merge + (m.table + (w.using + SelectPart(w, m)))) == Some(ReadingOf(m))
  {
    TablePart(w, m.table, SelectPart(w, m));
    SourcePart(w, m.source, Join(KeyTexts(m.keys), " AND ") + ")" + ClausesPart(w, m));
    OnPart(m.keys, ClausesPart(w, m));
    ClausesRead(w, m);
    InsertRead(w, m.columns, m.refs);
  }

  // ----- The words of Oracle -----

  lemma OwnSecond(phrase: string, start: string, tail: string)
    requires phrase == start + tail && |start| == 2 && tail != [] && start[1] !in tail && tail[|tail| - 1] != start[0]
    ensures Distinctive(phrase)
  {
    forall i | 2 <= i < |phrase| ensures phrase[i] != phrase[1] { assert phrase[i] == tail[i - 2]; }
  }

  const TAIL := "HEN NOT MATCHED THEN INSERT ("

  lemma TailLetters()
    ensures 'W' !in TAIL && '=' !in TAIL && ',' !in TAIL
  {}

  lemma UnmatchedText()
    ensures UNMATCHED == " W" + TAIL
  {}

  lemma UnmatchedFits()
    ensures Distinctive(UNMATCHED) && 'W' in UNMATCHED && '=' !in UNMATCHED && ',' !in UNMATCHED
  {
    TailLetters();
    UnmatchedText();
    OwnSecond(UNMATCHED, " W", TAIL);
    assert UNMATCHED[1] == 'W';
  }

  lemma ShortWordsFit()
    ensures Bare(DUAL) && USING != "" && !NameCharacter(USING[0])
  {}

  lemma LongWordsDiffer()
    ensures |MATCHED| > 6 && |UNMATCHED| > 6 && MATCHED[6] != UNMATCHED[6]
  {}

  lemma OracleFits()
    ensures Fit(ORACLE)
  {
    UnmatchedFits();
    ShortWordsFit();
    LongWordsDiffer();
  }

  lemma HeadText(table: string, list: string, on: string, tail: string)
    ensures (MERGE + table + USING + list + " FROM dual) s ON (" + on + ")") + tail ==
            MERGE + (table + (USING + (list + DUAL + ")" + (ON + (on + ")" + tail)))))
  {
    assert " FROM dual) s ON (" == DUAL + ")" + ON;
  }

  lemma InsertClause(columns: string, refs: string)
    ensures UNMATCHED + columns + ") VALUES (" + refs + ")" == UNMATCHED + (columns + ")" + (REFERENCES + (refs + ")" + "")))
  {
    assert ") VALUES (" == ")" + REFERENCES;
    assert refs + ")" + "" == refs + ")";
  }

  lemma ClausesText(m: Merge)
    ensures (if m.updates.Some? then MatchedText(AssignmentTexts(m.updates.value, "t.", ProposedMerge)) else "")
            + InsertText(m.columns, Each(m.refs, "s.", "")) == ClausesPart(ORACLE, m)
  {
    var insert := UNMATCHED + InsertPart(ORACLE, m.columns, m.refs);
    InsertClause(Join(m.columns, ","), Join(Each(m.refs, "s.", ""), ","));
    assert "" + insert == insert;
  }

  lemma Associate(a: string, b: string, c: string)
    ensures a + b + c == a + (b + c)
  {}

  lemma StatementText(m: Merge)
    ensures MergeText(m) == ORACLE.merge + (m.table + (ORACLE.using + SelectPart(ORACLE, m)))
  {
    var head := MergeHead(m.table, SourceTexts(m.source), m.keys);
    ClausesText(m);
    Associate(head, if m.updates.Some? then MatchedText(AssignmentTexts(m.updates.value, "t.", ProposedMerge)) else "",
              InsertText(m.columns, Each(m.refs, "s.", "")));
    HeadText(m.table, Join(SourceTexts(m.source), ","), Join(KeyTexts(m.keys), " AND "), ClausesPart(ORACLE, m));
  }

  /** The statement written for a merge is read as what it stands for. */
  lemma ReadsBack(m: Merge)
    requires Readable(m)
    ensures ReadMerge(MergeText(m)) == Some(ReadingOf(m))
  {
    StatementText(m);
    OracleFits();
    StatementRead(ORACLE, m);
  }
}
