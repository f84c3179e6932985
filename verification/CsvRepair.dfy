/** Line repair of a CSV file (ckan-ingestor-rs/ckan-ingestor-lib/src/jev_csv_sniffer.rs), on decoded text. */
module CsvRepair {
  import opened Common

  // ----- Fields of one line -----

  /** Splits the rest of a line; `field` is what the current field holds so far. */
  function Parse(line: string, quoted: bool, field: string, d: char, q: char): Option<seq<string>>
    decreases |line|
  {
    if line == [] then if quoted then None else Some([field])
    else if line[0] == q then
      if quoted && |line| > 1 && line[1] == q then Parse(line[2..], quoted, field + [q], d, q)
      else Parse(line[1..], !quoted, field, d, q)
    else if line[0] == d && !quoted then Prepend([field], Parse(line[1..], false, "", d, q))
    else Parse(line[1..], quoted, field + [line[0]], d, q)
  }

  function Prepend(fields: seq<string>, rest: Option<seq<string>>): Option<seq<string>> {
    if rest.Some? then Some(fields + rest.value) else None
  }

  lemma PrependTwice(a: seq<string>, b: seq<string>, rest: Option<seq<string>>)
    ensures Prepend(a, Prepend(b, rest)) == Prepend(a + b, rest) && Prepend([], rest) == rest
  {
    if rest.Some? { assert a + (b + rest.value) == a + b + rest.value && [] + rest.value == rest.value; }
  }

  function Fields(line: string, d: char, q: char): Option<seq<string>> { Parse(line, false, "", d, q) }

  method ParseCsvFields(line: string, d: char, q: char) returns (r: Option<seq<string>>)
    ensures r == Fields(line, d, q)
  {
    var fields: seq<string> := [];
    var field := "";
    var quoted := false;
    var i := 0;
    assert line[0..] == line;
    PrependTwice([], [], Fields(line, d, q));
    while i < |line|
      invariant 0 <= i <= |line|
      invariant Prepend(fields, Parse(line[i..], quoted, field, d, q)) == Fields(line, d, q)
    {
      var rest := line[i..];
      assert rest[1..] == line[i + 1..];
      var c := line[i];
      i := i + 1;
      if c == q {
        if quoted && i < |line| && line[i] == q {
          assert rest[2..] == line[i + 1..];
          field := field + [q];
          i := i + 1;
        } else {
          quoted := !quoted;
        }
      } else if c == d && !quoted {
        PrependTwice(fields, [field], Parse(line[i..], false, "", d, q));
        fields := fields + [field];
        field := "";
      } else {
        field := field + [c];
      }
    }
    if quoted {
      return None;
    }
    return Some(fields + [field]);
  }

  function Doubled(s: string, q: char): string {
    if s == [] then [] else (if s[0] == q then [q, q] else [s[0]]) + Doubled(s[1..], q)
  }

  predicate NeedsQuotes(s: string, d: char, q: char) { d in s || q in s || '\r' in s || '\n' in s }

  function Escaped(s: string, d: char, q: char): string {
    if NeedsQuotes(s, d, q) then [q] + Doubled(s, q) + [q] else s
  }

  function Join(parts: seq<string>, separator: string): string {
    if parts == [] then [] else if |parts| == 1 then parts[0] else parts[0] + separator + Join(parts[1..], separator)
  }

  function EscapedLine(fields: seq<string>, d: char, q: char): string {
    Join(seq(|fields|, i requires 0 <= i < |fields| => Escaped(fields[i], d, q)), [d])
  }

  lemma {:induction false} PlainRead(s: string, rest: string, field: string, d: char, q: char)
    requires d !in s && q !in s
    ensures Parse(s + rest, false, field, d, q) == Parse(rest, false, field + s, d, q)
    decreases |s|
  {
    if s == [] {
      assert s + rest == rest && field + s == field;
    } else {
      assert (s + rest)[1..] == s[1..] + rest;
      assert field + [s[0]] + s[1..] == field + s;
      PlainRead(s[1..], rest, field + [s[0]], d, q);
    }
  }

  /** Doubled quotes are read back until the closing quote, which something else than a quote follows. */
  lemma {:induction false} QuotedRead(s: string, rest: string, field: string, d: char, q: char)
    requires rest == [] || rest[0] != q
    ensures Parse(Doubled(s, q) + [q] + rest, true, field, d, q) == Parse(rest, false, field + s, d, q)
    decreases |s|
  {
    var text := Doubled(s, q) + [q] + rest;
    if s == [] {
      assert text == [q] + rest && text[1..] == rest && field + s == field;
    } else {
      var tail := Doubled(s[1..], q) + [q] + rest;
      assert text == (if s[0] == q then [q, q] else [s[0]]) + tail;
      assert if s[0] == q then text[2..] == tail else text[1..] == tail;
      assert field + [s[0]] + s[1..] == field + s;
      QuotedRead(s[1..], rest, field + [s[0]], d, q);
    }
  }

  lemma {:induction false} DoubledLength(s: string, q: char)
    ensures |Doubled(s, q)| == |s| + multiset(s)[q]
    ensures q !in s ==> Doubled(s, q) == s
  {
    if s != [] {
      DoubledLength(s[1..], q);
      assert s == [s[0]] + s[1..];
    }
  }

  /** A field is written as it is unless it holds a delimiter, a quote or a line break; then it is put in quotes, and only
      quotes are doubled. */
  lemma EscapedExact(s: string, d: char, q: char)
    ensures d !in s && q !in s && '\r' !in s && '\n' !in s ==> Escaped(s, d, q) == s
    ensures d in s || q in s || '\r' in s || '\n' in s ==> |Escaped(s, d, q)| == |s| + 2 + multiset(s)[q]
  {
    DoubledLength(s, q);
  }

  lemma OpenQuote(text: string, body: string, d: char, q: char)
    requires text == [q] + body
    ensures Parse(text, false, "", d, q) == Parse(body, true, "", d, q)
  {
    assert text[1..] == body;
  }

  lemma InQuotesRead(text: string, s: string, rest: string, d: char, q: char)
    requires (rest == [] || rest[0] != q) && text == [q] + Doubled(s, q) + [q] + rest
    ensures Parse(text, false, "", d, q) == Parse(rest, false, s, d, q)
  {
    var body := Doubled(s, q) + [q] + rest;
    assert text == [q] + body;
    OpenQuote(text, body, d, q);
    assert "" + s == s;
    QuotedRead(s, rest, "", d, q);
  }

  lemma EscapedRead(s: string, rest: string, d: char, q: char)
    requires d != q && (rest == [] || rest[0] == d)
    ensures Parse(Escaped(s, d, q) + rest, false, "", d, q) == Parse(rest, false, s, d, q)
  {
    var text := Escaped(s, d, q) + rest;
    if NeedsQuotes(s, d, q) {
      InQuotesRead(text, s, rest, d, q);
    } else {
      PlainRead(s, rest, "", d, q);
      assert "" + s == s;
    }
  }

  /** Round trip: joining escaped fields and parsing the line gives the fields back. */
  lemma {:induction false} FieldsRoundTrip(fields: seq<string>, d: char, q: char)
    requires d != q && fields != []
    ensures Fields(EscapedLine(fields, d, q), d, q) == Some(fields)
    decreases |fields|
  {
    var parts := seq(|fields|, i requires 0 <= i < |fields| => Escaped(fields[i], d, q));
    if |fields| == 1 {
      assert EscapedLine(fields, d, q) == Escaped(fields[0], d, q) + [];
      EscapedRead(fields[0], [], d, q);
      assert Escaped(fields[0], d, q) + [] == Escaped(fields[0], d, q) && [fields[0]] == fields;
    } else {
      var tail := fields[1..];
      assert parts[1..] == seq(|tail|, i requires 0 <= i < |tail| => Escaped(tail[i], d, q));
      var rest := [d] + EscapedLine(tail, d, q);
      assert EscapedLine(fields, d, q) == Escaped(fields[0], d, q) + rest;
      EscapedRead(fields[0], rest, d, q);
      assert rest[1..] == EscapedLine(tail, d, q);
      FieldsRoundTrip(tail, d, q);
      assert [fields[0]] + tail == fields;
    }
  }

  /** A delimiter that is also the quote cannot be read back. */
  lemma SameDelimiterAndQuote(q: char)
    ensures Fields(EscapedLine(["", ""], q, q), q, q) == None
  {
    var parts := seq(2, i requires 0 <= i < 2 => Escaped(["", ""][i], q, q));
    assert parts == ["", ""] && parts[1..] == [""];
    assert EscapedLine(["", ""], q, q) == Join(parts, [q]) == [q];
    assert [q][1..] == [] && Parse([], true, "", q, q) == None;
  }

  // ----- What the parser does with any line -----

  /** The text without its quotes. */
  function Unquoted(s: string, q: char): string {
    if s == [] then [] else (if s[0] == q then [] else [s[0]]) + Unquoted(s[1..], q)
  }

  /** Whether an odd number of quotes has been passed. */
  function Inside(s: string, quoted: bool, q: char): bool
    decreases |s|
  {
    if s == [] then quoted else Inside(s[1..], if s[0] == q then !quoted else quoted, q)
  }

  /** Delimiters that are not between quotes. */
  function Separators(s: string, quoted: bool, d: char, q: char): nat
    decreases |s|
  {
    if s == [] then 0
    else (if s[0] == d && !quoted then 1 else 0) + Separators(s[1..], if s[0] == q then !quoted else quoted, d, q)
  }

  lemma {:induction false} UnquotedConcat(a: string, b: string, q: char)
    ensures Unquoted(a + b, q) == Unquoted(a, q) + Unquoted(b, q)
    decreases |a|
  {
    if a == [] {
      assert a + b == b;
    } else {
      assert (a + b)[1..] == a[1..] + b;
      UnquotedConcat(a[1..], b, q);
    }
  }

  lemma UnquotedNext(field: string, c: char, q: char)
    ensures Unquoted(field + [c], q) == if c == q then Unquoted(field, q) else Unquoted(field, q) + [c]
  {
    UnquotedConcat(field, [c], q);
    assert [c][1..] == [];
  }

  lemma JoinNext(field: string, rest: seq<string>, d: char, q: char)
    requires rest != [] && d != q
    ensures Unquoted(Join([field] + rest, [d]), q) == Unquoted(field, q) + ([d] + Unquoted(Join(rest, [d]), q))
  {
    var all := [field] + rest;
    assert all[1..] == rest && Join(all, [d]) == field + ([d] + Join(rest, [d]));
    UnquotedConcat(field, [d] + Join(rest, [d]), q);
    assert ([d] + Join(rest, [d]))[1..] == Join(rest, [d]);
  }

  /** From any point of a line. */
  ghost predicate ParsedAs(r: Option<seq<string>>, line: string, quoted: bool, field: string, d: char, q: char) {
    && (r.None? <==> Inside(line, quoted, q))
    && (r.Some? ==> |r.value| == 1 + Separators(line, quoted, d, q)
                    && Unquoted(Join(r.value, [d]), q) == Unquoted(field, q) + Unquoted(line, q))
  }

  lemma PairMeans(r: Option<seq<string>>, line: string, field: string, d: char, q: char)
    requires |line| > 1 && line[0] == line[1] == q && d != q && ParsedAs(r, line[2..], true, field + [q], d, q)
    ensures ParsedAs(r, line, true, field, d, q)
  {
    var rest := line[1..];
    assert rest[0] == q && rest[1..] == line[2..];
    UnquotedNext(field, q, q);
    assert Inside(line, true, q) == Inside(rest, false, q) == Inside(line[2..], true, q);
    assert Separators(line, true, d, q) == Separators(rest, false, d, q) == Separators(line[2..], true, d, q);
    assert Unquoted(line, q) == Unquoted(rest, q) == Unquoted(line[2..], q);
  }

  lemma ToggleMeans(r: Option<seq<string>>, line: string, quoted: bool, field: string, d: char, q: char)
    requires line != [] && line[0] == q && d != q && ParsedAs(r, line[1..], !quoted, field, d, q)
    ensures ParsedAs(r, line, quoted, field, d, q)
  {
    assert Unquoted(line, q) == Unquoted(line[1..], q);
  }

  lemma CutMeans(rest: Option<seq<string>>, line: string, field: string, d: char, q: char)
    requires line != [] && line[0] == d && d != q && ParsedAs(rest, line[1..], false, "", d, q)
    ensures ParsedAs(Prepend([field], rest), line, false, field, d, q)
  {
    if rest.Some? {
      JoinNext(field, rest.value, d, q);
      assert Unquoted("", q) + Unquoted(line[1..], q) == Unquoted(line[1..], q);
      assert Unquoted(line, q) == [d] + Unquoted(line[1..], q);
    }
  }

  lemma CharacterMeans(r: Option<seq<string>>, line: string, quoted: bool, field: string, d: char, q: char)
    requires line != [] && line[0] != q && (line[0] == d ==> quoted) && ParsedAs(r, line[1..], quoted, field + [line[0]], d, q)
    ensures ParsedAs(r, line, quoted, field, d, q)
  {
    UnquotedNext(field, line[0], q);
    assert Unquoted(line, q) == [line[0]] + Unquoted(line[1..], q);
    assert Unquoted(field, q) + [line[0]] + Unquoted(line[1..], q) == Unquoted(field, q) + ([line[0]] + Unquoted(line[1..], q));
  }

  lemma {:induction false} ParseMeans(line: string, quoted: bool, field: string, d: char, q: char)
    requires d != q
    ensures ParsedAs(Parse(line, quoted, field, d, q), line, quoted, field, d, q)
    decreases |line|
  {
    if line == [] {
      EndMeans(quoted, field, d, q);
    } else if line[0] == q {
      if quoted && |line| > 1 && line[1] == q {
        ParseMeans(line[2..], quoted, field + [q], d, q);
        PairMeans(Parse(line[2..], quoted, field + [q], d, q), line, field, d, q);
      } else {
        ParseMeans(line[1..], !quoted, field, d, q);
        ToggleMeans(Parse(line[1..], !quoted, field, d, q), line, quoted, field, d, q);
      }
    } else if line[0] == d && !quoted {
      ParseMeans(line[1..], false, "", d, q);
      CutMeans(Parse(line[1..], false, "", d, q), line, field, d, q);
    } else {
      ParseMeans(line[1..], quoted, field + [line[0]], d, q);
      CharacterMeans(Parse(line[1..], quoted, field + [line[0]], d, q), line, quoted, field, d, q);
    }
  }

  lemma EndMeans(quoted: bool, field: string, d: char, q: char)
    ensures ParsedAs(if quoted then None else Some([field]), [], quoted, field, d, q)
  {
    assert Unquoted(field, q) + Unquoted([], q) == Unquoted(field, q);
  }

  /** A line is refused exactly when its quotes are odd in number; otherwise it is cut at each delimiter outside quotes, and
      no character but quotes is lost. */
  lemma FieldsExact(line: string, d: char, q: char)
    requires d != q
    ensures Fields(line, d, q).None? <==> Inside(line, false, q)
    ensures Fields(line, d, q).Some? ==>
              && |Fields(line, d, q).value| == 1 + Separators(line, false, d, q)
              && Unquoted(Join(Fields(line, d, q).value, [d]), q) == Unquoted(line, q)
  {
    ParseMeans(line, false, "", d, q);
    assert Unquoted("", q) + Unquoted(line, q) == Unquoted(line, q);
  }

  // ----- Merging two neighbours -----

  function Merged(fields: seq<string>, left: nat, d: char): seq<string>
    requires left + 1 < |fields|
  {
    fields[..left] + [fields[left] + [d] + fields[left + 1]] + fields[left + 2..]
  }

  lemma {:induction false} JoinPrefix(a: seq<string>, b: seq<string>, separator: string)
    requires a != [] && b != []
    ensures Join(a + b, separator) == Join(a, separator) + separator + Join(b, separator)
    decreases |a|
  {
    assert (a + b)[0] == a[0] && (a + b)[1..] == a[1..] + b;
    if |a| > 1 { JoinPrefix(a[1..], b, separator); }
  }

  lemma JoinPair(x: string, y: string, rest: seq<string>, separator: string)
    ensures Join([x, y] + rest, separator) == Join([x + separator + y] + rest, separator)
  {
    var tail := [y] + rest;
    assert [x, y] + rest == [x] + tail && ([x] + tail)[1..] == tail && tail[1..] == rest;
    var one := [x + separator + y] + rest;
    assert one[1..] == rest;
    if rest != [] {
      assert Join(tail, separator) == y + separator + Join(rest, separator);
      assert x + separator + (y + separator + Join(rest, separator)) == (x + separator + y) + separator + Join(rest, separator);
    }
  }

  /** One field less, and the same text when the fields are joined by the bare delimiter. */
  lemma MergeKeepsText(fields: seq<string>, left: nat, d: char)
    requires left + 1 < |fields|
    ensures |Merged(fields, left, d)| == |fields| - 1
    ensures Join(Merged(fields, left, d), [d]) == Join(fields, [d])
  {
    var rest := fields[left + 2..];
    var pair, one := [fields[left], fields[left + 1]] + rest, [fields[left] + [d] + fields[left + 1]] + rest;
    JoinPair(fields[left], fields[left + 1], rest, [d]);
    assert fields == fields[..left] + pair && Merged(fields, left, d) == fields[..left] + one;
    if left > 0 {
      JoinPrefix(fields[..left], pair, [d]);
      JoinPrefix(fields[..left], one, [d]);
    } else {
      assert fields[..left] + pair == pair && fields[..left] + one == one;
    }
  }

  /** The two neighbours are one field, with the delimiter between their texts; the others keep their order. */
  ghost predicate Merges(before: seq<string>, after: seq<string>, left: nat, d: char) {
    && left + 1 < |before| && |after| == |before| - 1
    && (forall i :: 0 <= i < left ==> after[i] == before[i])
    && after[left] == before[left] + [d] + before[left + 1]
    && (forall i :: left < i < |after| ==> after[i] == before[i + 1])
  }

  /** `merge_l_r` with one-based neighbours. */
  function MergeChoice(l: nat, r: nat): Option<nat> {
    if r == l + 1 && l > 0 then Some(l - 1) else None
  }

  predicate Physical(line: string) { '\r' !in line && '\n' !in line }

  ghost predicate Repairable(lines: seq<string>, k: nat, left: nat, d: char, q: char) {
    && k < |lines| && Physical(lines[k]) && Fields(lines[k], d, q).Some?
    && left + 1 < |Fields(lines[k], d, q).value|
  }

  /** `repair_line`: line numbers start at 1, and 0 means the first line too. */
  method RepairLine(lines: seq<string>, lineNumber: nat, left: nat, d: char, q: char) returns (r: Option<seq<string>>)
    ensures var k := if lineNumber == 0 then 0 else lineNumber - 1;
            && (r.Some? <==> Repairable(lines, k, left, d, q))
            && (r.Some? ==> r.value == lines[k := EscapedLine(Merged(Fields(lines[k], d, q).value, left, d), d, q)])
  {
    var k := if lineNumber == 0 then 0 else lineNumber - 1;
    if k >= |lines| {
      return None;
    }
    if !Physical(lines[k]) {
      return None;
    }
    var parsed := ParseCsvFields(lines[k], d, q);
    if parsed.None? || left + 1 >= |parsed.value| {
      return None;
    }
    var fields := Merged(parsed.value, left, d);
    return Some(lines[k := EscapedLine(fields, d, q)]);
  }

  /** The answer of Jev names the two fields by their places, counted from 1; only neighbours can be merged. */
  method ApplyChoice(lines: seq<string>, lineNumber: nat, l: nat, r: nat, d: char, q: char) returns (repaired: Option<seq<string>>)
    ensures var k := if lineNumber == 0 then 0 else lineNumber - 1;
            && (repaired.Some? <==> 0 < l && r == l + 1 && Repairable(lines, k, l - 1, d, q))
            && (repaired.Some? ==> repaired.value == lines[k := EscapedLine(Merged(Fields(lines[k], d, q).value, l - 1, d), d, q)])
  {
    var choice := MergeChoice(l, r);
    if choice.None? {
      return None;
    }
    repaired := RepairLine(lines, lineNumber, choice.value, d, q);
  }

  /** What a repair achieves: the chosen line parses to its old fields with the two neighbours merged, one
      field fewer and with the same text; no other line changes. */
  lemma RepairMeaning(lines: seq<string>, k: nat, left: nat, d: char, q: char)
    requires d != q && Repairable(lines, k, left, d, q)
    ensures var before := Fields(lines[k], d, q).value;
            var repaired := lines[k := EscapedLine(Merged(before, left, d), d, q)];
            && Fields(repaired[k], d, q) == Some(Merged(before, left, d))
            && |Merged(before, left, d)| == |before| - 1
            && Merges(before, Fields(repaired[k], d, q).value, left, d)
            && Join(Merged(before, left, d), [d]) == Join(before, [d])
            && |repaired| == |lines| && forall i :: 0 <= i < |lines| && i != k ==> repaired[i] == lines[i]
  {
    var before := Fields(lines[k], d, q).value;
    MergeKeepsText(before, left, d);
    FieldsRoundTrip(Merged(before, left, d), d, q);
  }

  // ----- The written file -----

  function NewlineAt(text: string): nat
    requires '\n' in text
    ensures NewlineAt(text) < |text| && text[NewlineAt(text)] == '\n'
    ensures forall i :: 0 <= i < NewlineAt(text) ==> text[i] != '\n'
  {
    if text[0] == '\n' then 0 else
      assert '\n' in text[1..];
      1 + NewlineAt(text[1..])
  }

  predicate EndsWithReturn(line: string) { line != [] && line[|line| - 1] == '\r' }

  /** `str::lines`: a return before a newline belongs to the line ending, a final newline ends nothing. */
  function Lines(text: string): seq<string>
    decreases |text|
  {
    if text == [] then []
    else if '\n' !in text then [text]
    else
      var k := NewlineAt(text);
      var line := text[..k];
      [if EndsWithReturn(line) then line[..k - 1] else line] + Lines(text[k + 1..])
  }

  ghost predicate Readable(lines: seq<string>) {
    lines != [] ==> lines[|lines| - 1] != [] && forall i :: 0 <= i < |lines| - 1 ==> !EndsWithReturn(lines[i])
  }

  /** Writing lines and reading them back changes nothing exactly when the last line is not empty and no
      earlier line ends in a carriage return. */
  lemma {:induction false} WriteThenRead(lines: seq<string>)
    requires forall i :: 0 <= i < |lines| ==> '\n' !in lines[i]
    ensures Lines(Join(lines, "\n")) == lines <==> Readable(lines)
    decreases |lines|
  {
    if |lines| > 1 {
      var rest := Join(lines[1..], "\n");
      assert Join(lines, "\n") == lines[0] + "\n" + rest;
      FirstLine(lines[0], rest);
      WriteThenRead(lines[1..]);
      var first := if EndsWithReturn(lines[0]) then lines[0][..|lines[0]| - 1] else lines[0];
      ReadableStep(lines);
    }
  }

  /** A carriage return at the end of a line, or an empty last line, is lost. */
  lemma LostLines()
    ensures Lines(Join(["a\r", "b"], "\n")) != ["a\r", "b"] && Lines(Join(["a", ""], "\n")) != ["a", ""]
  {
    WriteThenRead(["a\r", "b"]);
    WriteThenRead(["a", ""]);
    assert EndsWithReturn(["a\r", "b"][0]);
  }

  lemma FirstLine(line: string, rest: string)
    requires '\n' !in line
    ensures Lines(line + "\n" + rest) == [if EndsWithReturn(line) then line[..|line| - 1] else line] + Lines(rest)
  {
    var text := line + "\n" + rest;
    assert text[|line|] == '\n';
    forall i | 0 <= i < |line| ensures text[i] != '\n' {
      assert line[i] in line;
    }
    assert NewlineAt(text) == |line|;
    assert text[..|line|] == line && text[|line| + 1..] == rest;
  }

  lemma ReadableStep(lines: seq<string>)
    requires |lines| > 1
    ensures Readable(lines) <==> !EndsWithReturn(lines[0]) && Readable(lines[1..])
  {
    var tail := lines[1..];
    assert forall i :: 0 <= i < |tail| ==> tail[i] == lines[i + 1];
    if !EndsWithReturn(lines[0]) && Readable(tail) {
      forall i | 0 <= i < |lines| - 1 ensures !EndsWithReturn(lines[i]) {
        if i > 0 { assert !EndsWithReturn(tail[i - 1]); }
      }
    }
  }

  lemma {:induction false} DoubledChars(s: string, q: char, x: char)
    requires x != q
    ensures x in Doubled(s, q) <==> x in s
  {
    if s != [] {
      assert s == [s[0]] + s[1..];
      DoubledChars(s[1..], q, x);
    }
  }

  lemma {:induction false} JoinChars(parts: seq<string>, d: char, x: char)
    requires x != d && forall i :: 0 <= i < |parts| ==> x !in parts[i]
    ensures x !in Join(parts, [d])
  {
    if |parts| > 1 { JoinChars(parts[1..], d, x); }
  }

  lemma {:induction false} ParsedChars(line: string, quoted: bool, field: string, d: char, q: char, x: char)
    requires x !in line && x !in field && Parse(line, quoted, field, d, q).Some?
    ensures forall i :: 0 <= i < |Parse(line, quoted, field, d, q).value| ==> x !in Parse(line, quoted, field, d, q).value[i]
    decreases |line|
  {
    if line != [] {
      assert line[0] in line;
      if line[0] == q {
        if quoted && |line| > 1 && line[1] == q {
          ParsedChars(line[2..], quoted, field + [q], d, q, x);
        } else {
          ParsedChars(line[1..], !quoted, field, d, q, x);
        }
      } else if line[0] == d && !quoted {
        ParsedChars(line[1..], false, "", d, q, x);
      } else {
        ParsedChars(line[1..], quoted, field + [line[0]], d, q, x);
      }
    }
  }

  /** A repaired line stays one physical line, and is never empty. */
  lemma RepairedLineIsPhysical(line: string, left: nat, d: char, q: char)
    requires Physical(line) && Fields(line, d, q).Some? && left + 1 < |Fields(line, d, q).value|
    requires Physical([d, q])
    ensures var repaired := EscapedLine(Merged(Fields(line, d, q).value, left, d), d, q);
            Physical(repaired) && repaired != []
  {
    var fields := Merged(Fields(line, d, q).value, left, d);
    assert d in [d, q] && q in [d, q];
    forall x | x == '\r' || x == '\n' ensures x !in EscapedLine(fields, d, q) {
      ParsedChars(line, false, "", d, q, x);
      var parts := seq(|fields|, i requires 0 <= i < |fields| => Escaped(fields[i], d, q));
      forall i | 0 <= i < |parts| ensures x !in parts[i] {
        assert x !in fields[i];
        DoubledChars(fields[i], q, x);
      }
      JoinChars(parts, d, x);
    }
    var merged := fields[left];
    assert merged[|Fields(line, d, q).value[left]|] == d;
    assert d in merged;
  }

  /** Reading the repaired file back gives the repaired lines whenever the file could be rewritten at all. */
  lemma RepairedFileReadsBack(lines: seq<string>, k: nat, left: nat, d: char, q: char)
    requires Physical([d, q]) && Repairable(lines, k, left, d, q)
    requires forall i :: 0 <= i < |lines| ==> '\n' !in lines[i]
    requires Readable(lines)
    ensures var repaired := lines[k := EscapedLine(Merged(Fields(lines[k], d, q).value, left, d), d, q)];
            Lines(Join(repaired, "\n")) == repaired
  {
    RepairedLineIsPhysical(lines[k], left, d, q);
    WriteThenRead(lines[k := EscapedLine(Merged(Fields(lines[k], d, q).value, left, d), d, q)]);
  }
}
